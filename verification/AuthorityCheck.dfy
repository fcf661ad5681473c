/** Deciding whether signatures, delays and permissions satisfy an authority: what the checker
    computes, with its cache and its used-key marks, and what it means. */
module AuthorityCheck {
  import opened Options

  datatype Perm = Perm(actor: nat, name: nat)

  datatype Factor =
    | Account(perm: Perm, weight: nat)
    | KeyOf(key: nat, weight: nat)
    | Wait(seconds: nat, weight: nat)

  /** The factors are the waits, then the keys, then the accounts. */
  datatype Authority = Authority(threshold: nat, factors: seq<Factor>)

  /** What a check is given: the known permissions, the signing keys, the permissions taken as
      satisfied, the delay in microseconds and the depth limit. */
  datatype Env = Env(authorities: map<Perm, Authority>, keys: seq<nat>, provided: set<Perm>, delay: int, limit: nat)

  datatype Status = Evaluating | Unsatisfied | Satisfied

  datatype State = State(used: seq<bool>, cache: map<Perm, Status>)

  const MICROSECONDS: nat := 1000000

  // ----- the order of the factors

  function Which(f: Factor): nat {
    match f
    case Account(_, _) => 0
    case KeyOf(_, _) => 1
    case Wait(_, _) => 2
  }

  /** Heavier factors first; of equal weight, waits before keys before accounts. */
  predicate Precedes(f: Factor, g: Factor) {
    f.weight > g.weight || (f.weight == g.weight && Which(f) > Which(g))
  }

  function Insert(f: Factor, s: seq<Factor>): (r: seq<Factor>)
    ensures |r| == |s| + 1
  {
    if s == [] then [f] else if Precedes(f, s[0]) then [f] + s else [s[0]] + Insert(f, s[1..])
  }

  function Sorted(fs: seq<Factor>): (r: seq<Factor>)
    ensures |r| == |fs|
  {
    if fs == [] then [] else Insert(fs[|fs| - 1], Sorted(fs[..|fs| - 1]))
  }

  ghost predicate InOrder(s: seq<Factor>) {
    forall i, j :: 0 <= i < j < |s| ==> !Precedes(s[j], s[i])
  }

  lemma {:induction false} InsertPermutes(f: Factor, s: seq<Factor>)
    ensures multiset(Insert(f, s)) == multiset(s) + multiset{f}
    decreases |s|
  {
    if s != [] {
      assert s == [s[0]] + s[1..];
      InsertPermutes(f, s[1..]);
    }
  }

  lemma InOrderCons(x: Factor, s: seq<Factor>)
    requires InOrder(s) && forall j :: 0 <= j < |s| ==> !Precedes(s[j], x)
    ensures InOrder([x] + s)
  {}

  lemma {:induction false} InsertKeepsOrder(f: Factor, s: seq<Factor>)
    requires InOrder(s)
    ensures InOrder(Insert(f, s))
    decreases |s|
  {
    if s != [] {
      if Precedes(f, s[0]) {
        InOrderCons(f, s);
      } else {
        var rest := Insert(f, s[1..]);
        InsertKeepsOrder(f, s[1..]);
        forall j | 0 <= j < |rest|
          ensures !Precedes(rest[j], s[0])
        {
          InsertedOrOld(f, s[1..], j);
        }
        InOrderCons(s[0], rest);
      }
    }
  }

  lemma {:induction false} InsertedOrOld(f: Factor, s: seq<Factor>, j: nat)
    requires j <= |s|
    ensures Insert(f, s)[j] == f || Insert(f, s)[j] in s
    decreases |s|
  {
    if s != [] && !Precedes(f, s[0]) && j > 0 {
      InsertedOrOld(f, s[1..], j - 1);
    }
  }

  /** The factors are visited in the order of the comparator, each exactly once. */
  lemma {:induction false} SortedIsOrdered(fs: seq<Factor>)
    ensures InOrder(Sorted(fs)) && multiset(Sorted(fs)) == multiset(fs)
    decreases |fs|
  {
    if fs != [] {
      var n := |fs| - 1;
      SortedIsOrdered(fs[..n]);
      InsertKeepsOrder(fs[n], Sorted(fs[..n]));
      InsertPermutes(fs[n], Sorted(fs[..n]));
      assert fs == fs[..n] + [fs[n]];
    }
  }

  lemma SortedMembers(fs: seq<Factor>, f: Factor)
    requires f in Sorted(fs)
    ensures f in fs
  {
    SortedIsOrdered(fs);
    assert f in multiset(Sorted(fs));
  }

  // ----- what satisfaction means

  /** Given directly, or through the actor's permission with the empty name. */
  predicate Provided(env: Env, p: Perm) {
    p in env.provided || Perm(p.actor, 0) in env.provided
  }

  /** The permission follows from what is given in at most `h` steps. */
  ghost predicate HoldsAt(env: Env, p: Perm, h: nat)
    decreases h, 0
  {
    Provided(env, p) || (h > 0 && p in env.authorities && MeetsAt(env, env.authorities[p], h - 1))
  }

  ghost predicate MeetsAt(env: Env, a: Authority, h: nat)
    decreases h, |a.factors| + 2
  {
    a.factors != [] && TallyAt(env, a.factors, h) >= a.threshold
  }

  ghost function TallyAt(env: Env, fs: seq<Factor>, h: nat): nat
    decreases h, |fs| + 1
  {
    if fs == [] then 0 else (if MetAt(env, fs[0], h) then fs[0].weight else 0) + TallyAt(env, fs[1..], h)
  }

  ghost predicate MetAt(env: Env, f: Factor, h: nat)
    decreases h, 1
  {
    match f
    case Account(p, _) => HoldsAt(env, p, h)
    case KeyOf(k, _) => k in env.keys
    case Wait(seconds, _) => env.delay >= seconds * 1_000_000
  }

  /** The permission follows from what is given. */
  ghost predicate Holds(env: Env, p: Perm) {
    exists h: nat :: HoldsAt(env, p, h)
  }

  ghost predicate Met(env: Env, f: Factor) {
    match f
    case Account(p, _) => Holds(env, p)
    case KeyOf(k, _) => k in env.keys
    case Wait(seconds, _) => env.delay >= seconds * 1_000_000
  }

  ghost function Share(env: Env, f: Factor): nat {
    if Met(env, f) then f.weight else 0
  }

  ghost function Tally(env: Env, fs: seq<Factor>): nat {
    if fs == [] then 0 else Share(env, fs[0]) + Tally(env, fs[1..])
  }

  /** The factors that are met weigh at least the threshold. An authority without factors is
      never satisfied. */
  ghost predicate Meets(env: Env, a: Authority) {
    a.factors != [] && Tally(env, a.factors) >= a.threshold
  }

  lemma HoldsFrom(env: Env, p: Perm, h: nat)
    requires HoldsAt(env, p, h)
    ensures Holds(env, p)
  {}

  lemma {:induction false} HoldsMonotone(env: Env, p: Perm, h: nat, k: nat)
    requires h <= k && HoldsAt(env, p, h)
    ensures HoldsAt(env, p, k)
    decreases h, 0
  {
    if !Provided(env, p) {
      TallyMonotone(env, env.authorities[p].factors, h - 1, k - 1);
    }
  }

  lemma {:induction false} TallyMonotone(env: Env, fs: seq<Factor>, h: nat, k: nat)
    requires h <= k
    ensures TallyAt(env, fs, h) <= TallyAt(env, fs, k)
    decreases h, |fs| + 1
  {
    if fs != [] {
      if fs[0].Account? && HoldsAt(env, fs[0].perm, h) {
        HoldsMonotone(env, fs[0].perm, h, k);
      }
      TallyMonotone(env, fs[1..], h, k);
    }
  }

  lemma {:induction false} TallyAtIsBelow(env: Env, fs: seq<Factor>, h: nat)
    ensures TallyAt(env, fs, h) <= Tally(env, fs)
    decreases |fs|
  {
    if fs != [] {
      if fs[0].Account? && HoldsAt(env, fs[0].perm, h) {
        HoldsFrom(env, fs[0].perm, h);
      }
      TallyAtIsBelow(env, fs[1..], h);
    }
  }

  /** Finitely many factors are met within one number of steps. */
  lemma {:induction false} TallyReached(env: Env, fs: seq<Factor>) returns (h: nat)
    ensures Tally(env, fs) <= TallyAt(env, fs, h)
    decreases |fs|
  {
    if fs == [] {
      h := 0;
    } else {
      h := TallyReached(env, fs[1..]);
      if fs[0].Account? && Holds(env, fs[0].perm) {
        var k: nat :| HoldsAt(env, fs[0].perm, k);
        var m := if h < k then k else h;
        HoldsMonotone(env, fs[0].perm, k, m);
        TallyMonotone(env, fs[1..], h, m);
        h := m;
      }
    }
  }

  /** Holding is closed under its own rule: given, or the permission's authority is met. */
  lemma HoldsIff(env: Env, p: Perm)
    ensures Holds(env, p) <==> Provided(env, p) || (p in env.authorities && Meets(env, env.authorities[p]))
  {
    if Provided(env, p) {
      HoldsFrom(env, p, 0);
    } else {
      if Holds(env, p) {
        var h: nat :| HoldsAt(env, p, h);
        assert MeetsAt(env, env.authorities[p], h - 1);
        TallyAtIsBelow(env, env.authorities[p].factors, h - 1);
      }
      if p in env.authorities && Meets(env, env.authorities[p]) {
        var h := TallyReached(env, env.authorities[p].factors);
        assert MeetsAt(env, env.authorities[p], h);
        HoldsFrom(env, p, h + 1);
      }
    }
  }

  ghost function TallyIn(env: Env, fs: seq<Factor>, s: iset<Perm>): nat {
    if fs == [] then 0
    else (if (if fs[0].Account? then fs[0].perm in s else Met(env, fs[0])) then fs[0].weight else 0) + TallyIn(env, fs[1..], s)
  }

  /** A set of permissions with all that is given and all that follows from it. */
  ghost predicate Closed(env: Env, s: iset<Perm>) {
    && (forall p :: Provided(env, p) ==> p in s)
    && (forall p :: p in env.authorities && MetIn(env, env.authorities[p], s) ==> p in s)
  }

  ghost predicate MetIn(env: Env, a: Authority, s: iset<Perm>) {
    a.factors != [] && TallyIn(env, a.factors, s) >= a.threshold
  }

  /** Nothing holds that is not in every closed set. */
  lemma {:induction false} HoldsIsLeast(env: Env, s: iset<Perm>, p: Perm, h: nat)
    requires Closed(env, s) && HoldsAt(env, p, h)
    ensures p in s
    decreases h, 0
  {
    if !Provided(env, p) {
      TallyWithin(env, env.authorities[p].factors, s, h - 1);
    }
  }

  lemma {:induction false} TallyWithin(env: Env, fs: seq<Factor>, s: iset<Perm>, h: nat)
    requires Closed(env, s)
    ensures TallyAt(env, fs, h) <= TallyIn(env, fs, s)
    decreases h, |fs| + 1
  {
    if fs != [] {
      if fs[0].Account? && HoldsAt(env, fs[0].perm, h) {
        HoldsIsLeast(env, s, fs[0].perm, h);
      }
      TallyWithin(env, fs[1..], s, h);
    }
  }

  const MAX_WEIGHT: nat := 0xFFFF
  const MAX_FACTORS: nat := 0x1_0000

  /** With sixteen-bit weights and no more factors than an authority may have, the sum of the
      weights fits in 32 bits. */
  lemma TallyFits(env: Env, fs: seq<Factor>)
    requires |fs| <= MAX_FACTORS && forall i :: 0 <= i < |fs| ==> fs[i].weight <= MAX_WEIGHT
    ensures Tally(env, fs) < 0x1_0000_0000
  {
    TallyBound(env, fs);
  }

  lemma {:induction false} TallyBound(env: Env, fs: seq<Factor>)
    requires forall i :: 0 <= i < |fs| ==> fs[i].weight <= MAX_WEIGHT
    ensures Tally(env, fs) <= |fs| * MAX_WEIGHT
    decreases |fs|
  {
    if fs != [] {
      TallyBound(env, fs[1..]);
    }
  }

  /** Sorting does not change what the factors weigh. */
  lemma {:induction false} TallyOfInsert(env: Env, f: Factor, s: seq<Factor>)
    ensures Tally(env, Insert(f, s)) == Share(env, f) + Tally(env, s)
    decreases |s|
  {
    if s == [] {
    } else if Precedes(f, s[0]) {
      assert ([f] + s)[1..] == s;
    } else {
      TallyOfInsert(env, f, s[1..]);
      assert ([s[0]] + Insert(f, s[1..]))[1..] == Insert(f, s[1..]);
    }
  }

  lemma {:induction false} TallyOfFront(env: Env, s: seq<Factor>)
    requires s != []
    ensures Tally(env, s) == Tally(env, s[..|s| - 1]) + Share(env, s[|s| - 1])
    decreases |s|
  {
    if |s| > 1 {
      TallyOfFront(env, s[1..]);
      assert s[1..][..|s| - 2] == s[..|s| - 1][1..];
    }
  }

  lemma {:induction false} TallyOfSorted(env: Env, fs: seq<Factor>)
    ensures Tally(env, Sorted(fs)) == Tally(env, fs)
    decreases |fs|
  {
    if fs != [] {
      TallyOfSorted(env, fs[..|fs| - 1]);
      TallyOfInsert(env, fs[|fs| - 1], Sorted(fs[..|fs| - 1]));
      TallyOfFront(env, fs);
    }
  }

  // ----- what the checker computes

  function Lookup(cache: map<Perm, Status>, p: Perm): Option<Status> {
    if p in cache then Some(cache[p])
    else if Perm(p.actor, 0) in cache then Some(cache[Perm(p.actor, 0)])
    else None
  }

  /** The position of a key, |keys| when it is missing. */
  function Find(keys: seq<nat>, k: nat): (i: nat)
    ensures i <= |keys| && (i < |keys| <==> k in keys) && (i < |keys| ==> keys[i] == k)
  {
    if keys == [] then 0 else if keys[0] == k then 0 else 1 + Find(keys[1..], k)
  }

  predicate Fits(env: Env, st: State, depth: nat) {
    |st.used| == |env.keys| && depth <= env.limit
  }

  /** One factor: the weight gathered so far, and the state. */
  function Visit(env: Env, st: State, f: Factor, total: nat, depth: nat): (r: (nat, State))
    requires Fits(env, st, depth)
    ensures Fits(env, r.1, depth)
    decreases env.limit - depth, 0
  {
    match f
    case Wait(seconds, w) =>
      (if env.delay >= seconds * MICROSECONDS then total + w else total, st)
    case KeyOf(k, w) =>
      var i := Find(env.keys, k);
      if i < |env.keys| then (total + w, st.(used := st.used[i := true])) else (total, st)
    case Account(p, w) =>
      match Lookup(st.cache, p)
      case Some(status) => (if status == Satisfied then total + w else total, st)
      case None =>
        if depth < env.limit && p in env.authorities then
          var (ok, next) := Check(env, st.(cache := st.cache[p := Evaluating]), env.authorities[p], depth + 1);
          (if ok then total + w else total,
           next.(cache := next.cache[p := if ok then Satisfied else Unsatisfied]))
        else (total, st)
  }

  /** The factors in order, until the threshold is reached. */
  function VisitAll(env: Env, st: State, fs: seq<Factor>, total: nat, threshold: nat, depth: nat): (r: (bool, State))
    requires Fits(env, st, depth)
    ensures Fits(env, r.1, depth)
    decreases env.limit - depth, |fs| + 1
  {
    if fs == [] then (false, st)
    else
      var (sum, next) := Visit(env, st, fs[0], total, depth);
      if sum >= threshold then (true, next) else VisitAll(env, next, fs[1..], sum, threshold, depth)
  }

  /** An authority; when it is not satisfied, the keys it used are given back. */
  function Check(env: Env, st: State, a: Authority, depth: nat): (r: (bool, State))
    requires Fits(env, st, depth)
    ensures Fits(env, r.1, depth)
    decreases env.limit - depth, |a.factors| + 2
  {
    var (ok, next) := VisitAll(env, st, Sorted(a.factors), 0, a.threshold, depth);
    (ok, if ok then next else next.(used := st.used))
  }

  /** The cache at the start: the provided permissions are satisfied. */
  function StartCache(env: Env): map<Perm, Status> {
    map p | p in env.provided :: Satisfied
  }

  /** The state at the start, with no key used. */
  function Fresh(env: Env): State {
    State(seq(|env.keys|, _ => false), StartCache(env))
  }

  /** Permissions that exist have a name. */
  ghost predicate Named(env: Env) {
    forall p :: p in env.authorities ==> p.name != 0
  }

  lemma LookupAfter(cache: map<Perm, Status>, p: Perm, s: Status, q: Perm)
    requires p.name != 0
    ensures Lookup(cache[p := s], q) == if q == p then Some(s) else Lookup(cache, q)
  {}

  // ----- soundness, on every permission graph

  ghost predicate Sound(env: Env, cache: map<Perm, Status>) {
    forall p :: Lookup(cache, p) == Some(Satisfied) ==> Holds(env, p)
  }

  lemma SoundAfter(env: Env, cache: map<Perm, Status>, p: Perm, s: Status)
    requires Sound(env, cache) && p.name != 0 && (s == Satisfied ==> Holds(env, p))
    ensures Sound(env, cache[p := s])
  {
    forall q | Lookup(cache[p := s], q) == Some(Satisfied)
      ensures Holds(env, q)
    {
      LookupAfter(cache, p, s, q);
    }
  }

  lemma {:induction false} VisitSound(env: Env, st: State, f: Factor, total: nat, depth: nat)
    requires Named(env) && Fits(env, st, depth) && Sound(env, st.cache)
    ensures var (sum, next) := Visit(env, st, f, total, depth);
            Sound(env, next.cache) && total <= sum <= total + Share(env, f)
    decreases env.limit - depth, 0
  {
    if f.Account? && Lookup(st.cache, f.perm) == None && depth < env.limit && f.perm in env.authorities {
      var p := f.perm;
      var s0 := st.(cache := st.cache[p := Evaluating]);
      SoundAfter(env, st.cache, p, Evaluating);
      CheckSound(env, s0, env.authorities[p], depth + 1);
      var (ok, s1) := Check(env, s0, env.authorities[p], depth + 1);
      HoldsIff(env, p);
      SoundAfter(env, s1.cache, p, if ok then Satisfied else Unsatisfied);
    }
  }

  lemma {:induction false} VisitAllSound(env: Env, st: State, fs: seq<Factor>, total: nat, threshold: nat, depth: nat)
    requires Named(env) && Fits(env, st, depth) && Sound(env, st.cache)
    ensures var (ok, next) := VisitAll(env, st, fs, total, threshold, depth);
            Sound(env, next.cache) && (ok ==> fs != [] && total + Tally(env, fs) >= threshold)
    decreases env.limit - depth, |fs| + 1
  {
    if fs != [] {
      VisitSound(env, st, fs[0], total, depth);
      var (sum, next) := Visit(env, st, fs[0], total, depth);
      if sum < threshold {
        VisitAllSound(env, next, fs[1..], sum, threshold, depth);
      }
    }
  }

  /** A verdict of "satisfied" is always justified, whatever the permission graph, whatever the
      cache has gone through. */
  lemma {:induction false} CheckSound(env: Env, st: State, a: Authority, depth: nat)
    requires Named(env) && Fits(env, st, depth) && Sound(env, st.cache)
    ensures var (ok, next) := Check(env, st, a, depth);
            Sound(env, next.cache) && (ok ==> Meets(env, a))
    decreases env.limit - depth, |a.factors| + 2
  {
    VisitAllSound(env, st, Sorted(a.factors), 0, a.threshold, depth);
    TallyOfSorted(env, a.factors);
  }

  lemma StartSound(env: Env)
    ensures Sound(env, StartCache(env))
  {
    forall p | Lookup(StartCache(env), p) == Some(Satisfied)
      ensures Holds(env, p)
    {
      HoldsIff(env, p);
    }
  }

  /** From the start: an authority found satisfied is met, a permission found satisfied holds. */
  lemma SatisfiedIsSound(env: Env, used: seq<bool>, a: Authority, p: Perm)
    requires Named(env) && |used| == |env.keys|
    ensures Check(env, State(used, StartCache(env)), a, 0).0 ==> Meets(env, a)
    ensures Visit(env, State(used, StartCache(env)), Account(p, 1), 0, 0).0 > 0 ==> Holds(env, p)
  {
    StartSound(env);
    CheckSound(env, State(used, StartCache(env)), a, 0);
    VisitSound(env, State(used, StartCache(env)), Account(p, 1), 0, 0);
  }
}
