/** When the authority checker decides exactly, and which keys it reports as used. */
module AuthorityExact {
  import opened Options
  import opened AuthorityCheck

  // ----- exactness on graphs without cycles, within the depth limit

  /** A permission that has to be looked into: it exists and is not given. */
  ghost predicate Asked(env: Env, p: Perm) {
    p in env.authorities && !Provided(env, p)
  }

  /** `within` holds what the checker may look into: each permission in it ranks above those its
      authority makes the checker look into, and these are in it too. */
  ghost predicate Ranked(env: Env, within: set<Perm>, rank: Perm -> nat) {
    forall p :: p in within && Asked(env, p) ==> Below(env, within, rank, env.authorities[p].factors, rank(p))
  }

  ghost predicate Below(env: Env, within: set<Perm>, rank: Perm -> nat, fs: seq<Factor>, bound: nat) {
    forall i :: 0 <= i < |fs| ==> BelowAt(env, within, rank, fs[i], bound)
  }

  ghost predicate BelowAt(env: Env, within: set<Perm>, rank: Perm -> nat, f: Factor, bound: nat) {
    f.Account? && Asked(env, f.perm) ==> f.perm in within && rank(f.perm) < bound
  }

  /** The cache is right about every permission, except for those being evaluated. */
  ghost predicate Exact(env: Env, cache: map<Perm, Status>, active: set<Perm>) {
    forall p :: ExactAt(env, Lookup(cache, p), p, active)
  }

  ghost predicate ExactAt(env: Env, status: Option<Status>, p: Perm, active: set<Perm>) {
    match status
    case None => !Provided(env, p)
    case Some(Satisfied) => Holds(env, p)
    case Some(Unsatisfied) => !Holds(env, p)
    case Some(Evaluating) => p in active
  }

  lemma ExactAfter(env: Env, cache: map<Perm, Status>, active: set<Perm>, p: Perm, s: Status, next: set<Perm>)
    requires Exact(env, cache, active) && p.name != 0 && active <= next + {p}
    requires ExactAt(env, Some(s), p, next)
    ensures Exact(env, cache[p := s], next)
  {
    var after := cache[p := s];
    forall q: Perm
      ensures ExactAt(env, Lookup(after, q), q, next)
    {
      LookupAfter(cache, p, s, q);
      assert ExactAt(env, Lookup(cache, q), q, active);
    }
  }

  lemma {:induction false} BelowInsert(env: Env, within: set<Perm>, rank: Perm -> nat, f: Factor, s: seq<Factor>,
                                       bound: nat)
    requires Below(env, within, rank, s, bound) && BelowAt(env, within, rank, f, bound)
    ensures Below(env, within, rank, Insert(f, s), bound)
    decreases |s|
  {
    if s != [] && !Precedes(f, s[0]) {
      BelowInsert(env, within, rank, f, s[1..], bound);
    }
  }

  lemma {:induction false} BelowSorted(env: Env, within: set<Perm>, rank: Perm -> nat, fs: seq<Factor>, bound: nat)
    requires Below(env, within, rank, fs, bound)
    ensures Below(env, within, rank, Sorted(fs), bound)
    decreases |fs|
  {
    if fs != [] {
      BelowSorted(env, within, rank, fs[..|fs| - 1], bound);
      BelowInsert(env, within, rank, fs[|fs| - 1], Sorted(fs[..|fs| - 1]), bound);
    }
  }

  /** Permissions being evaluated rank too high to be asked for. */
  ghost predicate Ready(env: Env, within: set<Perm>, rank: Perm -> nat, st: State, active: set<Perm>,
                        bound: nat, depth: nat) {
    && Named(env) && Ranked(env, within, rank) && Fits(env, st, depth) && bound <= env.limit - depth
    && Exact(env, st.cache, active) && forall p :: p in active ==> Asked(env, p) && rank(p) >= bound
  }

  lemma {:induction false} VisitExact(env: Env, within: set<Perm>, rank: Perm -> nat, st: State, f: Factor, total: nat,
                                      active: set<Perm>, bound: nat, depth: nat)
    requires Ready(env, within, rank, st, active, bound, depth) && BelowAt(env, within, rank, f, bound)
    ensures var (sum, next) := Visit(env, st, f, total, depth);
            Exact(env, next.cache, active) && sum == total + Share(env, f)
    decreases env.limit - depth, 0
  {
    if f.Account? {
      var p := f.perm;
      HoldsIff(env, p);
      assert ExactAt(env, Lookup(st.cache, p), p, active);
      if Lookup(st.cache, p) == None && p in env.authorities {
        var a, s0 := env.authorities[p], st.(cache := st.cache[p := Evaluating]);
        ExactAfter(env, st.cache, active, p, Evaluating, active + {p});
        CheckExact(env, within, rank, s0, a, active + {p}, rank(p), depth + 1);
        var (ok, s1) := Check(env, s0, a, depth + 1);
        ExactAfter(env, s1.cache, active + {p}, p, if ok then Satisfied else Unsatisfied, active);
      }
    }
  }

  lemma {:induction false} VisitAllExact(env: Env, within: set<Perm>, rank: Perm -> nat, st: State, fs: seq<Factor>,
                                         total: nat, threshold: nat, active: set<Perm>, bound: nat, depth: nat)
    requires Ready(env, within, rank, st, active, bound, depth) && Below(env, within, rank, fs, bound)
    ensures var (ok, next) := VisitAll(env, st, fs, total, threshold, depth);
            Exact(env, next.cache, active) && (ok <==> fs != [] && total + Tally(env, fs) >= threshold)
    decreases env.limit - depth, |fs| + 1
  {
    if fs != [] {
      VisitExact(env, within, rank, st, fs[0], total, active, bound, depth);
      var (sum, next) := Visit(env, st, fs[0], total, depth);
      if sum < threshold {
        VisitAllExact(env, within, rank, next, fs[1..], sum, threshold, active, bound, depth);
      }
    }
  }

  /** On a graph without cycles, within the depth limit, the verdict is exactly satisfaction. */
  lemma {:induction false} CheckExact(env: Env, within: set<Perm>, rank: Perm -> nat, st: State, a: Authority,
                                      active: set<Perm>, bound: nat, depth: nat)
    requires Ready(env, within, rank, st, active, bound, depth) && Below(env, within, rank, a.factors, bound)
    ensures var (ok, next) := Check(env, st, a, depth);
            Exact(env, next.cache, active) && (ok <==> Meets(env, a))
    decreases env.limit - depth, |a.factors| + 2
  {
    BelowSorted(env, within, rank, a.factors, bound);
    VisitAllExact(env, within, rank, st, Sorted(a.factors), 0, a.threshold, active, bound, depth);
    TallyOfSorted(env, a.factors);
    assert |Sorted(a.factors)| == |a.factors|;
  }

  lemma StartExact(env: Env)
    ensures Exact(env, StartCache(env), {})
  {
    forall p: Perm
      ensures ExactAt(env, Lookup(StartCache(env), p), p, {})
    {
      HoldsIff(env, p);
    }
  }

  /** From the start: an authority is found satisfied exactly when it is met, a permission exactly
      when it holds. */
  lemma SatisfiedIsExact(env: Env, within: set<Perm>, rank: Perm -> nat, used: seq<bool>, a: Authority, p: Perm)
    requires Named(env) && |used| == |env.keys| && Ranked(env, within, rank)
    ensures Below(env, within, rank, a.factors, env.limit) ==>
              (Check(env, State(used, StartCache(env)), a, 0).0 <==> Meets(env, a))
    ensures BelowAt(env, within, rank, Account(p, 1), env.limit) ==>
              (Visit(env, State(used, StartCache(env)), Account(p, 1), 0, 0).0 > 0 <==> Holds(env, p))
  {
    var st := State(used, StartCache(env));
    StartExact(env);
    if Below(env, within, rank, a.factors, env.limit) {
      CheckExact(env, within, rank, st, a, {}, env.limit, 0);
    }
    if BelowAt(env, within, rank, Account(p, 1), env.limit) {
      VisitExact(env, within, rank, st, Account(p, 1), 0, {}, env.limit, 0);
    }
  }

  // ----- the keys reported as used

  ghost predicate Grows(u: seq<bool>, v: seq<bool>) {
    |u| == |v| && forall i :: 0 <= i < |u| && u[i] ==> v[i]
  }

  lemma {:induction false} VisitUsed(env: Env, st: State, f: Factor, total: nat, depth: nat)
    requires Fits(env, st, depth)
    ensures Grows(st.used, Visit(env, st, f, total, depth).1.used)
    decreases env.limit - depth, 0
  {
    if f.Account? && Lookup(st.cache, f.perm) == None && depth < env.limit && f.perm in env.authorities {
      CheckUsed(env, st.(cache := st.cache[f.perm := Evaluating]), env.authorities[f.perm], depth + 1);
    }
  }

  lemma {:induction false} VisitAllUsed(env: Env, st: State, fs: seq<Factor>, total: nat, threshold: nat, depth: nat)
    requires Fits(env, st, depth)
    ensures Grows(st.used, VisitAll(env, st, fs, total, threshold, depth).1.used)
    decreases env.limit - depth, |fs| + 1
  {
    if fs != [] {
      VisitUsed(env, st, fs[0], total, depth);
      var (sum, next) := Visit(env, st, fs[0], total, depth);
      if sum < threshold {
        VisitAllUsed(env, next, fs[1..], sum, threshold, depth);
      }
    }
  }

  /** A check that fails uses no key, and one that succeeds forgets none. */
  lemma {:induction false} CheckUsed(env: Env, st: State, a: Authority, depth: nat)
    requires Fits(env, st, depth)
    ensures var (ok, next) := Check(env, st, a, depth);
            Grows(st.used, next.used) && (!ok ==> next.used == st.used)
    decreases env.limit - depth, |a.factors| + 2
  {
    VisitAllUsed(env, st, Sorted(a.factors), 0, a.threshold, depth);
  }

  /** The keys marked as used. */
  ghost function Kept(keys: seq<nat>, used: seq<bool>): (r: seq<nat>)
    requires |used| == |keys|
    ensures forall k :: k in r <==> exists i :: 0 <= i < |keys| && used[i] && keys[i] == k
  {
    if keys == [] then [] else
      var rest := Kept(keys[..|keys| - 1], used[..|used| - 1]);
      if used[|used| - 1] then rest + [keys[|keys| - 1]] else rest
  }

  /** The same surroundings with only the used keys. */
  ghost function Using(env: Env, used: seq<bool>): Env
    requires |used| == |env.keys|
  {
    env.(keys := Kept(env.keys, used))
  }

  ghost predicate MoreKeys(e: Env, g: Env) {
    g == e.(keys := g.keys) && forall k :: k in e.keys ==> k in g.keys
  }

  lemma {:induction false} HoldsWithMore(e: Env, g: Env, p: Perm, h: nat)
    requires MoreKeys(e, g) && HoldsAt(e, p, h)
    ensures HoldsAt(g, p, h)
    decreases h, 0
  {
    if !Provided(e, p) {
      TallyWithMore(e, g, e.authorities[p].factors, h - 1);
    }
  }

  lemma {:induction false} TallyWithMore(e: Env, g: Env, fs: seq<Factor>, h: nat)
    requires MoreKeys(e, g)
    ensures TallyAt(e, fs, h) <= TallyAt(g, fs, h)
    decreases h, |fs| + 1
  {
    if fs != [] {
      if fs[0].Account? && HoldsAt(e, fs[0].perm, h) {
        HoldsWithMore(e, g, fs[0].perm, h);
      }
      TallyWithMore(e, g, fs[1..], h);
    }
  }

  lemma ShareWithMore(e: Env, g: Env, f: Factor)
    requires MoreKeys(e, g)
    ensures Share(e, f) <= Share(g, f)
  {
    if f.Account? && Holds(e, f.perm) {
      HoldsGrows(e, g, f.perm);
    }
  }

  lemma HoldsGrows(e: Env, g: Env, p: Perm)
    requires MoreKeys(e, g) && Holds(e, p)
    ensures Holds(g, p)
  {
    var h: nat :| HoldsAt(e, p, h);
    HoldsWithMore(e, g, p, h);
    HoldsFrom(g, p, h);
  }

  lemma UsingGrows(env: Env, u: seq<bool>, v: seq<bool>)
    requires |u| == |env.keys| && Grows(u, v)
    ensures MoreKeys(Using(env, u), Using(env, v))
  {}
}
