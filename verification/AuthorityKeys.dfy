/** Are the keys reported as used enough? Yes, when whatever is looked into on behalf of two different
    authorities is reached through permissions that hold; not in general, because a failed authority
    gives its keys back but leaves the cache as it is. */
module AuthorityKeys {
  import opened Options
  import opened AuthorityCheck
  import opened AuthorityExact

  /** An authority `a` to check, the permissions to look into below it, those of them that may be
      named more than once, and a rank that shows there is no cycle. */
  datatype Setting = Setting(env: Env, a: Authority, within: set<Perm>, shared: set<Perm>, rank: Perm -> nat)

  /** Where a permission is named: in the authority being checked, or in that of a permission. */
  datatype Namer = Top | Of(perm: Perm)

  ghost predicate NamedBy(g: Setting, c: Namer, q: Perm) {
    && Asked(g.env, q)
    && match c
       case Top => Names(g.a.factors, q)
       case Of(p) => p in g.within && Asked(g.env, p) && Names(g.env.authorities[p].factors, q)
  }

  ghost predicate Names(fs: seq<Factor>, q: Perm) {
    exists f :: f in fs && f.Account? && f.perm == q
  }

  /** Each permission to look into is named by one authority only, or is `shared`; every permission
      that leads to a shared one holds, and the checker decides exactly when there are any. */
  ghost predicate Traceable(g: Setting) {
    && Named(g.env)
    && (forall c, q :: NamedBy(g, c, q) ==> q in g.within)
    && (forall c, d, q :: NamedBy(g, c, q) && NamedBy(g, d, q) && q !in g.shared ==> c == d)
    && (forall p, q :: NamedBy(g, Of(p), q) && q in g.shared ==> p in g.shared && Holds(g.env, p))
    && (g.shared != {} ==> Decidable(g))
  }

  ghost predicate Decidable(g: Setting) {
    Ranked(g.env, g.within, g.rank) && Below(g.env, g.within, g.rank, g.a.factors, g.env.limit)
  }

  /** Given permissions are in the cache, everything else in it was looked into, and not before the
      permission on whose behalf. */
  ghost predicate Tidy(g: Setting, cache: map<Perm, Status>) {
    && (forall p :: Provided(g.env, p) ==> Lookup(cache, p) == Some(Satisfied))
    && (forall p :: p in cache ==> p in g.env.provided || Asked(g.env, p))
    && (forall p, q :: NamedBy(g, Of(p), q) && q in cache && q !in g.shared ==> p in cache)
  }

  /** A permission that matters to a check on behalf of `c`. */
  ghost predicate Matters(g: Setting, c: Namer, q: Perm) {
    NamedBy(g, c, q) || (q in g.shared && Asked(g.env, q))
  }

  /** What the cache calls satisfied, among the permissions that matter, follows from the used keys. */
  ghost predicate KeySound(g: Setting, c: Namer, st: State)
    requires |st.used| == |g.env.keys|
  {
    forall q :: Matters(g, c, q) && q in st.cache && st.cache[q] == Satisfied ==> Holds(Using(g.env, st.used), q)
  }

  ghost predicate Extends(cache: map<Perm, Status>, next: map<Perm, Status>) {
    forall p :: p in cache ==> p in next && next[p] == cache[p]
  }

  /** The check leads to a shared permission only if it is of one that holds. */
  ghost predicate MayShare(g: Setting, c: Namer) {
    c.Of? ==> c.perm in g.shared && Holds(g.env, c.perm)
  }

  /** What is new in the cache is named by `c`, or by something that is new itself; or it is shared. */
  ghost predicate NewBelow(g: Setting, c: Namer, cache: map<Perm, Status>, next: map<Perm, Status>) {
    && (forall d, q :: q in next && q !in cache && NamedBy(g, d, q) && q !in g.shared ==>
          d == c || (d.Of? && d.perm !in cache))
    && (forall q :: q in next && q !in cache && Asked(g.env, q) && q in g.shared ==> MayShare(g, c))
  }

  /** The bound on what a check on behalf of `c` may ask for. */
  ghost function Bound(g: Setting, c: Namer): nat {
    if c.Top? then g.env.limit else g.rank(c.perm)
  }

  ghost predicate Reliable(g: Setting, c: Namer, st: State, depth: nat) {
    exists active :: Ready(g.env, g.within, g.rank, st, active, Bound(g, c), depth)
  }

  /** A check on behalf of `c` is under way. */
  ghost predicate Ongoing(g: Setting, c: Namer, st: State, depth: nat) {
    && Traceable(g) && Fits(g.env, st, depth) && Tidy(g, st.cache)
    && (c.Of? ==> c.perm in st.cache && c.perm in g.within && Asked(g.env, c.perm))
    && KeySound(g, c, st) && (g.shared != {} ==> Reliable(g, c, st, depth))
  }

  ghost predicate Advanced(g: Setting, c: Namer, st: State, next: State) {
    && Tidy(g, next.cache) && Extends(st.cache, next.cache)
    && NewBelow(g, c, st.cache, next.cache) && Grows(st.used, next.used)
  }

  ghost predicate NamedAt(g: Setting, c: Namer, f: Factor) {
    f.Account? && Asked(g.env, f.perm) ==> NamedBy(g, c, f.perm)
  }

  ghost predicate AllNamed(g: Setting, c: Namer, fs: seq<Factor>) {
    forall f :: f in fs ==> NamedAt(g, c, f)
  }

  lemma LookupAsked(g: Setting, cache: map<Perm, Status>, q: Perm)
    requires Named(g.env) && Tidy(g, cache) && !Provided(g.env, q)
    ensures Lookup(cache, q) == if q in cache then Some(cache[q]) else None
    ensures q in cache ==> Asked(g.env, q)
  {}

  // ----- exact verdicts

  lemma NamedIsBelow(g: Setting, c: Namer, f: Factor)
    requires Decidable(g) && NamedAt(g, c, f)
    ensures BelowAt(g.env, g.within, g.rank, f, Bound(g, c))
  {
    if f.Account? && Asked(g.env, f.perm) {
      var fs := if c.Top? then g.a.factors else g.env.authorities[c.perm].factors;
      var x :| x in fs && x.Account? && x.perm == f.perm;
      var i :| 0 <= i < |fs| && fs[i] == x;
      assert Below(g.env, g.within, g.rank, fs, Bound(g, c));
      assert BelowAt(g.env, g.within, g.rank, fs[i], Bound(g, c));
    }
  }

  lemma VisitReliable(g: Setting, c: Namer, st: State, f: Factor, total: nat, depth: nat)
    requires Decidable(g) && Reliable(g, c, st, depth) && NamedAt(g, c, f)
    ensures Reliable(g, c, Visit(g.env, st, f, total, depth).1, depth)
  {
    var active :| Ready(g.env, g.within, g.rank, st, active, Bound(g, c), depth);
    NamedIsBelow(g, c, f);
    VisitExact(g.env, g.within, g.rank, st, f, total, active, Bound(g, c), depth);
    assert Ready(g.env, g.within, g.rank, Visit(g.env, st, f, total, depth).1, active, Bound(g, c), depth);
  }

  /** The verdict on a permission is whether it holds. */
  lemma VerdictIsExact(g: Setting, c: Namer, st: State, q: Perm, depth: nat)
    requires Decidable(g) && Named(g.env) && Reliable(g, c, st, depth) && depth < g.env.limit
    requires NamedBy(g, c, q) && q !in st.cache
    ensures var s0 := st.(cache := st.cache[q := Evaluating]);
            && Reliable(g, Of(q), s0, depth + 1)
            && (Check(g.env, s0, g.env.authorities[q], depth + 1).0 <==> Holds(g.env, q))
  {
    var active :| Ready(g.env, g.within, g.rank, st, active, Bound(g, c), depth);
    var s0 := st.(cache := st.cache[q := Evaluating]);
    NamedIsBelow(g, c, Account(q, 1));
    ExactAfter(g.env, st.cache, active, q, Evaluating, active + {q});
    assert Ready(g.env, g.within, g.rank, s0, active + {q}, Bound(g, Of(q)), depth + 1);
    CheckExact(g.env, g.within, g.rank, s0, g.env.authorities[q], active + {q}, Bound(g, Of(q)), depth + 1);
    HoldsIff(g.env, q);
  }

  // ----- looking into a permission

  lemma BeginTidy(g: Setting, c: Namer, cache: map<Perm, Status>, q: Perm)
    requires Traceable(g) && Tidy(g, cache) && (c.Of? ==> c.perm in cache)
    requires NamedBy(g, c, q) && q !in cache
    ensures Tidy(g, cache[q := Evaluating])
  {
    var after := cache[q := Evaluating];
    forall p | Provided(g.env, p)
      ensures Lookup(after, p) == Some(Satisfied)
    {
      LookupAfter(cache, q, Evaluating, p);
    }
    forall p, x | NamedBy(g, Of(p), x) && x in after && x !in g.shared
      ensures p in after
    {
      if x == q {
        assert Of(p) == c;
      }
    }
  }

  /** Nothing below the permission is in the cache yet, unless it is shared. */
  lemma BeginKeySound(g: Setting, c: Namer, st: State, q: Perm)
    requires Traceable(g) && Tidy(g, st.cache) && |st.used| == |g.env.keys| && KeySound(g, c, st)
    requires NamedBy(g, c, q) && q !in st.cache
    ensures KeySound(g, Of(q), st.(cache := st.cache[q := Evaluating]))
  {
    var s0 := st.(cache := st.cache[q := Evaluating]);
    forall x | Matters(g, Of(q), x) && x in s0.cache && s0.cache[x] == Satisfied
      ensures Holds(Using(g.env, st.used), x)
    {
      assert x in st.cache && x in g.shared;
      assert Matters(g, c, x);
    }
  }

  lemma SettledTidy(g: Setting, cache: map<Perm, Status>, q: Perm, s: Status)
    requires Named(g.env) && Tidy(g, cache) && Asked(g.env, q) && q in cache
    ensures Tidy(g, cache[q := s])
  {
    forall p | Provided(g.env, p)
      ensures Lookup(cache[q := s], p) == Some(Satisfied)
    {
      LookupAfter(cache, q, s, p);
    }
  }

  lemma SettledBelow(g: Setting, c: Namer, cache: map<Perm, Status>, q: Perm, s: Status, next: map<Perm, Status>)
    requires Traceable(g) && NamedBy(g, c, q) && q !in cache
    requires NewBelow(g, Of(q), cache[q := Evaluating], next)
    ensures NewBelow(g, c, cache, next[q := s])
  {
    var before, after := cache[q := Evaluating], next[q := s];
    forall d, x | x in after && x !in cache && NamedBy(g, d, x) && x !in g.shared
      ensures d == c || (d.Of? && d.perm !in cache)
    {
      if x != q {
        assert x in next && x !in before;
      }
    }
    forall x | x in after && x !in cache && Asked(g.env, x) && x in g.shared
      ensures MayShare(g, c)
    {
      if x != q {
        assert x in next && x !in before;
        assert MayShare(g, Of(q));
      }
    }
  }

  /** Settling the permission: the cache and the marks as they are afterwards. */
  lemma Settled(g: Setting, c: Namer, st: State, q: Perm, s: Status, next: State)
    requires Traceable(g) && NamedBy(g, c, q) && q !in st.cache
    requires Advanced(g, Of(q), st.(cache := st.cache[q := Evaluating]), next)
    ensures Advanced(g, c, st, next.(cache := next.cache[q := s]))
  {
    SettledTidy(g, next.cache, q, s);
    SettledBelow(g, c, st.cache, q, s, next.cache);
  }

  /** A shared permission is settled below `q` only when `q` holds, and then no marks are lost. */
  lemma SettledKeySound(g: Setting, c: Namer, st: State, q: Perm, ok: bool, next: State)
    requires Traceable(g) && |st.used| == |g.env.keys| && (c.Of? ==> c.perm in st.cache)
    requires NamedBy(g, c, q) && q !in st.cache && KeySound(g, c, st)
    requires Advanced(g, Of(q), st.(cache := st.cache[q := Evaluating]), next)
    requires if ok then KeySound(g, Of(q), next) && Holds(Using(g.env, next.used), q)
             else g.shared != {} ==> !Holds(g.env, q)
    ensures KeySound(g, c, next.(cache := next.cache[q := if ok then Satisfied else Unsatisfied]))
  {
    UsingGrows(g.env, st.used, next.used);
    var before := st.cache[q := Evaluating];
    forall x | Matters(g, c, x) && x in next.cache && x != q && next.cache[x] == Satisfied
      ensures Holds(Using(g.env, next.used), x)
    {
      if x in before {
        HoldsGrows(Using(g.env, st.used), Using(g.env, next.used), x);
      } else if x in g.shared {
        assert Matters(g, Of(q), x);
      }
    }
  }

  lemma {:induction false} NestedKeys(g: Setting, c: Namer, st: State, q: Perm, depth: nat)
    requires Ongoing(g, c, st, depth) && depth < g.env.limit
    requires NamedBy(g, c, q) && q !in st.cache
    ensures var (ok, mid) := Check(g.env, st.(cache := st.cache[q := Evaluating]), g.env.authorities[q], depth + 1);
            var next := mid.(cache := mid.cache[q := if ok then Satisfied else Unsatisfied]);
            && Advanced(g, c, st, next) && KeySound(g, c, next)
            && (ok ==> Holds(Using(g.env, next.used), q))
    decreases g.env.limit - depth - 1, |g.env.authorities[q].factors| + 3
  {
    var s0 := st.(cache := st.cache[q := Evaluating]);
    if g.shared != {} {
      VerdictIsExact(g, c, st, q, depth);
    }
    assert Ongoing(g, Of(q), s0, depth + 1) by {
      BeginTidy(g, c, st.cache, q);
      BeginKeySound(g, c, st, q);
    }
    CheckKeys(g, Of(q), s0, g.env.authorities[q], depth + 1);
    var (ok, mid) := Check(g.env, s0, g.env.authorities[q], depth + 1);
    if ok {
      HoldsIff(Using(g.env, mid.used), q);
    }
    Settled(g, c, st, q, if ok then Satisfied else Unsatisfied, mid);
    SettledKeySound(g, c, st, q, ok, mid);
  }

  // ----- the check

  lemma {:induction false} VisitKeys(g: Setting, c: Namer, st: State, f: Factor, total: nat, depth: nat)
    requires Ongoing(g, c, st, depth) && NamedAt(g, c, f)
    ensures var (sum, next) := Visit(g.env, st, f, total, depth);
            && Advanced(g, c, st, next) && KeySound(g, c, next)
            && sum <= total + Share(Using(g.env, next.used), f)
    decreases g.env.limit - depth, 0
  {
    var next := Visit(g.env, st, f, total, depth).1;
    if f.KeyOf? {
      VisitUsed(g.env, st, f, total, depth);
      KeySoundGrows(g, c, st, next.used);
    } else if f.Account? {
      HoldsIff(Using(g.env, st.used), f.perm);
      if !Provided(g.env, f.perm) {
        LookupAsked(g, st.cache, f.perm);
        if f.perm !in st.cache && depth < g.env.limit && f.perm in g.env.authorities {
          NestedKeys(g, c, st, f.perm, depth);
        }
      }
    }
  }

  lemma KeySoundGrows(g: Setting, c: Namer, st: State, used: seq<bool>)
    requires |st.used| == |g.env.keys| && KeySound(g, c, st) && Grows(st.used, used)
    ensures KeySound(g, c, st.(used := used))
  {
    UsingGrows(g.env, st.used, used);
    forall q | Matters(g, c, q) && q in st.cache && st.cache[q] == Satisfied
      ensures Holds(Using(g.env, used), q)
    {
      HoldsGrows(Using(g.env, st.used), Using(g.env, used), q);
    }
  }

  lemma AdvancedTwice(g: Setting, c: Namer, st: State, mid: State, next: State)
    requires Advanced(g, c, st, mid) && Advanced(g, c, mid, next)
    ensures Advanced(g, c, st, next)
  {
    forall d, q | q in next.cache && q !in st.cache && NamedBy(g, d, q) && q !in g.shared
      ensures d == c || (d.Of? && d.perm !in st.cache)
    {
      if q !in mid.cache {
        assert d == c || (d.Of? && d.perm !in mid.cache);
      }
    }
  }

  /** After one factor the check is under way for the next. */
  lemma StillOngoing(g: Setting, c: Namer, st: State, f: Factor, total: nat, depth: nat)
    requires Ongoing(g, c, st, depth) && NamedAt(g, c, f)
    requires Advanced(g, c, st, Visit(g.env, st, f, total, depth).1)
    requires KeySound(g, c, Visit(g.env, st, f, total, depth).1)
    ensures Ongoing(g, c, Visit(g.env, st, f, total, depth).1, depth)
  {
    if g.shared != {} {
      VisitReliable(g, c, st, f, total, depth);
    }
  }

  lemma {:induction false} VisitAllKeys(g: Setting, c: Namer, st: State, fs: seq<Factor>,
                                        total: nat, threshold: nat, depth: nat)
    requires Ongoing(g, c, st, depth) && AllNamed(g, c, fs)
    ensures var (ok, next) := VisitAll(g.env, st, fs, total, threshold, depth);
            && Advanced(g, c, st, next) && KeySound(g, c, next)
            && (ok ==> fs != [] && total + Tally(Using(g.env, next.used), fs) >= threshold)
    decreases g.env.limit - depth, |fs| + 1
  {
    if fs != [] {
      VisitKeys(g, c, st, fs[0], total, depth);
      var (sum, mid) := Visit(g.env, st, fs[0], total, depth);
      if sum < threshold {
        StillOngoing(g, c, st, fs[0], total, depth);
        VisitAllKeys(g, c, mid, fs[1..], sum, threshold, depth);
        var next := VisitAll(g.env, mid, fs[1..], sum, threshold, depth).1;
        AdvancedTwice(g, c, st, mid, next);
        UsingGrows(g.env, mid.used, next.used);
        ShareWithMore(Using(g.env, mid.used), Using(g.env, next.used), fs[0]);
      }
    }
  }

  lemma {:induction false} CheckKeys(g: Setting, c: Namer, st: State, auth: Authority, depth: nat)
    requires Ongoing(g, c, st, depth)
    requires AllNamed(g, c, auth.factors)
    ensures var (ok, next) := Check(g.env, st, auth, depth);
            Advanced(g, c, st, next) && (ok ==> KeySound(g, c, next) && Meets(Using(g.env, next.used), auth))
    decreases g.env.limit - depth, |auth.factors| + 2
  {
    var fs := Sorted(auth.factors);
    forall f | f in fs
      ensures NamedAt(g, c, f)
    {
      SortedMembers(auth.factors, f);
    }
    var (ok, next) := Check(g.env, st, auth, depth);
    VisitAllKeys(g, c, st, fs, 0, auth.threshold, depth);
    CheckUsed(g.env, st, auth, depth);
    if ok {
      TallyOfSorted(Using(g.env, next.used), auth.factors);
    }
  }

  /** A satisfied authority is satisfied by the used keys alone, when each permission below it is named
      by one authority only or is reached through permissions that hold. */
  lemma UsedKeysSuffice(g: Setting, used: seq<bool>)
    requires Traceable(g) && |used| == |g.env.keys|
    ensures var (ok, end) := Check(g.env, State(used, StartCache(g.env)), g.a, 0);
            ok ==> Meets(Using(g.env, end.used), g.a)
  {
    var st := State(used, StartCache(g.env));
    if g.shared != {} {
      StartExact(g.env);
      assert Ready(g.env, g.within, g.rank, st, {}, Bound(g, Top), 0);
    }
    assert Ongoing(g, Top, st, 0);
    CheckKeys(g, Top, st, g.a, 0);
  }

  // ----- examples of what the cache can do

  lemma SortedOne(f: Factor)
    ensures Sorted([f]) == [f]
  {
    assert [f][..0] == [];
  }

  lemma SortedTwo(f: Factor, g: Factor)
    requires !Precedes(g, f)
    ensures Sorted([f, g]) == [f, g]
  {
    SortedOne(f);
    assert [f, g][..1] == [f];
    assert Insert(g, [f]) == [f] + Insert(g, []);
  }

  lemma VisitOne(env: Env, st: State, f: Factor, total: nat, threshold: nat, depth: nat)
    requires Fits(env, st, depth)
    ensures var (sum, next) := Visit(env, st, f, total, depth);
            VisitAll(env, st, [f], total, threshold, depth) == (sum >= threshold, next)
  {
    var (sum, next) := Visit(env, st, f, total, depth);
    assert [f][1..] == [];
    assert VisitAll(env, next, [], sum, threshold, depth) == (false, next);
  }

  lemma VisitTwo(env: Env, st: State, f: Factor, g: Factor, threshold: nat, depth: nat)
    requires Fits(env, st, depth)
    ensures var (sum, next) := Visit(env, st, f, 0, depth);
            var (both, end) := Visit(env, next, g, sum, depth);
            VisitAll(env, st, [f, g], 0, threshold, depth) ==
            if sum >= threshold then (true, next) else (both >= threshold, end)
  {
    var (sum, next) := Visit(env, st, f, 0, depth);
    assert [f, g][1..] == [g];
    VisitOne(env, next, g, sum, threshold, depth);
  }

  lemma CheckOne(env: Env, st: State, f: Factor, threshold: nat, depth: nat)
    requires Fits(env, st, depth)
    ensures var (sum, next) := Visit(env, st, f, 0, depth);
            Check(env, st, Authority(threshold, [f]), depth) ==
            if sum >= threshold then (true, next) else (false, next.(used := st.used))
  {
    SortedOne(f);
    VisitOne(env, st, f, 0, threshold, depth);
  }

  lemma CheckTwo(env: Env, st: State, f: Factor, g: Factor, threshold: nat, depth: nat)
    requires Fits(env, st, depth) && !Precedes(g, f)
    ensures var (sum, next) := Visit(env, st, f, 0, depth);
            var (both, end) := Visit(env, next, g, sum, depth);
            Check(env, st, Authority(threshold, [f, g]), depth) ==
            if sum >= threshold then (true, next)
            else if both >= threshold then (true, end)
            else (false, end.(used := st.used))
  {
    SortedTwo(f, g);
    VisitTwo(env, st, f, g, threshold, depth);
  }

  const OWNER: Perm := Perm(1, 1)
  const AGENT: Perm := Perm(2, 1)

  /** The owner needs the agent and a key nobody has; the agent needs key 7, which signed. */
  function SharedAgent(): Env {
    Env(map[OWNER := Authority(2, [KeyOf(9, 1), Account(AGENT, 1)]),
            AGENT := Authority(1, [KeyOf(7, 1)])],
        [7], {}, 0, 2)
  }

  function EitherOne(): Authority {
    Authority(1, [Account(OWNER, 2), Account(AGENT, 1)])
  }

  lemma AgentVisit(st: State, depth: nat)
    requires Fits(SharedAgent(), st, depth) && depth < 2 && Lookup(st.cache, AGENT) == None
    ensures Visit(SharedAgent(), st, Account(AGENT, 1), 0, depth) ==
            (1, State([true], st.cache[AGENT := Satisfied]))
  {
    var env, s0 := SharedAgent(), st.(cache := st.cache[AGENT := Evaluating]);
    assert Find(env.keys, 7) == 0;
    assert st.used[0 := true] == [true];
    CheckOne(env, s0, KeyOf(7, 1), 1, depth + 1);
    assert s0.cache[AGENT := Satisfied] == st.cache[AGENT := Satisfied];
  }

  lemma OwnerVisit(st: State)
    requires Fits(SharedAgent(), st, 0) && st.cache == map[]
    ensures Visit(SharedAgent(), st, Account(OWNER, 2), 0, 0) ==
            (0, State(st.used, map[OWNER := Unsatisfied, AGENT := Satisfied]))
  {
    var env, s0 := SharedAgent(), st.(cache := st.cache[OWNER := Evaluating]);
    assert Find(env.keys, 9) == 1;
    AgentVisit(s0, 1);
    CheckTwo(env, s0, KeyOf(9, 1), Account(AGENT, 1), 2, 1);
    assert s0.cache[AGENT := Satisfied][OWNER := Unsatisfied] == map[OWNER := Unsatisfied, AGENT := Satisfied];
  }

  /** The agent is accepted from the cache, so key 7 decides the check and is reported unused. */
  lemma DecidingKeyReportedUnused()
    ensures var env, a := SharedAgent(), EitherOne();
            var (ok, end) := Check(env, Fresh(env), a, 0);
            Named(env) && ok && end.used == [false] && !Meets(Using(env, end.used), a)
  {
    var env, a := SharedAgent(), EitherOne();
    var st := Fresh(env);
    assert st.used == [false];
    OwnerVisit(st);
    CheckTwo(env, st, Account(OWNER, 2), Account(AGENT, 1), 1, 0);
    NothingWithoutKeys(Using(env, [false]));
  }

  lemma NothingWithoutKeys(env: Env)
    requires env == SharedAgent().(keys := [])
    ensures !Meets(env, EitherOne())
  {
    var owner, agent := Account(OWNER, 2), Account(AGENT, 1);
    TallyTwo(env, KeyOf(9, 1), agent);
    TallyTwo(env, owner, agent);
    assert [KeyOf(7, 1)][1..] == [];
    HoldsIff(env, AGENT);
    HoldsIff(env, OWNER);
  }

  lemma TallyTwo(env: Env, f: Factor, g: Factor)
    ensures Tally(env, [f, g]) == Share(env, f) + Share(env, g)
  {
    assert [f, g][1..] == [g] && [g][1..] == [];
    assert Tally(env, [g]) == Share(env, g) + Tally(env, []);
  }

  /** The same authorities with an owner that key 7 satisfies: the agent is still shared, but now below
      a permission that holds. */
  function HeldOwner(): Setting {
    Setting(SharedAgent().(authorities := map[OWNER := Authority(1, [KeyOf(7, 1), Account(AGENT, 1)]),
                                              AGENT := Authority(1, [KeyOf(7, 1)])]),
            EitherOne(), {OWNER, AGENT}, {OWNER, AGENT}, p => if p == OWNER then 1 else 0)
  }

  lemma HeldOwnerIsTraceable()
    ensures Traceable(HeldOwner()) && NamedBy(HeldOwner(), Top, AGENT) && NamedBy(HeldOwner(), Of(OWNER), AGENT)
  {
    var g := HeldOwner();
    TallyTwo(g.env, KeyOf(7, 1), Account(AGENT, 1));
    HoldsIff(g.env, OWNER);
    assert Account(AGENT, 1) in g.a.factors && Account(AGENT, 1) in g.env.authorities[OWNER].factors;
  }

  /** Two permissions in a circle: each follows from the other, and the owner also from key 7. */
  function Circle(): Env {
    Env(map[OWNER := Authority(1, [Account(AGENT, 2), KeyOf(7, 1)]),
            AGENT := Authority(1, [Account(OWNER, 1)])],
        [7], {}, 0, 3)
  }

  function Both(): Authority {
    Authority(2, [Account(OWNER, 1), Account(AGENT, 1)])
  }

  lemma CircleHolds()
    ensures Meets(Circle(), Both())
  {
    var env := Circle();
    TallyTwo(env, Account(AGENT, 2), KeyOf(7, 1));
    TallyTwo(env, Account(OWNER, 1), Account(AGENT, 1));
    assert [Account(OWNER, 1)][1..] == [];
    HoldsIff(env, OWNER);
    HoldsIff(env, AGENT);
  }

  lemma CircleAgentVisit(st: State)
    requires Fits(Circle(), st, 1) && Lookup(st.cache, OWNER) == Some(Evaluating) && Lookup(st.cache, AGENT) == None
    ensures Visit(Circle(), st, Account(AGENT, 2), 0, 1) == (0, st.(cache := st.cache[AGENT := Unsatisfied]))
  {
    var s0 := st.(cache := st.cache[AGENT := Evaluating]);
    CheckOne(Circle(), s0, Account(OWNER, 1), 1, 2);
    assert s0.cache[AGENT := Unsatisfied] == st.cache[AGENT := Unsatisfied];
  }

  lemma CircleOwnerVisit(st: State)
    requires Fits(Circle(), st, 0) && st.cache == map[]
    ensures Visit(Circle(), st, Account(OWNER, 1), 0, 0) ==
            (1, State([true], map[OWNER := Satisfied, AGENT := Unsatisfied]))
  {
    var env, s0 := Circle(), st.(cache := st.cache[OWNER := Evaluating]);
    CircleAgentVisit(s0);
    assert Find(env.keys, 7) == 0;
    assert st.used[0 := true] == [true];
    CheckTwo(env, s0, Account(AGENT, 2), KeyOf(7, 1), 1, 1);
    assert s0.cache[AGENT := Unsatisfied][OWNER := Satisfied] == map[OWNER := Satisfied, AGENT := Unsatisfied];
  }

  /** With a cycle the verdict can be "not satisfied" although the authority is met: the agent is
      settled as unsatisfied while the owner is still being evaluated. */
  lemma CycleHidesAPermission()
    ensures var env, a := Circle(), Both();
            Named(env) && !Check(env, Fresh(env), a, 0).0 && Meets(env, a)
  {
    var env, st := Circle(), Fresh(Circle());
    CircleHolds();
    CircleOwnerVisit(st);
    CheckTwo(env, st, Account(OWNER, 1), Account(AGENT, 1), 2, 0);
  }
}
