/** Which keys a check marks as used: never more than it looked at and needed. */
module AuthorityMarks {
  import opened Options
  import opened AuthorityCheck

  // ----- every mark has a reason

  /** Key `k` is one of the factors, or a factor of the authority of a permission among them that
      holds, and so on for `h` steps. */
  ghost predicate Mentions(env: Env, fs: seq<Factor>, k: nat, h: nat)
    decreases h
  {
    exists f :: f in fs && MentionedBy(env, f, k, h)
  }

  ghost predicate MentionedBy(env: Env, f: Factor, k: nat, h: nat)
    decreases h, 0
  {
    match f
    case KeyOf(key, _) => key == k
    case Account(p, _) => h > 0 && p in env.authorities && Holds(env, p) && Mentions(env, env.authorities[p].factors, k, h - 1)
    case Wait(_, _) => false
  }

  /** Every key marked in `v` but not in `u` is mentioned. */
  ghost predicate MarksMentioned(env: Env, fs: seq<Factor>, h: nat, u: seq<bool>, v: seq<bool>) {
    |u| == |v| == |env.keys| && forall i :: 0 <= i < |u| && v[i] && !u[i] ==> Mentions(env, fs, env.keys[i], h)
  }

  lemma MentionsMore(env: Env, fs: seq<Factor>, gs: seq<Factor>, h: nat, u: seq<bool>, v: seq<bool>)
    requires MarksMentioned(env, fs, h, u, v) && forall f :: f in fs ==> f in gs
    ensures MarksMentioned(env, gs, h, u, v)
  {}

  lemma {:induction false} VisitMarks(env: Env, st: State, f: Factor, total: nat, depth: nat)
    requires Named(env) && Fits(env, st, depth) && Sound(env, st.cache)
    ensures MarksMentioned(env, [f], env.limit - depth, st.used, Visit(env, st, f, total, depth).1.used)
    decreases env.limit - depth, 0
  {
    assert f in [f];
    if f.Account? && Lookup(st.cache, f.perm) == None && depth < env.limit && f.perm in env.authorities {
      var p := f.perm;
      var s0 := st.(cache := st.cache[p := Evaluating]);
      SoundAfter(env, st.cache, p, Evaluating);
      CheckMarks(env, s0, env.authorities[p], depth + 1);
      CheckSound(env, s0, env.authorities[p], depth + 1);
      HoldsIff(env, p);
    }
  }

  lemma {:induction false} VisitAllMarks(env: Env, st: State, fs: seq<Factor>, total: nat, threshold: nat, depth: nat)
    requires Named(env) && Fits(env, st, depth) && Sound(env, st.cache)
    ensures MarksMentioned(env, fs, env.limit - depth, st.used,
                           VisitAll(env, st, fs, total, threshold, depth).1.used)
    decreases env.limit - depth, |fs| + 1
  {
    if fs != [] {
      VisitMarks(env, st, fs[0], total, depth);
      VisitSound(env, st, fs[0], total, depth);
      var (sum, next) := Visit(env, st, fs[0], total, depth);
      MentionsMore(env, [fs[0]], fs, env.limit - depth, st.used, next.used);
      if sum < threshold {
        VisitAllMarks(env, next, fs[1..], sum, threshold, depth);
        var end := VisitAll(env, next, fs[1..], sum, threshold, depth).1;
        MentionsMore(env, fs[1..], fs, env.limit - depth, next.used, end.used);
      }
    }
  }

  /** A check that fails marks nothing. A check that succeeds marks only keys of the authority, and of
      the authorities of permissions below it that hold. */
  lemma {:induction false} CheckMarks(env: Env, st: State, a: Authority, depth: nat)
    requires Named(env) && Fits(env, st, depth) && Sound(env, st.cache)
    ensures var (ok, next) := Check(env, st, a, depth);
            if ok then MarksMentioned(env, a.factors, env.limit - depth, st.used, next.used) else next.used == st.used
    decreases env.limit - depth, |a.factors| + 2
  {
    VisitAllMarks(env, st, Sorted(a.factors), 0, a.threshold, depth);
    forall f | f in Sorted(a.factors)
      ensures f in a.factors
    {
      SortedMembers(a.factors, f);
    }
    MentionsMore(env, Sorted(a.factors), a.factors, env.limit - depth, st.used,
                 VisitAll(env, st, Sorted(a.factors), 0, a.threshold, depth).1.used);
  }

  // ----- the order of the factors

  /** Heavier factors come first; of equal weight, waits before keys before accounts. */
  lemma HeaviestFirst(fs: seq<Factor>, i: nat, j: nat)
    requires i < j < |fs|
    ensures var f, g := Sorted(fs)[i], Sorted(fs)[j];
            && f.weight >= g.weight
            && (f.weight == g.weight ==> (f.KeyOf? ==> !g.Wait?) && (f.Account? ==> g.Account?))
  {
    SortedIsOrdered(fs);
    assert !Precedes(Sorted(fs)[j], Sorted(fs)[i]);
  }

  /** The factors of one kind and weight, in order. */
  ghost function Alike(fs: seq<Factor>, f: Factor): seq<Factor> {
    if fs == [] then [] else (if SameRank(fs[0], f) then [fs[0]] else []) + Alike(fs[1..], f)
  }

  predicate SameRank(f: Factor, g: Factor) {
    f.weight == g.weight && f.Wait? == g.Wait? && f.KeyOf? == g.KeyOf?
  }

  lemma {:induction false} AlikeSnoc(fs: seq<Factor>, g: Factor, f: Factor)
    ensures Alike(fs + [g], f) == Alike(fs, f) + if SameRank(g, f) then [g] else []
    decreases |fs|
  {
    if fs == [] {
      assert fs + [g] == [g] && [g][1..] == [];
    } else {
      AlikeSnoc(fs[1..], g, f);
      assert (fs + [g])[1..] == fs[1..] + [g];
    }
  }

  lemma {:induction false} NoneAlike(s: seq<Factor>, f: Factor)
    requires forall g :: g in s ==> !SameRank(g, f)
    ensures Alike(s, f) == []
    decreases |s|
  {
    if s != [] {
      NoneAlike(s[1..], f);
    }
  }

  lemma AlikeCons(g: Factor, s: seq<Factor>, f: Factor)
    ensures Alike([g] + s, f) == (if SameRank(g, f) then [g] else []) + Alike(s, f)
  {
    assert ([g] + s)[1..] == s;
  }

  lemma PrecedingIsNew(g: Factor, s: seq<Factor>, f: Factor)
    requires InOrder(s) && s != [] && Precedes(g, s[0]) && SameRank(g, f)
    ensures Alike(s, f) == []
  {
    forall x | x in s
      ensures !SameRank(x, f)
    {
      var j :| 0 <= j < |s| && s[j] == x;
      assert j == 0 || !Precedes(s[j], s[0]);
    }
    NoneAlike(s, f);
  }

  /** A new factor goes behind those of its kind and weight. */
  lemma {:induction false} AlikeInsert(g: Factor, s: seq<Factor>, f: Factor)
    requires InOrder(s)
    ensures Alike(Insert(g, s), f) == Alike(s, f) + if SameRank(g, f) then [g] else []
    decreases |s|
  {
    var own: seq<Factor> := if SameRank(g, f) then [g] else [];
    if s == [] {
      AlikeCons(g, [], f);
      assert [g] + [] == [g];
    } else if Precedes(g, s[0]) {
      AlikeCons(g, s, f);
      if SameRank(g, f) {
        PrecedingIsNew(g, s, f);
      }
    } else {
      AlikeInsert(g, s[1..], f);
      AlikeCons(s[0], Insert(g, s[1..]), f);
      var first: seq<Factor> := if SameRank(s[0], f) then [s[0]] else [];
      assert first + (Alike(s[1..], f) + own) == (first + Alike(s[1..], f)) + own;
    }
  }

  lemma SortedFront(fs: seq<Factor>, g: Factor)
    ensures Sorted(fs + [g]) == Insert(g, Sorted(fs))
  {
    assert (fs + [g])[..|fs|] == fs;
  }

  /** Factors of the same kind and weight stay in the order of the authority. */
  lemma {:induction false} SortedIsStable(fs: seq<Factor>, f: Factor)
    ensures Alike(Sorted(fs), f) == Alike(fs, f)
    decreases |fs|
  {
    if fs != [] {
      var rest, g := fs[..|fs| - 1], fs[|fs| - 1];
      assert fs == rest + [g];
      SortedIsStable(rest, f);
      assert InOrder(Sorted(rest)) by { SortedIsOrdered(rest); }
      AlikeInsert(g, Sorted(rest), f);
      AlikeSnoc(rest, g, f);
      SortedFront(rest, g);
    }
  }

  // ----- authorities of keys and waits

  ghost predicate Direct(fs: seq<Factor>) {
    forall f :: f in fs ==> !f.Account?
  }

  /** The first `n` factors are the fewest, at least one, whose shares reach the threshold on top of `total`. */
  ghost predicate Enough(env: Env, fs: seq<Factor>, total: nat, threshold: nat, n: nat) {
    && 1 <= n <= |fs| && total + Tally(env, fs[..n]) >= threshold
    && TooFew(env, fs, total, threshold, n - 1)
  }

  /** No number of factors up to `n` reaches the threshold. */
  ghost predicate TooFew(env: Env, fs: seq<Factor>, total: nat, threshold: nat, n: nat) {
    n <= |fs| && forall m :: 1 <= m <= n ==> total + Tally(env, fs[..m]) < threshold
  }

  ghost predicate NamesKey(fs: seq<Factor>, k: nat) {
    exists f :: f in fs && f.KeyOf? && f.key == k
  }

  /** `v` marks what `u` marks and, at its first place, every provided key that the factors name. */
  ghost predicate MarkedBy(env: Env, fs: seq<Factor>, u: seq<bool>, v: seq<bool>) {
    && |u| == |v| == |env.keys|
    && forall i :: 0 <= i < |u| ==> (v[i] <==> u[i] || (env.keys[i] !in env.keys[..i] && NamesKey(fs, env.keys[i])))
  }

  lemma {:induction false} FindsFirst(keys: seq<nat>, k: nat)
    ensures k !in keys[..Find(keys, k)]
    decreases |keys|
  {
    if keys != [] && keys[0] != k {
      FindsFirst(keys[1..], k);
      assert keys[..Find(keys, k)] == [keys[0]] + keys[1..][..Find(keys[1..], k)];
    }
  }

  lemma FindIs(keys: seq<nat>, k: nat, i: nat)
    requires i < |keys|
    ensures Find(keys, k) == i <==> keys[i] == k && k !in keys[..i]
  {
    FindsFirst(keys, k);
    var j := Find(keys, k);
    if keys[i] == k && j < i {
      assert keys[..i][j] == k;
    }
    if j < |keys| && i < j {
      assert keys[..j][i] == keys[i];
    }
  }

  lemma DirectVisit(env: Env, st: State, f: Factor, total: nat, depth: nat)
    requires Fits(env, st, depth) && !f.Account?
    ensures var (sum, next) := Visit(env, st, f, total, depth);
            sum == total + Share(env, f) && next.cache == st.cache && MarkedBy(env, [f], st.used, next.used)
  {
    assert forall g :: g in [f] <==> g == f;
    if f.KeyOf? {
      var next := Visit(env, st, f, total, depth).1;
      forall i | 0 <= i < |st.used|
        ensures next.used[i] <==> st.used[i] || (env.keys[i] !in env.keys[..i] && NamesKey([f], env.keys[i]))
      {
        FindIs(env.keys, f.key, i);
        if env.keys[i] == f.key {
          assert f in [f] && f.KeyOf? && f.key == env.keys[i];
        }
      }
    }
  }

  lemma MarkedTwice(env: Env, f: Factor, fs: seq<Factor>, u: seq<bool>, v: seq<bool>, w: seq<bool>)
    requires MarkedBy(env, [f], u, v) && MarkedBy(env, fs, v, w)
    ensures MarkedBy(env, [f] + fs, u, w)
  {
    forall k: nat
      ensures NamesKey([f] + fs, k) <==> NamesKey([f], k) || NamesKey(fs, k)
    {
      assert forall g :: g in [f] + fs <==> g in [f] || g in fs;
    }
  }

  lemma TallyCons(env: Env, fs: seq<Factor>, m: nat)
    requires 1 <= m <= |fs|
    ensures Tally(env, fs[..m]) == Share(env, fs[0]) + Tally(env, fs[1..][..m - 1])
  {
    assert fs[..m][1..] == fs[1..][..m - 1];
  }

  lemma TooFewCons(env: Env, fs: seq<Factor>, total: nat, threshold: nat, n: nat)
    requires fs != [] && n < |fs| && total + Share(env, fs[0]) < threshold
    requires TooFew(env, fs[1..], total + Share(env, fs[0]), threshold, n)
    ensures TooFew(env, fs, total, threshold, n + 1)
  {
    forall m | 1 <= m <= n + 1
      ensures total + Tally(env, fs[..m]) < threshold
    {
      TallyCons(env, fs, m);
      if m > 1 {
        assert total + Share(env, fs[0]) + Tally(env, fs[1..][..m - 1]) < threshold;
      }
    }
  }

  lemma {:induction false} DirectVisitAll(env: Env, st: State, fs: seq<Factor>, total: nat, threshold: nat, depth: nat)
    returns (n: nat)
    requires Fits(env, st, depth) && Direct(fs)
    ensures var (ok, next) := VisitAll(env, st, fs, total, threshold, depth);
            && next.cache == st.cache
            && (if ok then Enough(env, fs, total, threshold, n) && MarkedBy(env, fs[..n], st.used, next.used)
                else TooFew(env, fs, total, threshold, |fs|))
    decreases |fs|
  {
    n := 0;
    if fs != [] {
      DirectVisit(env, st, fs[0], total, depth);
      var (sum, next) := Visit(env, st, fs[0], total, depth);
      TallyCons(env, fs, 1);
      if sum >= threshold {
        n := 1;
        assert fs[..1] == [fs[0]];
      } else {
        var rest := DirectVisitAll(env, next, fs[1..], sum, threshold, depth);
        var (ok, end) := VisitAll(env, next, fs[1..], sum, threshold, depth);
        if ok {
          n := rest + 1;
          TooFewCons(env, fs, total, threshold, rest - 1);
          TallyCons(env, fs, n);
          MarkedTwice(env, fs[0], fs[1..][..rest], st.used, next.used, end.used);
          assert fs[..n] == [fs[0]] + fs[1..][..rest];
        } else {
          TooFewCons(env, fs, total, threshold, |fs| - 1);
        }
      }
    }
  }

  /** An authority of keys and waits is satisfied exactly when its heaviest factors reach the threshold,
      and then the keys newly marked are the provided ones among the fewest factors that do. */
  lemma DirectCheck(env: Env, st: State, a: Authority, depth: nat) returns (n: nat)
    requires Fits(env, st, depth) && Direct(a.factors)
    ensures var (ok, next) := Check(env, st, a, depth);
            var fs := Sorted(a.factors);
            && next.cache == st.cache
            && (if ok then Enough(env, fs, 0, a.threshold, n) && MarkedBy(env, fs[..n], st.used, next.used)
                else TooFew(env, fs, 0, a.threshold, |fs|) && next.used == st.used)
  {
    var fs := Sorted(a.factors);
    forall f | f in fs
      ensures !f.Account?
    {
      SortedMembers(a.factors, f);
    }
    n := DirectVisitAll(env, st, fs, 0, a.threshold, depth);
  }
}
