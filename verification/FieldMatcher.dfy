/** The two-cursor loop that compares a class with its reflection, and the proof that it
    accepts exactly the claims that match and have no redundant swap. */
module FieldMatcher {
  import opened FieldMatch

  /** The checks that can fail, in the order of the code. */
  datatype Check =
    | SwapNotReflected
    | SwapInOrder
    | IgnoredButReflected
    | IgnoreInOrder
    | FieldMismatch
    | ErroneousIgnores
    | UnknownFields
    | ErroneousSwaps
    | SwapsNeverProvided
    | SwapsNotInClass

  datatype Verdict = Accepted | Rejected(check: Check)

  /** The cursors and the working lists: swapped names not met yet, met in the class only, met in
      the reflection only; ignored names not met yet and met. */
  datatype Walk = Walk(
    f: nat,
    r: nat,
    swapped: seq<Name>,
    back: seq<Name>,
    fwd: seq<Name>,
    ignored: seq<Name>,
    done: seq<Name>)

  datatype Outcome = Go(walk: Walk) | Stop(check: Check)

  /** The list without the first occurrence of `x`. */
  function Removed(names: seq<Name>, x: Name): seq<Name> {
    if names == [] then [] else if names[0] == x then names[1..] else [names[0]] + Removed(names[1..], x)
  }

  lemma {:induction false} RemovedMembers(names: seq<Name>, x: Name)
    requires NoDuplicates(names)
    ensures NoDuplicates(Removed(names, x))
    ensures forall y :: y in Removed(names, x) <==> y in names && y != x
  {
    if names != [] {
      RemovedMembers(names[1..], x);
      assert forall y :: y in names <==> y == names[0] || y in names[1..];
      if names[0] != x {
        var rest := Removed(names[1..], x);
        assert names[0] !in rest;
      }
    }
  }

  /** One iteration of the comparison loop. */
  function Step(c: Claim, w: Walk): Outcome
    requires w.f < |c.fields| && w.r <= |c.reflected|
  {
    var field := c.fields[w.f];
    var more := w.r < |c.reflected|;
    if field in w.swapped then
      if field !in c.reflected then Stop(SwapNotReflected)
      else if more && c.reflected[w.r] == field then Stop(SwapInOrder)
      else Go(w.(f := w.f + 1, swapped := Removed(w.swapped, field), back := w.back + [field]))
    else if more && c.reflected[w.r] in w.swapped then
      var x := c.reflected[w.r];
      Go(w.(r := w.r + 1, swapped := Removed(w.swapped, x), fwd := w.fwd + [x]))
    else if more && c.reflected[w.r] in w.done then Stop(IgnoredButReflected)
    else if field in w.ignored then
      if more && c.reflected[w.r] == field then Stop(IgnoreInOrder)
      else Go(w.(f := w.f + 1, ignored := Removed(w.ignored, field), done := w.done + [field]))
    else if more && c.reflected[w.r] in w.back then
      Go(w.(r := w.r + 1, back := Removed(w.back, c.reflected[w.r])))
    else if field in w.fwd then Go(w.(f := w.f + 1, fwd := Removed(w.fwd, field)))
    else if more && c.reflected[w.r] == field then Go(w.(f := w.f + 1, r := w.r + 1))
    else Stop(FieldMismatch)
  }

  // ----- the invariant

  /** What each list holds is determined by the two cursors. */
  ghost predicate Lists(c: Claim, w: Walk)
    requires w.f <= |c.fields| && w.r <= |c.reflected|
  {
    var F, R := c.fields[..w.f], c.reflected[..w.r];
    && NoDuplicates(w.swapped) && NoDuplicates(w.back) && NoDuplicates(w.fwd) && NoDuplicates(w.ignored)
    && (forall x :: x in w.swapped <==> x in c.swapped && x !in F && x !in R)
    && (forall x :: x in w.back <==> x in c.swapped && x in F && x !in R)
    && (forall x :: x in w.fwd <==> x in c.swapped && x in R && (x !in F || x in w.done))
    && (forall x :: x in c.ignored <==> x in w.ignored || x in w.done)
    && (forall x :: x in w.done ==> x !in w.ignored && x in F && (x in c.swapped ==> x in R))
    && (forall x :: x in c.ignored && x in F && x !in c.swapped ==> x in w.done)
  }

  /** The reflection cursor is between two stops of `Cursor`, having passed swapped names only. */
  ghost predicate OnPath(c: Claim, w: Walk)
    requires w.f <= |c.fields| && w.r <= |c.reflected|
  {
    var k := Cursor(c, w.f);
    && k <= w.r
    && (forall i :: k <= i < w.r ==> c.reflected[i] in c.swapped)
    && (w.f < |c.fields| ==> forall i :: k <= i < w.r ==> c.reflected[i] != c.fields[w.f])
    && (w.f < |c.fields| && c.fields[w.f] in w.swapped ==> w.r == k)
    && (w.f < |c.fields| && c.fields[w.f] in w.ignored ==>
          forall i :: k <= i < w.r ==> Ahead(c, w.f, c.reflected[i]))
  }

  ghost predicate NoneRedundantBefore(c: Claim, f: nat)
    requires f <= |c.fields|
  {
    forall p :: 0 <= p < f ==> !Redundant(c, p)
  }

  ghost predicate Inv(c: Claim, w: Walk) {
    && w.f <= |c.fields| && w.r <= |c.reflected|
    && Lists(c, w) && Kept(c, w.f, w.r) && OnPath(c, w) && NoneRedundantBefore(c, w.f)
  }

  // ----- one iteration

  lemma PrefixSnoc(names: seq<Name>, n: nat)
    requires n < |names|
    ensures forall x :: x in names[..n + 1] <==> x in names[..n] || x == names[n]
    ensures NoDuplicates(names) ==> names[n] !in names[..n]
  {
    assert names[..n + 1] == names[..n] + [names[n]];
  }

  lemma ListsStep(c: Claim, w: Walk)
    requires Proper(c) && w.f < |c.fields| && w.r <= |c.reflected| && Lists(c, w)
    requires Step(c, w).Go?
    ensures var v := Step(c, w).walk; v.f <= |c.fields| && v.r <= |c.reflected| && Lists(c, v)
  {
    var v := Step(c, w).walk;
    var field := c.fields[w.f];
    PrefixSnoc(c.fields, w.f);
    if w.r < |c.reflected| {
      PrefixSnoc(c.reflected, w.r);
    }
    if field in w.swapped {
      RemovedMembers(w.swapped, field);
    } else if w.r < |c.reflected| && c.reflected[w.r] in w.swapped {
      RemovedMembers(w.swapped, c.reflected[w.r]);
    } else if field in w.ignored {
      RemovedMembers(w.ignored, field);
    } else if w.r < |c.reflected| && c.reflected[w.r] in w.back {
      RemovedMembers(w.back, c.reflected[w.r]);
    } else if field in w.fwd {
      RemovedMembers(w.fwd, field);
    }
  }

  /** What kind of name each cursor passes. */
  lemma StepKinds(c: Claim, w: Walk)
    requires Proper(c) && w.f < |c.fields| && w.r <= |c.reflected| && Lists(c, w) && Step(c, w).Go?
    ensures var v := Step(c, w).walk;
            || (v.f == w.f + 1 && v.r == w.r && c.fields[w.f] in c.swapped + c.ignored)
            || (v.f == w.f && v.r == w.r + 1 <= |c.reflected| && c.reflected[w.r] in c.swapped)
            || (v.f == w.f + 1 && v.r == w.r + 1 <= |c.reflected| && c.reflected[w.r] == c.fields[w.f]
                && c.fields[w.f] !in c.swapped + c.ignored)
  {
    PrefixSnoc(c.fields, w.f);
    if w.r < |c.reflected| {
      PrefixSnoc(c.reflected, w.r);
    }
  }

  lemma KeptStep(c: Claim, w: Walk)
    requires Proper(c) && w.f < |c.fields| && w.r <= |c.reflected| && Lists(c, w) && Kept(c, w.f, w.r)
    requires Step(c, w).Go?
    ensures var v := Step(c, w).walk; v.f <= |c.fields| && v.r <= |c.reflected| && Kept(c, v.f, v.r)
  {
    StepKinds(c, w);
    WithoutSnoc(c.fields, w.f, c.swapped + c.ignored);
    if w.r < |c.reflected| {
      WithoutSnoc(c.reflected, w.r, c.swapped);
    }
  }

  lemma {:induction false} SkipSwappedTo(c: Claim, r: nat, k: nat)
    requires r <= k <= |c.reflected|
    requires forall i :: r <= i < k ==> c.reflected[i] in c.swapped
    requires k < |c.reflected| ==> c.reflected[k] !in c.swapped
    ensures SkipSwapped(c, r) == k
    decreases k - r
  {
    if r < k {
      SkipSwappedTo(c, r + 1, k);
    }
  }

  lemma {:induction false} SkipAheadTo(c: Claim, p: nat, r: nat, k: nat)
    requires p <= |c.fields| && r <= k <= |c.reflected|
    requires forall i :: r <= i < k ==> Ahead(c, p, c.reflected[i])
    requires k < |c.reflected| ==> !Ahead(c, p, c.reflected[k])
    ensures SkipAhead(c, p, r) == k
    decreases k - r
  {
    if r < k {
      SkipAheadTo(c, p, r + 1, k);
    }
  }

  /** A swapped field already passed in the reflection was passed before this stop. */
  lemma PassedBefore(c: Claim, w: Walk)
    requires w.f < |c.fields| && w.r <= |c.reflected| && Proper(c) && Lists(c, w) && OnPath(c, w)
    requires c.fields[w.f] in c.swapped && c.fields[w.f] !in w.swapped
    ensures c.fields[w.f] in c.reflected[..Cursor(c, w.f)]
  {
    PrefixSnoc(c.fields, w.f);
    var i :| 0 <= i < w.r && c.reflected[i] == c.fields[w.f];
    assert i < Cursor(c, w.f);
  }

  /** The reflection name under the cursor is not swapped, or was met in the class. */
  lemma NotInSwapped(c: Claim, w: Walk)
    requires w.f < |c.fields| && w.r < |c.reflected| && Proper(c) && Lists(c, w)
    requires c.reflected[w.r] !in w.swapped
    ensures !Ahead(c, w.f, c.reflected[w.r])
    ensures c.reflected[w.r] !in w.back ==> c.reflected[w.r] !in c.swapped
  {
    PrefixSnoc(c.reflected, w.r);
  }

  lemma CursorNext(c: Claim, p: nat)
    requires p < |c.fields|
    ensures var r, x := Cursor(c, p), c.fields[p];
            var k := SkipSwapped(c, r);
            Cursor(c, p + 1) == if x in c.swapped && x !in c.reflected[..r] then r
                                else if x in c.ignored then SkipAhead(c, p, r)
                                else if x in c.swapped || k == |c.reflected| then k else k + 1
  {}

  /** A swapped field is not new to the reflection side of `Cursor` once it has left the list. */
  lemma PassedOrPlain(c: Claim, w: Walk)
    requires w.f < |c.fields| && w.r <= |c.reflected| && Proper(c) && Lists(c, w) && OnPath(c, w)
    requires c.fields[w.f] !in w.swapped
    ensures c.fields[w.f] in c.swapped ==> c.fields[w.f] in c.reflected[..Cursor(c, w.f)]
  {
    if c.fields[w.f] in c.swapped {
      PassedBefore(c, w);
    }
  }

  lemma SwappedArrives(c: Claim, w: Walk)
    requires w.f < |c.fields| && w.r <= |c.reflected| && Lists(c, w) && OnPath(c, w)
    requires c.fields[w.f] in w.swapped
    ensures c.fields[w.f] in c.swapped && c.fields[w.f] !in c.reflected[..Cursor(c, w.f)] && w.r == Cursor(c, w.f)
  {}

  lemma IgnoredArrives(c: Claim, w: Walk)
    requires w.f < |c.fields| && w.r <= |c.reflected| && Proper(c) && Lists(c, w) && OnPath(c, w)
    requires c.fields[w.f] in w.ignored && (w.r < |c.reflected| ==> c.reflected[w.r] !in w.swapped)
    ensures c.fields[w.f] in c.ignored && SkipAhead(c, w.f, Cursor(c, w.f)) == w.r
  {
    if w.r < |c.reflected| {
      NotInSwapped(c, w);
    }
    SkipAheadTo(c, w.f, Cursor(c, w.f), w.r);
  }

  lemma OtherArrives(c: Claim, w: Walk)
    requires w.f < |c.fields| && w.r <= |c.reflected| && Proper(c) && Lists(c, w) && OnPath(c, w)
    requires c.fields[w.f] !in w.swapped && c.fields[w.f] !in w.ignored
    requires w.r < |c.reflected| ==> c.reflected[w.r] !in w.swapped && c.reflected[w.r] !in w.back
    ensures c.fields[w.f] !in c.ignored && SkipSwapped(c, Cursor(c, w.f)) == w.r
    ensures c.fields[w.f] in c.swapped <==> c.fields[w.f] in w.fwd
  {
    if w.r < |c.reflected| {
      NotInSwapped(c, w);
    }
    SkipSwappedTo(c, Cursor(c, w.f), w.r);
    PrefixSnoc(c.fields, w.f);
  }

  /** When the class cursor moves on, the reflection cursor stands at the next stop of `Cursor`. */
  lemma ClassStepArrives(c: Claim, w: Walk)
    requires w.f < |c.fields| && w.r <= |c.reflected| && Proper(c) && Lists(c, w) && OnPath(c, w)
    requires Step(c, w).Go? && Step(c, w).walk.f == w.f + 1
    ensures Cursor(c, w.f + 1) == Step(c, w).walk.r
  {
    CursorNext(c, w.f);
    if c.fields[w.f] in w.swapped {
      SwappedArrives(c, w);
    } else {
      PassedOrPlain(c, w);
      if c.fields[w.f] in w.ignored {
        IgnoredArrives(c, w);
      } else {
        OtherArrives(c, w);
      }
    }
  }

  lemma OnPathStep(c: Claim, w: Walk)
    requires w.f < |c.fields| && w.r <= |c.reflected| && Proper(c) && Lists(c, w) && OnPath(c, w)
    requires Step(c, w).Go?
    ensures var v := Step(c, w).walk; v.f <= |c.fields| && v.r <= |c.reflected| && OnPath(c, v)
  {
    var v := Step(c, w).walk;
    if v.f == w.f + 1 {
      ClassStepArrives(c, w);
    } else {
      ReflectionStepStays(c, w);
    }
  }

  /** Passing one more swapped name other than the current field. */
  lemma PassOne(c: Claim, w: Walk, v: Walk)
    requires w.f < |c.fields| && w.r < |c.reflected| && OnPath(c, w)
    requires v.f == w.f && v.r == w.r + 1 && v.ignored == w.ignored
    requires c.reflected[w.r] in c.swapped && c.reflected[w.r] != c.fields[w.f]
    requires c.fields[w.f] !in v.swapped
    requires c.fields[w.f] in w.ignored ==> Ahead(c, w.f, c.reflected[w.r])
    ensures OnPath(c, v)
  {}

  lemma ReflectionStepStays(c: Claim, w: Walk)
    requires w.f < |c.fields| && w.r <= |c.reflected| && Proper(c) && Lists(c, w) && OnPath(c, w)
    requires Step(c, w).Go? && Step(c, w).walk.f == w.f
    ensures w.r < |c.reflected| && Step(c, w).walk.r == w.r + 1 && OnPath(c, Step(c, w).walk)
  {
    var v, x, field := Step(c, w).walk, c.reflected[w.r], c.fields[w.f];
    assert field !in c.fields[..w.f] by { PrefixSnoc(c.fields, w.f); }
    assert field !in v.swapped by {
      if x in w.swapped { RemovedMembers(w.swapped, x); }
    }
    PassOne(c, w, v);
  }

  lemma NotRedundantStep(c: Claim, w: Walk)
    requires w.f < |c.fields| && w.r <= |c.reflected| && Proper(c) && Lists(c, w) && OnPath(c, w)
    requires Step(c, w).Go? && Step(c, w).walk.f == w.f + 1
    ensures !Redundant(c, w.f)
  {
    if c.fields[w.f] in c.swapped && c.fields[w.f] !in w.swapped {
      PassedBefore(c, w);
    }
  }

  lemma NoneRedundantStep(c: Claim, w: Walk)
    requires w.f < |c.fields| && w.r <= |c.reflected| && Proper(c) && Lists(c, w) && OnPath(c, w)
    requires Step(c, w).Go? && NoneRedundantBefore(c, w.f)
    ensures NoneRedundantBefore(c, Step(c, w).walk.f)
  {
    var f := Step(c, w).walk.f;
    if f == w.f + 1 {
      NotRedundantStep(c, w);
      forall p | 0 <= p < f
        ensures !Redundant(c, p)
      {}
    }
  }

  /** Every iteration that goes on keeps the invariant. */
  lemma StepKeepsInv(c: Claim, w: Walk)
    requires Proper(c) && Inv(c, w) && w.f < |c.fields| && Step(c, w).Go?
    ensures Inv(c, Step(c, w).walk)
  {
    ListsStep(c, w);
    KeptStep(c, w);
    OnPathStep(c, w);
    NoneRedundantStep(c, w);
  }

  /** Every iteration advances a cursor and neither passes its end. */
  lemma StepAdvances(c: Claim, w: Walk)
    requires Proper(c) && Inv(c, w) && w.f < |c.fields| && Step(c, w).Go?
    ensures var v := Step(c, w).walk;
            w.f + w.r < v.f + v.r && v.f <= |c.fields| && v.r <= |c.reflected|
  {
    StepKinds(c, w);
  }

  // ----- what a rejection means

  lemma MismatchMeans(c: Claim, w: Walk)
    requires Proper(c) && Inv(c, w) && w.f < |c.fields| && Step(c, w) == Stop(FieldMismatch)
    ensures Without(c.reflected, c.swapped) != Without(c.fields, c.swapped + c.ignored)
  {
    assert c.fields[w.f] !in c.swapped + c.ignored by {
      PrefixSnoc(c.fields, w.f);
    }
    if w.r < |c.reflected| {
      NotInSwapped(c, w);
    }
    NextKeptDiffers(c, w.f, w.r);
  }

  /** A rejection inside the loop is a real mismatch, or exactly a redundant swap. */
  lemma StopMeans(c: Claim, w: Walk)
    requires Proper(c) && Inv(c, w) && w.f < |c.fields| && Step(c, w).Stop?
    ensures if Step(c, w).check == SwapInOrder then Redundant(c, w.f) else !Matches(c)
  {
    if Step(c, w) == Stop(FieldMismatch) {
      MismatchMeans(c, w);
    }
  }

  // ----- after the loop

  /** The rest of the reflection: the swapped names still owed, and whether anything else was found. */
  function Drain(reflected: seq<Name>, r: nat, back: seq<Name>): (seq<Name>, seq<Name>)
    requires r <= |reflected|
    decreases |reflected| - r
  {
    if r == |reflected| then (back, [])
    else if reflected[r] in back then Drain(reflected, r + 1, Removed(back, reflected[r]))
    else
      var (owed, unused) := Drain(reflected, r + 1, back);
      (owed, [reflected[r]] + unused)
  }

  function Close(c: Claim, w: Walk): Verdict
    requires w.r <= |c.reflected|
  {
    var (owed, unused) := Drain(c.reflected, w.r, w.back);
    if w.ignored != [] then Rejected(ErroneousIgnores)
    else if unused != [] then Rejected(UnknownFields)
    else if w.swapped != [] then Rejected(ErroneousSwaps)
    else if owed != [] then Rejected(SwapsNeverProvided)
    else if w.fwd != [] then Rejected(SwapsNotInClass)
    else Accepted
  }

  lemma {:induction false} DrainMeans(reflected: seq<Name>, r: nat, back: seq<Name>)
    requires r <= |reflected| && NoDuplicates(reflected) && NoDuplicates(back)
    ensures var (owed, unused) := Drain(reflected, r, back);
            && (unused == [] <==> forall i :: r <= i < |reflected| ==> reflected[i] in back)
            && (forall x :: x in owed <==> x in back && x !in reflected[r..])
    decreases |reflected| - r
  {
    if r < |reflected| {
      var x := reflected[r];
      assert reflected[r..] == [x] + reflected[r + 1..];
      RemovedMembers(back, x);
      DrainMeans(reflected, r + 1, if x in back then Removed(back, x) else back);
      assert forall i :: r < i < |reflected| ==> reflected[i] != x;
    }
  }

  /** What is left of the reflection holds swapped names only, exactly when the kept lists agree. */
  lemma TailKept(c: Claim, w: Walk)
    requires w.r <= |c.reflected| && w.f == |c.fields| && Kept(c, w.f, w.r)
    ensures Without(c.reflected, c.swapped) == Without(c.fields, c.swapped + c.ignored)
            <==> forall i :: w.r <= i < |c.reflected| ==> c.reflected[i] in c.swapped
  {
    AgreeAfter(c.reflected, w.r, c.swapped, c.fields, w.f, c.swapped + c.ignored);
    assert c.fields[w.f..] == [];
    var rest := c.reflected[w.r..];
    if forall i :: w.r <= i < |c.reflected| ==> c.reflected[i] in c.swapped {
      if Without(rest, c.swapped) != [] {
        WithoutMember(rest, c.swapped, Without(rest, c.swapped)[0]);
      }
    } else {
      var i :| w.r <= i < |c.reflected| && c.reflected[i] !in c.swapped;
      assert rest[i - w.r] == c.reflected[i];
      WithoutMember(rest, c.swapped, c.reflected[i]);
    }
  }

  lemma InTail(names: seq<Name>, r: nat, x: Name)
    requires r <= |names|
    ensures x in names <==> x in names[..r] || x in names[r..]
    ensures NoDuplicates(names) && x in names[..r] ==> x !in names[r..]
    ensures x in names[r..] <==> exists i :: r <= i < |names| && names[i] == x
  {
    assert names == names[..r] + names[r..];
    forall i | r <= i < |names| && names[i] == x
      ensures x in names[r..]
    {
      assert names[r..][i - r] == x;
    }
  }

  lemma MatchesCloses(c: Claim, w: Walk)
    requires Proper(c) && w.f == |c.fields| && w.r <= |c.reflected| && Lists(c, w) && Matches(c)
    requires forall i :: w.r <= i < |c.reflected| ==> c.reflected[i] in c.swapped
    ensures Close(c, w) == Accepted
  {
    var (owed, unused) := Drain(c.reflected, w.r, w.back);
    DrainMeans(c.reflected, w.r, w.back);
    assert c.fields[..w.f] == c.fields;
    EmptyIff(w.ignored);
    EmptyIff(w.swapped);
    EmptyIff(w.fwd);
    EmptyIff(owed);
    forall i | w.r <= i < |c.reflected|
      ensures c.reflected[i] in w.back
    {
      InTail(c.reflected, w.r, c.reflected[i]);
    }
    forall x: Name
      ensures x !in owed
    {
      InTail(c.reflected, w.r, x);
    }
  }

  lemma EmptyIff(names: seq<Name>)
    ensures names == [] <==> forall x :: x !in names
  {
    if names != [] {
      assert names[0] in names;
    }
  }

  lemma ClosedMatches(c: Claim, w: Walk)
    requires Proper(c) && w.f == |c.fields| && w.r <= |c.reflected| && Lists(c, w) && Kept(c, w.f, w.r)
    requires Close(c, w) == Accepted
    ensures Matches(c)
  {
    DrainMeans(c.reflected, w.r, w.back);
    assert c.fields[..w.f] == c.fields;
    assert c.swapped !! c.ignored by {
      forall x | x in c.swapped
        ensures x !in c.ignored
      {
        assert x in c.ignored ==> x in w.done;
        assert x !in w.fwd;
      }
    }
    forall x | x in c.swapped
      ensures x in c.fields && x in c.reflected
    {
      InTail(c.reflected, w.r, x);
      assert x !in w.swapped && x !in w.fwd;
    }
    forall x | x in c.ignored
      ensures x in c.fields && x !in c.reflected
    {
      assert x in w.done && x !in c.swapped;
      IgnoredNotReflected(c, w, x);
    }
    TailKept(c, w);
  }

  lemma IgnoredNotReflected(c: Claim, w: Walk, x: Name)
    requires Proper(c) && w.f <= |c.fields| && w.r <= |c.reflected| && Lists(c, w) && Kept(c, w.f, w.r)
    requires x in c.ignored && x !in c.swapped
    requires forall i :: w.r <= i < |c.reflected| ==> c.reflected[i] in w.back
    ensures x !in c.reflected
  {
    InTail(c.reflected, w.r, x);
    WithoutMember(c.reflected[..w.r], c.swapped, x);
    WithoutMember(c.fields[..w.f], c.swapped + c.ignored, x);
  }

  /** The closing checks pass exactly when the claim matches. */
  lemma CloseMeans(c: Claim, w: Walk)
    requires Proper(c) && Inv(c, w) && w.f == |c.fields|
    ensures Close(c, w) == Accepted <==> Matches(c)
  {
    if Matches(c) {
      TailKept(c, w);
      MatchesCloses(c, w);
    }
    if Close(c, w) == Accepted {
      ClosedMatches(c, w);
    }
  }

  // ----- the whole comparison

  function Start(swapped: seq<Name>, ignored: seq<Name>): Walk {
    Walk(0, 0, swapped, [], [], ignored, [])
  }

  /** The verdict of the comparison continued from `w`. */
  function Compare(c: Claim, w: Walk): Verdict
    requires w.f <= |c.fields| && w.r <= |c.reflected|
    decreases |c.fields| - w.f + |c.reflected| - w.r
  {
    if w.f == |c.fields| then Close(c, w)
    else
      match Step(c, w)
      case Stop(check) => Rejected(check)
      case Go(v) => Compare(c, v)
  }

  lemma StartInv(c: Claim, swapped: seq<Name>, ignored: seq<Name>)
    requires NoDuplicates(swapped) && NoDuplicates(ignored)
    requires c.swapped == NameSet(swapped) && c.ignored == NameSet(ignored)
    ensures Inv(c, Start(swapped, ignored))
  {}

  /** From any state of an unrejected run, the comparison accepts exactly when the claim matches
      and no swap is redundant; a matching claim can only be refused for a redundant swap. */
  lemma {:induction false} CompareMeans(c: Claim, w: Walk)
    requires Proper(c) && Inv(c, w)
    ensures Compare(c, w) == Accepted <==> Matches(c) && NoRedundantSwap(c)
    ensures Matches(c) ==> Compare(c, w) == Accepted || Compare(c, w) == Rejected(SwapInOrder)
    decreases |c.fields| - w.f + |c.reflected| - w.r
  {
    if w.f == |c.fields| {
      CloseMeans(c, w);
    } else if Step(c, w).Go? {
      StepKeepsInv(c, w);
      StepAdvances(c, w);
      CompareMeans(c, Step(c, w).walk);
    } else {
      StopMeans(c, w);
    }
  }

  // ----- the reported reason

  /** What a rejection says about the claim. */
  ghost predicate Reason(c: Claim, check: Check) {
    match check
    case SwapNotReflected => exists x :: x in c.swapped && x in c.fields && x !in c.reflected
    case SwapInOrder => exists p :: 0 <= p < |c.fields| && Redundant(c, p)
    case IgnoredButReflected => exists x :: x in c.ignored && x in c.reflected
    case IgnoreInOrder => exists x :: x in c.ignored && x in c.reflected
    case FieldMismatch => Without(c.reflected, c.swapped) != Without(c.fields, c.swapped + c.ignored)
    case ErroneousIgnores => exists x :: x in c.ignored && (x !in c.fields || x in c.swapped)
    case UnknownFields => exists x :: x in c.reflected && (x !in c.fields || x in c.ignored)
    case ErroneousSwaps => exists x :: x in c.swapped && x !in c.fields && x !in c.reflected
    case SwapsNeverProvided => exists x :: x in c.swapped && x in c.fields && x !in c.reflected
    case SwapsNotInClass => exists x :: x in c.swapped && x in c.reflected && (x !in c.fields || x in c.ignored)
  }

  lemma StopReason(c: Claim, w: Walk)
    requires Proper(c) && Inv(c, w) && w.f < |c.fields| && Step(c, w).Stop?
    ensures Reason(c, Step(c, w).check)
  {
    StopMeans(c, w);
    var field := c.fields[w.f];
    assert field in c.fields;
    match Step(c, w).check
    case SwapNotReflected => assert field in c.swapped;
    case IgnoredButReflected => assert c.reflected[w.r] in c.ignored && c.reflected[w.r] in c.reflected;
    case IgnoreInOrder => assert field in c.ignored && field in c.reflected;
    case FieldMismatch => MismatchMeans(c, w);
    case _ =>
  }

  /** A name of the reflection that is not owed when the class is used up. */
  lemma UnknownMeans(c: Claim, w: Walk, i: nat)
    requires Proper(c) && w.f == |c.fields| && w.r <= i < |c.reflected| && Lists(c, w) && Kept(c, w.f, w.r)
    requires c.reflected[i] !in w.back
    ensures c.reflected[i] !in c.fields || c.reflected[i] in c.ignored
  {
    var x := c.reflected[i];
    assert c.fields[..w.f] == c.fields;
    InTail(c.reflected, w.r, x);
    if x !in c.swapped {
      WithoutMember(c.reflected[..w.r], c.swapped, x);
      WithoutMember(c.fields, c.swapped + c.ignored, x);
    }
  }

  lemma CloseReason(c: Claim, w: Walk)
    requires Proper(c) && Inv(c, w) && w.f == |c.fields| && Close(c, w).Rejected?
    ensures Reason(c, Close(c, w).check)
  {
    var (owed, unused) := Drain(c.reflected, w.r, w.back);
    DrainMeans(c.reflected, w.r, w.back);
    assert c.fields[..w.f] == c.fields;
    match Close(c, w).check
    case ErroneousIgnores => assert w.ignored[0] in w.ignored && w.ignored[0] !in w.done;
    case UnknownFields =>
      var i :| w.r <= i < |c.reflected| && c.reflected[i] !in w.back;
      UnknownMeans(c, w, i);
    case ErroneousSwaps =>
      var x := w.swapped[0];
      InTail(c.reflected, w.r, x);
      assert x in w.swapped && x !in c.fields && x !in c.reflected;
    case SwapsNeverProvided =>
      var x := owed[0];
      InTail(c.reflected, w.r, x);
      assert x in owed && x in c.fields && x !in c.reflected;
    case SwapsNotInClass =>
      var x := w.fwd[0];
      InTail(c.reflected, w.r, x);
      assert x in w.fwd && x in c.reflected;
    case _ =>
  }

  /** Every rejection has the reason it reports. */
  lemma {:induction false} RejectedMeans(c: Claim, w: Walk)
    requires Proper(c) && Inv(c, w) && Compare(c, w).Rejected?
    ensures Reason(c, Compare(c, w).check)
    decreases |c.fields| - w.f + |c.reflected| - w.r
  {
    if w.f == |c.fields| {
      CloseReason(c, w);
    } else if Step(c, w).Go? {
      StepKeepsInv(c, w);
      StepAdvances(c, w);
      RejectedMeans(c, Step(c, w).walk);
    } else {
      StopReason(c, w);
    }
  }

  /** A redundant swap that is reported can be taken back, and the trimmed claim is accepted. */
  lemma TrimmedIsAccepted(c: Claim) returns (d: Claim, swapped: seq<Name>, ignored: seq<Name>)
    requires Proper(c) && Matches(c)
    ensures d == c.(swapped := d.swapped) && d.swapped <= c.swapped
    ensures NameSet(swapped) == d.swapped && NameSet(ignored) == d.ignored
    ensures Compare(d, Start(swapped, ignored)) == Accepted
  {
    d := Trimmed(c);
    swapped := Listed(d.swapped);
    ignored := Listed(d.ignored);
    StartInv(d, swapped, ignored);
    CompareMeans(d, Start(swapped, ignored));
  }

  lemma {:induction false} Listed(names: set<Name>) returns (list: seq<Name>)
    ensures NoDuplicates(list) && NameSet(list) == names
    decreases |names|
  {
    if names == {} {
      list := [];
    } else {
      var x :| x in names;
      var rest := Listed(names - {x});
      list := rest + [x];
      assert forall y :: y in rest <==> y in NameSet(rest);
      assert NameSet(list) == NameSet(rest) + {x};
    }
  }
}
