/** The reflections found in a file, built up macro by macro and then validated. */
module ReflectionsModel {
  import opened FieldMatch
  import opened FieldMatcher

  /** One reflection macro: its fields and the names its comments declare. */
  datatype Reflection = Reflection(fields: seq<Name>, ignored: seq<Name>, swapped: seq<Name>)

  /** No field, ignored name or swapped name is repeated, and no name is ignored and swapped. */
  predicate WellFormed(r: Reflection) {
    && NoDuplicates(r.fields) && NoDuplicates(r.ignored) && NoDuplicates(r.swapped)
    && NameSet(r.ignored) !! NameSet(r.swapped)
  }

  /** The kind of a comment. */
  datatype Kind = Ignore | Swap

  function Declared(r: Reflection, kind: Kind, x: Name): Reflection {
    if kind == Ignore then r.(ignored := r.ignored + [x]) else r.(swapped := r.swapped + [x])
  }

  /** The name is in neither comment yet. */
  predicate Undeclared(r: Reflection, x: Name) { x !in r.ignored && x !in r.swapped }

  /** The first `k` names are new to both comments and to each other. */
  ghost predicate NewUpTo(r: Reflection, names: seq<Name>, k: nat) {
    k <= |names| && forall i :: 0 <= i < k ==> Undeclared(r, names[i]) && names[i] !in names[..i]
  }

  /** They are, and the name behind them, if there is one, is not. */
  ghost predicate FirstRefused(r: Reflection, names: seq<Name>, k: nat) {
    NewUpTo(r, names, k) && (k < |names| ==> !Undeclared(r, names[k]) || names[k] in names[..k])
  }

  /** None of the names is repeated or declared already. */
  ghost predicate AllNew(r: Reflection, names: seq<Name>) {
    NoDuplicates(names) && forall x :: x in names ==> Undeclared(r, x)
  }

  lemma AllNewIff(r: Reflection, names: seq<Name>, k: nat)
    requires FirstRefused(r, names, k)
    ensures AllNew(r, names) <==> k == |names|
  {
    if k == |names| {
      forall i, j | 0 <= i < j < |names|
        ensures names[i] != names[j]
      {
        assert names[..j][i] == names[i];
      }
    }
  }

  /** `r` is `was` with `added` behind the list of that kind. */
  ghost predicate Filed(was: Reflection, kind: Kind, added: seq<Name>, r: Reflection) {
    && r.fields == was.fields
    && r.ignored == was.ignored + (if kind == Ignore then added else [])
    && r.swapped == was.swapped + (if kind == Swap then added else [])
  }

  /** One more name of a comment is filed, or is the first refused. */
  lemma FiledOne(was: Reflection, kind: Kind, names: seq<Name>, k: nat, r: Reflection)
    requires k < |names| && NewUpTo(was, names, k) && Filed(was, kind, names[..k], r)
    ensures if Undeclared(r, names[k])
            then NewUpTo(was, names, k + 1) && Filed(was, kind, names[..k + 1], Declared(r, kind, names[k]))
            else FirstRefused(was, names, k)
  {
    assert names[..k + 1] == names[..k] + [names[k]];
    assert Undeclared(r, names[k]) <==> Undeclared(was, names[k]) && names[k] !in names[..k];
  }

  const ID: Name := "id"

  /** The claim that a reflection makes about a class. An object stored in the database gets its
      id ignored, unless the reflection mentions the id itself. */
  function ClaimOf(r: Reflection, fields: seq<Name>, ignoreId: bool): Claim {
    var implicit := ignoreId && ID !in r.ignored && ID !in r.fields;
    Claim(fields, r.fields, NameSet(r.swapped), NameSet(r.ignored) + if implicit then {ID} else {})
  }

  lemma DeclaredWellFormed(r: Reflection, kind: Kind, x: Name)
    requires WellFormed(r) && Undeclared(r, x)
    ensures WellFormed(Declared(r, kind, x))
  {
    assert NameSet(r.ignored + [x]) == NameSet(r.ignored) + {x};
    assert NameSet(r.swapped + [x]) == NameSet(r.swapped) + {x};
  }

  /** An object stored in the database may leave its id out of the reflection, and only such an
      object may. */
  lemma IdMayBeLeftOut(fields: seq<Name>, ignoreId: bool)
    requires NoDuplicates(["id"] + fields)
    ensures var c := ClaimOf(Reflection(fields, [], []), ["id"] + fields, ignoreId);
            Matches(c) && NoRedundantSwap(c) <==> ignoreId
  {
    var c := ClaimOf(Reflection(fields, [], []), ["id"] + fields, ignoreId);
    assert (["id"] + fields)[0] == "id" && forall i :: 0 <= i < |fields| ==> (["id"] + fields)[i + 1] == fields[i];
    assert "id" !in fields;
    assert c == Claim(["id"] + fields, fields, {}, if ignoreId then {"id"} else {});
    LeftOut("id", fields, c.ignored);
    NothingSwapped(c);
  }

  lemma LeftOut(x: Name, fields: seq<Name>, ignored: set<Name>)
    requires x !in fields && ignored <= {x}
    ensures Matches(Claim([x] + fields, fields, {}, ignored)) <==> x in ignored
  {
    var c := Claim([x] + fields, fields, {}, ignored);
    KeepAll(fields, {});
    WithoutFront(x, fields, c.swapped + c.ignored);
    if x in ignored {
      assert [] + fields == fields;
      assert ignored == {x};
    }
    LeftOutClaim(c, x, Without(c.reflected, c.swapped), Without(c.fields, c.swapped + c.ignored));
  }

  lemma LeftOutClaim(c: Claim, x: Name, kept: seq<Name>, all: seq<Name>)
    requires c.swapped == {} && x in c.fields && x !in c.reflected
    requires kept == Without(c.reflected, c.swapped) && all == Without(c.fields, c.swapped + c.ignored)
    requires if x in c.ignored then c.ignored == {x} && all == kept else |all| == |kept| + 1
    ensures Matches(c) <==> x in c.ignored
  {
    assert x !in c.ignored ==> all != kept;
  }

  lemma WithoutFront(x: Name, fields: seq<Name>, drop: set<Name>)
    requires x !in fields && drop <= {x}
    ensures Without([x] + fields, drop) == (if x in drop then [] else [x]) + fields
  {
    assert ([x] + fields)[1..] == fields;
    WithoutHead([x] + fields, drop);
    KeepAll(fields, drop);
  }

  lemma NothingSwapped(c: Claim)
    requires c.swapped == {}
    ensures NoRedundantSwap(c)
  {}

  lemma {:induction false} KeepAll(names: seq<Name>, drop: set<Name>)
    requires forall x :: x in names ==> x !in drop
    ensures Without(names, drop) == names
  {
    if names != [] {
      KeepAll(names[..|names| - 1], drop);
    }
  }

  lemma ComparisonMeans(c: Claim, swapped: seq<Name>, ignored: seq<Name>)
    requires Proper(c) && NoDuplicates(swapped) && NoDuplicates(ignored)
    requires c.swapped == NameSet(swapped) && c.ignored == NameSet(ignored)
    ensures Inv(c, Start(swapped, ignored))
    ensures var verdict := Compare(c, Start(swapped, ignored));
            && (verdict == Accepted <==> Matches(c) && NoRedundantSwap(c))
            && (Matches(c) && verdict != Accepted ==> verdict == Rejected(SwapInOrder))
            && (verdict.Rejected? ==> Reason(c, verdict.check))
  {
    StartInv(c, swapped, ignored);
    CompareMeans(c, Start(swapped, ignored));
    if Compare(c, Start(swapped, ignored)).Rejected? {
      RejectedMeans(c, Start(swapped, ignored));
    }
  }

  class Reflections {
    var classes: map<Name, Reflection>

    ghost predicate Valid()
      reads this
    {
      forall name :: name in classes ==> WellFormed(classes[name])
    }

    constructor ()
      ensures classes == map[] && Valid()
    {
      classes := map[];
    }

    ghost function Known(name: Name): Reflection
      reads this
    {
      if name in classes then classes[name] else Reflection([], [], [])
    }

    method FindOrAdd(name: Name) returns (r: Reflection)
      requires Valid()
      modifies this
      ensures Valid() && r == old(Known(name)) && classes == old(classes)[name := r]
    {
      if name !in classes {
        classes := classes[name := Reflection([], [], [])];
      }
      r := classes[name];
    }

    method AddField(name: Name, field: Name) returns (ok: bool)
      requires Valid()
      modifies this
      ensures Valid()
      ensures ok <==> field !in old(Known(name)).fields
      ensures var was := old(Known(name));
              classes == old(classes)[name := Reflection(if ok then was.fields + [field] else was.fields, was.ignored, was.swapped)]
    {
      var r := FindOrAdd(name);
      ok := field !in r.fields;
      if ok {
        classes := classes[name := r.(fields := r.fields + [field])];
      }
    }

    /** Declares one name, unless it is declared already. */
    method Declare(name: Name, kind: Kind, x: Name) returns (ok: bool)
      requires Valid()
      modifies this
      ensures Valid() && (ok <==> Undeclared(old(Known(name)), x))
      ensures classes == old(classes)[name := if ok then Declared(old(Known(name)), kind, x) else old(Known(name))]
    {
      var r := FindOrAdd(name);
      ok := x !in r.ignored && x !in r.swapped;
      if ok {
        DeclaredWellFormed(r, kind, x);
        classes := classes[name := Declared(r, kind, x)];
      }
    }

    /** Declares the names of one comment in the list of its kind, stopping at the first, `k`, that is
        declared already. */
    method AddIgnoreSwaps(name: Name, kind: Kind, names: seq<Name>) returns (ok: bool, ghost k: nat)
      requires Valid()
      modifies this
      ensures Valid()
      ensures ok <==> AllNew(old(Known(name)), names)
      ensures FirstRefused(old(Known(name)), names, k) && Filed(old(Known(name)), kind, names[..k], Known(name))
      ensures classes == if names == [] then old(classes) else old(classes)[name := Known(name)]
    {
      ok, k := true, 0;
      var current := 0;
      ghost var was := Known(name);
      while current < |names|
        invariant 0 <= current <= |names| && ok && Valid()
        invariant classes == if current == 0 then old(classes) else old(classes)[name := Known(name)]
        invariant NewUpTo(was, names, current) && Filed(was, kind, names[..current], Known(name))
      {
        FiledOne(was, kind, names, current, Known(name));
        k := current;
        ok := Declare(name, kind, names[current]);
        if !ok {
          AllNewIff(was, names, current);
          return;
        }
        current := current + 1;
      }
      k := current;
      AllNewIff(was, names, current);
    }

    /** Compares a class with its reflection. The working lists of the reflection are used up. */
    method Validate(name: Name, fields: seq<Name>, ignoreId: bool) returns (verdict: Verdict)
      requires Valid() && name in classes && NoDuplicates(fields)
      modifies this
      ensures var c := ClaimOf(old(classes[name]), fields, ignoreId);
              && (verdict == Accepted <==> Matches(c) && NoRedundantSwap(c))
              && (Matches(c) && verdict != Accepted ==> verdict == Rejected(SwapInOrder))
              && (verdict.Rejected? ==> Reason(c, verdict.check))
      ensures verdict == Accepted ==>
                classes == old(classes)[name := Reflection(old(classes[name]).fields, [], [])]
      ensures classes.Keys == old(classes).Keys
      ensures forall other :: other in classes && other != name ==> classes[other] == old(classes[other])
    {
      var r := classes[name];
      ghost var c := ClaimOf(r, fields, ignoreId);
      if ignoreId && ID !in r.ignored && ID !in r.fields {
        r := r.(ignored := r.ignored + [ID]);
      }
      assert NameSet(r.ignored) == c.ignored;
      ComparisonMeans(c, r.swapped, r.ignored);
      var back, fwd, rIndex;
      verdict, r, back, fwd, rIndex := Walked(c, fields, r);
      if verdict == Accepted {
        verdict, r := Closed(c, r, back, fwd, rIndex);
      }
      classes := classes[name := r];
    }
  }

  /** The lists and cursors of a run, as a walk. */
  function WalkOf(f: nat, r: nat, reflection: Reflection, back: seq<Name>, fwd: seq<Name>, done: seq<Name>): Walk {
    Walk(f, r, reflection.swapped, back, fwd, reflection.ignored, done)
  }

  /** The main loop: runs until the class is used up or a check fails. */
  method Walked(ghost c: Claim, fields: seq<Name>, start: Reflection)
    returns (verdict: Verdict, r: Reflection, back: seq<Name>, fwd: seq<Name>, rIndex: nat)
    requires c.fields == fields && c.reflected == start.fields
    requires Proper(c) && Inv(c, Start(start.swapped, start.ignored))
    ensures r.fields == start.fields && rIndex <= |start.fields|
    ensures verdict == Accepted ==>
              exists done :: var w := WalkOf(|fields|, rIndex, r, back, fwd, done);
                             Inv(c, w) && Compare(c, Start(start.swapped, start.ignored)) == Compare(c, w)
    ensures verdict != Accepted ==> verdict == Compare(c, Start(start.swapped, start.ignored))
  {
    ghost var first := Start(start.swapped, start.ignored);
    r, back, fwd, rIndex := start, [], [], 0;
    var done: seq<Name> := [];
    var f := 0;
    while f < |fields|
      invariant 0 <= f <= |fields| && rIndex <= |start.fields| && r.fields == start.fields
      invariant Inv(c, WalkOf(f, rIndex, r, back, fwd, done))
      invariant Compare(c, first) == Compare(c, WalkOf(f, rIndex, r, back, fwd, done))
      decreases |fields| - f + |start.fields| - rIndex
    {
      ghost var w := WalkOf(f, rIndex, r, back, fwd, done);
      if Step(c, w).Go? {
        StepKeepsInv(c, w);
      }
      var field := fields[f];
      var more := rIndex < |r.fields|;
      if field in r.swapped {
        r := r.(swapped := Removed(r.swapped, field));
        back := back + [field];
        if field !in r.fields { return Rejected(SwapNotReflected), r, back, fwd, rIndex; }
        if more && r.fields[rIndex] == field { return Rejected(SwapInOrder), r, back, fwd, rIndex; }
        f := f + 1;
        continue;
      }
      if more && r.fields[rIndex] in r.swapped {
        var x := r.fields[rIndex];
        r := r.(swapped := Removed(r.swapped, x));
        fwd := fwd + [x];
        rIndex := rIndex + 1;
        continue;
      }
      if more && r.fields[rIndex] in done { return Rejected(IgnoredButReflected), r, back, fwd, rIndex; }
      if field in r.ignored {
        r := r.(ignored := Removed(r.ignored, field));
        done := done + [field];
        if more && r.fields[rIndex] == field { return Rejected(IgnoreInOrder), r, back, fwd, rIndex; }
        f := f + 1;
        continue;
      }
      if more && r.fields[rIndex] in back {
        back := Removed(back, r.fields[rIndex]);
        rIndex := rIndex + 1;
      } else if field in fwd {
        fwd := Removed(fwd, field);
        f := f + 1;
      } else {
        if !(more && r.fields[rIndex] == field) { return Rejected(FieldMismatch), r, back, fwd, rIndex; }
        f := f + 1;
        rIndex := rIndex + 1;
      }
    }
    verdict := Accepted;
    assert Inv(c, WalkOf(|fields|, rIndex, r, back, fwd, done));
  }

  /** The closing checks: the rest of the reflection must be owed swaps, and nothing may be left over. */
  method Closed(ghost c: Claim, r: Reflection, back: seq<Name>, fwd: seq<Name>, rIndex: nat)
    returns (verdict: Verdict, after: Reflection)
    requires c.reflected == r.fields && rIndex <= |r.fields|
    ensures after == r
    ensures forall f: nat, done :: verdict == Close(c, WalkOf(f, rIndex, r, back, fwd, done))
    ensures verdict == Accepted ==> r.ignored == [] && r.swapped == []
  {
    after := r;
    if |r.ignored| != 0 {
      return Rejected(ErroneousIgnores), r;
    }
    var owed, unused: seq<Name> := back, [];
    assert [] + Drain(r.fields, rIndex, back).1 == Drain(r.fields, rIndex, back).1;
    var i := rIndex;
    while i < |r.fields|
      invariant rIndex <= i <= |r.fields|
      invariant Drain(r.fields, rIndex, back).0 == Drain(r.fields, i, owed).0
      invariant Drain(r.fields, rIndex, back).1 == unused + Drain(r.fields, i, owed).1
    {
      assert unused + ([r.fields[i]] + Drain(r.fields, i + 1, owed).1) ==
             (unused + [r.fields[i]]) + Drain(r.fields, i + 1, owed).1;
      if r.fields[i] in owed {
        owed := Removed(owed, r.fields[i]);
      } else {
        unused := unused + [r.fields[i]];
      }
      i := i + 1;
    }
    assert unused + [] == unused;
    verdict :=
      if |unused| != 0 then Rejected(UnknownFields)
      else if |r.swapped| != 0 then Rejected(ErroneousSwaps)
      else if |owed| != 0 then Rejected(SwapsNeverProvided)
      else if |fwd| != 0 then Rejected(SwapsNotInClass)
      else Accepted;
  }
}
