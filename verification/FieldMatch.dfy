/** What it means for the fields of a reflection macro to match the fields of a class, given
    names declared as ignored and names declared as swapped. */
module FieldMatch {

  type Name = string

  predicate NoDuplicates(names: seq<Name>) {
    forall i, j :: 0 <= i < j < |names| ==> names[i] != names[j]
  }

  /** The names of `names` outside `drop`, in order. */
  function Without(names: seq<Name>, drop: set<Name>): seq<Name> {
    if names == [] then []
    else
      var n := |names| - 1;
      Without(names[..n], drop) + if names[n] in drop then [] else [names[n]]
  }

  function NameSet(names: seq<Name>): set<Name> { set x | x in names }

  /** A declaration: the class, the reflection, and the names declared swapped and ignored. */
  datatype Claim = Claim(fields: seq<Name>, reflected: seq<Name>, swapped: set<Name>, ignored: set<Name>)

  predicate Proper(c: Claim) { NoDuplicates(c.fields) && NoDuplicates(c.reflected) }

  /** The reflection is the class without the ignored fields, with the swapped ones anywhere. */
  ghost predicate Matches(c: Claim) {
    && c.swapped !! c.ignored
    && (forall x :: x in c.swapped ==> x in c.fields && x in c.reflected)
    && (forall x :: x in c.ignored ==> x in c.fields && x !in c.reflected)
    && Without(c.reflected, c.swapped) == Without(c.fields, c.swapped + c.ignored)
  }

  // ----- where the reflection cursor stands when the class cursor reaches a field

  /** The first position from `r` that holds no swapped name. */
  function SkipSwapped(c: Claim, r: nat): (k: nat)
    requires r <= |c.reflected|
    ensures r <= k <= |c.reflected|
    ensures forall i :: r <= i < k ==> c.reflected[i] in c.swapped
    ensures k < |c.reflected| ==> c.reflected[k] !in c.swapped
    decreases |c.reflected| - r
  {
    if r < |c.reflected| && c.reflected[r] in c.swapped then SkipSwapped(c, r + 1) else r
  }

  /** A swapped name that the class has not reached by field `p`. */
  predicate Ahead(c: Claim, p: nat, x: Name)
    requires p <= |c.fields|
  {
    x in c.swapped && x !in c.fields[..p]
  }

  function SkipAhead(c: Claim, p: nat, r: nat): (k: nat)
    requires p <= |c.fields| && r <= |c.reflected|
    ensures r <= k <= |c.reflected|
    ensures forall i :: r <= i < k ==> Ahead(c, p, c.reflected[i])
    ensures k < |c.reflected| ==> !Ahead(c, p, c.reflected[k])
    decreases |c.reflected| - r
  {
    if r < |c.reflected| && Ahead(c, p, c.reflected[r]) then SkipAhead(c, p, r + 1) else r
  }

  /** The reflection position reached once the class cursor stands at field `p`: a swapped field
      met first in the class leaves it alone, an ignored field only passes swapped names still to
      come, and any other field passes every swapped name (and then itself). */
  function Cursor(c: Claim, p: nat): (r: nat)
    requires p <= |c.fields|
    ensures r <= |c.reflected|
  {
    if p == 0 then 0
    else
      var r, x := Cursor(c, p - 1), c.fields[p - 1];
      if x in c.swapped && x !in c.reflected[..r] then r
      else if x in c.ignored then SkipAhead(c, p - 1, r)
      else
        var k := SkipSwapped(c, r);
        if x in c.swapped || k == |c.reflected| then k else k + 1
  }

  /** Field `p` is declared swapped although the reflection has it exactly where it is expected. */
  predicate Redundant(c: Claim, p: nat)
    requires p < |c.fields|
  {
    var r := Cursor(c, p);
    c.fields[p] in c.swapped && r < |c.reflected| && c.reflected[r] == c.fields[p]
  }

  ghost predicate NoRedundantSwap(c: Claim) {
    forall p :: 0 <= p < |c.fields| ==> !Redundant(c, p)
  }

  // ----- lists

  lemma WithoutSnoc(names: seq<Name>, n: nat, drop: set<Name>)
    requires n < |names|
    ensures Without(names[..n + 1], drop) ==
            Without(names[..n], drop) + if names[n] in drop then [] else [names[n]]
  {
    assert names[..n + 1][..n] == names[..n];
  }

  lemma {:induction false} WithoutAppend(a: seq<Name>, b: seq<Name>, drop: set<Name>)
    ensures Without(a + b, drop) == Without(a, drop) + Without(b, drop)
    decreases |b|
  {
    if b == [] {
      assert a + b == a;
    } else {
      var n := |b| - 1;
      assert (a + b)[..|a + b| - 1] == a + b[..n];
      WithoutAppend(a, b[..n], drop);
    }
  }

  lemma {:induction false} WithoutMember(names: seq<Name>, drop: set<Name>, x: Name)
    ensures x in Without(names, drop) <==> x in names && x !in drop
  {
    if names != [] {
      var n := |names| - 1;
      WithoutMember(names[..n], drop, x);
      assert names == names[..n] + [names[n]];
    }
  }

  lemma {:induction false} WithoutSame(names: seq<Name>, a: set<Name>, b: set<Name>)
    requires forall x :: x in names ==> (x in a <==> x in b)
    ensures Without(names, a) == Without(names, b)
  {
    if names != [] {
      WithoutSame(names[..|names| - 1], a, b);
    }
  }

  /** Two lists agree after a common kept prefix when they agree as a whole. */
  lemma AgreeAfter(a: seq<Name>, i: nat, da: set<Name>, b: seq<Name>, j: nat, db: set<Name>)
    requires i <= |a| && j <= |b|
    requires Without(a[..i], da) == Without(b[..j], db)
    ensures Without(a, da) == Without(b, db) <==> Without(a[i..], da) == Without(b[j..], db)
  {
    WithoutAppend(a[..i], a[i..], da);
    WithoutAppend(b[..j], b[j..], db);
    assert a[..i] + a[i..] == a && b[..j] + b[j..] == b;
    var p, x, y := Without(a[..i], da), Without(a[i..], da), Without(b[j..], db);
    assert p + x == p + y ==> x == (p + x)[|p|..] == (p + y)[|p|..] == y;
  }

  lemma WithoutHead(names: seq<Name>, drop: set<Name>)
    requires names != []
    ensures Without(names, drop) == (if names[0] in drop then [] else [names[0]]) + Without(names[1..], drop)
  {
    WithoutAppend(names[..1], names[1..], drop);
    assert names[..1] + names[1..] == names;
    WithoutSnoc(names, 0, drop);
    assert names[..0] == [];
  }

  // ----- consequences of a match

  /** A matching reflection names exactly the class fields that are not ignored. */
  lemma MatchesSameNames(c: Claim, x: Name)
    requires Matches(c)
    ensures x in c.reflected <==> x in c.fields && x !in c.ignored
  {
    WithoutMember(c.reflected, c.swapped, x);
    WithoutMember(c.fields, c.swapped + c.ignored, x);
  }

  /** The kept names behind a pair of positions agree. */
  ghost predicate Kept(c: Claim, f: nat, r: nat)
    requires f <= |c.fields| && r <= |c.reflected|
  {
    Without(c.reflected[..r], c.swapped) == Without(c.fields[..f], c.swapped + c.ignored)
  }

  /** The kept names at two positions differ when nothing is left to keep in the reflection but
      something is in the class, or the next names differ. */
  lemma NextKeptDiffers(c: Claim, f: nat, r: nat)
    requires f < |c.fields| && r <= |c.reflected| && Kept(c, f, r)
    requires c.fields[f] !in c.swapped + c.ignored
    requires r < |c.reflected| ==> c.reflected[r] !in c.swapped && c.reflected[r] != c.fields[f]
    ensures Without(c.reflected, c.swapped) != Without(c.fields, c.swapped + c.ignored)
  {
    AgreeAfter(c.reflected, r, c.swapped, c.fields, f, c.swapped + c.ignored);
    var a, b := Without(c.reflected[r..], c.swapped), Without(c.fields[f..], c.swapped + c.ignored);
    WithoutHead(c.fields[f..], c.swapped + c.ignored);
    assert b != [] && b[0] == c.fields[f];
    if r < |c.reflected| {
      WithoutHead(c.reflected[r..], c.swapped);
      assert a[0] == c.reflected[r];
    } else {
      assert c.reflected[r..] == [];
    }
  }

  lemma {:induction false} KeptPastSwapped(c: Claim, f: nat, r: nat, k: nat)
    requires f <= |c.fields| && r <= k <= |c.reflected| && Kept(c, f, r)
    requires forall i :: r <= i < k ==> c.reflected[i] in c.swapped
    ensures Kept(c, f, k)
    decreases k
  {
    if r < k {
      KeptPastSwapped(c, f, r, k - 1);
      WithoutSnoc(c.reflected, k - 1, c.swapped);
    }
  }

  /** Wherever the class cursor stands, the reflection cursor has kept the same names. */
  lemma {:induction false} KeptAtCursor(c: Claim, p: nat)
    requires Matches(c) && p <= |c.fields|
    ensures Kept(c, p, Cursor(c, p))
  {
    if p > 0 {
      KeptAtCursor(c, p - 1);
      var r, x := Cursor(c, p - 1), c.fields[p - 1];
      WithoutSnoc(c.fields, p - 1, c.swapped + c.ignored);
      if x in c.swapped && x !in c.reflected[..r] {
      } else if x in c.ignored {
        KeptPastSwapped(c, p - 1, r, SkipAhead(c, p - 1, r));
      } else {
        var k := SkipSwapped(c, r);
        KeptPastSwapped(c, p - 1, r, k);
        if x !in c.swapped {
          if k == |c.reflected| || c.reflected[k] != x {
            NextKeptDiffers(c, p - 1, k);
          }
          WithoutSnoc(c.reflected, k, c.swapped);
        }
      }
    }
  }

  function Drop(c: Claim, x: Name): Claim { c.(swapped := c.swapped - {x}) }

  /** A field declared swapped, at place `p` of the class and `r` of the reflection. */
  predicate SwappedAt(c: Claim, p: nat, r: nat) {
    && p < |c.fields| && r < |c.reflected|
    && c.fields[p] == c.reflected[r] && c.fields[p] in c.swapped
  }

  /** Before the field's own places, dropping its swap changes nothing. */
  lemma DropBefore(c: Claim, p: nat, r: nat)
    requires Proper(c) && SwappedAt(c, p, r)
    ensures Kept(Drop(c, c.fields[p]), p, r) <==> Kept(c, p, r)
  {
    var d := Drop(c, c.fields[p]);
    WithoutSame(c.reflected[..r], c.swapped, d.swapped);
    WithoutSame(c.fields[..p], c.swapped + c.ignored, d.swapped + d.ignored);
  }

  /** Keeping a name that stands first, instead of dropping it, just puts it in front. */
  lemma KeepHead(names: seq<Name>, a: set<Name>, b: set<Name>)
    requires names != [] && names[0] in a && names[0] !in b
    requires forall x :: x in names[1..] ==> (x in a <==> x in b)
    ensures Without(names, b) == [names[0]] + Without(names, a)
  {
    WithoutHead(names, a);
    WithoutHead(names, b);
    WithoutSame(names[1..], a, b);
  }

  lemma DropAfter(c: Claim, p: nat, r: nat)
    requires Proper(c) && Matches(c) && SwappedAt(c, p, r) && Kept(c, p, r) && Kept(Drop(c, c.fields[p]), p, r)
    ensures var d := Drop(c, c.fields[p]);
            Without(d.reflected, d.swapped) == Without(d.fields, d.swapped + d.ignored)
  {
    var d := Drop(c, c.fields[p]);
    AgreeAfter(c.reflected, r, c.swapped, c.fields, p, c.swapped + c.ignored);
    AgreeAfter(c.reflected, r, d.swapped, c.fields, p, d.swapped + d.ignored);
    KeepHead(c.fields[p..], c.swapped + c.ignored, d.swapped + d.ignored);
    KeepHead(c.reflected[r..], c.swapped, d.swapped);
  }

  /** A name that occurs once in each of two equal lists has equal lists before it. */
  lemma SameBefore(a: seq<Name>, b: seq<Name>, x: Name, u: seq<Name>, v: seq<Name>)
    requires a + [x] + u == b + [x] + v && x !in a && x !in b
    ensures a == b
  {
    var left, right := a + [x] + u, b + [x] + v;
    assert left[|a|] == x && right[|b|] == x;
    assert left[..|a|] == a && right[..|b|] == b;
  }

  lemma WithoutAround(names: seq<Name>, i: nat, drop: set<Name>)
    requires NoDuplicates(names) && i < |names| && names[i] !in drop
    ensures Without(names, drop) == Without(names[..i], drop) + [names[i]] + Without(names[i + 1..], drop)
    ensures names[i] !in Without(names[..i], drop)
  {
    WithoutAppend(names[..i + 1], names[i + 1..], drop);
    assert names[..i + 1] + names[i + 1..] == names;
    WithoutSnoc(names, i, drop);
    WithoutMember(names[..i], drop, names[i]);
  }

  /** A swap can be taken back exactly when the kept names before the field's two places agree. */
  lemma SwapCanGoIff(c: Claim, p: nat, r: nat)
    requires Proper(c) && Matches(c) && SwappedAt(c, p, r)
    ensures Matches(Drop(c, c.fields[p])) <==> Kept(c, p, r)
  {
    var d, x := Drop(c, c.fields[p]), c.fields[p];
    DropBefore(c, p, r);
    if Kept(c, p, r) {
      DropAfter(c, p, r);
    } else if Matches(d) {
      WithoutAround(d.fields, p, d.swapped + d.ignored);
      WithoutAround(d.reflected, r, d.swapped);
      SameBefore(Without(d.reflected[..r], d.swapped), Without(d.fields[..p], d.swapped + d.ignored), x,
                 Without(d.reflected[r + 1..], d.swapped), Without(d.fields[p + 1..], d.swapped + d.ignored));
    }
  }

  /** A redundant swap can be taken back. Any other swap that can be is exactly one whose place in the
      reflection the cursor does not stand at, although the kept names before it agree. */
  lemma RedundantSwapCanGo(c: Claim, p: nat, r: nat)
    requires Proper(c) && Matches(c) && SwappedAt(c, p, r)
    ensures Redundant(c, p) ==> Matches(Drop(c, c.fields[p]))
    ensures Matches(Drop(c, c.fields[p])) && !Redundant(c, p) <==> Kept(c, p, r) && Cursor(c, p) != r
  {
    SwapCanGoIff(c, p, r);
    KeptAtCursor(c, p);
  }

  /** Every matching claim can be trimmed to one without redundant swaps. */
  lemma {:induction false} Trimmed(c: Claim) returns (d: Claim)
    requires Proper(c) && Matches(c)
    ensures d == c.(swapped := d.swapped) && d.swapped <= c.swapped
    ensures Matches(d) && NoRedundantSwap(d)
    decreases |c.swapped|
  {
    if p :| 0 <= p < |c.fields| && Redundant(c, p) {
      RedundantSwapCanGo(c, p, Cursor(c, p));
      d := Trimmed(Drop(c, c.fields[p]));
    } else {
      d := c;
    }
  }

  /** Having no redundant swap is not the same as needing every swap. */
  lemma NeedlessSwapGoesUnnoticed()
    ensures var c := Claim(["a", "b", "c"], ["b", "a", "c"], {"a", "c"}, {});
            Proper(c) && Matches(c) && NoRedundantSwap(c) && Matches(Drop(c, "c"))
  {
    assert "a"[0] != "b"[0] && "a"[0] != "c"[0] && "b"[0] != "c"[0];
    LateSwapIsNeedless("a", "b", "c");
  }

  lemma LateSwapIsNeedless(x: Name, y: Name, z: Name)
    requires x != y && x != z && y != z
    ensures var c := Claim([x, y, z], [y, x, z], {x, z}, {});
            Proper(c) && Matches(c) && NoRedundantSwap(c) && Matches(Drop(c, z))
  {
    var c := Claim([x, y, z], [y, x, z], {x, z}, {});
    var d := Drop(c, z);
    assert d.swapped == {x};
    Spell(x, y, z, c.swapped + c.ignored);
    Spell(y, x, z, c.swapped);
    Spell(x, y, z, d.swapped + d.ignored);
    Spell(y, x, z, d.swapped);
    assert Cursor(c, 0) == 0;
    assert Cursor(c, 1) == 0;
    assert Cursor(c, 2) == 1;
  }

  lemma Spell(x: Name, y: Name, z: Name, drop: set<Name>)
    ensures Without([x, y, z], drop) ==
            (if x in drop then [] else [x]) + (if y in drop then [] else [y]) + (if z in drop then [] else [z])
  {
    WithoutSnoc([x, y, z], 2, drop);
    WithoutSnoc([x, y, z], 1, drop);
    WithoutSnoc([x, y, z], 0, drop);
    assert [x, y, z][..3] == [x, y, z];
  }
}
