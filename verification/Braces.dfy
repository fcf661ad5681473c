/** The bracket structure of a text: scopes opened by `{` and closed by `}`. */
module Braces {
  import opened Options

  /** A scope: the positions of its braces and the scopes directly inside it. */
  datatype Tree = Tree(start: nat, end: nat, children: seq<Tree>)

  /** The scopes found at one nesting level, and where the level stops: at the brace that closes
      it, or at the end of the text. */
  datatype Level = Level(scopes: seq<Tree>, stop: nat)

  /** Reading a level character by character from `i`; none when an opened scope is never closed. */
  function Parse(text: string, i: nat): (level: Option<Level>)
    requires i <= |text|
    ensures level.Some? ==> i <= level.value.stop <= |text|
    ensures level.Some? && level.value.stop < |text| ==> text[level.value.stop] == '}'
    decreases |text| - i
  {
    if i == |text| then Some(Level([], i))
    else if text[i] == '}' then Some(Level([], i))
    else if text[i] == '{' then
      var inner := Parse(text, i + 1);
      if inner.None? || inner.value.stop == |text| then None
      else Prepend([Tree(i, inner.value.stop, inner.value.scopes)], Parse(text, inner.value.stop + 1))
    else Parse(text, i + 1)
  }

  function Prepend(scopes: seq<Tree>, level: Option<Level>): Option<Level> {
    if level.None? then None else Some(Level(scopes + level.value.scopes, level.value.stop))
  }

  // ----- nesting depth

  /** The first position from `i` where depth `d` would drop below zero, or the end of the text. */
  function CloseAt(text: string, i: nat, d: nat): (c: nat)
    requires i <= |text|
    ensures i <= c <= |text|
    decreases |text| - i
  {
    if i == |text| then i
    else if text[i] == '}' then if d == 0 then i else CloseAt(text, i + 1, d - 1)
    else CloseAt(text, i + 1, if text[i] == '{' then d + 1 else d)
  }

  /** How many scopes are still open where `CloseAt` stops. */
  function OpenAt(text: string, i: nat, d: nat): nat
    requires i <= |text|
    decreases |text| - i
  {
    if i == |text| then d
    else if text[i] == '}' then if d == 0 then 0 else OpenAt(text, i + 1, d - 1)
    else OpenAt(text, i + 1, if text[i] == '{' then d + 1 else d)
  }

  /** Scanning through a closed inner level and its brace comes back to the same depth. */
  lemma {:induction false} ScanThrough(text: string, i: nat, d: nat, e: nat)
    requires i <= |text| && CloseAt(text, i, e) < |text|
    ensures var c := CloseAt(text, i, e);
            && CloseAt(text, i, e + d + 1) == CloseAt(text, c + 1, d)
            && OpenAt(text, i, e + d + 1) == OpenAt(text, c + 1, d)
    decreases |text| - i
  {
    if text[i] == '}' {
      if e > 0 { ScanThrough(text, i + 1, d, e - 1); }
    } else {
      ScanThrough(text, i + 1, d, if text[i] == '{' then e + 1 else e);
    }
  }

  lemma {:induction false} ScanNever(text: string, i: nat, e: nat, d: nat)
    requires i <= |text| && CloseAt(text, i, e) == |text|
    ensures CloseAt(text, i, e + d) == |text| && OpenAt(text, i, e + d) == OpenAt(text, i, e) + d
    decreases |text| - i
  {
    if i < |text| {
      if text[i] == '}' {
        ScanNever(text, i + 1, e - 1, d);
      } else {
        ScanNever(text, i + 1, if text[i] == '{' then e + 1 else e, d);
      }
    }
  }

  /** A level can be read exactly when nothing opened in it stays open, and it stops at the brace
      that closes it. */
  lemma {:induction false} ParseIffBalanced(text: string, i: nat)
    requires i <= |text|
    ensures Parse(text, i).Some? <==> OpenAt(text, i, 0) == 0
    ensures Parse(text, i).Some? ==> Parse(text, i).value.stop == CloseAt(text, i, 0)
    decreases |text| - i
  {
    if i < |text| && text[i] == '{' {
      ParseIffBalanced(text, i + 1);
      var c := CloseAt(text, i + 1, 0);
      if c < |text| {
        ScanThrough(text, i + 1, 0, 0);
        OpenIsZeroAtClose(text, i + 1, 0);
        ParseIffBalanced(text, c + 1);
      } else {
        ScanNever(text, i + 1, 0, 1);
      }
    } else if i < |text| && text[i] != '}' {
      ParseIffBalanced(text, i + 1);
    }
  }

  lemma {:induction false} OpenIsZeroAtClose(text: string, i: nat, d: nat)
    requires i <= |text| && CloseAt(text, i, d) < |text|
    ensures OpenAt(text, i, d) == 0
    decreases |text| - i
  {
    if text[i] == '}' {
      if d > 0 { OpenIsZeroAtClose(text, i + 1, d - 1); }
    } else {
      OpenIsZeroAtClose(text, i + 1, if text[i] == '{' then d + 1 else d);
    }
  }

  // ----- what a level contains

  /** The positions of `c` in text[i..e), in order. */
  function Positions(text: string, c: char, i: nat, e: nat): seq<nat>
    requires i <= e <= |text|
    decreases e - i
  {
    if i == e then [] else (if text[i] == c then [i] else []) + Positions(text, c, i + 1, e)
  }

  /** The starts of all scopes, outer before inner, in reading order. */
  function Starts(scopes: seq<Tree>): seq<nat> {
    if scopes == [] then [] else [scopes[0].start] + Starts(scopes[0].children) + Starts(scopes[1..])
  }

  /** The ends of all scopes, inner before outer, in reading order. */
  function Ends(scopes: seq<Tree>): seq<nat> {
    if scopes == [] then [] else Ends(scopes[0].children) + [scopes[0].end] + Ends(scopes[1..])
  }

  /** Siblings are disjoint and in order, children lie strictly inside their parent, and every
      scope ends at the brace that closes it. */
  predicate Nested(text: string, scopes: seq<Tree>, i: nat, e: nat)
    requires e <= |text|
  {
    if scopes == [] then i <= e
    else
      var t := scopes[0];
      && i <= t.start < t.end < e
      && CloseAt(text, t.start + 1, 0) == t.end
      && Nested(text, t.children, t.start + 1, t.end)
      && Nested(text, scopes[1..], t.end + 1, e)
  }

  lemma {:induction false} PositionsSplit(text: string, c: char, i: nat, m: nat, e: nat)
    requires i <= m <= e <= |text|
    ensures Positions(text, c, i, e) == Positions(text, c, i, m) + Positions(text, c, m, e)
    decreases m - i
  {
    if i < m {
      PositionsSplit(text, c, i + 1, m, e);
    }
  }

  /** Every opening brace of a level starts exactly one scope, in order, and every closing brace
      ends exactly one; the scopes are nested as the braces are. */
  ghost predicate Structured(text: string, level: Level, i: nat) {
    && i <= level.stop <= |text|
    && Starts(level.scopes) == Positions(text, '{', i, level.stop)
    && Ends(level.scopes) == Positions(text, '}', i, level.stop)
    && Nested(text, level.scopes, i, level.stop)
  }

  lemma ParseOpen(text: string, i: nat) returns (inner: Level, rest: Level)
    requires i < |text| && text[i] == '{' && Parse(text, i).Some?
    ensures Parse(text, i + 1) == Some(inner) && i < inner.stop < |text| && text[inner.stop] == '}'
    ensures Parse(text, inner.stop + 1) == Some(rest)
    ensures Parse(text, i) == Some(Level([Tree(i, inner.stop, inner.scopes)] + rest.scopes, rest.stop))
  {
    inner := Parse(text, i + 1).value;
    rest := Parse(text, inner.stop + 1).value;
  }

  lemma {:induction false} ParseIsStructure(text: string, i: nat)
    requires i <= |text| && Parse(text, i).Some?
    ensures Structured(text, Parse(text, i).value, i)
    decreases |text| - i
  {
    if i < |text| && text[i] == '{' {
      var inner, rest := ParseOpen(text, i);
      ParseIsStructure(text, i + 1);
      ParseIsStructure(text, inner.stop + 1);
      ParseIffBalanced(text, i + 1);
      StructuredCons(text, i, inner, rest);
    } else if i < |text| && text[i] != '}' {
      ParseIsStructure(text, i + 1);
      StructuredEarlier(text, i, Parse(text, i + 1).value);
    }
  }

  lemma StructuredCons(text: string, i: nat, inner: Level, rest: Level)
    requires i < inner.stop < |text| && text[i] == '{' && text[inner.stop] == '}' && CloseAt(text, i + 1, 0) == inner.stop
    requires Structured(text, inner, i + 1) && Structured(text, rest, inner.stop + 1)
    ensures Structured(text, Level([Tree(i, inner.stop, inner.scopes)] + rest.scopes, rest.stop), i)
  {
    ScopeThenRest(text, i, inner, rest);
    NestedCons(text, Tree(i, inner.stop, inner.scopes), rest.scopes, rest.stop);
  }

  lemma StructuredEarlier(text: string, i: nat, level: Level)
    requires i < |text| && text[i] != '{' && text[i] != '}' && Structured(text, level, i + 1)
    ensures Structured(text, level, i)
  {
    NestedEarlier(text, level.scopes, i, level.stop);
    assert [] + Starts(level.scopes) == Starts(level.scopes) && [] + Ends(level.scopes) == Ends(level.scopes);
  }

  lemma NestedCons(text: string, t: Tree, rest: seq<Tree>, e: nat)
    requires e <= |text| && t.start < t.end < e && CloseAt(text, t.start + 1, 0) == t.end
    requires Nested(text, t.children, t.start + 1, t.end) && Nested(text, rest, t.end + 1, e)
    ensures Nested(text, [t] + rest, t.start, e)
  {
    assert ([t] + rest)[1..] == rest;
  }

  lemma NestedEarlier(text: string, scopes: seq<Tree>, i: nat, e: nat)
    requires e <= |text| && Nested(text, scopes, i + 1, e)
    ensures Nested(text, scopes, i, e)
  {}

  function At(text: string, c: char, i: nat): seq<nat>
    requires i < |text|
  {
    if text[i] == c then [i] else []
  }

  lemma PositionsAround(text: string, c: char, i: nat, m: nat, e: nat)
    requires i < m < e <= |text|
    ensures Positions(text, c, i, e) ==
            At(text, c, i) + Positions(text, c, i + 1, m) + At(text, c, m) + Positions(text, c, m + 1, e)
  {
    var rest := Positions(text, c, m + 1, e);
    assert Positions(text, c, m, e) == At(text, c, m) + rest;
    PositionsSplit(text, c, i + 1, m, e);
    Regroup(At(text, c, i), Positions(text, c, i + 1, m), At(text, c, m), rest);
  }

  lemma Regroup<T>(a: seq<T>, b: seq<T>, c: seq<T>, d: seq<T>)
    ensures a + (b + (c + d)) == a + b + c + d
  {}

  lemma StartsCons(t: Tree, rest: seq<Tree>)
    ensures Starts([t] + rest) == [t.start] + Starts(t.children) + Starts(rest)
    ensures Ends([t] + rest) == Ends(t.children) + [t.end] + Ends(rest)
  {
    assert ([t] + rest)[1..] == rest;
  }

  lemma OpensAround(text: string, i: nat, m: nat, e: nat)
    requires i < m < e <= |text| && text[i] == '{' && text[m] == '}'
    ensures Positions(text, '{', i, e) == [i] + Positions(text, '{', i + 1, m) + Positions(text, '{', m + 1, e)
  {
    PositionsAround(text, '{', i, m, e);
    assert At(text, '{', m) == [] && At(text, '{', i) == [i];
    var a := [i] + Positions(text, '{', i + 1, m);
    assert a + [] == a;
  }

  lemma ClosesAround(text: string, i: nat, m: nat, e: nat)
    requires i < m < e <= |text| && text[i] == '{' && text[m] == '}'
    ensures Positions(text, '}', i, e) == Positions(text, '}', i + 1, m) + [m] + Positions(text, '}', m + 1, e)
  {
    PositionsAround(text, '}', i, m, e);
    assert At(text, '}', m) == [m] && At(text, '}', i) == [];
    assert [] + Positions(text, '}', i + 1, m) == Positions(text, '}', i + 1, m);
  }

  lemma ScopeThenRest(text: string, i: nat, inner: Level, rest: Level)
    requires i < inner.stop < |text| && text[i] == '{' && text[inner.stop] == '}'
    requires inner.stop + 1 <= rest.stop <= |text|
    requires Starts(inner.scopes) == Positions(text, '{', i + 1, inner.stop)
    requires Ends(inner.scopes) == Positions(text, '}', i + 1, inner.stop)
    requires Starts(rest.scopes) == Positions(text, '{', inner.stop + 1, rest.stop)
    requires Ends(rest.scopes) == Positions(text, '}', inner.stop + 1, rest.stop)
    ensures var scopes := [Tree(i, inner.stop, inner.scopes)] + rest.scopes;
            && Starts(scopes) == Positions(text, '{', i, rest.stop)
            && Ends(scopes) == Positions(text, '}', i, rest.stop)
  {
    StartsCons(Tree(i, inner.stop, inner.scopes), rest.scopes);
    OpensAround(text, i, inner.stop, rest.stop);
    ClosesAround(text, i, inner.stop, rest.stop);
  }
}
