/** The recursive scope reader: it looks for the next scope in a window whose end is guessed,
    widening the window when it starts with a brace initialiser. */
module ScopeReader {
  import opened Options
  import opened Braces

  /** The first position of `c` in text[from..to), or -1. */
  function Find(text: string, c: char, from: nat, to: nat): (k: int)
    requires to <= |text|
    ensures k == -1 || (from <= k < to && text[k] == c)
    ensures forall i :: from <= i < to && (k == -1 || i < k) ==> text[i] != c
    decreases if from < to then to - from else 0
  {
    if from >= to then -1 else if text[from] == c then from else Find(text, c, from + 1, to)
  }

  /** The end of a slice: -1 means all but the last character. */
  function SliceEnd(text: string, end: int): (e: nat)
    ensures e <= |text|
  {
    if end < 0 then (if |text| + end < 0 then 0 else |text| + end) else if end > |text| then |text| else end
  }

  predicate IsSpace(c: char) { c in " \t\n\r\U{000B}\U{000C}" }

  function SkipSpace(text: string, i: nat): (k: nat)
    requires i <= |text|
    ensures i <= k <= |text|
    decreases |text| - i
  {
    if i < |text| && IsSpace(text[i]) then SkipSpace(text, i + 1) else i
  }

  function SkipInside(text: string, i: nat): (k: nat)
    requires i <= |text|
    ensures i <= k <= |text|
    ensures forall j :: i <= j < k ==> text[j] != '}'
    decreases |text| - i
  {
    if i < |text| && text[i] != ';' && text[i] != '}' then SkipInside(text, i + 1) else i
  }

  /** Where an initialiser `{...};` starting at `i` ends: no `;` or `}` inside, spaces allowed
      before the final `;`. */
  function InitialiserEnd(text: string, i: nat): (e: Option<nat>)
    requires i < |text|
    ensures e.Some? ==> text[i] == '{' && i < e.value <= |text|
  {
    if text[i] != '{' then None
    else
      var j := SkipInside(text, i + 1);
      if j == |text| || text[j] != '}' then None
      else
        var k := SkipSpace(text, j + 1);
        if k < |text| && text[k] == ';' then Some(k + 1) else None
  }

  /** The leftmost initialiser at or after `i`. */
  function FirstInitialiser(text: string, i: nat): (m: Option<(nat, nat)>)
    requires i <= |text|
    ensures m.Some? ==> i <= m.value.0 < m.value.1 <= |text| && text[m.value.0] == '{'
    decreases |text| - i
  {
    if i == |text| then None
    else if InitialiserEnd(text, i).Some? then Some((i, InitialiserEnd(text, i).value))
    else FirstInitialiser(text, i + 1)
  }

  /** The guessed end of the current scope: the next closing brace, or, if that belongs to an
      initialiser, one further on. */
  function FindPossibleEnd(text: string, current: nat): int
    requires current <= |text|
  {
    var possible, init := Find(text, '}', current, |text|), FirstInitialiser(text, current);
    if init.Some? && init.value.0 < possible < init.value.1
    then Find(text, '}', init.value.1 + 1, |text|)
    else possible
  }

  /** The opening brace found in the window, or -1. */
  function OpenInWindow(text: string, current: nat): int
    requires current <= |text|
  {
    Find(text, '{', current, SliceEnd(text, FindPossibleEnd(text, current)))
  }

  /** A last character that opens a scope is never looked at. */
  function Effective(text: string): (e: string)
    ensures |e| == |text|
    ensures forall i :: 0 <= i < |text| ==>
              e[i] == if i == |text| - 1 && text[i] == '{' then ' ' else text[i]
  {
    if text != [] && text[|text| - 1] == '{' then text[..|text| - 1] + " " else text
  }

  /** The next scope by the plain rule: the first opening brace, unless a closing one comes first. */
  function NextOpen(text: string, current: nat): int
    requires current <= |text|
  {
    var o, c := Find(text, '{', current, |text|), Find(text, '}', current, |text|);
    if o != -1 && (c == -1 || o < c) then o else -1
  }

  lemma FindIs(text: string, c: char, from: nat, to: nat, k: int)
    requires to <= |text|
    requires k == -1 || (from <= k < to && text[k] == c)
    requires forall i :: from <= i < to && (k == -1 || i < k) ==> text[i] != c
    ensures Find(text, c, from, to) == k
  {}

  /** Widened or not, the window shows exactly the scope of the plain rule. */
  lemma WindowFollowsRule(text: string, current: nat)
    requires current <= |text|
    ensures OpenInWindow(text, current) == NextOpen(Effective(text), current)
  {
    var e, n := Effective(text), |text|;
    var c, init := Find(text, '}', current, n), FirstInitialiser(text, current);
    var w := SliceEnd(text, FindPossibleEnd(text, current));
    var k := Find(text, '{', current, w);
    FindIs(e, '}', current, n, c);
    if c == -1 {
      WindowWithoutClose(text, current);
    } else if init.Some? && init.value.0 < c < init.value.1 {
      assert init.value.0 < w;
      assert k != -1 && k <= init.value.0;
      FindIs(e, '{', current, n, k);
    } else {
      assert w == c;
      var o := Find(e, '{', current, n);
      if k == -1 {
        assert o == -1 || o > c;
      } else {
        FindIs(e, '{', current, n, k);
      }
    }
  }

  lemma WindowWithoutClose(text: string, current: nat)
    requires current <= |text| && Find(text, '}', current, |text|) == -1
    ensures OpenInWindow(text, current) == NextOpen(Effective(text), current)
  {
    var e, n := Effective(text), |text|;
    FindIs(e, '}', current, n, -1);
    assert FindPossibleEnd(text, current) == -1;
    var w := SliceEnd(text, -1);
    var k := Find(text, '{', current, w);
    FindIs(e, '{', current, n, k);
  }

  // ----- the plain rule and the bracket structure

  lemma {:induction false} ParseSkips(text: string, i: nat, k: nat)
    requires i <= k <= |text|
    requires forall j :: i <= j < k ==> text[j] != '{' && text[j] != '}'
    ensures Parse(text, i) == Parse(text, k)
    decreases k - i
  {
    if i < k {
      ParseSkips(text, i + 1, k);
    }
  }

  /** When the rule finds no scope, the level stops at the next closing brace or at the end. */
  lemma LevelEnds(text: string, current: nat)
    requires current <= |text| && NextOpen(text, current) == -1
    ensures var c := Find(text, '}', current, |text|);
            Parse(text, current) == Some(Level([], if c == -1 then |text| else c))
  {
    var c := Find(text, '}', current, |text|);
    ParseSkips(text, current, if c == -1 then |text| else c);
  }

  /** When it finds one, the level goes on with that scope. */
  lemma LevelOpens(text: string, current: nat)
    requires current <= |text| && NextOpen(text, current) != -1
    ensures Parse(text, current) == Parse(text, NextOpen(text, current))
  {
    ParseSkips(text, current, NextOpen(text, current));
  }

  lemma PrependTwice(found: seq<Tree>, t: Tree, level: Option<Level>)
    ensures Prepend(found, Prepend([t], level)) == Prepend(found + [t], level)
  {
    if level.Some? {
      assert found + ([t] + level.value.scopes) == (found + [t]) + level.value.scopes;
    }
  }

  lemma PrependNothing(level: Option<Level>)
    ensures Prepend([], level) == level
  {
    if level.Some? {
      assert [] + level.value.scopes == level.value.scopes;
    }
  }

  /** What reading the scope opened at `k` should find. */
  function Expected(text: string, k: nat): Found
    requires k < |text|
  {
    var inner := Parse(text, k + 1);
    if inner.None? || inner.value.stop == |text| then Unclosed
    else Opened(Tree(k, inner.value.stop, inner.value.scopes))
  }

  datatype Found = NoScope | Unclosed | Opened(scope: Tree)

  /** The scope `r` goes on the level that began at `from`, or leaves it open. */
  ghost predicate Continued(text: string, from: nat, found: seq<Tree>, at: nat, r: Found)
    requires from <= |text|
  {
    && !r.NoScope?
    && (r.Unclosed? ==> Parse(text, from) == None)
    && (r.Opened? ==>
          && at < r.scope.end < |text|
          && Parse(text, from) == Prepend(found + [r.scope], Parse(text, r.scope.end + 1)))
  }

  /** A level that goes on with the scope opened at `k`. */
  lemma OpenedAt(text: string, k: nat)
    requires k < |text| && text[k] == '{'
    ensures var r := Expected(text, k);
            && !r.NoScope?
            && (r.Unclosed? ==> Parse(text, k) == None)
            && (r.Opened? ==> k < r.scope.end < |text| && Parse(text, k) == Prepend([r.scope], Parse(text, r.scope.end + 1)))
  {}

  /** One more scope of the level that began at `from`. */
  lemma LevelContinues(text: string, from: nat, found: seq<Tree>, at: nat)
    requires from <= |text| && at <= |text| && NextOpen(text, at) != -1
    requires Parse(text, from) == Prepend(found, Parse(text, at))
    ensures Continued(text, from, found, at, Expected(text, NextOpen(text, at)))
  {
    LevelOpens(text, at);
    LevelContinuesAt(text, from, found, at, NextOpen(text, at));
  }

  lemma LevelContinuesAt(text: string, from: nat, found: seq<Tree>, at: nat, k: nat)
    requires from <= |text| && at <= k < |text| && text[k] == '{' && Parse(text, at) == Parse(text, k)
    requires Parse(text, from) == Prepend(found, Parse(text, at))
    ensures Continued(text, from, found, at, Expected(text, k))
  {
    OpenedAt(text, k);
    var r := Expected(text, k);
    if r.Opened? {
      PrependTwice(found, r.scope, Parse(text, r.scope.end + 1));
    }
  }

  /** No scope is left in the level that began at `from`. */
  lemma LevelDone(text: string, from: nat, found: seq<Tree>, at: nat)
    requires from <= |text| && at <= |text|
    requires NextOpen(Effective(text), at) == -1 || |text| - 1 <= at
    requires Parse(Effective(text), from) == Prepend(found, Parse(Effective(text), at))
    ensures var close := Find(text, '}', at, |text|);
            Parse(Effective(text), from) == Some(Level(found, if close == -1 then |text| else close))
  {
    var e, close := Effective(text), Find(text, '}', at, |text|);
    FindIs(e, '}', at, |text|, close);
    LevelEnds(e, at);
    assert found + [] == found;
  }

  /** `found` are the scopes of the level that began at `from`, as far as position `at`. */
  ghost predicate SoFar(text: string, from: nat, found: seq<Tree>, at: nat) {
    from <= |text| && at <= |text| && Parse(Effective(text), from) == Prepend(found, Parse(Effective(text), at))
  }

  lemma SoFarStart(text: string, from: nat)
    requires from <= |text|
    ensures SoFar(text, from, [], from)
  {
    PrependNothing(Parse(Effective(text), from));
  }

  /** What the reader should find next from `at`. */
  ghost function NextFound(text: string, at: nat): Found
    requires at <= |text|
  {
    var k := NextOpen(Effective(text), at);
    if k == -1 then NoScope else Expected(Effective(text), k)
  }

  /** What reading the scope that starts at `start` gives: its scopes, unless a brace is missing.
      Position 0 stands for the whole text, which needs no closing brace. */
  ghost predicate IsRead(text: string, start: nat, scopes: Option<seq<Tree>>, end: Option<nat>)
    requires start < |text|
  {
    var level := Parse(Effective(text), start + 1);
    if level.None? || (start > 0 && level.value.stop == |text|) then scopes == None
    else scopes == Some(level.value.scopes) && end == Some(if start == 0 then |text| - 1 else level.value.stop)
  }

  /** The end of a scope before its closing brace is known. */
  function KnownEnd(text: string, start: nat): Option<nat>
    requires start < |text|
  {
    if start == 0 then Some(|text| - 1) else None
  }

  lemma ContinuedIs(text: string, start: nat, found: seq<Tree>, at: nat, r: Found)
    requires start < |text| && Continued(Effective(text), start + 1, found, at, r)
    ensures r.Unclosed? ==> IsRead(text, start, None, KnownEnd(text, start))
    ensures r.Opened? ==> at < r.scope.end < |text| && SoFar(text, start + 1, found + [r.scope], r.scope.end + 1)
  {}

  lemma SoFarContinues(text: string, start: nat, found: seq<Tree>, at: nat, r: Found)
    requires start < |text| && SoFar(text, start + 1, found, at) && r == NextFound(text, at) && !r.NoScope?
    ensures r.Unclosed? ==> IsRead(text, start, None, KnownEnd(text, start))
    ensures r.Opened? ==> at < r.scope.end < |text| && SoFar(text, start + 1, found + [r.scope], r.scope.end + 1)
  {
    LevelContinues(Effective(text), start + 1, found, at);
    ContinuedIs(text, start, found, at, r);
  }

  /** Nothing is left to find from `at`. */
  ghost predicate AllFound(text: string, start: nat, found: seq<Tree>, at: nat) {
    SoFar(text, start + 1, found, at) && (|text| - 1 <= at || NextFound(text, at).NoScope?)
  }

  lemma SoFarDone(text: string, start: nat, found: seq<Tree>, at: nat)
    requires start < |text| && AllFound(text, start, found, at)
    ensures var close := Find(text, '}', at, |text|);
            if KnownEnd(text, start).Some? then IsRead(text, start, Some(found), KnownEnd(text, start))
            else if close == -1 then IsRead(text, start, None, None)
            else IsRead(text, start, Some(found), Some(close))
  {
    LevelDone(text, start + 1, found, at);
  }

  // ----- the reader

  /** How a scope was recognised; only named scopes look for names in turn. */
  datatype Kind = Plain | Class | Namespace

  /** What the name patterns report for a window: an opening brace in it, and a kind. */
  type Labels = (nat, int) -> Option<(nat, Kind)>

  ghost predicate Sound(text: string, labels: Labels) {
    forall current: nat, end: int :: labels(current, end).Some? ==>
      var k := labels(current, end).value.0;
      current <= k < SliceEnd(text, end) && text[k] == '{'
  }

  class Scope {
    const text: string
    const start: nat
    const kind: Kind
    const labels: Labels
    var current: nat
    var end: Option<nat>

    constructor (text: string, start: nat, kind: Kind, labels: Labels)
      requires start < |text|
      ensures this.text == text && this.start == start && this.kind == kind && this.labels == labels
      ensures current == start + 1 && end == KnownEnd(text, start)
    {
      this.text, this.start, this.kind, this.labels := text, start, kind, labels;
      current := start + 1;
      end := if start == 0 then Some(|text| - 1) else None;
    }

    /** Reads every scope inside this one; none when a brace is missing. Position 0 stands for the
        whole text, which needs no closing brace. */
    method Read() returns (scopes: Option<seq<Tree>>)
      requires start < |text| && Sound(text, labels)
      requires current == start + 1 && end == KnownEnd(text, start)
      modifies this
      ensures IsRead(text, start, scopes, end)
      decreases |text| - start, 2
    {
      var found: seq<Tree> := [];
      SoFarStart(text, start + 1);
      while current < |text| - 1
        invariant start + 1 <= current <= |text|
        invariant end == KnownEnd(text, start)
        invariant SoFar(text, start + 1, found, current)
        decreases |text| - current
      {
        var next := ReadNext(found);
        if next.NoScope? {
          break;
        }
        if next.Unclosed? {
          return None;
        }
        found := found + [next.scope];
      }
      SoFarDone(text, start, found, current);
      if end.None? {
        var close := Find(text, '}', current, |text|);
        if close == -1 {
          return None;
        }
        end := Some(close);
      }
      return Some(found);
    }

    /** Reads one more scope of this one, after those in `found`. */
    method ReadNext(ghost found: seq<Tree>) returns (next: Found)
      requires start < current <= |text| && Sound(text, labels) && SoFar(text, start + 1, found, current)
      modifies this
      ensures end == old(end) && old(current) <= current <= |text|
      ensures next.NoScope? ==> AllFound(text, start, found, current)
      ensures next.Unclosed? ==> IsRead(text, start, None, KnownEnd(text, start))
      ensures next.Opened? ==> old(current) < current && SoFar(text, start + 1, found + [next.scope], current)
      decreases |text| - start, 1
    {
      ghost var at := current;
      next := NextScope();
      if !next.NoScope? {
        SoFarContinues(text, start, found, at, next);
      }
    }

    /** Opens and reads the next scope in the window, and moves past it. */
    method NextScope() returns (r: Found)
      requires start < current <= |text| && Sound(text, labels)
      modifies this
      ensures end == old(end) && old(current) <= current <= |text|
      ensures r == NextFound(text, old(current))
      ensures r.NoScope? ==> current == old(current)
      ensures r.Opened? ==> current == r.scope.end + 1
      decreases |text| - start, 0
    {
      WindowFollowsRule(text, current);
      var windowEnd := FindPossibleEnd(text, current);
      var generic := Find(text, '{', current, SliceEnd(text, windowEnd));
      var childStart, childKind := generic, Plain;
      if kind.Plain? {
        if generic == -1 {
          return NoScope;
        }
      } else {
        var named := labels(current, windowEnd);
        if named.None? && generic == -1 {
          return NoScope;
        }
        if named.Some? && (generic == -1 || named.value.0 <= generic) {
          childStart, childKind := named.value.0, named.value.1;
        }
      }
      assert childStart == generic == NextOpen(Effective(text), current);
      var child := new Scope(text, childStart, childKind, labels);
      var inner := child.Read();
      if inner.None? || child.end.None? {
        return Unclosed;
      }
      current := child.end.value + 1;
      r := Opened(Tree(child.start, child.end.value, inner.value));
    }
  }

  // ----- balanced texts

  /** Every brace of the text is matched. */
  predicate Balanced(text: string) {
    CloseAt(text, 0, 0) == |text| && OpenAt(text, 0, 0) == 0
  }

  lemma {:induction false} LastOpenStays(text: string, i: nat, d: nat)
    requires i < |text| && text[|text| - 1] == '{' && CloseAt(text, i, d) == |text|
    ensures OpenAt(text, i, d) > 0
    decreases |text| - i
  {
    if i < |text| - 1 {
      if text[i] == '}' {
        LastOpenStays(text, i + 1, d - 1);
      } else {
        LastOpenStays(text, i + 1, if text[i] == '{' then d + 1 else d);
      }
    }
  }

  /** On a balanced text that does not begin with a brace, the reader of position 0 succeeds and its
      scopes are the whole bracket structure. */
  lemma BalancedTextIsRead(text: string)
    requires text != [] && text[0] != '{' && text[0] != '}' && Balanced(text)
    ensures Effective(text) == text
    ensures var level := Parse(text, 1);
            && level.Some? && level.value.stop == |text|
            && Starts(level.value.scopes) == Positions(text, '{', 0, |text|)
            && Ends(level.value.scopes) == Positions(text, '}', 0, |text|)
            && Nested(text, level.value.scopes, 1, |text|)
  {
    if text[|text| - 1] == '{' {
      LastOpenStays(text, 0, 0);
    }
    assert Effective(text) == text;
    ParseIffBalanced(text, 1);
    ParseIsStructure(text, 1);
    assert [] + Positions(text, '{', 1, |text|) == Positions(text, '{', 1, |text|);
    assert [] + Positions(text, '}', 1, |text|) == Positions(text, '}', 1, |text|);
  }

  /** A file is read as one namespace that starts at position 0: nothing when a brace is left open,
      and the whole bracket structure when the braces are balanced. */
  method ReadText(text: string, labels: Labels) returns (scopes: Option<seq<Tree>>)
    requires text != [] && Sound(text, labels)
    ensures scopes.None? <==> Parse(Effective(text), 1).None?
    ensures text[0] != '{' && text[0] != '}' && Balanced(text) ==>
              && scopes.Some?
              && Starts(scopes.value) == Positions(text, '{', 0, |text|)
              && Ends(scopes.value) == Positions(text, '}', 0, |text|)
              && Nested(text, scopes.value, 1, |text|)
  {
    var global := new Scope(text, 0, Namespace, labels);
    scopes := global.Read();
    if text[0] != '{' && text[0] != '}' && Balanced(text) {
      BalancedTextIsRead(text);
    }
  }
}
