/** The suffix of an account name: a 64-bit number holding twelve 5-bit characters and a last
    4-bit one, where 0 is a dot. */
module NameSuffix {
  import opened Powers

  const LENGTH: nat := 13
  const CHAR_BITS: nat := 5
  const LAST_BITS: nat := 4
  const WIDTH: nat := 64

  /** The lowest bit of character `i`. */
  function Place(i: nat): nat { if i < 12 then 59 - 5 * i else 0 }

  function CharAt(n: nat, i: nat): nat {
    if i < 12 then Low(Shr(n, Place(i)), CHAR_BITS) else Low(n, LAST_BITS)
  }

  function Chars(n: nat): (s: seq<nat>)
    ensures |s| == LENGTH && forall i :: 0 <= i < LENGTH ==> s[i] == CharAt(n, i)
  {
    seq(LENGTH, i requires 0 <= i < LENGTH => CharAt(n, i))
  }

  /** A dot with something after it. */
  ghost predicate ActualDot(s: seq<nat>, p: nat) {
    p < |s| && s[p] == 0 && exists q :: p < q < |s| && s[q] != 0
  }

  ghost predicate LastActualDot(s: seq<nat>, p: nat) {
    ActualDot(s, p) && forall q :: p < q < |s| ==> !ActualDot(s, q)
  }

  /** The characters after position `p`, filled up with dots. */
  function After(s: seq<nat>, p: nat): (t: seq<nat>)
    requires p < |s|
    ensures |t| == |s|
  {
    s[p + 1..] + seq(p + 1, _ => 0)
  }

  // ----- the scan

  /** The place of the last dot among the first `i` characters, 0 when there is none. */
  function LastDot(s: seq<nat>, i: nat): (r: nat)
    requires i <= |s|
    ensures r <= 59
  {
    if i == 0 then 0 else if s[i - 1] == 0 then Place(i - 1) else LastDot(s, i - 1)
  }

  /** The place of the last dot with something after it, among the first `i` characters. */
  function LastActual(s: seq<nat>, i: nat): (r: nat)
    requires i <= |s|
    ensures r <= 59
  {
    if i == 0 then 0 else if s[i - 1] == 0 then LastActual(s, i - 1) else LastDot(s, i - 1)
  }

  /** The loop over the first twelve characters, then the last one. */
  method Scan(n: nat) returns (remaining: nat)
    ensures remaining == LastActual(Chars(n), LENGTH)
  {
    ghost var s, i := Chars(n), 0;
    remaining := 0;
    var tmp := 0;
    var bits := 59;
    while bits >= 4
      invariant 0 <= i <= 12 && bits == 59 - 5 * i
      invariant tmp == LastDot(s, i) && remaining == LastActual(s, i)
      decreases bits + 1
    {
      var c := Low(Shr(n, bits), CHAR_BITS);
      assert s[i] == c;
      if c == 0 {
        tmp := bits;
      } else {
        remaining := tmp;
      }
      bits := bits - 5;
      i := i + 1;
    }
    assert s[12] == Low(n, LAST_BITS);
    if Low(n, LAST_BITS) != 0 {
      remaining := tmp;
    }
  }

  lemma {:induction false} NoDot(s: seq<nat>, i: nat)
    requires i <= |s| && i <= 12
    ensures LastDot(s, i) == 0 <==> forall j :: 0 <= j < i ==> s[j] != 0
  {
    if i > 0 { NoDot(s, i - 1); }
  }

  lemma {:induction false} DotAt(s: seq<nat>, i: nat) returns (p: nat)
    requires i <= |s| && i <= 12 && LastDot(s, i) != 0
    ensures p < i && LastDot(s, i) == Place(p) && s[p] == 0 && forall j :: p < j < i ==> s[j] != 0
  {
    if s[i - 1] == 0 {
      p := i - 1;
    } else {
      p := DotAt(s, i - 1);
    }
  }

  lemma {:induction false} NoActualDot(s: seq<nat>, i: nat)
    requires i <= |s| && i <= LENGTH && LastActual(s, i) == 0
    ensures forall p :: !ActualDot(s[..i], p)
  {
    if i > 0 {
      if s[i - 1] == 0 {
        NoActualDot(s, i - 1);
        forall p: nat
          ensures !ActualDot(s[..i], p)
        {
          ShorterDot(s, i, p);
        }
      } else {
        NoDot(s, i - 1);
      }
    }
  }

  /** A dot at the end adds no actual dot. */
  lemma ShorterDot(s: seq<nat>, i: nat, p: nat)
    requires 0 < i <= |s| && s[i - 1] == 0
    ensures ActualDot(s[..i], p) <==> ActualDot(s[..i - 1], p)
  {
    var t, u := s[..i], s[..i - 1];
    if ActualDot(t, p) {
      var q :| p < q < |t| && t[q] != 0;
      assert u[q] == t[q];
    }
    if ActualDot(u, p) {
      var q :| p < q < |u| && u[q] != 0;
      assert t[q] == u[q];
    }
  }

  lemma {:induction false} ActualAt(s: seq<nat>, i: nat) returns (p: nat)
    requires i <= |s| && i <= LENGTH && LastActual(s, i) != 0
    ensures p < 12 && LastActual(s, i) == Place(p) && LastActualDot(s[..i], p)
  {
    var t := s[..i];
    if s[i - 1] == 0 {
      p := ActualAt(s, i - 1);
      forall q: nat
        ensures ActualDot(t, q) <==> ActualDot(s[..i - 1], q)
      {
        ShorterDot(s, i, q);
      }
    } else {
      p := DotAt(s, i - 1);
      assert t[i - 1] != 0;
    }
  }

  /** The scan finds the last actual dot, or nothing when there is none. */
  lemma ScanMeans(s: seq<nat>)
    requires |s| == LENGTH
    ensures LastActual(s, LENGTH) == 0 ==> forall p :: !ActualDot(s, p)
    ensures LastActual(s, LENGTH) != 0 ==> exists p :: p < 12 && LastActual(s, LENGTH) == Place(p) && LastActualDot(s, p)
  {
    assert s[..LENGTH] == s;
    if LastActual(s, LENGTH) == 0 {
      NoActualDot(s, LENGTH);
    } else {
      var p := ActualAt(s, LENGTH);
    }
  }

  // ----- the shifts

  /** The masked name shifted to the top, and its last character with it, in arithmetic modulo 2^width. */
  function Moved(n: nat, remaining: nat, width: nat): nat
    requires remaining < width
  {
    Combined(Masked(n, remaining, LAST_BITS), Low(n, LAST_BITS), width - remaining, width)
  }

  /** (high << shift) + (last << (shift - 1)), modulo 2^width. */
  function Combined(high: nat, last: nat, shift: nat, width: nat): nat
    requires shift > 0
  {
    Low(Low(Shl(high, shift), width) + Low(Shl(last, shift - 1), width), width)
  }

  /** n & ((1 << remaining) - (1 << a)): the low bits without the last `a`. */
  function Masked(n: nat, remaining: nat, a: nat): nat {
    Shl(Shr(Low(n, remaining), a), a)
  }

  /** The two shifted parts do not overlap and lose no bit: together they are `high` and `last`,
      with one bit of room between them, moved to the top. */
  lemma CombinedIs(high: nat, last: nat, a: nat, r: nat, width: nat)
    requires a <= r < width && high < Pow2(r - a) && last < Pow2(a)
    ensures var joined := Shl(high, a + 1) + last;
            Combined(Shl(high, a), last, width - r, width) == Shl(joined, width - 1 - r) < Pow2(width)
  {
    var k := width - 1 - r;
    var joined := Shl(high, a + 1) + last;
    assert joined < Pow2(r + 1) by { JoinedBound(high, last, a, r); }
    assert Shl(joined, k) < Pow2(width) by {
      ShlMonotone(joined, Pow2(r + 1), k);
      Pow2Shl(r + 1, k);
    }
    assert Shl(Shl(high, a), k + 1) + Shl(last, k) == Shl(joined, k) by {
      ShlShl(high, a, k + 1);
      ShlShl(high, a + 1, k);
      ShlAdd(Shl(high, a + 1), last, k);
    }
    LowSmall(Shl(Shl(high, a), k + 1), width);
    LowSmall(Shl(last, k), width);
    LowSmall(Shl(joined, k), width);
  }

  lemma JoinedBound(high: nat, last: nat, a: nat, r: nat)
    requires a <= r && high < Pow2(r - a) && last < Pow2(a)
    ensures Shl(high, a + 1) + last < Pow2(r + 1)
  {
    ShlMonotone(high + 1, Pow2(r - a), a + 1);
    ShlAdd(high, 1, a + 1);
    ShlOne(a + 1);
    Pow2Shl(r - a, a + 1);
  }

  /** The characters after position `p`, the last one widened to five bits. */
  function Joined(n: nat, p: nat): nat {
    Shl(Shr(Low(n, Place(p)), LAST_BITS), CHAR_BITS) + Low(n, LAST_BITS)
  }

  lemma MovedBits(n: nat, r: nat, a: nat, width: nat)
    requires a <= r < width
    ensures Combined(Shl(Shr(Low(n, r), a), a), Low(n, a), width - r, width) ==
            Shl(Shl(Shr(Low(n, r), a), a + 1) + Low(n, a), width - 1 - r) < Pow2(width)
  {
    var high := Shr(Low(n, r), a);
    assert high < Pow2(r - a) by {
      SplitAt(n, r);
      ShiftBound(Low(n, r), r, a);
    }
    assert Low(n, a) < Pow2(a) by { SplitAt(n, a); }
    CombinedIs(high, Low(n, a), a, r, width);
  }

  lemma MovedIs(n: nat, p: nat, width: nat)
    requires p < 12 && width == Place(p) + CHAR_BITS * (p + 1)
    ensures Moved(n, Place(p), width) == Shl(Joined(n, p), LAST_BITS + CHAR_BITS * p) < Pow2(width)
  {
    MovedBits(n, Place(p), LAST_BITS, width);
  }

  /** A group of `b` bits at place `k` of a shifted number. */
  lemma ShiftedGroup(x: nat, s: nat, k: nat, b: nat)
    ensures s <= k ==> Low(Shr(Shl(x, s), k), b) == Low(Shr(x, k - s), b)
    ensures k + b <= s ==> Low(Shr(Shl(x, s), k), b) == 0
  {
    if s <= k {
      ShlThenShr(x, s, k - s);
    } else if k + b <= s {
      ShlThenShrLess(x, s, k);
      LowOfShl(x, s - k, b);
    }
  }

  /** A group of `b` bits in a number with `last` below `high`. */
  lemma JoinedGroup(high: nat, last: nat, b: nat, k: nat)
    requires last < Pow2(b)
    ensures Low(Shr(Shl(high, b) + last, 0), b) == last
    ensures b <= k ==> Low(Shr(Shl(high, b) + last, k), b) == Low(Shr(high, k - b), b)
  {
    JoinSplit(high, last, b);
    if b <= k {
      ShrLowSplit(Shl(high, b) + last, b, k - b);
    }
  }

  lemma AfterAt(n: nat, p: nat, i: nat)
    requires p < 12 && i < LENGTH
    ensures After(Chars(n), p)[i] == if i <= 11 - p then CharAt(n, p + 1 + i) else 0
  {}

  /** The characters of a name moved up by whole characters. */
  lemma CharOfShifted(x: nat, p: nat, i: nat)
    requires p < 12 && i < LENGTH
    ensures CharAt(Shl(x, LAST_BITS + CHAR_BITS * p), i) ==
            if i <= 11 - p then Low(Shr(x, CHAR_BITS * (11 - p - i)), CHAR_BITS) else 0
  {
    var s := LAST_BITS + CHAR_BITS * p;
    if i == 12 {
      LowOfShl(x, s, LAST_BITS);
    } else {
      ShiftedGroup(x, s, Place(i), CHAR_BITS);
    }
  }

  /** The characters of the moved name. */
  lemma MovedChar(n: nat, p: nat, i: nat, width: nat)
    requires p < 12 && width == Place(p) + CHAR_BITS * (p + 1) && i < LENGTH
    ensures CharAt(Moved(n, Place(p), width), i) == After(Chars(n), p)[i]
  {
    MovedIs(n, p, width);
    AfterAt(n, p, i);
    CharOfShifted(Joined(n, p), p, i);
    if i <= 11 - p {
      JoinedChar(n, p, i);
    }
  }

  lemma JoinedChar(n: nat, p: nat, i: nat)
    requires p < 12 && i <= 11 - p
    ensures Low(Shr(Joined(n, p), CHAR_BITS * (11 - p - i)), CHAR_BITS) == CharAt(n, p + 1 + i)
  {
    JoinedBits(n, Place(p), LAST_BITS, CHAR_BITS, CHAR_BITS * (11 - p - i));
  }

  /** A group of `b` bits in the low `r` bits of n, whose last `a` bits have been widened to `b`. */
  lemma JoinedBits(n: nat, r: nat, a: nat, b: nat, k: nat)
    requires a <= b && a <= r
    ensures var joined := Shl(Shr(Low(n, r), a), b) + Low(n, a);
            && Low(Shr(joined, 0), b) == Low(n, a)
            && (b <= k && a + k <= r ==> Low(Shr(joined, k), b) == Low(Shr(n, a + k - b), b))
  {
    var high, last := Shr(Low(n, r), a), Low(n, a);
    assert last < Pow2(b) by {
      SplitAt(n, a);
      Pow2Monotone(a, b);
    }
    JoinedGroup(high, last, b, k);
    if b <= k && a + k <= r {
      InnerBits(n, r, a, b, k - b);
    }
  }

  lemma InnerBits(n: nat, r: nat, a: nat, b: nat, m: nat)
    requires a + m + b <= r
    ensures Low(Shr(Shr(Low(n, r), a), m), b) == Low(Shr(n, a + m), b)
  {
    ShrLowSplit(Low(n, r), a, m);
    ShrOfLow(n, r, a + m);
    LowOfLow(Shr(n, a + m), r - (a + m), b);
  }

  /** The name whose characters are those after position `p`. */
  lemma MovedMeans(n: nat, p: nat, width: nat)
    requires p < 12 && width == Place(p) + CHAR_BITS * (p + 1)
    ensures Moved(n, Place(p), width) < Pow2(width)
    ensures Chars(Moved(n, Place(p), width)) == After(Chars(n), p)
  {
    MovedIs(n, p, width);
    var r := Moved(n, Place(p), width);
    forall i | 0 <= i < LENGTH
      ensures Chars(r)[i] == After(Chars(n), p)[i]
    {
      MovedChar(n, p, i, width);
    }
  }

  lemma OneLastDot(s: seq<nat>, p: nat, q: nat)
    requires LastActualDot(s, p) && LastActualDot(s, q)
    ensures p == q
  {}

  /** What the suffix is, by value. */
  function SuffixOf(n: nat): nat {
    var remaining := LastActual(Chars(n), LENGTH);
    if remaining == 0 then n else Moved(n, remaining, WIDTH)
  }

  lemma SuffixMeans(n: nat)
    requires n < Pow2(WIDTH)
    ensures SuffixOf(n) < Pow2(WIDTH)
    ensures (forall p :: !ActualDot(Chars(n), p)) ==> SuffixOf(n) == n
    ensures forall p :: LastActualDot(Chars(n), p) ==> Chars(SuffixOf(n)) == After(Chars(n), p)
  {
    var s := Chars(n);
    var remaining := LastActual(s, LENGTH);
    ScanMeans(s);
    if remaining != 0 {
      var p :| p < 12 && remaining == Place(p) && LastActualDot(s, p);
      MovedMeans(n, p, WIDTH);
      forall q | LastActualDot(s, q)
        ensures q == p
      {
        OneLastDot(s, p, q);
      }
    }
  }

  /** The suffix of a name: everything after its last actual dot, moved to the front; a name
      without one is its own suffix. */
  method Suffix(n: nat) returns (r: nat)
    requires n < Pow2(WIDTH)
    ensures r == SuffixOf(n) < Pow2(WIDTH)
    ensures (forall p :: !ActualDot(Chars(n), p)) ==> r == n
    ensures forall p :: LastActualDot(Chars(n), p) ==> Chars(r) == After(Chars(n), p)
  {
    var remaining := Scan(n);
    SuffixMeans(n);
    if remaining == 0 {
      return n;
    }
    return Moved(n, remaining, WIDTH);
  }

  // ----- what a suffix is

  lemma DotAfter(s: seq<nat>, p: nat, q: nat)
    requires p < |s| && ActualDot(After(s, p), q)
    ensures ActualDot(s, p + 1 + q)
  {
    var t := After(s, p);
    var k :| q < k < |t| && t[k] != 0;
    assert s[p + 1 + k] == t[k] && s[p + 1 + q] == t[q];
  }

  /** Nothing after the last actual dot is an actual dot. */
  lemma AfterHasNoDot(s: seq<nat>, p: nat, q: nat)
    requires LastActualDot(s, p)
    ensures !ActualDot(After(s, p), q)
  {
    if ActualDot(After(s, p), q) {
      DotAfter(s, p, q);
      assert false;
    }
  }

  /** A suffix has no actual dot left, so taking the suffix again changes nothing. */
  lemma SuffixIsIdempotent(n: nat)
    requires n < Pow2(WIDTH)
    ensures forall q :: !ActualDot(Chars(SuffixOf(n)), q)
    ensures SuffixOf(SuffixOf(n)) == SuffixOf(n)
  {
    var s, r := Chars(n), SuffixOf(n);
    SuffixMeans(n);
    ScanMeans(s);
    if LastActual(s, LENGTH) != 0 {
      var p :| p < 12 && LastActual(s, LENGTH) == Place(p) && LastActualDot(s, p);
      forall q: nat
        ensures !ActualDot(Chars(r), q)
      {
        AfterHasNoDot(s, p, q);
      }
    }
    ScanMeans(Chars(r));
  }

  lemma {:induction false} ZeroGroup(k: nat, b: nat)
    ensures Low(Shr(0, k), b) == 0
    decreases k + b
  {
    if k > 0 {
      ZeroGroup(k - 1, b);
    } else if b > 0 {
      ZeroGroup(0, b - 1);
    }
  }

  lemma ZeroChars(i: nat)
    requires i < LENGTH
    ensures Chars(0)[i] == 0
  {
    ZeroGroup(Place(i), if i < 12 then CHAR_BITS else LAST_BITS);
  }

  lemma ShortenedShape(n: nat, r: nat, p: nat)
    requires LastActualDot(Chars(n), p) && Chars(r) == After(Chars(n), p)
    ensures n != 0 && r != 0 && CharAt(r, 12) == 0
  {
    var s := Chars(n);
    var q :| p < q < |s| && s[q] != 0;
    assert Chars(r)[q - p - 1] == s[q];
    assert Chars(r)[12] == After(s, p)[12] == 0;
    ZeroChars(q - p - 1);
    ZeroChars(q);
  }

  /** Only the empty name has an empty suffix, and a shortened name ends in a dot. */
  lemma SuffixShape(n: nat)
    requires n < Pow2(WIDTH)
    ensures SuffixOf(n) == 0 <==> n == 0
    ensures (exists p :: ActualDot(Chars(n), p)) ==> CharAt(SuffixOf(n), 12) == 0
  {
    var s := Chars(n);
    SuffixMeans(n);
    ScanMeans(s);
    if LastActual(s, LENGTH) != 0 {
      var p :| p < 12 && LastActual(s, LENGTH) == Place(p) && LastActualDot(s, p);
      ShortenedShape(n, SuffixOf(n), p);
    }
  }

  lemma {:induction false} SameHigh(n: nat, m: nat, i: nat, width: nat)
    requires i < 12 && width == Place(0) + CHAR_BITS && n < Pow2(width) && m < Pow2(width)
    requires forall j :: 0 <= j < LENGTH ==> CharAt(n, j) == CharAt(m, j)
    ensures Shr(n, Place(i)) == Shr(m, Place(i))
  {
    assert CharAt(n, i) == CharAt(m, i);
    if i == 0 {
      TopGroup(n, Place(0), CHAR_BITS);
      TopGroup(m, Place(0), CHAR_BITS);
    } else {
      SameHigh(n, m, i - 1, width);
      GroupBelow(n, Place(i), CHAR_BITS);
      GroupBelow(m, Place(i), CHAR_BITS);
    }
  }

  lemma TopGroup(n: nat, k: nat, b: nat)
    requires n < Pow2(k + b)
    ensures Shr(n, k) == Low(Shr(n, k), b)
  {
    ShiftBound(n, k + b, k);
    LowSmall(Shr(n, k), b);
  }

  lemma GroupBelow(n: nat, k: nat, b: nat)
    ensures Shr(n, k) == Shl(Shr(n, k + b), b) + Low(Shr(n, k), b)
  {
    ShrLowSplit(n, k, b);
    SplitAt(Shr(n, k), b);
  }

  /** The characters determine the name. */
  lemma CharsDetermine(n: nat, m: nat, width: nat)
    requires width == Place(0) + CHAR_BITS && n < Pow2(width) && m < Pow2(width)
    requires Chars(n) == Chars(m)
    ensures n == m
  {
    forall j | 0 <= j < LENGTH
      ensures CharAt(n, j) == CharAt(m, j)
    {
      assert Chars(n)[j] == Chars(m)[j];
    }
    SameHigh(n, m, 11, width);
    assert CharAt(n, 12) == CharAt(m, 12);
    SameJoin(n, m, LAST_BITS);
  }

  lemma SameJoin(n: nat, m: nat, k: nat)
    requires Shr(n, k) == Shr(m, k) && Low(n, k) == Low(m, k)
    ensures n == m
  {
    SplitAt(n, k);
    SplitAt(m, k);
  }
}
