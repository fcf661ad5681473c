/** Merkle roots of digest sequences, rebuilt level by level. `h(l, r)` stands for hashing
    the pair of a canonical left and a canonical right digest. */
module Merkle {
  import opened Powers

  /** One level up; an odd last node is paired with itself. */
  function Level<D>(h: (D, D) -> D, ids: seq<D>): seq<D> {
    seq((|ids| + 1) / 2, i requires 0 <= i < (|ids| + 1) / 2 =>
      h(ids[2 * i], if 2 * i + 1 < |ids| then ids[2 * i + 1] else ids[2 * i]))
  }

  function Root<D>(h: (D, D) -> D, ids: seq<D>): D
    requires ids != []
    decreases |ids|
  {
    if |ids| == 1 then ids[0] else Root(h, Level(h, ids))
  }

  /** One level up, complete pairs only. */
  function Pairs<D>(h: (D, D) -> D, ids: seq<D>): seq<D> {
    seq(|ids| / 2, i requires 0 <= i < |ids| / 2 => h(ids[2 * i], ids[2 * i + 1]))
  }

  function Padded<D>(ids: seq<D>): seq<D> {
    if |ids| % 2 == 1 then ids + [ids[|ids| - 1]] else ids
  }

  lemma PaddedPairs<D>(h: (D, D) -> D, ids: seq<D>)
    ensures Pairs(h, Padded(ids)) == Level(h, ids)
  {}

  /** The root computed in one vector, halving it in place. `none` is the empty digest. */
  method MerkleRoot<D>(h: (D, D) -> D, leaves: seq<D>, none: D) returns (root: D)
    ensures root == if leaves == [] then none else Root(h, leaves)
  {
    if |leaves| == 0 {
      return none;
    }
    var ids := leaves;
    while |ids| > 1
      invariant ids != [] && Root(h, ids) == Root(h, leaves)
      decreases |ids|
    {
      PaddedPairs(h, ids);
      if |ids| % 2 == 1 {
        ids := ids + [ids[|ids| - 1]];
      }
      ids := HashPairs(h, ids);
    }
    root := ids[0];
  }

  /** Overwrites the front half with the hashed pairs and drops the rest. */
  method HashPairs<D>(h: (D, D) -> D, nodes: seq<D>) returns (ids: seq<D>)
    ensures ids == Pairs(h, nodes)
  {
    ids := nodes;
    for i := 0 to |ids| / 2
      invariant |ids| == |nodes|
      invariant forall k :: 0 <= k < i ==> ids[k] == h(nodes[2 * k], nodes[2 * k + 1])
      invariant forall k :: 2 * i <= k < |nodes| ==> ids[k] == nodes[k]
    {
      ids := ids[i := h(ids[2 * i], ids[2 * i + 1])];
    }
    ids := ids[..|ids| / 2];
  }

  // ----- complete subtrees

  /** The roots of the maximal complete subtrees, from the smallest (rightmost) to the largest. */
  function Peaks<D>(h: (D, D) -> D, ids: seq<D>): seq<D>
    decreases |ids|
  {
    if ids == [] then []
    else if |ids| % 2 == 1 then [ids[|ids| - 1]] + Peaks(h, Pairs(h, ids))
    else Peaks(h, Pairs(h, ids))
  }

  /** What the incremental tree stores: the peaks, then the root unless it is the only peak. */
  function Active<D>(h: (D, D) -> D, ids: seq<D>): seq<D> {
    if ids == [] then []
    else if |Peaks(h, ids)| == 1 then [Root(h, ids)]
    else Peaks(h, ids) + [Root(h, ids)]
  }

  lemma {:induction false} PeaksExist<D>(h: (D, D) -> D, ids: seq<D>)
    requires ids != []
    ensures Peaks(h, ids) != []
    decreases |ids|
  {
    if |ids| % 2 == 0 {
      PeaksExist(h, Pairs(h, ids));
    }
  }

  /** A single peak is the root: the tree is complete. */
  lemma {:induction false} SinglePeakIsRoot<D>(h: (D, D) -> D, ids: seq<D>)
    requires |Peaks(h, ids)| == 1
    ensures ids != [] && Peaks(h, ids) == [Root(h, ids)]
    decreases |ids|
  {
    if |ids| % 2 == 1 {
      if |ids| > 1 {
        PeaksExist(h, Pairs(h, ids));
        assert false;
      }
    } else {
      SinglePeakIsRoot(h, Pairs(h, ids));
      assert Pairs(h, ids) == Level(h, ids);
    }
  }

  /** Appending one node and going up a level: the old complete nodes go up by themselves. */
  lemma LevelOfAppend<D>(h: (D, D) -> D, ids: seq<D>, top: D)
    ensures Level(h, ids + [top]) ==
            Pairs(h, ids) + [if |ids| % 2 == 0 then h(top, top) else h(ids[|ids| - 1], top)]
    ensures |ids| % 2 == 1 ==> Level(h, ids + [top]) == Pairs(h, ids + [top])
  {
    var m := ids + [top];
    if |ids| % 2 == 1 {
      assert m[|ids| - 1] == ids[|ids| - 1];
      assert forall i :: 0 <= i < |ids| / 2 ==> m[2 * i] == ids[2 * i] && m[2 * i + 1] == ids[2 * i + 1];
    }
  }

  lemma PeaksStep<D>(h: (D, D) -> D, ids: seq<D>)
    ensures |ids| % 2 == 0 ==> Peaks(h, ids) == Peaks(h, Pairs(h, ids))
    ensures |ids| % 2 == 1 ==> Peaks(h, ids) == [ids[|ids| - 1]] + Peaks(h, Pairs(h, ids))
  {
    if ids == [] {
      assert Pairs(h, ids) == [];
    }
  }

  lemma PairsOfAppend<D>(h: (D, D) -> D, ids: seq<D>, top: D)
    requires |ids| % 2 == 0
    ensures Pairs(h, ids + [top]) == Pairs(h, ids)
  {}

  lemma PeaksOfAppend<D>(h: (D, D) -> D, ids: seq<D>, top: D)
    ensures |ids| % 2 == 0 ==> Peaks(h, ids + [top]) == [top] + Peaks(h, Pairs(h, ids))
    ensures |ids| % 2 == 1 ==> Peaks(h, ids + [top]) == Peaks(h, Pairs(h, ids) + [h(ids[|ids| - 1], top)])
  {
    var m := ids + [top];
    PeaksStep(h, m);
    if |ids| % 2 == 0 {
      PairsOfAppend(h, ids, top);
      assert m[|m| - 1] == top;
    } else {
      LevelOfAppend(h, ids, top);
    }
  }

  // ----- the depth of the tree, in 64-bit arithmetic

  /** The 64-bit pattern of a number. */
  function Bits(n: nat): bv64 {
    if n == 0 then 0 else Shifted(Bits(n / 2), n % 2 == 1)
  }

  function Shifted(b: bv64, odd: bool): bv64 {
    (b << 1) | (if odd then 1 else 0)
  }

  /** How many bits a number needs. */
  function BitLength(n: nat): nat {
    if n == 0 then 0 else 1 + BitLength(n / 2)
  }

  /** The lowest `k` bits. */
  function Mask(k: nat): bv64 {
    if k == 0 then 0 else Shifted(Mask(k - 1), true)
  }

  /** Copies every set bit into all lower positions. */
  function Smear(x: bv64): bv64 {
    var a := x | (x >> 1);
    var b := a | (a >> 2);
    var c := b | (b >> 4);
    var d := c | (c >> 8);
    var e := d | (d >> 16);
    e | (e >> 32)
  }

  function NextPowerOf2(value: nat): bv64
    requires value > 0
  {
    PowerAbove(Bits(value - 1))
  }

  function ClzPower2(value: bv64): int {
    64 - (if value != 0 then 1 else 0)
       - (if value & 0x00000000FFFFFFFF != 0 then 32 else 0)
       - (if value & 0x0000FFFF0000FFFF != 0 then 16 else 0)
       - (if value & 0x00FF00FF00FF00FF != 0 then 8 else 0)
       - (if value & 0x0F0F0F0F0F0F0F0F != 0 then 4 else 0)
       - (if value & 0x3333333333333333 != 0 then 2 else 0)
       - (if value & 0x5555555555555555 != 0 then 1 else 0)
  }

  function CalculateMaxDepth(nodeCount: nat): int {
    if nodeCount == 0 then 0 else ClzPower2(NextPowerOf2(nodeCount)) + 1
  }

  function Half(x: bv64): bv64 { x >> 1 }

  predicate TopClear(x: bv64) { x & 0x8000_0000_0000_0000 == 0 }

  predicate Within(b: bv64, m: bv64) { b | m == m }

  lemma {:induction false} BitsFit(n: nat, k: nat)
    requires BitLength(n) <= k
    ensures Within(Bits(n), Mask(k))
  {
    if n == 0 {
      ZeroWithin(Mask(k));
    } else {
      BitsFit(n / 2, k - 1);
      ShiftedWithin(Bits(n / 2), Mask(k - 1), n % 2 == 1);
    }
  }

  lemma ZeroWithin(m: bv64)
    ensures Within(0, m)
  {}

  lemma ShiftedWithin(b: bv64, m: bv64, odd: bool)
    requires Within(b, m)
    ensures Within(Shifted(b, odd), Shifted(m, true))
  {
    OrShifted(b, m, if odd then 1 else 0);
  }

  lemma OrShifted(b: bv64, m: bv64, d: bv64)
    requires b | m == m && (d == 0 || d == 1)
    ensures ((b << 1) | d) | ((m << 1) | 1) == (m << 1) | 1
  {}

  lemma MaskByThree(k: nat, m: bv64)
    requires Mask(k) == m
    ensures Mask(k + 3) == (m << 3) | 7
  {
    assert Mask(k + 1) == Shifted(m, true);
    assert Mask(k + 2) == Shifted(Mask(k + 1), true);
    ThreeOnes(m);
  }

  lemma ThreeOnes(m: bv64)
    ensures Shifted(Shifted(Shifted(m, true), true), true) == (m << 3) | 7
  {}

  lemma MaskByNine(k: nat, m: bv64)
    requires Mask(k) == m
    ensures Mask(k + 9) == (m << 9) | 0x1FF
  {
    MaskByThree(k, m);
    MaskByThree(k + 3, Mask(k + 3));
    MaskByThree(k + 6, Mask(k + 6));
    NineOnes(m);
  }

  lemma NineOnes(m: bv64)
    ensures (((((m << 3) | 7) << 3) | 7) << 3) | 7 == (m << 9) | 0x1FF
  {}

  lemma MaskAll()
    ensures Mask(63) == 0x7FFF_FFFF_FFFF_FFFF
  {
    MaskByNine(0, 0);
    MaskByNine(9, 0x1FF);
    MaskByNine(18, 0x3_FFFF);
    MaskByNine(27, 0x7FF_FFFF);
    MaskByNine(36, 0xF_FFFF_FFFF);
    MaskByNine(45, 0x1FFF_FFFF_FFFF);
    MaskByNine(54, 0x3F_FFFF_FFFF_FFFF);
  }

  /** Patterns of numbers below 2^63 leave the top bit clear. */
  lemma BitsBelowTop(n: nat)
    requires BitLength(n) <= 63
    ensures TopClear(Bits(n))
  {
    BitsFit(n, 63);
    MaskAll();
    ClearTop(Bits(n));
  }

  lemma ClearTop(x: bv64)
    requires x | 0x7FFF_FFFF_FFFF_FFFF == 0x7FFF_FFFF_FFFF_FFFF
    ensures TopClear(x)
  {}

  lemma ShiftedBack(b: bv64, odd: bool)
    requires TopClear(b)
    ensures Half(Shifted(b, odd)) == b
    ensures odd || b != 0 ==> Shifted(b, odd) != 0
  {}

  lemma BitsHalf(n: nat)
    requires 0 < n && BitLength(n) <= 63
    ensures Half(Bits(n)) == Bits(n / 2)
    ensures n % 2 == 1 || Bits(n / 2) != 0 ==> Bits(n) != 0
  {
    BitsBelowTop(n / 2);
    ShiftedBack(Bits(n / 2), n % 2 == 1);
  }

  lemma {:induction false} BitsNonzero(n: nat)
    requires 0 < n && BitLength(n) <= 63
    ensures Bits(n) != 0
  {
    BitsHalf(n);
    if n > 1 {
      BitsNonzero(n / 2);
    }
  }

  /** The power of two above every bit of `x`. */
  function PowerAbove(x: bv64): bv64 { Smear(x) + 1 }

  predicate IsPower(p: bv64) { p != 0 && p & (p - 1) == 0 }

  lemma PowerAboveDoubles(x: bv64)
    requires x != 0 && TopClear(x)
    ensures PowerAbove(x) == PowerAbove(Half(x)) << 1
  {}

  lemma PowerAboveIsPower(x: bv64)
    requires TopClear(x)
    ensures IsPower(PowerAbove(x))
  {}

  lemma HalfTopClear(x: bv64)
    ensures TopClear(Half(x))
  {}

  lemma ClzDoubles(p: bv64, q: bv64)
    requires IsPower(p) && IsPower(q) && q == p << 1
    ensures ClzPower2(q) == ClzPower2(p) + 1
  {}

  /** The word with only bit `k` set. */
  function Bit(k: nat): bv64 {
    if k == 0 then 1 else Bit(k - 1) << 1
  }

  lemma DoubledPower(p: bv64)
    requires IsPower(p) && p != 0x8000000000000000
    ensures IsPower(p << 1)
  {}

  /** Despite its name, the function counts the trailing zeros of a power of two. */
  lemma {:induction false} ClzCountsTrailingZeros(k: nat)
    requires k < 64
    ensures IsPower(Bit(k)) && ClzPower2(Bit(k)) == k
  {
    if k == 0 {
      assert ClzPower2(1) == 0;
    } else {
      ClzCountsTrailingZeros(k - 1);
      assert ClzPower2(0x8000000000000000) == 63;
      DoubledPower(Bit(k - 1));
      ClzDoubles(Bit(k - 1), Bit(k));
    }
  }

  lemma DepthDoubles(x: bv64)
    requires x != 0 && TopClear(x)
    ensures ClzPower2(PowerAbove(x)) == ClzPower2(PowerAbove(Half(x))) + 1
  {
    PowerAboveDoubles(x);
    PowerAboveIsPower(x);
    HalfTopClear(x);
    PowerAboveIsPower(Half(x));
    ClzDoubles(PowerAbove(Half(x)), PowerAbove(x));
  }

  lemma {:induction false} DepthBelowTop(last: nat)
    requires BitLength(last) <= 63
    ensures CalculateMaxDepth(last + 1) == BitLength(last) + 1
  {
    if last == 0 {
      assert ClzPower2(1) == 0;
    } else {
      DepthBelowTop(last / 2);
      BitsNonzero(last);
      BitsHalf(last);
      BitsBelowTop(last);
      DepthDoubles(Bits(last));
    }
  }

  lemma ShiftKeepsBit(b: bv64, p: bv64, odd: bool)
    requires IsPower(p) && p != 0x8000000000000000 && b & p != 0
    ensures Shifted(b, odd) & (p << 1) != 0
  {
    ShiftKeepsBitWords(b, p, if odd then 1 else 0);
  }

  lemma ShiftKeepsBitWords(b: bv64, p: bv64, d: bv64)
    requires p & (p - 1) == 0 && p != 0x8000000000000000 && b & p != 0
    ensures ((b << 1) | d) & (p << 1) != 0
  {}

  lemma BelowTop(p: bv64)
    requires ClzPower2(p) < 63
    ensures p != 0x8000000000000000
  {}

  predicate HasBit(x: bv64, k: nat) { x & Bit(k) != 0 }

  lemma NextBit(b: bv64, k: nat, odd: bool)
    requires k < 63 && HasBit(b, k)
    ensures HasBit(Shifted(b, odd), k + 1)
  {
    assert IsPower(Bit(k)) && Bit(k) != 0x8000000000000000 by {
      ClzCountsTrailingZeros(k);
      BelowTop(Bit(k));
    }
    ShiftKeepsBit(b, Bit(k), odd);
  }

  lemma LowestBit()
    ensures Bits(1) & Bit(0) != 0
  {
    assert Bits(1) == Shifted(Bits(0), true) == 1;
  }

  lemma BitsIs(n: nat, half: bv64)
    requires n > 0 && Bits(n / 2) == half
    ensures Bits(n) == Shifted(half, n % 2 == 1)
  {}

  lemma BitsStep(n: nat, k: nat)
    requires n > 0 && k < 63 && HasBit(Bits(n / 2), k)
    ensures HasBit(Bits(n), k + 1)
  {
    var half := Bits(n / 2);
    BitsIs(n, half);
    NextBit(half, k, n % 2 == 1);
  }

  /** The highest bit of a number is set. */
  lemma {:induction false} HighestBit(n: nat, k: nat)
    requires BitLength(n) == k + 1 <= 64
    ensures HasBit(Bits(n), k)
    decreases k
  {
    if k == 0 {
      assert n == 1;
      LowestBit();
    } else {
      HighestBit(n / 2, k - 1);
      BitsStep(n, k - 1);
    }
  }

  lemma TopBit(x: bv64, k: nat)
    requires k == 63 && x & Bit(k) != 0
    ensures x & 0x8000000000000000 != 0
  {
    ClzCountsTrailingZeros(k);
    TopPower(x, Bit(k));
  }

  lemma TopPower(x: bv64, p: bv64)
    requires x & p != 0 && IsPower(p) && ClzPower2(p) == 63
    ensures x & 0x8000000000000000 != 0
  {}

  /** Above a number with its top bit set there is no power of two left: the word is 0. */
  lemma DepthAtTop(x: bv64)
    requires x & 0x8000000000000000 != 0
    ensures ClzPower2(PowerAbove(x)) == 64
  {}

  lemma DepthWithTop(last: nat)
    requires HasBit(Bits(last), 63)
    ensures CalculateMaxDepth(last + 1) == 65
  {
    TopBit(Bits(last), 63);
    DepthAtTop(Bits(last));
  }

  /** The bit tricks compute the depth: one more than the number of bits of the last index. */
  lemma DepthIsBitLength(last: nat)
    requires BitLength(last) <= 64
    ensures CalculateMaxDepth(last + 1) == BitLength(last) + 1
  {
    if BitLength(last) == 64 {
      HighestBit(last, 63);
      DepthWithTop(last);
    } else {
      DepthBelowTop(last);
    }
  }

  lemma {:induction false} BitLengthBound(n: nat, k: nat)
    requires n < Pow2(k)
    ensures BitLength(n) <= k
  {
    if n > 0 {
      BitLengthBound(n / 2, k - 1);
    }
  }

  /** The largest 64-bit count; one more wraps to 0. */
  const MAX_COUNT: nat := 0xFFFF_FFFF_FFFF_FFFF

  lemma DepthOfCount(n: nat)
    requires n < MAX_COUNT
    ensures CalculateMaxDepth(n + 1) == BitLength(n) + 1
  {
    assert n < Pow2(64) by { Pow2Values(); }
    BitLengthBound(n, 64);
    DepthIsBitLength(n);
  }

  // ----- appending one leaf at a time

  lemma StartsWithPeaks<D>(h: (D, D) -> D, ids: seq<D>)
    ensures Peaks(h, ids) <= Active(h, ids)
  {
    if |Peaks(h, ids)| == 1 {
      SinglePeakIsRoot(h, ids);
    }
  }

  /** Half-way up the path of a new leaf: `below` are the complete old nodes of this level, `top`
      the node above the new leaf, `rest` the old peaks not yet read, `updated` the new peaks so far. */
  ghost predicate Climbing<D>(h: (D, D) -> D, all: seq<D>, below: seq<D>, top: D, partial: bool,
                              rest: seq<D>, updated: seq<D>)
    requires all != []
  {
    && Root(h, below + [top]) == Root(h, all)
    && rest == Peaks(h, below)
    && (if partial then Peaks(h, all) == updated + Peaks(h, below) && |Peaks(h, all)| >= 2
        else Peaks(h, all) == Peaks(h, below + [top]) && updated == [])
  }

  lemma ClimbStart<D>(h: (D, D) -> D, leaves: seq<D>, digest: D)
    ensures leaves + [digest] != []
    ensures Climbing(h, leaves + [digest], leaves, digest, false, Peaks(h, leaves), [])
  {}

  /** From a left node: the missing right sibling is implied. */
  lemma ClimbLeft<D>(h: (D, D) -> D, all: seq<D>, below: seq<D>, top: D, partial: bool, rest: seq<D>, updated: seq<D>)
    requires all != [] && below != [] && |below| % 2 == 0 && Climbing(h, all, below, top, partial, rest, updated)
    ensures Climbing(h, all, Pairs(h, below), h(top, top), true, rest, if partial then updated else updated + [top])
  {
    RootStep(h, below + [top]);
    LevelOfAppend(h, below, top);
    PeaksStep(h, below);
    PeaksExist(h, Pairs(h, below));
    if !partial {
      PeaksOfAppend(h, below, top);
      assert updated + [top] == [top];
    }
  }

  lemma RootStep<D>(h: (D, D) -> D, ids: seq<D>)
    requires |ids| > 1
    ensures Root(h, ids) == Root(h, Level(h, ids))
  {}

  /** From a right node: the left sibling is the next old peak. */
  lemma ClimbRight<D>(h: (D, D) -> D, all: seq<D>, below: seq<D>, top: D, partial: bool, rest: seq<D>, updated: seq<D>)
    requires all != [] && |below| % 2 == 1 && Climbing(h, all, below, top, partial, rest, updated)
    ensures rest != []
    ensures Climbing(h, all, Pairs(h, below), h(rest[0], top), partial, rest[1..],
                     if partial then updated + [rest[0]] else updated)
  {
    RootStep(h, below + [top]);
    LevelOfAppend(h, below, top);
    PeaksOfAppend(h, below, top);
    PeaksStep(h, below);
    assert rest[0] == below[|below| - 1] && rest[1..] == Peaks(h, Pairs(h, below));
    if partial {
      assert updated + Peaks(h, below) == (updated + [rest[0]]) + rest[1..];
    }
  }

  /** At the top: what is stored next. */
  lemma ClimbDone<D>(h: (D, D) -> D, all: seq<D>, top: D, partial: bool, rest: seq<D>, updated: seq<D>)
    requires all != [] && Climbing(h, all, [], top, partial, rest, updated)
    ensures top == Root(h, all) && updated + [top] == Active(h, all)
  {
    assert [] + [top] == [top];
    assert Peaks(h, [top]) == [top] by {
      assert Pairs(h, [top]) == [];
    }
  }

  class IncrementalMerkle<D> {
    var nodeCount: nat
    var activeNodes: seq<D>

    constructor ()
      ensures nodeCount == 0 && activeNodes == []
    {
      nodeCount, activeNodes := 0, [];
    }

    /** The tree holds `leaves`. */
    ghost predicate Holds(h: (D, D) -> D, leaves: seq<D>)
      reads this
    {
      nodeCount == |leaves| && activeNodes == Active(h, leaves)
    }

    method GetRoot(h: (D, D) -> D, none: D, ghost leaves: seq<D>) returns (root: D)
      requires Holds(h, leaves)
      ensures root == if leaves == [] then none else Root(h, leaves)
    {
      root := if nodeCount > 0 then activeNodes[|activeNodes| - 1] else none;
    }

    /** Adds one leaf, hashing only along its path, and returns the root of all leaves. */
    method Append(h: (D, D) -> D, digest: D, ghost leaves: seq<D>) returns (root: D)
      requires Holds(h, leaves) && nodeCount < MAX_COUNT
      modifies this
      ensures Holds(h, leaves + [digest])
      ensures root == Root(h, leaves + [digest])
    {
      var partial := false;
      var currentDepth := CalculateMaxDepth(nodeCount + 1) - 1;
      assert currentDepth == BitLength(nodeCount) by { DepthOfCount(nodeCount); }
      var index := nodeCount;
      var top := digest;
      var next := 0;
      var updated: seq<D> := [];

      ghost var all := leaves + [digest];
      ghost var below := leaves;
      ghost var rest := Peaks(h, leaves);
      StartsWithPeaks(h, leaves);
      ClimbStart(h, leaves, digest);
      assert activeNodes[0..|rest|] == rest;
      while currentDepth > 0
        invariant currentDepth == BitLength(index) && index == |below|
        invariant nodeCount == |leaves| && activeNodes == old(activeNodes)
        invariant next + |rest| <= |activeNodes| && activeNodes[next..next + |rest|] == rest
        invariant Climbing(h, all, below, top, partial, rest, updated)
        decreases currentDepth
      {
        if index % 2 == 0 {
          ClimbLeft(h, all, below, top, partial, rest, updated);
          if !partial {
            updated := updated + [top];
          }
          top := h(top, top);
          partial := true;
        } else {
          ClimbRight(h, all, below, top, partial, rest, updated);
          var leftValue := activeNodes[next];
          next := next + 1;
          if partial {
            updated := updated + [leftValue];
          }
          top := h(leftValue, top);
          rest := rest[1..];
        }
        currentDepth := currentDepth - 1;
        index := index / 2;
        below := Pairs(h, below);
      }
      ClimbDone(h, all, top, partial, rest, updated);
      updated := updated + [top];
      activeNodes := updated;
      nodeCount := nodeCount + 1;
      root := activeNodes[|activeNodes| - 1];
    }
  }
}
