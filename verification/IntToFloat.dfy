/** Conversion of 128-bit integers to binary floating point, rounding to nearest, ties to even. */
module IntToFloat {
  import opened Powers
  import opened FloatToInt

  /** The number of significant bits: the width minus the leading zeros. */
  function SignificantBits(a: nat): nat {
    if a == 0 then 0 else 1 + SignificantBits(a / 2)
  }

  /** x with its lowest bit set when `b`. */
  function OrBit(x: nat, b: bool): nat { if b && x % 2 == 0 then x + 1 else x }

  /** The significand, a guard bit and a sticky bit: the value scaled to mant + 2 bits, with
      everything shifted out collected in the lowest bit. */
  function Guarded(a: nat, mant: nat): nat
    requires SignificantBits(a) > mant
  {
    var sd := SignificantBits(a);
    if sd == mant + 1 then 2 * a
    else if sd == mant + 2 then a
    else OrBit(Shr(a, sd - (mant + 2)), Low(a, sd - (mant + 2)) != 0)
  }

  /** Or the last kept bit into the sticky bit, add one, drop guard and sticky. */
  function RoundGuarded(g: nat): nat {
    (OrBit(g, g / 4 % 2 == 1) + 1) / 4
  }

  /** The significand kept, rounded to sig + 1 bits, or to sig + 2 when rounding carries. */
  function Kept(f: Format, a: nat): nat {
    var mant, sd := f.sig + 1, SignificantBits(a);
    if sd > mant then RoundGuarded(Guarded(a, mant)) else Shl(a, mant - sd)
  }

  predicate Carries(f: Format, a: nat) {
    SignificantBits(a) > f.sig + 1 && Kept(f, a) >= Pow2(f.sig + 1)
  }

  /** The fields of the encoding of a positive integer. */
  function FloatParts(f: Format, a: nat): Parts
    requires a > 0
  {
    var e := if Carries(f, a) then SignificantBits(a) else SignificantBits(a) - 1;
    Parts(false, e + Bias(f), Low(if Carries(f, a) then Kept(f, a) / 2 else Kept(f, a), f.sig))
  }

  /** The encoding of an unsigned integer. */
  function FromUnsigned(f: Format, a: nat): nat {
    if a == 0 then 0 else Encode(f, FloatParts(f, a))
  }

  /** The sign bit over the encoding of the magnitude. */
  function FromSigned(f: Format, a: int): nat {
    if a == 0 then 0
    else if a > 0 then Encode(f, FloatParts(f, a))
    else Encode(f, FloatParts(f, -a).(negative := true))
  }

  // ----- rounding

  /** `x` is the multiple of 2^k nearest to `a`, the even multiple on a tie. */
  ghost predicate NearestEven(a: nat, k: nat, x: nat) {
    exists q: nat :: NearestMultiple(a, k, x, q)
  }

  predicate NearestMultiple(a: nat, k: nat, x: nat, q: nat) {
    var d := if x >= a then x - a else a - x;
    x == Shl(q, k) && 2 * d <= Pow2(k) && (2 * d == Pow2(k) ==> q % 2 == 0)
  }

  /** Rounding up exactly above the half, or at the half when the kept part is odd. */
  lemma RoundGuardedMeans(g: nat)
    ensures RoundGuarded(g) == g / 4 + if g % 4 == 3 || (g % 4 == 2 && g / 4 % 2 == 1) then 1 else 0
  {}

  lemma {:induction false} SignificantBitsBounds(a: nat)
    requires a > 0
    ensures SignificantBits(a) > 0 && Pow2(SignificantBits(a) - 1) <= a < Pow2(SignificantBits(a))
  {
    if a > 1 {
      SignificantBitsBounds(a / 2);
    }
  }

  lemma {:induction false} SignificantBitsUnique(a: nat, n: nat)
    requires n > 0 && Pow2(n - 1) <= a < Pow2(n)
    ensures SignificantBits(a) == n
  {
    if n > 1 {
      SignificantBitsUnique(a / 2, n - 1);
    }
  }

  /** `g` keeps quotient `q` and, in its two low bits, how the remainder `r` compares with half of `unit`. */
  predicate Classifies(g: nat, q: nat, r: nat, unit: nat) {
    && g / 4 == q
    && (g % 4 == 0 <==> r == 0)
    && (g % 4 == 1 <==> 0 < 2 * r < unit)
    && (g % 4 == 2 <==> 2 * r == unit)
    && (g % 4 == 3 <==> unit < 2 * r)
  }

  /** Two bits and a sticky bit are enough to place the remainder. */
  lemma StickyClassifies(y: nat, low: nat, p: nat, r: nat)
    requires low < p
    requires r == low + if y % 4 == 0 then 0 else if y % 4 == 1 then p else if y % 4 == 2 then 2 * p else 3 * p
    ensures Classifies(OrBit(y, low != 0), y / 4, r, 4 * p)
  {
    if low == 0 {
      assert OrBit(y, false) == y;
    } else {
      var g := OrBit(y, true);
      assert g / 4 == y / 4;
      assert g % 4 == if y % 4 <= 1 then 1 else 3;
    }
  }

  lemma ShlSmall(w: nat, t: nat)
    requires t < 4
    ensures Shl(t, w) == if t == 0 then 0 else if t == 1 then Pow2(w) else if t == 2 then 2 * Pow2(w) else 3 * Pow2(w)
  {
    ShlOne(w);
    ShlAdd(0, 1, w);
    ShlAdd(1, 1, w);
    ShlAdd(2, 1, w);
  }

  /** The guarded value says where `a` lies between two multiples of 2^k. */
  lemma GuardedMeans(a: nat, mant: nat)
    requires SignificantBits(a) > mant
    ensures var k := SignificantBits(a) - mant;
            Classifies(Guarded(a, mant), Shr(a, k), Low(a, k), Pow2(k))
  {
    var k := SignificantBits(a) - mant;
    if k == 1 {
      LowOne(a);
    } else if k == 2 {
      LowTwo(a);
    } else {
      var w := k - 2;
      ShrLowSplit(a, w, 2);
      SplitAt(a, w);
      LowTwo(Shr(a, w));
      ShlSmall(w, Shr(a, w) % 4);
      StickyClassifies(Shr(a, w), Low(a, w), Pow2(w), Low(a, k));
    }
  }

  lemma LowOne(y: nat)
    ensures Low(y, 1) == y % 2 && Shr(y, 1) == y / 2 && Pow2(1) == 2
  {}

  lemma LowTwo(y: nat)
    ensures Low(y, 2) == y % 4 && Shr(y, 2) == y / 4 && Pow2(2) == 4
  {}

  // ----- what the encoding stands for

  /** The exponent field has room for every 128-bit integer. */
  predicate Roomy(f: Format) { f.expBits >= 9 }

  /** How many low bits of `a` the format cannot hold. */
  function Excess(f: Format, a: nat): nat {
    if SignificantBits(a) > f.sig + 1 then SignificantBits(a) - (f.sig + 1) else 0
  }

  /** The format holds `a` exactly. */
  predicate Representable(f: Format, a: nat) { Low(a, Excess(f, a)) == 0 }

  function Rounded(f: Format, a: nat): nat {
    if Excess(f, a) == 0 then a else Shl(RoundGuarded(Guarded(a, f.sig + 1)), Excess(f, a))
  }

  /** x is exactly m * 2^k. */
  predicate Exactly(m: nat, k: int, x: nat) {
    if k >= 0 then x == Shl(m, k) else m == Shl(x, -k)
  }

  lemma ExactlyIsIntegerPart(m: nat, k: int, x: nat)
    requires Exactly(m, k, x)
    ensures IntegerPart(m, k, x)
  {
    if k < 0 {
      ShlMonotone(x, x + 1, -k);
    }
  }

  /** A classified remainder rounds to the nearest, to even at the half. */
  lemma ClassifiedRounds(g: nat, q: nat, r: nat, unit: nat)
    requires Classifies(g, q, r, unit)
    ensures RoundGuarded(g) == if 2 * r > unit || (2 * r == unit && q % 2 == 1) then q + 1 else q
  {
    RoundGuardedMeans(g);
  }

  /** Dropping the excess bits of `a`, one way or the other. */
  lemma RoundedQuotient(f: Format, a: nat)
    requires Excess(f, a) > 0
    ensures var k := Excess(f, a);
            var q, r := Shr(a, k), Low(a, k);
            var up := 2 * r > Pow2(k) || (2 * r == Pow2(k) && q % 2 == 1);
            && RoundGuarded(Guarded(a, f.sig + 1)) == (if up then q + 1 else q)
            && a == Shl(q, k) + r && r < Pow2(k)
            && Rounded(f, a) == if up then Shl(q, k) + Pow2(k) else Shl(q, k)
  {
    var k := Excess(f, a);
    var q, r := Shr(a, k), Low(a, k);
    assert RoundGuarded(Guarded(a, f.sig + 1)) == if 2 * r > Pow2(k) || (2 * r == Pow2(k) && q % 2 == 1) then q + 1 else q by {
      GuardedMeans(a, f.sig + 1);
      ClassifiedRounds(Guarded(a, f.sig + 1), q, r, Pow2(k));
    }
    SplitAt(a, k);
    assert Shl(q + 1, k) == Shl(q, k) + Pow2(k) by {
      ShlAdd(q, 1, k);
      ShlOne(k);
    }
  }

  lemma KeptNear(f: Format, a: nat)
    requires Excess(f, a) > 0
    ensures Shr(a, Excess(f, a)) <= Kept(f, a) <= Shr(a, Excess(f, a)) + 1
  {
    RoundedQuotient(f, a);
  }

  /** The rounded value is the nearest multiple of the last kept place, the even one on a tie. */
  lemma RoundsToNearestEven(f: Format, a: nat)
    ensures NearestEven(a, Excess(f, a), Rounded(f, a))
  {
    var k := Excess(f, a);
    if k == 0 {
      assert NearestMultiple(a, 0, a, a);
    } else {
      RoundedQuotient(f, a);
      var q, r := Shr(a, k), Low(a, k);
      var up := 2 * r > Pow2(k) || (2 * r == Pow2(k) && q % 2 == 1);
      ShlAdd(q, 1, k);
      ShlOne(k);
      assert NearestMultiple(a, k, Rounded(f, a), if up then q + 1 else q);
    }
  }

  lemma RoundedExactIff(f: Format, a: nat)
    ensures Rounded(f, a) == a <==> Representable(f, a)
  {
    if Excess(f, a) > 0 {
      RoundedQuotient(f, a);
    }
  }

  lemma KeptOfLong(f: Format, a: nat)
    requires a > 0 && Excess(f, a) > 0
    ensures Pow2(f.sig) <= Kept(f, a) <= Pow2(f.sig + 1)
  {
    var k, sd := Excess(f, a), SignificantBits(a);
    KeptNear(f, a);
    SignificantBitsBounds(a);
    ShiftBound(a, sd, k);
    assert Pow2(f.sig) <= Shr(a, k) by {
      ShrMonotone(Pow2(sd - 1), a, k);
      ShiftedPower(sd - 1, k);
    }
  }

  lemma KeptOfShort(f: Format, a: nat)
    requires a > 0 && Excess(f, a) == 0
    ensures Pow2(f.sig) <= Kept(f, a) < Pow2(f.sig + 1)
  {
    var sd := SignificantBits(a);
    var d := f.sig + 1 - sd;
    SignificantBitsBounds(a);
    ShlMonotone(Pow2(sd - 1), a, d);
    ShlMonotone(a, Pow2(sd), d);
    Pow2Shl(sd - 1, d);
    Pow2Shl(sd, d);
  }

  lemma SmallBits(a: nat)
    requires 0 < a < UintRange()
    ensures 0 < SignificantBits(a) <= INT_BITS
  {
    SignificantBitsBounds(a);
    if SignificantBits(a) > INT_BITS {
      Pow2Monotone(INT_BITS, SignificantBits(a) - 1);
    }
  }

  lemma LowOfSignificand(x: nat, k: nat)
    requires Pow2(k) <= x < Pow2(k + 1)
    ensures Low(x, k) + Pow2(k) == x
  {
    ShlOne(k);
    JoinSplit(1, x - Pow2(k), k);
  }

  /** The mantissa after normalising a carry. */
  lemma PartsMantissa(f: Format, a: nat)
    requires Wide(f) && a > 0
    ensures Mantissa(f, FloatParts(f, a)) == if Carries(f, a) then Pow2(f.sig) else Kept(f, a)
    ensures FloatParts(f, a).fraction < Pow2(f.sig)
  {
    BiasValue(f);
    SignificantBitsBounds(a);
    if Excess(f, a) > 0 {
      KeptOfLong(f, a);
    } else {
      KeptOfShort(f, a);
    }
    LowOfSignificand(if Carries(f, a) then Kept(f, a) / 2 else Kept(f, a), f.sig);
    SplitAt(if Carries(f, a) then Kept(f, a) / 2 else Kept(f, a), f.sig);
  }

  /** The encoding is well formed and stands for the rounded integer, exactly. */
  lemma FloatPartsValue(f: Format, a: nat)
    requires Roomy(f) && 0 < a < UintRange()
    ensures var p := FloatParts(f, a);
            && WellFormed(f, p) && 0 < p.field < MaxExponent(f)
            && Exactly(Mantissa(f, p), Scale(f, p), Rounded(f, a))
  {
    var k := Excess(f, a);
    SmallBits(a);
    RoomyBias(f);
    PartsMantissa(f, a);
    if k > 0 {
      KeptOfLong(f, a);
      CarryShift(f.sig, k);
    }
  }

  lemma CarryShift(sig: nat, k: nat)
    ensures Shl(Pow2(sig), k + 1) == Shl(Pow2(sig + 1), k)
  {
    Pow2Shl(sig, k + 1);
    Pow2Shl(sig + 1, k);
  }

  lemma RoomyBias(f: Format)
    requires Roomy(f)
    ensures Wide(f) && Bias(f) >= 255 && MaxExponent(f) == 2 * Bias(f) + 1
  {
    BiasValue(f);
    Pow2Values();
    Pow2Monotone(8, f.expBits - 1);
  }

  // ----- the encodings

  /** 2^k is the place of the last bit kept of `m` when sig + 1 bits are kept. */
  predicate LastPlace(f: Format, m: nat, k: nat) {
    m < Pow2(f.sig + 1 + k) && (k > 0 ==> Pow2(f.sig + k) <= m)
  }

  /** The encoding with these fields stands exactly for the multiple of the last place kept nearest to
      `m`, the even one on a tie. */
  ghost predicate StandsFor(f: Format, p: Parts, m: nat) {
    && WellFormed(f, p) && 0 < p.field < MaxExponent(f)
    && exists k: nat, x: nat :: LastPlace(f, m, k) && NearestEven(m, k, x) && Exactly(Mantissa(f, p), Scale(f, p), x)
  }

  lemma ExcessIsLastPlace(f: Format, m: nat)
    requires m > 0
    ensures LastPlace(f, m, Excess(f, m))
  {
    SignificantBitsBounds(m);
    if Excess(f, m) == 0 {
      Pow2Monotone(SignificantBits(m), f.sig + 1);
    }
  }

  lemma FloatPartsStandFor(f: Format, m: nat, negative: bool)
    requires Roomy(f) && 0 < m < UintRange()
    ensures var p := FloatParts(f, m).(negative := negative);
            && Decode(f, Encode(f, p)) == p && StandsFor(f, p, m)
            && Encode(f, p) < Pow2(1 + f.expBits + f.sig)
  {
    var p := FloatParts(f, m).(negative := negative);
    FloatPartsValue(f, m);
    ExcessIsLastPlace(f, m);
    RoundsToNearestEven(f, m);
    assert LastPlace(f, m, Excess(f, m)) && NearestEven(m, Excess(f, m), Rounded(f, m))
           && Exactly(Mantissa(f, p), Scale(f, p), Rounded(f, m));
    DecodeEncode(f, p);
    EncodeFits(f, p);
  }

  /** Every unsigned integer is encoded as the nearest number of the format, the even one on a tie. */
  lemma UnsignedIsRounded(f: Format, a: nat)
    requires Roomy(f) && a < UintRange()
    ensures var p := Decode(f, FromUnsigned(f, a));
            && FromUnsigned(f, a) < Pow2(1 + f.expBits + f.sig)
            && if a == 0 then p == Parts(false, 0, 0) else StandsFor(f, p, a) && !p.negative
  {
    if a == 0 {
      ZeroParts(f);
    } else {
      FloatPartsStandFor(f, a, false);
      assert FloatParts(f, a).(negative := false) == FloatParts(f, a);
    }
  }

  /** Every signed integer is encoded as its sign and the number of the format nearest to its
      magnitude, the even one on a tie. */
  lemma SignedIsRounded(f: Format, a: int)
    requires Roomy(f) && IntMin() <= a <= IntMax()
    ensures var p := Decode(f, FromSigned(f, a));
            && FromSigned(f, a) < Pow2(1 + f.expBits + f.sig)
            && if a == 0 then p == Parts(false, 0, 0)
               else StandsFor(f, p, if a < 0 then -a else a) && p.negative == (a < 0)
  {
    assert UintRange() == 2 * HalfRange();
    if a == 0 {
      ZeroParts(f);
    } else if a > 0 {
      FloatPartsStandFor(f, a, false);
      assert FloatParts(f, a).(negative := false) == FloatParts(f, a);
    } else {
      FloatPartsStandFor(f, -a, true);
    }
  }

  // ----- there and back

  lemma ZeroRoundTrip(f: Format)
    requires Wide(f)
    ensures ToUnsigned(f, 0) == 0 && ToSigned(f, 0) == 0
  {
    BiasValue(f);
    ZeroParts(f);
  }

  lemma ZeroParts(f: Format)
    ensures Decode(f, 0) == Parts(false, 0, 0)
  {
    Pow2Monotone(0, f.sig + f.expBits);
    LowSmall(0, f.sig + f.expBits);
    LowSmall(0, f.sig);
  }

  /** Converting back gives the rounded integer, or all ones when rounding reached 2^128. */
  lemma UnsignedThereAndBack(f: Format, a: nat)
    requires Roomy(f) && a < UintRange()
    ensures ToUnsigned(f, FromUnsigned(f, a)) == if Rounded(f, a) > UintMax() then UintMax() else Rounded(f, a)
  {
    RoomyBias(f);
    if a == 0 {
      ZeroRoundTrip(f);
    } else {
      var p := FloatParts(f, a);
      FloatPartsValue(f, a);
      ExactlyIsIntegerPart(Mantissa(f, p), Scale(f, p), Rounded(f, a));
      DecodeEncode(f, p);
      UnsignedSaturates(f, Encode(f, p), Rounded(f, a));
    }
  }

  /** The round trip is the identity exactly on the representable integers and on 2^128 - 1. */
  lemma UnsignedRoundTripIff(f: Format, a: nat)
    requires Roomy(f) && f.sig + 1 < INT_BITS && a < UintRange()
    ensures ToUnsigned(f, FromUnsigned(f, a)) == a <==> Representable(f, a) || a == UintMax()
  {
    var rounded, back := Rounded(f, a), ToUnsigned(f, FromUnsigned(f, a));
    assert back == if rounded > UintMax() then UintMax() else rounded by { UnsignedThereAndBack(f, a); }
    assert rounded == a <==> Representable(f, a) by { RoundedExactIff(f, a); }
    assert a == UintMax() ==> rounded > UintMax() by { MaxRoundsUp(f, a, INT_BITS); }
  }

  lemma MaxRoundsUp(f: Format, a: nat, n: nat)
    requires f.sig + 1 < n
    ensures a == Pow2(n) - 1 ==> Rounded(f, a) > Pow2(n) - 1
  {
    AllOnesRoundUp(f, n);
  }

  /** The theorems cover the double format of the library. */
  lemma DoubleIsRoomy()
    ensures Roomy(BINARY64) && BINARY64.sig + 1 == 53 < INT_BITS - 1 && Bias(BINARY64) == 1023
  {
    LibraryFormats();
  }

  /** 2^n - 1 rounds up to 2^n when it does not fit. */
  lemma AllOnesRoundUp(f: Format, n: nat)
    requires f.sig + 1 < n
    ensures Rounded(f, Pow2(n) - 1) == Pow2(n)
  {
    var a := Pow2(n) - 1;
    assert SignificantBits(a) == n by {
      Pow2Monotone(1, n);
      SignificantBitsUnique(a, n);
    }
    var k := Excess(f, a);
    RoundedQuotient(f, a);
    AllOnesSplit(n, k);
    AllOnesAboveHalf(k, n - k);
  }

  lemma AllOnesAboveHalf(k: nat, j: nat)
    requires k > 0 && j > 0
    ensures 2 * (Pow2(k) - 1) > Pow2(k) || (2 * (Pow2(k) - 1) == Pow2(k) && (Pow2(j) - 1) % 2 == 1)
  {
    assert Pow2(k) == 2 * Pow2(k - 1) && Pow2(j) == 2 * Pow2(j - 1);
  }

  lemma {:induction false} AllOnesSplit(n: nat, k: nat)
    requires k <= n
    ensures Shr(Pow2(n) - 1, k) == Pow2(n - k) - 1 && Low(Pow2(n) - 1, k) == Pow2(k) - 1
    decreases k
  {
    if k > 0 {
      var x := Pow2(n - 1) - 1;
      AllOnesSplit(n - 1, k - 1);
      assert Pow2(n) - 1 == 2 * x + 1;
      ShiftOutOne(x, k);
    }
  }

  lemma ShiftOutOne(x: nat, k: nat)
    requires k > 0
    ensures Shr(2 * x + 1, k) == Shr(x, k - 1) && Low(2 * x + 1, k) == 2 * Low(x, k - 1) + 1
  {
    assert (2 * x + 1) / 2 == x;
  }

  /** Rounding never passes a power of two. */
  lemma RoundedAtMost(f: Format, a: nat, n: nat)
    requires 0 < a <= Pow2(n)
    ensures 0 < Rounded(f, a) <= Pow2(n)
  {
    SignificantBitsBounds(a);
    var k, sd := Excess(f, a), SignificantBits(a);
    if k > 0 {
      KeptOfLong(f, a);
      ShlMonotone(Pow2(f.sig), Kept(f, a), k);
      ShlMonotone(Kept(f, a), Pow2(f.sig + 1), k);
      Pow2Shl(f.sig + 1, k);
      Pow2Shl(f.sig, k);
      if sd > n {
        Pow2Monotone(n, sd - 1);
        assert sd - 1 == n && a == Pow2(n);
        ExactPower(f, n);
      } else {
        Pow2Monotone(sd, n);
      }
    }
  }

  lemma ExactPower(f: Format, n: nat)
    ensures Rounded(f, Pow2(n)) == Pow2(n)
  {
    Pow2Monotone(n, n + 1);
    SignificantBitsUnique(Pow2(n), n + 1);
    var k := Excess(f, Pow2(n));
    if k > 0 {
      Pow2Shl(n - k, k);
      JoinSplit(Pow2(n - k), 0, k);
      RoundedExactIff(f, Pow2(n));
    }
  }

  lemma PositiveRoundTripIff(f: Format, m: nat)
    requires Roomy(f) && 0 < m <= IntMax()
    ensures ToSigned(f, Encode(f, FloatParts(f, m))) == m <==> Rounded(f, m) == m
  {
    RoundedAtMost(f, m, INT_BITS - 1);
    SignedBack(f, m, false);
    var p := FloatParts(f, m);
    assert p.(negative := false) == p;
    if Rounded(f, m) == HalfRange() {
      RoomyBias(f);
      FloatPartsValue(f, m);
      ExactlyIsIntegerPart(Mantissa(f, p), Scale(f, p), HalfRange());
      SignedTop(f, p, HalfRange());
    }
  }

  lemma NegativeRoundTripIff(f: Format, m: nat)
    requires Roomy(f) && 0 < m <= HalfRange()
    ensures ToSigned(f, Encode(f, FloatParts(f, m).(negative := true))) == 0 - m <==> Rounded(f, m) == m
  {
    RoundedAtMost(f, m, INT_BITS - 1);
    SignedBack(f, m, true);
  }

  /** The signed round trip is the identity exactly on the representable magnitudes. */
  lemma SignedRoundTripIff(f: Format, a: int)
    requires Roomy(f) && IntMin() <= a <= IntMax()
    ensures ToSigned(f, FromSigned(f, a)) == a <==> Representable(f, if a < 0 then -a else a)
  {
    RoundedExactIff(f, if a < 0 then -a else a);
    if a == 0 {
      RoomyBias(f);
      ZeroRoundTrip(f);
    } else if a > 0 {
      PositiveRoundTripIff(f, a);
    } else {
      NegativeRoundTripIff(f, -a);
    }
  }

  /** Reading back a signed encoding: the rounded magnitude, unless it is +2^127. */
  lemma SignedBack(f: Format, m: nat, negative: bool)
    requires Roomy(f) && 0 < m <= HalfRange() && 0 < Rounded(f, m) <= HalfRange()
    ensures var back := ToSigned(f, Encode(f, FloatParts(f, m).(negative := negative)));
            negative || Rounded(f, m) < HalfRange() ==> back == if negative then 0 - Rounded(f, m) else Rounded(f, m)
  {
    RoomyBias(f);
    var p, n := FloatParts(f, m).(negative := negative), Rounded(f, m);
    assert UintRange() == 2 * HalfRange();
    FloatPartsValue(f, m);
    ExactlyIsIntegerPart(Mantissa(f, p), Scale(f, p), n);
    DecodeEncode(f, p);
    SignedSaturatesIff(f, Encode(f, p), n);
    SignedTop(f, p, n);
  }

  /** A positive magnitude of exactly 2^127 sits in the top binade and comes back negative. */
  lemma SignedTop(f: Format, p: Parts, n: nat)
    requires Wide(f) && WellFormed(f, p) && 0 < p.field < MaxExponent(f) && 0 < n <= HalfRange()
    requires IntegerPart(Mantissa(f, p), Scale(f, p), n)
    ensures n == HalfRange() <==> Exponent(f, p) == INT_BITS - 1
    ensures n == HalfRange() && !p.negative ==> ToSigned(f, Encode(f, p)) == IntMin()
  {
    BiasValue(f);
    DecodeEncode(f, p);
    if Exponent(f, p) < 0 {
      BelowOne(f, p);
      IntegerPartUnique(Mantissa(f, p), Scale(f, p), 0, n);
      assert false;
    }
    var e := Exponent(f, p);
    ShiftedIsIntegerPart(f, p);
    IntegerPartUnique(Mantissa(f, p), Scale(f, p), Shifted(f, p), n);
    if e >= INT_BITS {
      Pow2Monotone(INT_BITS, e);
      assert false;
    } else if e < INT_BITS - 1 {
      Pow2Monotone(e + 1, INT_BITS - 1);
    } else {
      assert UintRange() == 2 * HalfRange();
      WrapSmall(n);
      WrapSmall(IntMin());
    }
  }

  /** An integer one below a power of two that does not fit is encoded as that power. */
  lemma AllOnesParts(f: Format, m: nat, n: nat)
    requires Roomy(f) && f.sig + 1 < n && m == Pow2(n) - 1 && 0 < m < UintRange()
    ensures var p := FloatParts(f, m);
            && WellFormed(f, p) && 0 < p.field < MaxExponent(f)
            && IntegerPart(Mantissa(f, p), Scale(f, p), Pow2(n))
  {
    var p := FloatParts(f, m);
    AllOnesRoundUp(f, n);
    FloatPartsValue(f, m);
    ExactlyIsIntegerPart(Mantissa(f, p), Scale(f, p), Pow2(n));
  }

  /** The largest signed integer, converted there and back, is the smallest one. */
  lemma SignedMaxComesBackNegative(f: Format)
    requires Roomy(f) && f.sig + 1 < INT_BITS - 1
    ensures ToSigned(f, FromSigned(f, IntMax())) == IntMin()
  {
    RoomyBias(f);
    MaxIsPositive();
    AllOnesParts(f, IntMax(), INT_BITS - 1);
    SignedTop(f, FloatParts(f, IntMax()), HalfRange());
  }

  lemma MaxIsPositive()
    ensures 0 < IntMax() < UintRange()
  {
    Pow2Monotone(1, INT_BITS - 1);
    assert UintRange() == 2 * HalfRange();
  }
}
