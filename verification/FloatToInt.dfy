/** Conversions from binary floating-point encodings (section 3.4 of IEEE 754-2008) to 128-bit
    integers, for any significand width and any exponent width of at least eight bits. */
module FloatToInt {
  import opened Powers

  /** `sig` stored significand bits and `expBits` exponent bits, under a sign bit. */
  datatype Format = Format(sig: nat, expBits: nat)

  const BINARY32: Format := Format(23, 8)
  const BINARY64: Format := Format(52, 11)

  function MaxExponent(f: Format): int { Pow2(f.expBits) - 1 }
  function Bias(f: Format): int { MaxExponent(f) / 2 }

  /** The exponent range reaches 2^128. */
  predicate Wide(f: Format) { f.expBits >= 8 }

  /** An encoding taken apart by the masks. */
  datatype Parts = Parts(negative: bool, field: nat, fraction: nat)

  function Decode(f: Format, rep: nat): Parts {
    var abs := Low(rep, f.sig + f.expBits);
    Parts(Shr(rep, f.sig + f.expBits) % 2 == 1, Shr(abs, f.sig), Low(abs, f.sig))
  }

  function Encode(f: Format, p: Parts): nat {
    Shl(if p.negative then 1 else 0, f.sig + f.expBits) + Shl(p.field, f.sig) + p.fraction
  }

  predicate WellFormed(f: Format, p: Parts) {
    p.field <= MaxExponent(f) && p.fraction < Pow2(f.sig)
  }

  function Exponent(f: Format, p: Parts): int { p.field - Bias(f) }

  /** The significand as every routine reads it, with the implicit bit always set. */
  function Significand(f: Format, p: Parts): nat { p.fraction + Pow2(f.sig) }

  /** Infinities and NaNs. */
  predicate Special(f: Format, p: Parts) { p.field == MaxExponent(f) }

  // ----- what an encoding means

  /** The magnitude of a number is Mantissa * 2^Scale; subnormal numbers have no implicit bit. */
  function Mantissa(f: Format, p: Parts): nat {
    if p.field == 0 then p.fraction else p.fraction + Pow2(f.sig)
  }

  function Scale(f: Format, p: Parts): int {
    (if p.field == 0 then 1 else p.field) - Bias(f) - f.sig
  }

  /** `n` is the integer part of m * 2^k. */
  predicate IntegerPart(m: nat, k: int, n: nat) {
    if k >= 0 then n == Shl(m, k) else Shl(n, -k) <= m < Shl(n + 1, -k)
  }

  // ----- the routines

  /** sizeof(__int128) * CHAR_BIT */
  const INT_BITS: nat := 128

  function UintRange(): nat { Pow2(INT_BITS) }
  function UintMax(): nat { UintRange() - 1 }
  function HalfRange(): nat { Pow2(INT_BITS - 1) }
  function IntMax(): int { HalfRange() - 1 }
  function IntMin(): int { 0 - HalfRange() }

  /** The common tail of all four routines, before truncation to 128 bits. */
  function Shifted(f: Format, p: Parts): nat
    requires Exponent(f, p) >= 0
  {
    var e := Exponent(f, p);
    if e < f.sig then Shr(Significand(f, p), f.sig - e) else Shl(Significand(f, p), e - f.sig)
  }

  function ToUnsigned(f: Format, rep: nat): nat {
    var p := Decode(f, rep);
    if p.negative || Exponent(f, p) < 0 then 0
    else if Exponent(f, p) >= INT_BITS then UintMax()
    else Shifted(f, p) % UintRange()
  }

  /** Two's complement reading of the low 128 bits. */
  function Wrap(x: int): int { (x + HalfRange()) % UintRange() - HalfRange() }

  function ToSigned(f: Format, rep: nat): int {
    var p := Decode(f, rep);
    if Exponent(f, p) < 0 then 0
    else if Exponent(f, p) >= INT_BITS then if p.negative then IntMin() else IntMax()
    else Signed(p.negative, Shifted(f, p))
  }

  /** The sign times a magnitude, both as 128-bit signed integers. */
  function Signed(negative: bool, magnitude: nat): int {
    Wrap(if negative then -1 * Wrap(magnitude) else Wrap(magnitude))
  }

  // ----- the fields

  lemma BiasValue(f: Format)
    requires Wide(f)
    ensures Bias(f) == Pow2(f.expBits - 1) - 1 && MaxExponent(f) == 2 * Bias(f) + 1 && Bias(f) >= 127
  {
    assert Pow2(7) == 0x80 by { Pow2Values(); }
    Pow2Monotone(7, f.expBits - 1);
  }

  /** The two formats of the library, with the biases of the standard. */
  lemma LibraryFormats()
    ensures Wide(BINARY32) && Bias(BINARY32) == 127 && MaxExponent(BINARY32) == 255
    ensures Wide(BINARY64) && Bias(BINARY64) == 1023 && MaxExponent(BINARY64) == 2047
    ensures 1 + BINARY32.expBits + BINARY32.sig == 32 && 1 + BINARY64.expBits + BINARY64.sig == 64
    ensures UintRange() == Pow2(128) && IntMax() == Pow2(127) - 1 && IntMin() == 0 - Pow2(127)
  {
    assert Pow2(8) == 0x100 by { Pow2Values(); }
    assert Pow2(11) == 8 * Pow2(8);
  }

  lemma DecodeWellFormed(f: Format, rep: nat)
    ensures WellFormed(f, Decode(f, rep))
  {
    var abs := Low(rep, f.sig + f.expBits);
    SplitAt(rep, f.sig + f.expBits);
    SplitAt(abs, f.sig);
    Pow2Shl(f.expBits, f.sig);
    if Shr(abs, f.sig) >= Pow2(f.expBits) {
      ShlMonotone(Pow2(f.expBits), Shr(abs, f.sig), f.sig);
    }
  }

  /** Encodings and field triples are in one-to-one correspondence. */
  lemma DecodeEncode(f: Format, p: Parts)
    requires WellFormed(f, p)
    ensures Decode(f, Encode(f, p)) == p
  {
    var abs := Shl(p.field, f.sig) + p.fraction;
    assert abs < Pow2(f.sig + f.expBits) by {
      ShlMonotone(p.field + 1, Pow2(f.expBits), f.sig);
      ShlAdd(p.field, 1, f.sig);
      ShlOne(f.sig);
      Pow2Shl(f.expBits, f.sig);
    }
    JoinSplit(if p.negative then 1 else 0, abs, f.sig + f.expBits);
    JoinSplit(p.field, p.fraction, f.sig);
  }

  /** An encoding has one bit for the sign beside its fields. */
  lemma EncodeFits(f: Format, p: Parts)
    requires WellFormed(f, p)
    ensures Encode(f, p) < Pow2(1 + f.expBits + f.sig)
  {
    ShlMonotone(p.field + 1, Pow2(f.expBits), f.sig);
    ShlAdd(p.field, 1, f.sig);
    ShlOne(f.sig);
    Pow2Shl(f.expBits, f.sig);
    ShlOne(f.sig + f.expBits);
    ZeroShl(f.sig + f.expBits);
    assert Pow2(1 + f.expBits + f.sig) == 2 * Pow2(f.sig + f.expBits);
  }

  // ----- the integer part

  /** The shift computes the integer part, and its size follows the exponent. */
  lemma ShiftedIsIntegerPart(f: Format, p: Parts)
    requires Wide(f) && WellFormed(f, p) && Exponent(f, p) >= 0
    ensures IntegerPart(Mantissa(f, p), Scale(f, p), Shifted(f, p))
    ensures Pow2(Exponent(f, p)) <= Shifted(f, p) < Pow2(Exponent(f, p) + 1)
  {
    BiasValue(f);
    var e, s := Exponent(f, p), Significand(f, p);
    if e < f.sig {
      ShrIsFloor(s, f.sig - e, Shifted(f, p));
      ShrMonotone(Pow2(f.sig), s, f.sig - e);
      ShiftedPower(f.sig, f.sig - e);
      ShiftBound(s, f.sig + 1, f.sig - e);
    } else {
      ShlMonotone(Pow2(f.sig), s, e - f.sig);
      ShlMonotone(s, Pow2(f.sig + 1), e - f.sig);
      Pow2Shl(f.sig, e - f.sig);
      Pow2Shl(f.sig + 1, e - f.sig);
    }
  }

  lemma ShiftedPower(a: nat, k: nat)
    requires k <= a
    ensures Shr(Pow2(a), k) == Pow2(a - k)
  {
    ShlOne(a);
    ShlThenShrLess(1, a, k);
    ShlOne(a - k);
  }

  /** Magnitudes below 1 have integer part 0. */
  lemma BelowOne(f: Format, p: Parts)
    requires Wide(f) && WellFormed(f, p) && Exponent(f, p) < 0
    ensures IntegerPart(Mantissa(f, p), Scale(f, p), 0)
  {
    BiasValue(f);
    var k := -Scale(f, p);
    ShlOne(k);
    ShlMonotone(0, 1, k);
    ZeroShl(k);
    Pow2Monotone(f.sig, k);
    Pow2Monotone(if p.field == 0 then f.sig else f.sig + 1, k);
  }

  lemma {:induction false} ZeroShl(k: nat)
    ensures Shl(0, k) == 0
  {
    if k > 0 { ZeroShl(k - 1); }
  }

  lemma IntegerPartUnique(m: nat, k: int, a: nat, b: nat)
    requires IntegerPart(m, k, a) && IntegerPart(m, k, b)
    ensures a == b
  {
    if k < 0 {
      ShrIsFloor(m, -k, a);
      ShrIsFloor(m, -k, b);
    }
  }

  lemma ModSmall(x: nat, m: nat)
    requires x < m
    ensures x % m == x
  {}

  // ----- unsigned conversion

  /** The left shift never loses a bit: below 2^128 the routine returns the shifted significand. */
  lemma UnsignedInRange(f: Format, rep: nat)
    requires Wide(f)
    requires var p := Decode(f, rep); !p.negative && 0 <= Exponent(f, p) < INT_BITS
    ensures ToUnsigned(f, rep) == Shifted(f, Decode(f, rep)) <= UintMax()
  {
    var p := Decode(f, rep);
    DecodeWellFormed(f, rep);
    ShiftedIsIntegerPart(f, p);
    Pow2Monotone(Exponent(f, p) + 1, INT_BITS);
    ModSmall(Shifted(f, p), UintRange());
  }

  /** Every encoding: negative numbers give 0, infinities and NaNs all ones, and any other
      number its integer part, or all ones when that does not fit. */
  lemma UnsignedSaturates(f: Format, rep: nat, n: nat)
    requires Wide(f)
    requires var p := Decode(f, rep); IntegerPart(Mantissa(f, p), Scale(f, p), n)
    ensures var p := Decode(f, rep);
            ToUnsigned(f, rep) ==
              if p.negative then 0 else if Special(f, p) || n > UintMax() then UintMax() else n
  {
    var p := Decode(f, rep);
    DecodeWellFormed(f, rep);
    BiasValue(f);
    if Exponent(f, p) < 0 {
      BelowOne(f, p);
      IntegerPartUnique(Mantissa(f, p), Scale(f, p), 0, n);
    } else {
      ShiftedIsIntegerPart(f, p);
      IntegerPartUnique(Mantissa(f, p), Scale(f, p), Shifted(f, p), n);
      if Exponent(f, p) >= INT_BITS {
        Pow2Monotone(INT_BITS, Exponent(f, p));
      } else if !p.negative {
        UnsignedInRange(f, rep);
      }
    }
  }

  /** Converting respects the order of the encodings of non-negative numbers. */
  lemma UnsignedMonotone(f: Format, a: nat, b: nat)
    requires Wide(f) && a <= b < Pow2(f.sig + f.expBits)
    ensures ToUnsigned(f, a) <= ToUnsigned(f, b)
  {
    var p, q := Decode(f, a), Decode(f, b);
    PositiveParts(f, a);
    PositiveParts(f, b);
    DecodeWellFormed(f, a);
    DecodeWellFormed(f, b);
    ShrMonotone(a, b, f.sig);
    SplitAt(a, f.sig);
    SplitAt(b, f.sig);
    if 0 <= Exponent(f, p) {
      if Exponent(f, p) < INT_BITS { UnsignedInRange(f, a); }
      if Exponent(f, q) < INT_BITS {
        UnsignedInRange(f, b);
        ShiftedMonotone(f, p, q);
      }
    }
  }

  lemma PositiveParts(f: Format, rep: nat)
    requires rep < Pow2(f.sig + f.expBits)
    ensures Decode(f, rep) == Parts(false, Shr(rep, f.sig), Low(rep, f.sig))
  {
    LowSmall(rep, f.sig + f.expBits);
    PartsOf(f, rep, rep, 0);
  }

  lemma PartsOf(f: Format, rep: nat, abs: nat, top: nat)
    requires abs == Low(rep, f.sig + f.expBits) && top == Shr(rep, f.sig + f.expBits)
    ensures Decode(f, rep) == Parts(top % 2 == 1, Shr(abs, f.sig), Low(abs, f.sig))
  {}

  lemma ShiftedMonotone(f: Format, p: Parts, q: Parts)
    requires Wide(f) && WellFormed(f, p) && WellFormed(f, q) && 0 <= Exponent(f, p)
    requires p.field < q.field || (p.field == q.field && p.fraction <= q.fraction)
    ensures Shifted(f, p) <= Shifted(f, q)
  {
    if p.field < q.field {
      ShiftedIsIntegerPart(f, p);
      ShiftedIsIntegerPart(f, q);
      Pow2Monotone(Exponent(f, p) + 1, Exponent(f, q));
    } else {
      var e := Exponent(f, p);
      if e < f.sig {
        ShrMonotone(Significand(f, p), Significand(f, q), f.sig - e);
      } else {
        ShlMonotone(Significand(f, p), Significand(f, q), e - f.sig);
      }
    }
  }

  // ----- widening

  /** The same normal number in a wider format: the exponent is rebiased and the fraction padded. */
  function Widen(f: Format, g: Format, p: Parts): Parts
    requires g.sig >= f.sig
  {
    var field := p.field - Bias(f) + Bias(g);
    Parts(p.negative, if field < 0 then 0 else field, Shl(p.fraction, g.sig - f.sig))
  }

  lemma WidenWellFormed(f: Format, g: Format, p: Parts)
    requires Wide(f) && g.sig >= f.sig && g.expBits >= f.expBits
    requires WellFormed(f, p) && 0 < p.field && !Special(f, p)
    ensures WellFormed(g, Widen(f, g, p)) && !Special(g, Widen(f, g, p)) && 0 < Widen(f, g, p).field
    ensures Exponent(g, Widen(f, g, p)) == Exponent(f, p)
    ensures Significand(g, Widen(f, g, p)) == Shl(Significand(f, p), g.sig - f.sig)
  {
    BiasValue(f);
    BiasValue(g);
    Pow2Monotone(f.expBits - 1, g.expBits - 1);
    ShlMonotone(p.fraction, Pow2(f.sig), g.sig - f.sig);
    Pow2Shl(f.sig, g.sig - f.sig);
    ShlAdd(p.fraction, Pow2(f.sig), g.sig - f.sig);
  }

  /** Widening first does not change the converted integer. */
  lemma WidenThenConvert(f: Format, g: Format, p: Parts)
    requires Wide(f) && g.sig >= f.sig && g.expBits >= f.expBits
    requires WellFormed(f, p) && 0 < p.field && !Special(f, p)
    ensures ToUnsigned(g, Encode(g, Widen(f, g, p))) == ToUnsigned(f, Encode(f, p))
  {
    var q := Widen(f, g, p);
    WidenWellFormed(f, g, p);
    DecodeEncode(f, p);
    DecodeEncode(g, q);
    if 0 <= Exponent(f, p) {
      WidenShifted(f, g, p);
    }
  }

  lemma WidenShifted(f: Format, g: Format, p: Parts)
    requires Wide(f) && g.sig >= f.sig && g.expBits >= f.expBits
    requires WellFormed(f, p) && 0 < p.field && !Special(f, p) && 0 <= Exponent(f, p)
    ensures Exponent(g, Widen(f, g, p)) == Exponent(f, p)
    ensures Shifted(g, Widen(f, g, p)) == Shifted(f, p)
  {
    WidenWellFormed(f, g, p);
    var e, s, d := Exponent(f, p), Significand(f, p), g.sig - f.sig;
    if e < f.sig {
      ShlThenShr(s, d, f.sig - e);
    } else if e < g.sig {
      ShlThenShrLess(s, d, g.sig - e);
    } else {
      ShlShl(s, d, e - g.sig);
    }
  }

  // ----- signed conversion

  /** The integer part with its sign, held to the range of the signed type. */
  function Saturated(negative: bool, n: nat): int {
    if negative then (if n > HalfRange() then IntMin() else 0 - n) else (if n > IntMax() then IntMax() else n)
  }

  lemma WrapSmall(x: int)
    ensures IntMin() <= x <= IntMax() ==> Wrap(x) == x
    ensures HalfRange() <= x < UintRange() ==> Wrap(x) == x - UintRange()
  {
    assert UintRange() == 2 * HalfRange();
    if IntMin() <= x <= IntMax() {
      ModSmall(x + HalfRange(), UintRange());
    } else if HalfRange() <= x < UintRange() {
      ModSmall(x - HalfRange(), UintRange());
      ModShift(x - HalfRange(), UintRange());
    }
  }

  lemma ModShift(x: nat, m: nat)
    requires x < m
    ensures (x + m) % m == x
  {}

  /** The routine is saturating truncation toward zero exactly off one binade: magnitudes from
      2^127 up to 2^128 come out wrapped, except -2^127 itself. */
  lemma SignedSaturatesIff(f: Format, rep: nat, n: nat)
    requires Wide(f)
    requires var p := Decode(f, rep); IntegerPart(Mantissa(f, p), Scale(f, p), n)
    ensures var p := Decode(f, rep);
            ToSigned(f, rep) == Saturated(p.negative, n) <==>
              Exponent(f, p) != INT_BITS - 1 || (p.negative && n == HalfRange())
  {
    var p := Decode(f, rep);
    DecodeWellFormed(f, rep);
    if Exponent(f, p) < 0 {
      BelowOne(f, p);
      IntegerPartUnique(Mantissa(f, p), Scale(f, p), 0, n);
    } else {
      ShiftedIsIntegerPart(f, p);
      IntegerPartUnique(Mantissa(f, p), Scale(f, p), Shifted(f, p), n);
      SignedByExponent(Exponent(f, p), p.negative, n);
    }
  }

  lemma SignedByExponent(e: nat, negative: bool, n: nat)
    requires Pow2(e) <= n < Pow2(e + 1)
    ensures e >= INT_BITS ==> Saturated(negative, n) == if negative then IntMin() else IntMax()
    ensures e < INT_BITS - 1 ==> Signed(negative, n) == Saturated(negative, n)
    ensures e == INT_BITS - 1 ==>
              (Signed(negative, n) == Saturated(negative, n) <==> negative && n == HalfRange())
  {
    if e >= INT_BITS {
      Pow2Monotone(INT_BITS, e);
    } else if e < INT_BITS - 1 {
      Pow2Monotone(e + 1, INT_BITS - 1);
      BelowTopBinade(negative, n);
    } else {
      TopBinade(negative, n);
    }
  }

  lemma BelowTopBinade(negative: bool, n: nat)
    requires n < HalfRange()
    ensures Signed(negative, n) == Saturated(negative, n) == if negative then 0 - n else n
  {
    WrapSmall(n);
    WrapSmall(0 - n);
  }

  lemma TopBinade(negative: bool, n: nat)
    requires HalfRange() <= n < UintRange()
    ensures Signed(negative, n) == Saturated(negative, n) <==> negative && n == HalfRange()
  {
    assert UintRange() == 2 * HalfRange();
    WrapSmall(n);
    var magnitude := n - UintRange();
    WrapSmall(magnitude);
    WrapSmall(0 - magnitude);
  }

  /** Flipping the sign bit negates the result, below the top binade. */
  lemma SignedIsOdd(f: Format, p: Parts)
    requires Wide(f) && WellFormed(f, p) && Exponent(f, p) < INT_BITS - 1
    ensures ToSigned(f, Encode(f, p.(negative := true))) == 0 - ToSigned(f, Encode(f, p.(negative := false)))
  {
    SignedBelowTop(f, p.(negative := true));
    SignedBelowTop(f, p.(negative := false));
    assert Exponent(f, p) >= 0 ==> Shifted(f, p.(negative := true)) == Shifted(f, p.(negative := false));
  }

  lemma SignedBelowTop(f: Format, p: Parts)
    requires Wide(f) && WellFormed(f, p) && Exponent(f, p) < INT_BITS - 1
    ensures ToSigned(f, Encode(f, p)) ==
            if Exponent(f, p) < 0 then 0 else if p.negative then 0 - Shifted(f, p) else Shifted(f, p)
  {
    DecodeEncode(f, p);
    if Exponent(f, p) >= 0 {
      ShiftedIsIntegerPart(f, p);
      Pow2Monotone(Exponent(f, p) + 1, INT_BITS - 1);
      BelowTopBinade(p.negative, Shifted(f, p));
    }
  }
}
