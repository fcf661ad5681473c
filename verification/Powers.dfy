/** Shifting natural numbers, one bit at a time, and the laws of shifts. */
module Powers {

  /** x << k, without a width. */
  function Shl(x: nat, k: nat): nat
    decreases k
  {
    if k == 0 then x else 2 * Shl(x, k - 1)
  }

  /** x >> k. */
  function Shr(x: nat, k: nat): nat
    decreases k
  {
    if k == 0 then x else Shr(x / 2, k - 1)
  }

  /** The low `k` bits of x: x & ((1 << k) - 1). */
  function Low(x: nat, k: nat): nat
    decreases k
  {
    if k == 0 then 0 else 2 * Low(x / 2, k - 1) + x % 2
  }

  function Pow2(k: nat): (p: nat)
    ensures p > 0
  {
    if k == 0 then 1 else 2 * Pow2(k - 1)
  }

  lemma {:induction false} ShlOne(k: nat)
    ensures Shl(1, k) == Pow2(k)
  {
    if k > 0 { ShlOne(k - 1); }
  }

  /** A number is its high part, shifted back, plus its low part. */
  lemma {:induction false} SplitAt(x: nat, k: nat)
    ensures x == Shl(Shr(x, k), k) + Low(x, k) && Low(x, k) < Pow2(k)
    decreases k
  {
    if k > 0 {
      SplitAt(x / 2, k - 1);
    }
  }

  lemma {:induction false} ShlAdd(x: nat, y: nat, k: nat)
    ensures Shl(x + y, k) == Shl(x, k) + Shl(y, k)
    decreases k
  {
    if k > 0 { ShlAdd(x, y, k - 1); }
  }

  lemma ShlMonotone(x: nat, y: nat, k: nat)
    requires x <= y
    ensures Shl(x, k) <= Shl(y, k)
    ensures x < y ==> Shl(x, k) + Pow2(k) <= Shl(y, k)
  {
    ShlAdd(x, y - x, k);
    if x < y {
      ShlAdd(1, y - x - 1, k);
      ShlOne(k);
    }
  }

  lemma {:induction false} ShlShl(x: nat, a: nat, b: nat)
    ensures Shl(Shl(x, a), b) == Shl(x, a + b)
    decreases b
  {
    if b > 0 { ShlShl(x, a, b - 1); }
  }

  lemma {:induction false} Pow2Shl(a: nat, b: nat)
    ensures Shl(Pow2(a), b) == Pow2(a + b)
    decreases b
  {
    if b > 0 { Pow2Shl(a, b - 1); }
  }

  lemma {:induction false} Pow2Monotone(a: nat, b: nat)
    requires a <= b
    ensures Pow2(a) <= Pow2(b)
    ensures a < b ==> 2 * Pow2(a) <= Pow2(b)
    decreases b
  {
    if a < b { Pow2Monotone(a, b - 1); }
  }

  /** Shifting right is the floor: the only number whose shift back brackets x. */
  lemma ShrIsFloor(x: nat, k: nat, n: nat)
    ensures n == Shr(x, k) <==> Shl(n, k) <= x < Shl(n + 1, k)
  {
    SplitAt(x, k);
    ShlAdd(Shr(x, k), 1, k);
    ShlOne(k);
    if n < Shr(x, k) {
      ShlMonotone(n + 1, Shr(x, k), k);
    } else if n > Shr(x, k) {
      ShlMonotone(Shr(x, k) + 1, n, k);
    }
  }

  lemma {:induction false} ShrMonotone(x: nat, y: nat, k: nat)
    requires x <= y
    ensures Shr(x, k) <= Shr(y, k)
    decreases k
  {
    if k > 0 { ShrMonotone(x / 2, y / 2, k - 1); }
  }

  /** Shifting left and then further right is shifting right by the difference. */
  lemma ShlThenShr(x: nat, a: nat, b: nat)
    ensures Shr(Shl(x, a), a + b) == Shr(x, b)
  {
    var n := Shr(x, b);
    ShrIsFloor(x, b, n);
    ShlMonotone(Shl(n, b), x, a);
    ShlMonotone(x, Shl(n + 1, b), a);
    ShlShl(n, b, a);
    ShlShl(n + 1, b, a);
    ShrIsFloor(Shl(x, a), a + b, n);
  }

  lemma ShlThenShrLess(x: nat, a: nat, b: nat)
    requires b <= a
    ensures Shr(Shl(x, a), b) == Shl(x, a - b)
  {
    var n := Shl(x, a - b);
    ShlShl(x, a - b, b);
    ShlMonotone(n, n + 1, b);
    ShrIsFloor(Shl(x, a), b, n);
  }

  lemma {:induction false} LowSmall(x: nat, k: nat)
    requires x < Pow2(k)
    ensures Shr(x, k) == 0 && Low(x, k) == x
    decreases k
  {
    if k > 0 { LowSmall(x / 2, k - 1); }
  }

  lemma ShiftBound(x: nat, a: nat, k: nat)
    requires x < Pow2(a) && k <= a
    ensures Shr(x, k) < Pow2(a - k)
  {
    SplitAt(x, k);
    Pow2Shl(a - k, k);
    if Shr(x, k) >= Pow2(a - k) {
      ShlMonotone(Pow2(a - k), Shr(x, k), k);
    }
  }

  /** Splitting off a + b bits is splitting off a, then b. */
  lemma {:induction false} ShrLowSplit(x: nat, a: nat, b: nat)
    ensures Shr(x, a + b) == Shr(Shr(x, a), b)
    ensures Low(x, a + b) == Shl(Low(Shr(x, a), b), a) + Low(x, a)
    decreases a
  {
    if a > 0 {
      ShrLowSplit(x / 2, a - 1, b);
    }
  }

  /** Bits of a low part are bits of the number. */
  lemma {:induction false} ShrOfLow(x: nat, r: nat, k: nat)
    requires k <= r
    ensures Shr(Low(x, r), k) == Low(Shr(x, k), r - k)
    decreases k
  {
    if k > 0 { ShrOfLow(x / 2, r - 1, k - 1); }
  }

  lemma {:induction false} LowOfLow(x: nat, r: nat, m: nat)
    requires m <= r
    ensures Low(Low(x, r), m) == Low(x, m)
    decreases m
  {
    if m > 0 { LowOfLow(x / 2, r - 1, m - 1); }
  }

  lemma {:induction false} LowOfShl(x: nat, k: nat, m: nat)
    requires m <= k
    ensures Low(Shl(x, k), m) == 0
    decreases m
  {
    if m > 0 { LowOfShl(x, k - 1, m - 1); }
  }

  /** Joining a high part and a low part is undone by splitting. */
  lemma JoinSplit(hi: nat, lo: nat, k: nat)
    requires lo < Pow2(k)
    ensures Shr(Shl(hi, k) + lo, k) == hi && Low(Shl(hi, k) + lo, k) == lo
  {
    var x := Shl(hi, k) + lo;
    ShlAdd(hi, 1, k);
    ShlOne(k);
    ShrIsFloor(x, k, hi);
    SplitAt(x, k);
  }

  lemma Pow2Values()
    ensures Pow2(7) == 0x80 && Pow2(8) == 0x100 && Pow2(16) == 0x1_0000 && Pow2(32) == 0x1_0000_0000
    ensures Pow2(63) == 0x8000_0000_0000_0000 && Pow2(64) == 0x1_0000_0000_0000_0000
  {
    assert Pow2(4) == 16;
    assert Pow2(8) == 256;
    assert Pow2(12) == 16 * Pow2(8);
    assert Pow2(16) == 16 * Pow2(12);
    assert Pow2(20) == 16 * Pow2(16);
    assert Pow2(24) == 16 * Pow2(20);
    assert Pow2(28) == 16 * Pow2(24);
    assert Pow2(32) == 16 * Pow2(28);
    assert Pow2(36) == 16 * Pow2(32);
    assert Pow2(40) == 16 * Pow2(36);
    assert Pow2(44) == 16 * Pow2(40);
    assert Pow2(48) == 16 * Pow2(44);
    assert Pow2(52) == 16 * Pow2(48);
    assert Pow2(56) == 16 * Pow2(52);
    assert Pow2(60) == 16 * Pow2(56);
    assert Pow2(63) == 8 * Pow2(60);
    assert Pow2(64) == 2 * Pow2(63);
  }
}
