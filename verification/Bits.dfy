/** Powers of two, bit lengths and the bitwise operators the histogram uses,
    over unbounded naturals. Shifts are recursive doublings, so that reasoning about them
    stays linear. */
module Bits {

  const INT64_MAX: int := 0x7FFF_FFFF_FFFF_FFFF
  const INT64_MIN: int := -0x8000_0000_0000_0000

  /** How many values a 64-bit word takes. */
  const WORDS: int := 0x1_0000_0000_0000_0000

  /** Two's complement reduction to a signed 64-bit value. */
  function Wrap64(x: int): (r: int)
    ensures INT64_MIN <= r <= INT64_MAX
    ensures (r - x) % 0x1_0000_0000_0000_0000 == 0
  {
    (x + 0x8000_0000_0000_0000) % 0x1_0000_0000_0000_0000 - 0x8000_0000_0000_0000
  }

  /** x << k */
  function Shl(x: nat, k: nat): (y: nat)
    ensures x <= y && (x == 0 ==> y == 0)
    decreases k
  {
    if k == 0 then x else 2 * Shl(x, k - 1)
  }

  function Pow2(n: nat): (p: nat)
    ensures p > 0
  {
    Shl(1, n)
  }

  function Pow10(n: nat): (p: nat)
    ensures p > 0
  {
    if n == 0 then 1 else 10 * Pow10(n - 1)
  }

  lemma ShlSucc(x: nat, k: nat)
    ensures Shl(x, k + 1) == 2 * Shl(x, k)
  {
  }

  lemma {:induction false} ShlAdd(x: nat, y: nat, k: nat)
    ensures Shl(x + y, k) == Shl(x, k) + Shl(y, k)
    decreases k
  {
    if k > 0 { ShlAdd(x, y, k - 1); }
  }

  lemma {:induction false} ShlShl(x: nat, a: nat, b: nat)
    ensures Shl(Shl(x, a), b) == Shl(x, a + b)
    decreases b
  {
    if b > 0 { ShlShl(x, a, b - 1); }
  }

  /** Shifting keeps order, and distinct numbers end up at least 2^k apart. */
  lemma ShlOrder(x: nat, y: nat, k: nat)
    ensures x <= y ==> Shl(x, k) <= Shl(y, k)
    ensures x < y ==> Shl(x, k) + Pow2(k) <= Shl(y, k)
  {
    if x < y {
      ShlAdd(x, 1, k);
      ShlAdd(x + 1, y - x - 1, k);
    }
  }

  lemma {:induction false} ShlIsMul(x: nat, k: nat)
    ensures Shl(x, k) == x * Pow2(k)
    decreases k
  {
    if k > 0 {
      ShlIsMul(x, k - 1);
      var p := Pow2(k - 1);
      assert 2 * (x * p) == x * (2 * p);
    }
  }

  lemma {:induction false} Pow2Mono(a: nat, b: nat)
    requires a <= b
    ensures Pow2(a) <= Pow2(b)
    ensures a < b ==> 2 * Pow2(a) <= Pow2(b)
  {
    if a < b { Pow2Mono(a, b - 1); }
  }

  lemma Pow2Succ(n: nat)
    ensures Pow2(n + 1) == 2 * Pow2(n)
  {
  }

  lemma Pow2Zero()
    ensures Pow2(0) == 1
  {
  }

  lemma Pow2Values()
    ensures Pow2(62) == 0x4000_0000_0000_0000
    ensures Pow2(63) == 0x8000_0000_0000_0000
  {
    hide Shl;
    Shl8(1);
    Shl8(0x100);
    Shl8(0x1_0000);
    Shl8(0x100_0000);
    Shl8(0x1_0000_0000);
    Shl8(0x100_0000_0000);
    Shl8(0x1_0000_0000_0000);
    ShlShl(1, 8, 8);
    ShlShl(1, 16, 8);
    ShlShl(1, 24, 8);
    ShlShl(1, 32, 8);
    ShlShl(1, 40, 8);
    ShlShl(1, 48, 8);
    Pow2Succ(56);
    Pow2Succ(57);
    Pow2Succ(58);
    Pow2Succ(59);
    Pow2Succ(60);
    Pow2Succ(61);
    Pow2Succ(62);
  }

  lemma Shl8(x: nat)
    ensures Shl(x, 8) == 256 * x
  {
    assert Shl(x, 1) == 2 * x && Shl(x, 2) == 2 * Shl(x, 1);
    assert Shl(x, 4) == 4 * Shl(x, 2);
    assert Shl(x, 6) == 4 * Shl(x, 4);
    assert Shl(x, 8) == 4 * Shl(x, 6);
  }

  /** Number of bits needed to write x: 64 - clz(x) for a 64-bit x. */
  function BitLength(x: nat): (n: nat)
    ensures x > 0 ==> n > 0 && Pow2(n - 1) <= x
    ensures x < Pow2(n)
  {
    if x == 0 then 0 else 1 + BitLength(x / 2)
  }

  lemma BitLengthUnique(x: nat, k: nat)
    requires Pow2(k) <= x < Pow2(k + 1)
    ensures BitLength(x) == k + 1
  {
    var n := BitLength(x);
    if n < k + 1 {
      Pow2Mono(n, k);
    } else if n > k + 1 {
      Pow2Mono(k + 1, n - 1);
    }
  }

  lemma BitLengthMono(x: nat, y: nat)
    requires x <= y
    ensures BitLength(x) <= BitLength(y)
  {
    var n, k := BitLength(x), BitLength(y);
    if n > k {
      Pow2Mono(k, n - 1);
    }
  }

  /** Bitwise or. */
  function BitOr(x: nat, y: nat): nat
    decreases x + y
  {
    if x == 0 && y == 0 then 0
    else 2 * BitOr(x / 2, y / 2) + if x % 2 == 1 || y % 2 == 1 then 1 else 0
  }

  /** Bitwise and. */
  function BitAnd(x: nat, y: nat): nat
    decreases x
  {
    if x == 0 then 0
    else 2 * BitAnd(x / 2, y / 2) + if x % 2 == 1 && y % 2 == 1 then 1 else 0
  }

  /** The highest set bit of an or is the higher of the two highest bits. */
  lemma {:induction false} BitLengthOr(x: nat, y: nat)
    ensures BitLength(BitOr(x, y)) == if x < y then BitLength(y) else BitLength(x)
    decreases x + y
  {
    if x == 0 && y == 0 {
    } else {
      BitLengthOr(x / 2, y / 2);
      if x / 2 == y / 2 {
        assert BitLength(x / 2) == BitLength(y / 2);
        assert BitOr(x, y) / 2 == BitOr(x / 2, y / 2);
        if x == 0 || y == 0 { assert x / 2 == 0 && BitOr(0, 0) == 0; }
      } else {
        assert BitOr(x, y) / 2 == BitOr(x / 2, y / 2);
      }
    }
  }

  /** x >> k */
  function Shr(x: nat, k: nat): (q: nat)
    ensures Shl(q, k) <= x < Shl(q, k) + Pow2(k)
    decreases k
  {
    if k == 0 then x else Shr(x / 2, k - 1)
  }

  lemma {:induction false} ShrShr(x: nat, a: nat, b: nat)
    ensures Shr(Shr(x, a), b) == Shr(x, a + b)
    decreases a
  {
    if a > 0 { ShrShr(x / 2, a - 1, b); }
  }

  lemma Shr8(x: nat)
    ensures Shr(x, 8) == x / 256
  {
    hide Shr;
    Shr7(x);
    ShrShr(x, 7, 1);
    ShrOne(x / 128);
  }

  lemma ShrNothing(x: nat)
    ensures Shr(x, 0) == x
  {
  }

  lemma ShrOne(x: nat)
    ensures Shr(x, 1) == x / 2
  {
  }

  lemma Shr7(x: nat)
    ensures Shr(x, 7) == x / 128
  {
    assert Shr(x, 7) == Shr(x / 2, 6) == Shr(x / 2 / 2, 5) == Shr(x / 2 / 2 / 2, 4);
    var y := x / 2 / 2 / 2;
    assert Shr(y, 4) == Shr(y / 2, 3) == Shr(y / 2 / 2, 2) == Shr(y / 2 / 2 / 2, 1) == y / 2 / 2 / 2 / 2;
  }

  /** A right shift is the floor of the quotient by 2^k. */
  lemma ShrUnique(x: nat, k: nat, q: nat)
    requires Shl(q, k) <= x < Shl(q, k) + Pow2(k)
    ensures Shr(x, k) == q
  {
    ShlOrder(Shr(x, k), q, k);
    ShlOrder(q, Shr(x, k), k);
  }

  /** Masking with 2^m - 1 is the remainder of the shift by m. */
  lemma {:induction false} BitAndMask(x: nat, m: nat)
    ensures x == Shl(Shr(x, m), m) + BitAnd(x, Pow2(m) - 1)
    decreases m
  {
    if m == 0 {
      BitAndZero(x);
    } else {
      BitAndMask(x / 2, m - 1);
    }
  }

  lemma {:induction false} BitAndZero(x: nat)
    ensures BitAnd(x, 0) == 0
    decreases x
  {
    if x > 0 { BitAndZero(x / 2); }
  }
}
