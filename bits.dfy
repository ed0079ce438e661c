/**
 * Bit tricks on unsigned integers (src/core/utils_adv.h): `x & (x - 1)`,
 * power-of-two tests, population count, bit length and byte length.
 * Unsigned values are non-negative integers; bitwise AND is defined digit by
 * digit in base 2.
 */
module Bits {
  import opened Basics

  function Pow2(k: nat): (r: nat)
    ensures r >= 1
  {
    if k == 0 then 1 else 2 * Pow2(k - 1)
  }

  /** Bitwise AND of two unsigned values. */
  function And(a: nat, b: nat): (r: nat)
    ensures r <= a && r <= b
    decreases a
  {
    if a == 0 || b == 0 then 0
    else 2 * And(a / 2, b / 2) + (if a % 2 == 1 && b % 2 == 1 then 1 else 0)
  }

  /** Bitwise OR of two unsigned values. */
  function Or(a: nat, b: nat): nat
    decreases a + b
  {
    if a == 0 then b
    else if b == 0 then a
    else 2 * Or(a / 2, b / 2) + (if a % 2 == 1 || b % 2 == 1 then 1 else 0)
  }

  /** Bit `k` of `x` is one. */
  predicate BitSet(x: nat, k: nat)
  {
    if k == 0 then x % 2 == 1 else BitSet(x / 2, k - 1)
  }

  /** `x - 1` in unsigned 64-bit arithmetic: zero wraps to the largest value. */
  function Dec64(x: U64): (r: U64)
  {
    if x == 0 then TWO_64 - 1 else x - 1
  }

  /** The lowest set bit of `x`, as a value. */
  function LowBit(x: nat): (r: nat)
    requires x > 0
    ensures 1 <= r <= x
  {
    if x % 2 == 1 then 1 else 2 * LowBit(x / 2)
  }

  /** `x` has exactly one set bit. */
  predicate IsPow2(x: nat)
  {
    x > 0 && (x == 1 || (x % 2 == 0 && IsPow2(x / 2)))
  }

  /** The number of set bits. */
  function PopCountOf(x: nat): nat
  {
    if x == 0 then 0 else x % 2 + PopCountOf(x / 2)
  }

  /** The number of binary digits, the highest set bit's position plus one. */
  function BitLength(x: nat): nat
  {
    if x == 0 then 0 else 1 + BitLength(x / 2)
  }

  /** The number of bytes `x` occupies, at least one. */
  function ByteLength(x: nat): nat
  {
    if x < 256 then 1 else 1 + ByteLength(x / 256)
  }

  lemma {:induction false} AndSelf(a: nat)
    ensures And(a, a) == a
    decreases a
  {
    if a != 0 {
      AndSelf(a / 2);
    }
  }

  /** `x & (x - 1)` clears the lowest set bit. */
  lemma {:induction false} AndPrev(x: nat)
    requires x > 0
    ensures And(x, x - 1) == x - LowBit(x)
    decreases x
  {
    if x % 2 == 1 {
      AndSelf(x / 2);
      assert (x - 1) / 2 == x / 2;
    } else {
      AndPrev(x / 2);
      assert (x - 1) / 2 == x / 2 - 1;
    }
  }

  /** Clearing the lowest set bit removes exactly one set bit. */
  lemma {:induction false} PopCountClear(x: nat)
    requires x > 0
    ensures PopCountOf(x - LowBit(x)) + 1 == PopCountOf(x)
    decreases x
  {
    if x % 2 == 1 {
      assert (x - 1) / 2 == x / 2;
    } else {
      PopCountClear(x / 2);
      assert (x - LowBit(x)) / 2 == x / 2 - LowBit(x / 2);
    }
  }

  /** The lowest set bit is all of `x` exactly when `x` is a power of two. */
  lemma {:induction false} LowBitPow2(x: nat)
    requires x > 0
    ensures x - LowBit(x) == 0 <==> IsPow2(x)
    ensures IsPow2(x) <==> PopCountOf(x) == 1
    decreases x
  {
    if x % 2 == 0 {
      LowBitPow2(x / 2);
    } else if x > 1 {
      assert PopCountOf(x / 2) >= 1 by { PopCountPositive(x / 2); }
    }
  }

  lemma {:induction false} PopCountPositive(x: nat)
    requires x > 0
    ensures PopCountOf(x) >= 1
    decreases x
  {
    if x % 2 == 0 {
      PopCountPositive(x / 2);
    }
  }

  /** Clearing the lowest bit of a non-power of two keeps the highest one. */
  lemma {:induction false} BitLengthClear(x: nat)
    requires x > 0 && !IsPow2(x)
    ensures x - LowBit(x) > 0 && BitLength(x - LowBit(x)) == BitLength(x)
    decreases x
  {
    if x % 2 == 1 {
      assert (x - 1) / 2 == x / 2;
    } else {
      BitLengthClear(x / 2);
      assert (x - LowBit(x)) / 2 == x / 2 - LowBit(x / 2);
    }
  }

  /** A positive `x` lies between the powers of two around its highest bit. */
  lemma {:induction false} BitLengthBounds(x: nat)
    requires x > 0
    ensures BitLength(x) >= 1
    ensures Pow2(BitLength(x) - 1) <= x < Pow2(BitLength(x))
    ensures IsPow2(x) ==> x == Pow2(BitLength(x) - 1)
    decreases x
  {
    if x > 1 {
      BitLengthBounds(x / 2);
    }
  }

  lemma {:induction false} Pow2IsPow2(k: nat)
    ensures IsPow2(Pow2(k))
  {
    if k > 0 {
      Pow2IsPow2(k - 1);
      assert Pow2(k) / 2 == Pow2(k - 1);
    }
  }

  /** Masking with `n - 1`, for a power of two `n`, keeps every value below `n`. */
  lemma {:induction false} AndMaskBelow(y: nat, n: nat)
    requires IsPow2(n) && y < n
    ensures And(y, n - 1) == y
    decreases n
  {
    if n > 1 && y > 0 {
      AndMaskBelow(y / 2, n / 2);
      assert (n - 1) / 2 == n / 2 - 1 && (n - 1) % 2 == 1;
    }
  }

  /** ... and sends `n` itself to zero. */
  lemma {:induction false} AndMaskWrap(n: nat)
    requires IsPow2(n)
    ensures And(n, n - 1) == 0
    decreases n
  {
    if n > 1 {
      AndMaskWrap(n / 2);
      assert (n - 1) / 2 == n / 2 - 1;
    }
  }

  /**
   * The loop `while (x & (x - 1)) x &= x - 1;` shared by `_reserve` and
   * `normalize_size`: it keeps only the highest set bit.
   */
  method KeepHighestBit(x: U64) returns (r: U64)
    ensures x == 0 ==> r == 0
    ensures x > 0 ==> IsPow2(r) && r <= x && r == Pow2(BitLength(x) - 1)
  {
    r := x;
    while And(r, Dec64(r)) != 0
      invariant r <= x && (x > 0 ==> r > 0 && BitLength(r) == BitLength(x))
      decreases r
    {
      AndPrev(r);
      if IsPow2(r) {
        LowBitPow2(r);
        assert false;
      }
      BitLengthClear(r);
      r := And(r, Dec64(r));
    }
    if x > 0 {
      AndPrev(r);
      LowBitPow2(r);
      BitLengthBounds(r);
    }
  }

  /** `is_power_2`: `(x & (x - 1)) == 0`, which also holds of zero. */
  function IsPower2(x: U64): (b: bool)
  {
    And(x, Dec64(x)) == 0
  }

  /** `is_power_2(x)` exactly when `x` has at most one set bit. */
  lemma IsPower2AtMostOneBit(x: U64)
    ensures IsPower2(x) <==> PopCountOf(x) <= 1
  {
    if x > 0 {
      AndPrev(x);
      LowBitPow2(x);
      PopCountPositive(x);
    }
  }

  /** `pop_count`: clears the lowest set bit until nothing is left. */
  method PopCount(x: U64) returns (r: nat)
    ensures r == PopCountOf(x)
  {
    var y: nat := x;
    r := 0;
    while y != 0
      invariant r + PopCountOf(y) == PopCountOf(x)
      decreases y
    {
      AndPrev(y);
      PopCountClear(y);
      y := And(y, y - 1);
      r := r + 1;
    }
  }

  /** `ilog2`: shifts right until nothing is left; the count is the bit length. */
  method ILog2(x: U64) returns (r: nat)
    ensures r == BitLength(x)
    ensures x > 0 ==> Pow2(r - 1) <= x < Pow2(r)
  {
    var y: nat := x;
    r := 0;
    while y != 0
      invariant r + BitLength(y) == BitLength(x)
      decreases y
    {
      y := y / 2;
      r := r + 1;
    }
    if x > 0 {
      BitLengthBounds(x);
    }
  }

  /** `no_bytes`: one byte, plus one for every further eight-bit shift that leaves something. */
  method NoBytes(x: U64) returns (r: nat)
    ensures r >= 1 && r == ByteLength(x)
    ensures x < Pow2(8 * r)
  {
    var y: nat := x / 256;
    r := 1;
    while y != 0
      invariant if y == 0 then r == ByteLength(x) else r + ByteLength(y) == ByteLength(x)
      decreases y
    {
      y := y / 256;
      r := r + 1;
    }
    ByteLengthBound(x);
  }

  lemma {:induction false} ByteLengthBound(x: nat)
    ensures x < Pow2(8 * ByteLength(x))
    decreases x
  {
    if x >= 256 {
      ByteLengthBound(x / 256);
      Pow2Add(8, 8 * ByteLength(x / 256));
      assert Pow2(8) == 256;
    } else {
      assert Pow2(8) == 256;
    }
  }

  lemma {:induction false} Pow2Add(a: nat, b: nat)
    ensures Pow2(a + b) == Pow2(a) * Pow2(b)
    decreases a
  {
    if a > 0 {
      Pow2Add(a - 1, b);
    }
  }

  lemma {:induction false} ZeroBit(k: nat)
    ensures !BitSet(0, k)
  {
    if k > 0 {
      ZeroBit(k - 1);
    }
  }

  /** `x & (1 << k)` is non-zero exactly when bit `k` of `x` is one. */
  lemma {:induction false} AndPow2(x: nat, k: nat)
    ensures And(x, Pow2(k)) != 0 <==> BitSet(x, k)
    decreases k
  {
    if x == 0 {
      ZeroBit(k);
    } else if k > 0 {
      AndPow2(x / 2, k - 1);
      assert Pow2(k) / 2 == Pow2(k - 1) && Pow2(k) % 2 == 0;
    }
  }

  /** A bit of `a | b` is one exactly when it is one in `a` or in `b`. */
  lemma {:induction false} OrBit(a: nat, b: nat, k: nat)
    ensures BitSet(Or(a, b), k) <==> BitSet(a, k) || BitSet(b, k)
    decreases k
  {
    if a == 0 {
      ZeroBit(k);
    } else if b == 0 {
      ZeroBit(k);
    } else if k > 0 {
      OrBit(a / 2, b / 2, k - 1);
    }
  }

  /** `1 << k` has bit `k` set. */
  lemma {:induction false} Pow2Bit(k: nat)
    ensures BitSet(Pow2(k), k)
  {
    if k > 0 {
      Pow2Bit(k - 1);
      assert Pow2(k) / 2 == Pow2(k - 1);
    }
  }

  /** `a | b` of two `k`-bit values is a `k`-bit value. */
  lemma {:induction false} OrBound(a: nat, b: nat, k: nat)
    requires a < Pow2(k) && b < Pow2(k)
    ensures Or(a, b) < Pow2(k)
    decreases k
  {
    if a != 0 && b != 0 {
      assert k > 0;
      OrBound(a / 2, b / 2, k - 1);
    }
  }

  lemma Pow2Is64()
    ensures Pow2(64) == TWO_64
  {
    assert Pow2(8) == 256;
    Pow2Add(8, 8);
    Pow2Add(16, 16);
    Pow2Add(32, 32);
  }

  lemma {:induction false} Pow2Less(a: nat, b: nat)
    requires a < b
    ensures Pow2(a) < Pow2(b)
    decreases b
  {
    if a < b - 1 {
      Pow2Less(a, b - 1);
    }
  }
}
