/**
 * `bloom_set_t` (src/core/utils_adv.h): a blocked Bloom filter over 64-bit
 * values. Each value's hash picks one 64-bit word of the filter and three bits
 * inside it; inserting sets the three bits, checking tests them. A value that
 * was inserted is always reported present; a value that was not may be too.
 */
module Bloom {
  import opened Basics
  import opened Bits

  /** `no_hashes`: bits set per value. */
  const NO_HASHES: nat := 3
  /** `1 << mask_shift`, with `mask_shift == 6 * no_hashes`. */
  const SHIFT_UNIT: nat := 0x4_0000

  /** The bit positions `h & 63`, `(h >> 6) & 63` and `(h >> 12) & 63`. */
  function Bit1(h: U64): (b: nat) ensures b < 64 { And(h, 63) }
  function Bit2(h: U64): (b: nat) ensures b < 64 { And(h / 64, 63) }
  function Bit3(h: U64): (b: nat) ensures b < 64 { And(h / 4096, 63) }

  /** `(1ull << (h & 63)) | (1ull << ((h >> 6) & 63)) | (1ull << ((h >> 12) & 63))`. */
  function Probes(h: U64): (r: U64)
  {
    Pow2Less(Bit1(h), 64);
    Pow2Less(Bit2(h), 64);
    Pow2Less(Bit3(h), 64);
    Pow2Is64();
    OrBound(Pow2(Bit1(h)), Pow2(Bit2(h)), 64);
    OrBound(Or(Pow2(Bit1(h)), Pow2(Bit2(h))), Pow2(Bit3(h)), 64);
    Or(Or(Pow2(Bit1(h)), Pow2(Bit2(h))), Pow2(Bit3(h)))
  }

  /** `w` has the three bits of hash `h` set, as `w & (1ull << b)` reads them. */
  predicate Marked(w: nat, h: U64)
  {
    And(w, Pow2(Bit1(h))) != 0 && And(w, Pow2(Bit2(h))) != 0 && And(w, Pow2(Bit3(h))) != 0
  }

  /** ... that is, the three bits are one. */
  lemma MarkedBits(w: nat, h: U64)
    ensures Marked(w, h) <==> BitSet(w, Bit1(h)) && BitSet(w, Bit2(h)) && BitSet(w, Bit3(h))
  {
    AndPow2(w, Bit1(h));
    AndPow2(w, Bit2(h));
    AndPow2(w, Bit3(h));
  }

  /** Setting more bits keeps a hash's bits set. */
  lemma MarkedOr(w: nat, c: nat, h: U64)
    requires Marked(w, h)
    ensures Marked(Or(w, c), h)
  {
    MarkedBits(w, h);
    MarkedBits(Or(w, c), h);
    OrBit(w, c, Bit1(h));
    OrBit(w, c, Bit2(h));
    OrBit(w, c, Bit3(h));
  }

  /** Or-ing in the probe bits of `h` sets them. */
  lemma MarkedSet(w: nat, h: U64)
    ensures Marked(Or(w, Probes(h)), h)
  {
    var p1, p2, p3 := Pow2(Bit1(h)), Pow2(Bit2(h)), Pow2(Bit3(h));
    Pow2Bit(Bit1(h));
    Pow2Bit(Bit2(h));
    Pow2Bit(Bit3(h));
    OrBit(p1, p2, Bit1(h));
    OrBit(p1, p2, Bit2(h));
    OrBit(Or(p1, p2), p3, Bit1(h));
    OrBit(Or(p1, p2), p3, Bit2(h));
    OrBit(Or(p1, p2), p3, Bit3(h));
    OrBit(w, Probes(h), Bit1(h));
    OrBit(w, Probes(h), Bit2(h));
    OrBit(w, Probes(h), Bit3(h));
    MarkedBits(Or(w, Probes(h)), h);
  }

  /** `(h & mask) >> mask_shift`: the word that holds the bits of hash `h`. */
  function Pos(h: U64, mask: nat): (p: nat)
    ensures p <= mask / SHIFT_UNIT
  {
    And(h, mask) / SHIFT_UNIT
  }

  /** The word picked by `h` has all three of its bits set. */
  predicate Holds(words: seq<U64>, mask: nat, h: U64)
    requires mask / SHIFT_UNIT < |words|
  {
    Marked(words[Pos(h, mask)], h)
  }

  /** Setting more bits in any word keeps every value's bits set. */
  lemma KeepHolds(words: seq<U64>, mask: nat, h: U64, p: nat, c: U64)
    requires mask / SHIFT_UNIT < |words| && p < |words| && Holds(words, mask, h)
    requires Or(words[p], c) < TWO_64
    ensures Holds(words[p := Or(words[p], c)], mask, h)
  {
    if Pos(h, mask) == p {
      MarkedOr(words[p], c, h);
    }
  }

  /** Or-ing in the bits of `h` in its word makes `h` hold. */
  lemma SetHolds(words: seq<U64>, mask: nat, h: U64)
    requires mask / SHIFT_UNIT < |words|
    requires Or(words[Pos(h, mask)], Probes(h)) < TWO_64
    ensures Holds(words[Pos(h, mask) := Or(words[Pos(h, mask)], Probes(h))], mask, h)
  {
    MarkedSet(words[Pos(h, mask)], h);
  }

  /** Or-ing two 64-bit words gives a 64-bit word. */
  lemma OrU64(a: U64, b: U64)
    ensures Or(a, b) < TWO_64
  {
    Pow2Is64();
    OrBound(a, b, 64);
  }

  /** The filter size in bits that `normalize_size` computes, in closed form. */
  function NormalSize(size: U64): nat
  {
    var s := (size * NO_HASHES % TWO_64) * 2 % TWO_64;
    var top := if s == 0 then 0 else Pow2(BitLength(s) - 1);
    var d := top * 2 % TWO_64;
    if d < 256 then 256 else d
  }

  /** Doubling a power of two below 2^64 either stays a power of two or wraps to zero. */
  lemma DoubleTop(s: nat)
    requires 0 < s < TWO_64
    ensures var top := Pow2(BitLength(s) - 1);
      top <= s < 2 * top && (2 * top < TWO_64 ==> IsPow2(2 * top)) && (2 * top >= TWO_64 ==> 2 * top == TWO_64)
  {
    BitLengthBounds(s);
    Pow2IsPow2(BitLength(s));
    Pow2Is64();
    if BitLength(s) > 64 {
      Pow2Less(64, BitLength(s) - 1);
    } else if BitLength(s) < 64 {
      Pow2Less(BitLength(s), 64);
    }
  }

  /** The filter size is a power of two of at least 256 bits that fits 64 bits. */
  lemma NormalSizeRange(size: U64)
    ensures IsPow2(NormalSize(size)) && 256 <= NormalSize(size) < TWO_64
  {
    var s := (size * NO_HASHES % TWO_64) * 2 % TWO_64;
    var top := if s == 0 then 0 else Pow2(BitLength(s) - 1);
    var d := top * 2 % TWO_64;
    if d < 256 {
      Pow2IsPow2(8);
      assert Pow2(8) == 256;
      assert NormalSize(size) == 256;
    } else {
      DoubleTop(s);
      assert d == 2 * top && NormalSize(size) == d;
    }
  }

  /**
   * Unless `6 * size` reaches half the 64-bit range, the filter has more than
   * six bits per value, and at most twelve once above the 256-bit floor.
   */
  lemma NormalSizeCovers(size: U64)
    requires 6 * size < TWO_64 / 2
    ensures 6 * size < NormalSize(size)
    ensures NormalSize(size) != 256 ==> NormalSize(size) <= 12 * size
  {
    assert size * NO_HASHES % TWO_64 == 3 * size;
    assert (3 * size) * 2 % TWO_64 == 6 * size;
    if size > 0 {
      DoubleTop(6 * size);
    }
  }

  /** `((words - 1) << mask_shift) >> mask_shift` cannot exceed `words - 1`. */
  lemma MaskBound(words: nat)
    requires words >= 1
    ensures ((words - 1) * SHIFT_UNIT % TWO_64) / SHIFT_UNIT <= words - 1
  {
    var x := (words - 1) * SHIFT_UNIT;
    assert x % TWO_64 <= x;
    assert x / SHIFT_UNIT == words - 1;
  }

  /** `normalize_size`: six bits per value, rounded to a power of two, at least 256. */
  method NormalizeSize(size: U64) returns (r: U64)
    ensures r == NormalSize(size)
  {
    var s: U64 := size * NO_HASHES % TWO_64;
    s := s * 2 % TWO_64;
    var top := KeepHighestBit(s);
    var d: U64 := top * 2 % TWO_64;
    r := if d < 256 then 256 else d;
  }

  class BloomSet {
    /** `MurMur64Hash`. */
    const hash: U64 -> U64
    var arr: array<U64>
    var noElements: nat
    /** `allocated`: the filter size in bits. */
    var allocSlots: nat
    var mask: nat
    /** The values inserted since the last `allocate`. */
    ghost var inserted: set<U64>

    ghost predicate Valid()
      reads this, arr
    {
      IsPow2(allocSlots) && 256 <= allocSlots < TWO_64
      && arr.Length == allocSlots / 64
      && mask == (allocSlots / 64 - 1) * SHIFT_UNIT % TWO_64
      && mask / SHIFT_UNIT < arr.Length
      && forall y :: y in inserted ==> Holds(arr[..], mask, hash(y))
    }

    /** `bloom_set_t(size)`. */
    constructor (size: U64, hash: U64 -> U64)
      ensures Valid() && fresh(arr) && this.hash == hash
      ensures inserted == {} && noElements == 0 && allocSlots == NormalSize(size)
    {
      this.hash := hash;
      arr := new U64[0];
      noElements, allocSlots, mask := 0, 0, 0;
      inserted := {};
      new;
      Allocate(size);
    }

    /** `allocate` (and `resize`): an empty filter of `NormalSize(size)` bits. */
    method Allocate(size: U64)
      modifies this
      ensures Valid() && fresh(arr) && inserted == {} && noElements == 0
      ensures allocSlots == NormalSize(size)
      ensures forall i :: 0 <= i < arr.Length ==> arr[i] == 0
    {
      noElements := 0;
      var a := NormalizeSize(size);
      NormalSizeRange(size);
      allocSlots := a;
      arr := new U64[a / 64](_ => 0);
      mask := (a / 64 - 1) * SHIFT_UNIT % TWO_64;
      MaskBound(a / 64);
      inserted := {};
    }

    /** `insert`: sets the three bits of `x` in its word. */
    method Insert(x: U64)
      requires Valid()
      modifies this, arr
      ensures Valid() && arr == old(arr) && allocSlots == old(allocSlots) && mask == old(mask)
      ensures inserted == old(inserted) + {x} && noElements == old(noElements) + 1
      ensures var p := Pos(hash(x), mask); arr[..] == old(arr[..])[p := Or(old(arr[p]), Probes(hash(x)))]
      ensures Check(x)
    {
      var h := hash(x);
      var pos := And(h, mask) / SHIFT_UNIT;
      ghost var words := arr[..];
      OrU64(words[pos], Probes(h));
      forall y | y in inserted ensures Holds(words[pos := Or(words[pos], Probes(h))], mask, hash(y)) {
        KeepHolds(words, mask, hash(y), pos, Probes(h));
      }
      SetHolds(words, mask, h);
      arr[pos] := Or(arr[pos], Or(Or(Pow2(And(h, 63)), Pow2(And(h / 64, 63))), Pow2(And(h / 4096, 63))));
      noElements := noElements + 1;
      inserted := inserted + {x};
    }

    /** `insert(begin, end)`: inserts every value of `xs` in turn. */
    method InsertAll(xs: seq<U64>)
      requires Valid()
      modifies this, arr
      ensures Valid() && arr == old(arr) && allocSlots == old(allocSlots)
      ensures inserted == old(inserted) + (set x | x in xs) && noElements == old(noElements) + |xs|
      ensures forall x :: x in xs ==> Check(x)
    {
      var i := 0;
      while i < |xs|
        invariant i <= |xs| && Valid() && arr == old(arr) && allocSlots == old(allocSlots)
        invariant inserted == old(inserted) + (set x | x in xs[..i]) && noElements == old(noElements) + i
      {
        Insert(xs[i]);
        assert xs[..i + 1] == xs[..i] + [xs[i]];
        i := i + 1;
      }
      assert xs[..i] == xs;
      forall x | x in xs ensures Check(x) {
        assert x in inserted;
      }
    }

    /** `check`: all three bits of `x` are set in its word. */
    predicate Check(x: U64): (r: bool)
      reads this, arr
      requires Valid()
      ensures x in inserted ==> r
    {
      var h := hash(x);
      var w := arr[And(h, mask) / SHIFT_UNIT];
      And(w, Pow2(And(h, 63))) != 0 && And(w, Pow2(And(h / 64, 63))) != 0 && And(w, Pow2(And(h / 4096, 63))) != 0
    }
  }
}
