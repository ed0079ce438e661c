/**
 * The k-mer register CKmer (src/core/kmer.h).
 *
 * A k-mer of at most 32 nucleotides is kept in two 64-bit words: `kmerDir`
 * holds the symbols in reading order, two bits each, packed from the top of
 * the word down; `kmerRc` holds the reverse complement packed the same way.
 * Inserting a symbol appends it to the window of the last `maxSize` symbols.
 * The model carries that window as ghost state and proves that both words are
 * exactly the left-aligned packings of it and of its reverse complement, with
 * the 64-bit shifts, additions and masks of the source written out.
 */
module Kmer {
  import opened Basics
  import opened Bits
  import Utils

  /** A nucleotide code: A, C, G, T as 0..3. */
  type Sym = x: nat | x < 4

  /** kmer_mode_t: which of the two words the register maintains. */
  datatype Mode = Direct | RevComp | Canonical

  // ---------------------------------------------------------------------------
  // 64-bit machine operations

  /** `x << k` on uint64_t. */
  function Shl(x: nat, k: nat): U64
  {
    (x * Pow2(k)) % TWO_64
  }

  /** `a + b` on uint64_t. */
  function AddW(a: nat, b: nat): U64
  {
    (a + b) % TWO_64
  }

  /** `x` with its `b` lowest bits cleared. */
  function ClearLow(x: nat, b: nat): nat
  {
    if b == 0 then x else 2 * ClearLow(x / 2, b - 1)
  }

  const TWO_62: nat := 0x4000_0000_0000_0000

  // ---------------------------------------------------------------------------
  // The abstract k-mer

  function Comp(s: Sym): Sym
  {
    3 - s
  }

  /** The reverse complement of a run of symbols. */
  function ReverseComplement(w: seq<Sym>): (r: seq<Sym>)
    ensures |r| == |w|
  {
    if w == [] then [] else [Comp(w[|w| - 1])] + ReverseComplement(w[..|w| - 1])
  }

  /** Base-4 value of a run of symbols, the first symbol most significant. */
  function Pack(w: seq<Sym>): nat
  {
    if w == [] then 0 else Pack(w[..|w| - 1]) * 4 + w[|w| - 1]
  }

  /** The factor that moves a packing of `n` symbols to the top of a 64-bit word. */
  function Align(n: nat): nat
    requires n <= 32
  {
    Pow2(64 - 2 * n)
  }

  /** A run of at most 32 symbols packed into the top bits of a 64-bit word. */
  function Packed(w: seq<Sym>): nat
    requires |w| <= 32
  {
    if w == [] then 0 else Pack(w) * Align(|w|)
  }

  /** The window after one more symbol: the last `k` symbols seen. */
  function Slide(w: seq<Sym>, s: Sym, k: nat): (r: seq<Sym>)
    requires 1 <= k && |w| <= k
    ensures |r| <= k && |r| == if |w| == k then k else |w| + 1
    ensures r[|r| - 1] == s
  {
    if |w| == k then w[1..] + [s] else w + [s]
  }

  /** The window after a whole stream of symbols. */
  function Feed(w: seq<Sym>, xs: seq<Sym>, k: nat): (r: seq<Sym>)
    requires 1 <= k && |w| <= k
    ensures |r| <= k
    decreases |xs|
  {
    if xs == [] then w else Feed(Slide(w, xs[0], k), xs[1..], k)
  }

  /** The last `k` symbols of `xs` (all of them when there are fewer). */
  function LastK(xs: seq<Sym>, k: nat): (r: seq<Sym>)
  {
    if |xs| <= k then xs else xs[|xs| - k..]
  }

  // ---------------------------------------------------------------------------
  // Properties of the abstract k-mer

  /** Position `i` of the reverse complement is the complement of position `|w| - 1 - i`. */
  lemma {:induction false} ReverseComplementAt(w: seq<Sym>, i: nat)
    requires i < |w|
    ensures ReverseComplement(w)[i] == Comp(w[|w| - 1 - i])
    decreases |w|
  {
    if i > 0 {
      ReverseComplementAt(w[..|w| - 1], i - 1);
    }
  }

  lemma {:induction false} ReverseComplementInvolution(w: seq<Sym>)
    ensures ReverseComplement(ReverseComplement(w)) == w
  {
    var r := ReverseComplement(w);
    forall i | 0 <= i < |w|
      ensures ReverseComplement(r)[i] == w[i]
    {
      ReverseComplementAt(r, i);
      ReverseComplementAt(w, |w| - 1 - i);
    }
  }

  lemma {:induction false} ReverseComplementSnoc(w: seq<Sym>, s: Sym)
    ensures ReverseComplement(w + [s]) == [Comp(s)] + ReverseComplement(w)
  {
    assert (w + [s])[..|w|] == w;
  }

  lemma {:induction false} ReverseComplementCons(a: Sym, w: seq<Sym>)
    ensures ReverseComplement([a] + w) == ReverseComplement(w) + [Comp(a)]
  {
    var l := ReverseComplement([a] + w);
    var r := ReverseComplement(w) + [Comp(a)];
    forall i | 0 <= i < |l|
      ensures l[i] == r[i]
    {
      ReverseComplementAt([a] + w, i);
      if i < |w| {
        ReverseComplementAt(w, i);
      }
    }
  }

  /** Sliding the last `k` symbols of a stream gives the last `k` of the longer stream. */
  lemma {:induction false} SlideLastK(h: seq<Sym>, s: Sym, k: nat)
    requires 1 <= k
    ensures Slide(LastK(h, k), s, k) == LastK(h + [s], k)
  {
    if |h| >= k {
      assert Slide(LastK(h, k), s, k) == h[|h| - k + 1..] + [s];
      assert (h + [s])[|h| + 1 - k..] == h[|h| - k + 1..] + [s];
    }
  }

  lemma {:induction false} SnocAppend(h: seq<Sym>, xs: seq<Sym>)
    requires xs != []
    ensures h + [xs[0]] + xs[1..] == h + xs
  {
    assert xs == [xs[0]] + xs[1..];
  }

  /** Feeding a stream leaves the last `k` symbols of everything seen. */
  lemma {:induction false} FeedLastK(h: seq<Sym>, xs: seq<Sym>, k: nat)
    requires 1 <= k
    ensures Feed(LastK(h, k), xs, k) == LastK(h + xs, k)
    decreases |xs|
  {
    if xs == [] {
      assert h + xs == h;
    } else {
      var x, rest := xs[0], xs[1..];
      var h' := h + [x];
      SlideLastK(h, x, k);
      assert Feed(LastK(h, k), xs, k) == Feed(LastK(h', k), rest, k);
      FeedLastK(h', rest, k);
      SnocAppend(h, xs);
    }
  }

  /** A register filled from empty holds the last `k` symbols of its input. */
  lemma {:induction false} FeedFromEmpty(xs: seq<Sym>, k: nat)
    requires 1 <= k
    ensures Feed([], xs, k) == LastK(xs, k)
  {
    FeedLastK([], xs, k);
    assert [] + xs == xs;
  }

  lemma {:induction false} PackBound(w: seq<Sym>)
    ensures Pack(w) < Pow2(2 * |w|)
    decreases |w|
  {
    if w != [] {
      PackBound(w[..|w| - 1]);
      Pow2Add(2, 2 * (|w| - 1));
    }
  }

  /** The first symbol of a packing weighs 4 to the number of symbols after it. */
  lemma {:induction false} PackCons(a: Sym, r: seq<Sym>)
    ensures Pack([a] + r) == a * Pow2(2 * |r|) + Pack(r)
    decreases |r|
  {
    if r != [] {
      var r' := r[..|r| - 1];
      assert ([a] + r)[..|r|] == [a] + r';
      PackCons(a, r');
      Pow2Add(2, 2 * |r'|);
      var p := Pow2(2 * |r'|);
      assert Pow2(2 * |r|) == 4 * p;
      assert a * (4 * p) == 4 * (a * p);
    }
  }

  lemma {:induction false} Pow2Is62()
    ensures Pow2(62) == TWO_62
  {
    Pow2Is64();
  }

  /** `c << 62` for a symbol. */
  lemma {:induction false} ShlTop(c: Sym)
    ensures Shl(c, 62) == c * TWO_62
  {
    Pow2Is62();
  }

  /** `x << 2`. */
  lemma {:induction false} ShlTwo(x: nat)
    ensures Shl(x, 2) == (4 * x) % TWO_64
  {
    assert Pow2(2) == 4;
  }

  // Small steps of arithmetic, each proved on its own.

  lemma {:induction false} ModDrop(h: nat, x: nat)
    requires x < TWO_64
    ensures (h * TWO_64 + x) % TWO_64 == x
  {
  }

  lemma {:induction false} Times4(p: nat, a: nat)
    ensures p * (4 * a) == 4 * (p * a)
  {
  }

  lemma {:induction false} SnocTimes(p: nat, s: nat, a: nat)
    ensures (p * 4 + s) * a == 4 * (p * a) + s * a
  {
  }

  lemma {:induction false} ConsTimes(h: nat, q: nat, p: nat, a: nat)
    ensures (h * q + p) * a == h * (q * a) + p * a
  {
  }

  lemma {:induction false} Assoc(x: nat, y: nat, z: nat)
    ensures x * (y * z) == (x * y) * z
  {
  }

  lemma {:induction false} MulNat(x: nat, y: nat)
    ensures x * y >= 0
  {
  }

  lemma {:induction false} MulLess(x: nat, y: nat, c: nat)
    requires x < y && c > 0
    ensures x * c + c <= y * c
  {
    assert y * c == x * c + (y - x) * c;
    Utils.MulAtLeast(y - x, c);
  }

  /** A symbol times a slot stays below four slots. */
  lemma {:induction false} SymTimes(s: Sym, a: nat)
    ensures 0 <= s * a <= 3 * a
  {
  }

  /** A full window's packing fills the word. */
  lemma {:induction false} AlignTop(n: nat)
    requires n <= 32
    ensures Pow2(2 * n) * Align(n) == TWO_64
  {
    Pow2Add(2 * n, 64 - 2 * n);
    Pow2Is64();
  }

  lemma {:induction false} AlignStep(n: nat)
    requires n < 32
    ensures Align(n) == 4 * Align(n + 1)
  {
    Pow2Add(2, 64 - 2 * (n + 1));
  }

  /** The top symbol of a window of `n` sits at bit 62. */
  lemma {:induction false} AlignBelowTop(n: nat)
    requires 1 <= n <= 32
    ensures Pow2(2 * (n - 1)) * Align(n) == TWO_62
  {
    Pow2Add(2 * (n - 1), 64 - 2 * n);
    Pow2Is62();
  }

  lemma {:induction false} PackedBound(w: seq<Sym>)
    requires |w| <= 32
    ensures Packed(w) < TWO_64
  {
    PackBound(w);
    AlignTop(|w|);
    MulLess(Pack(w), Pow2(2 * |w|), Align(|w|));
  }

  lemma {:induction false} PackSnoc(w: seq<Sym>, s: Sym)
    ensures Pack(w + [s]) == Pack(w) * 4 + s
  {
    assert (w + [s])[..|w|] == w;
  }

  /** The value of `~0ull << b`: every bit from `b` upwards set. */
  lemma {:induction false} HighMask(b: nat)
    requires b < 64
    ensures Shl(TWO_64 - 1, b) == TWO_64 - Pow2(b)
  {
    Pow2Less(b, 64);
    Pow2Is64();
    var p := Pow2(b);
    assert (TWO_64 - 1) * p == (p - 1) * TWO_64 + (TWO_64 - p);
    ModDrop(p - 1, TWO_64 - p);
  }

  /** Clearing the `b` low bits of `q * 2^b + r` for `r < 2^b` leaves `q * 2^b`. */
  lemma {:induction false} ClearLowExact(q: nat, r: nat, b: nat)
    requires r < Pow2(b)
    ensures ClearLow(q * Pow2(b) + r, b) == q * Pow2(b)
    decreases b
  {
    if b > 0 {
      var p := Pow2(b - 1);
      Times4(q, 0);
      assert q * Pow2(b) == 2 * (q * p);
      assert (q * Pow2(b) + r) / 2 == q * p + r / 2;
      ClearLowExact(q, r / 2, b - 1);
    }
  }

  /** ANDing a value below `2^n` with the bits `b..n-1` (the mask `m`) clears its `b` lowest bits. */
  lemma {:induction false} AndHighMask(x: nat, n: nat, b: nat, m: nat)
    requires b <= n && x < Pow2(n) && m + Pow2(b) == Pow2(n)
    ensures And(x, m) == ClearLow(x, b)
    decreases b
  {
    if b == 0 {
      Pow2IsPow2(n);
      AndMaskBelow(x, Pow2(n));
    } else if b == n {
      ClearLowExact(0, x, b);
    } else if x == 0 {
      ClearLowExact(0, 0, b);
    } else {
      Pow2Less(b, n);
      assert m % 2 == 0 && m / 2 + Pow2(b - 1) == Pow2(n - 1);
      AndHighMask(x / 2, n - 1, b - 1, m / 2);
    }
  }

  /** `x & (~0ull << b)` on a 64-bit value clears its `b` lowest bits. */
  lemma {:induction false} MaskClears(x: nat, b: nat, m: nat)
    requires x < TWO_64 && b <= 64 && m + Pow2(b) == TWO_64
    ensures And(x, m) == ClearLow(x, b)
  {
    Pow2Is64();
    AndHighMask(x, 64, b, m);
  }

  /** The arithmetic of `DirGrow`, on numbers: `p` packs the window, `a` is the next slot. */
  lemma {:induction false} DirGrowNum(p: nat, s: Sym, a: nat)
    requires (p * 4 + s) * a < TWO_64
    ensures AddW(p * (4 * a), (s * a) % TWO_64) == (p * 4 + s) * a
  {
    var low := 4 * (p * a);
    var sa := s * a;
    Times4(p, a);
    SnocTimes(p, s, a);
    MulNat(p, a);
    SymTimes(s, a);
    assert low + sa == (p * 4 + s) * a;
    ModDrop(0, sa);
    assert sa % TWO_64 == sa;
    ModDrop(0, low + sa);
  }

  /** Growing the window: the new symbol goes just below the old ones. */
  lemma {:induction false} DirGrow(w: seq<Sym>, s: Sym)
    requires |w| < 32
    ensures AddW(Packed(w), Shl(s, 64 - 2 * (|w| + 1))) == Packed(w + [s])
  {
    var n := |w|;
    var a := Align(n + 1);
    AlignStep(n);
    PackSnoc(w, s);
    PackedBound(w + [s]);
    assert Packed(w) == Pack(w) * (4 * a);
    assert Packed(w + [s]) == (Pack(w) * 4 + s) * a;
    DirGrowNum(Pack(w), s, a);
  }

  /**
   * The arithmetic of `DirSlide`: `h` is the oldest symbol, `pr` packs the rest,
   * `q * a` is the weight of the top slot.
   */
  lemma {:induction false} DirSlideNum(h: Sym, q: nat, pr: nat, s: Sym, a: nat)
    requires q * a == TWO_62 && (pr * 4 + s) * a < TWO_64
    ensures AddW(Shl((h * q + pr) * a, 2), (s * a) % TWO_64) == (pr * 4 + s) * a
  {
    var x := (h * q + pr) * a;
    var low := 4 * (pr * a);
    var sa := s * a;
    ConsTimes(h, q, pr, a);
    assert 4 * x == h * TWO_64 + low;
    SnocTimes(pr, s, a);
    MulNat(pr, a);
    SymTimes(s, a);
    assert low + sa < TWO_64;
    ShlTwo(x);
    ModDrop(h, low);
    assert Shl(x, 2) == low;
    ModDrop(0, sa);
    assert sa % TWO_64 == sa;
    ModDrop(0, low + sa);
  }

  /** The packings involved in sliding a full window. */
  lemma {:induction false} DirSlidePacks(w: seq<Sym>, s: Sym)
    requires 1 <= |w|
    ensures Pack(w) == w[0] * Pow2(2 * (|w| - 1)) + Pack(w[1..])
    ensures Pack(w[1..] + [s]) == Pack(w[1..]) * 4 + s
  {
    assert w == [w[0]] + w[1..];
    PackCons(w[0], w[1..]);
    PackSnoc(w[1..], s);
  }

  /** Sliding a full window: shifting left drops the oldest symbol, the new one fills the bottom slot. */
  lemma {:induction false} DirSlide(w: seq<Sym>, s: Sym)
    requires 1 <= |w| <= 32
    ensures AddW(Shl(Packed(w), 2), Shl(s, 64 - 2 * |w|)) == Packed(w[1..] + [s])
  {
    var k := |w|;
    var a := Align(k);
    var q := Pow2(2 * (k - 1));
    DirSlidePacks(w, s);
    AlignBelowTop(k);
    PackedBound(w[1..] + [s]);
    DirSlideNum(w[0], q, Pack(w[1..]), s, a);
  }

  /** The arithmetic of `RcGrow`: `pu` packs the reverse complement, `c` is the complement of the new symbol. */
  lemma {:induction false} RcGrowNum(c: Sym, q: nat, pu: nat, a: nat, e: nat, b: nat)
    requires q * a == TWO_62 && (c * q + pu) * a < TWO_64 && a == Pow2(e) * Pow2(b)
    ensures ClearLow(AddW(pu * (4 * a) / 4, c * TWO_62), b) == (c * q + pu) * a
  {
    var m := pu * a;
    Times4(pu, a);
    assert pu * (4 * a) / 4 == m;
    ConsTimes(c, q, pu, a);
    assert (c * q + pu) * a == c * TWO_62 + m;
    MulNat(pu, a);
    ModDrop(0, c * TWO_62 + m);
    assert AddW(m, c * TWO_62) == (c * q + pu) * a;
    var t := (c * q + pu) * Pow2(e);
    Assoc(c * q + pu, Pow2(e), Pow2(b));
    ClearLowExact(t, 0, b);
  }

  /** Growing the reverse complement: the complement of the new symbol goes on top. */
  lemma {:induction false} RcGrow(w: seq<Sym>, s: Sym, b: nat)
    requires |w| < 32 && b <= 64 - 2 * (|w| + 1)
    ensures ClearLow(AddW(Packed(ReverseComplement(w)) / 4, Shl(Comp(s), 62)), b)
         == Packed(ReverseComplement(w + [s]))
  {
    var n := |w|;
    var u := ReverseComplement(w);
    var c := Comp(s);
    var a := Align(n + 1);
    ReverseComplementSnoc(w, s);
    AlignStep(n);
    ShlTop(c);
    PackCons(c, u);
    AlignBelowTop(n + 1);
    PackedBound([c] + u);
    var e := 64 - 2 * (n + 1) - b;
    Pow2Add(e, b);
    assert Packed(u) == Pack(u) * (4 * a);
    assert Packed([c] + u) == (c * Pow2(2 * n) + Pack(u)) * a;
    RcGrowNum(c, Pow2(2 * n), Pack(u), a, e, b);
  }

  /**
   * The arithmetic of `RcSlide`: `pv` packs the reverse complement without its
   * last symbol `d`, `c` is the complement of the new symbol and `a` the bottom slot.
   */
  lemma {:induction false} RcSlideNum(c: Sym, q: nat, pv: nat, d: Sym, a: nat, t: nat, b: nat)
    requires q * a == TWO_62 && c * q + pv < t && t * a == TWO_64 && a == Pow2(b)
    ensures ClearLow(AddW((pv * 4 + d) * a / 4, c * TWO_62), b) == (c * q + pv) * a
  {
    var top := c * q + pv;
    var pa := pv * a;
    var da := d * a;
    SnocTimes(pv, d, a);
    assert (pv * 4 + d) * a == 4 * pa + da;
    SymTimes(d, a);
    MulNat(pv, a);
    var rem := da / 4;
    assert (4 * pa + da) / 4 == pa + rem;
    assert rem < a;
    ConsTimes(c, q, pv, a);
    assert top * a == c * TWO_62 + pa;
    MulLess(top, t, a);
    var x := top * a + rem;
    assert x < TWO_64;
    ModDrop(0, x);
    assert AddW((pv * 4 + d) * a / 4, c * TWO_62) == x;
    ClearLowExact(top, rem, b);
  }

  /** The packings involved in sliding the reverse complement of a full window. */
  lemma {:induction false} RcSlidePacks(w: seq<Sym>, s: Sym)
    requires 1 <= |w|
    ensures Pack(ReverseComplement(w)) == Pack(ReverseComplement(w[1..])) * 4 + Comp(w[0])
    ensures Pack(ReverseComplement(w[1..] + [s]))
         == Comp(s) * Pow2(2 * (|w| - 1)) + Pack(ReverseComplement(w[1..]))
  {
    var r := w[1..];
    assert w == [w[0]] + r;
    ReverseComplementCons(w[0], r);
    PackSnoc(ReverseComplement(r), Comp(w[0]));
    ReverseComplementSnoc(r, s);
    PackCons(Comp(s), ReverseComplement(r));
  }

  /** `RcSlideNum` restated over the two packings `p1` (before) and `p2` (after) of a window of `k`. */
  lemma {:induction false} RcSlideWords(k: nat, c: Sym, pv: nat, d: Sym, p1: nat, p2: nat, x1: nat, x2: nat, y: nat)
    requires 1 <= k <= 32
    requires p1 == pv * 4 + d && p2 == c * Pow2(2 * (k - 1)) + pv && p2 < Pow2(2 * k)
    requires x1 == p1 * Align(k) && x2 == p2 * Align(k) && y == c * TWO_62
    ensures ClearLow(AddW(x1 / 4, y), 64 - 2 * k) == x2
  {
    AlignBelowTop(k);
    AlignTop(k);
    RcSlideNum(c, Pow2(2 * (k - 1)), pv, d, Align(k), Pow2(2 * k), 64 - 2 * k);
  }

  /** Sliding the reverse complement of a full window: the mask drops the complement of the oldest symbol. */
  lemma {:induction false} RcSlide(w: seq<Sym>, s: Sym)
    requires 1 <= |w| <= 32
    ensures ClearLow(AddW(Packed(ReverseComplement(w)) / 4, Shl(Comp(s), 62)), 64 - 2 * |w|)
         == Packed(ReverseComplement(w[1..] + [s]))
  {
    var u := ReverseComplement(w);
    var v := ReverseComplement(w[1..] + [s]);
    RcSlidePacks(w, s);
    PackBound(v);
    ShlTop(Comp(s));
    assert |u| == |w| && |v| == |w|;
    RcSlideWords(|w|, Comp(s), Pack(ReverseComplement(w[1..])), Comp(w[0]), Pack(u), Pack(v),
                 Packed(u), Packed(v), Shl(Comp(s), 62));
  }

  // ---------------------------------------------------------------------------
  // The register

  class CKmer {
    var kmerDir: U64
    var kmerRc: U64
    var curSize: U32
    var maxSize: U32
    var variant: Mode
    var mask: U64
    var shift: nat
    /** The symbols the register holds, oldest first. */
    ghost var window: seq<Sym>

    /** Sizes, shift and mask agree with each other and with the window. */
    ghost predicate Shape()
      reads this
    {
      && 1 <= maxSize <= 32
      && curSize <= maxSize
      && |window| == curSize
      && shift == 64 - 2 * maxSize
      && mask == TWO_64 - Pow2(shift)
    }

    ghost predicate Valid()
      reads this
    {
      && Shape()
      && kmerDir == (if variant == RevComp then 0 else Packed(window))
      && kmerRc == (if variant == Direct then 0 else Packed(ReverseComplement(window)))
    }

    /** CKmer(max_size, variant): an empty register. */
    constructor (k: U32, mode: Mode)
      requires 1 <= k <= 32
      ensures Valid()
      ensures maxSize == k && variant == mode && curSize == 0 && window == []
    {
      var s := 64 - 2 * k;
      maxSize := k;
      variant := mode;
      kmerDir := 0;
      kmerRc := 0;
      curSize := 0;
      shift := s;
      HighMask(s);
      mask := Shl(TWO_64 - 1, s);
      window := [];
    }

    /** Reset(): empties the register, keeping its size and mode. */
    method Reset()
      requires Valid()
      modifies this
      ensures Valid()
      ensures curSize == 0 && window == [] && kmerDir == 0 && kmerRc == 0
      ensures maxSize == old(maxSize) && variant == old(variant)
    {
      kmerDir := 0;
      kmerRc := 0;
      curSize := 0;
      window := [];
    }

    /** Reset(max_size, variant): an empty register of a new size and mode. */
    method ResetMode(k: U32, mode: Mode)
      requires 1 <= k <= 32
      modifies this
      ensures Valid()
      ensures maxSize == k && variant == mode && curSize == 0 && window == []
      ensures kmerDir == 0 && kmerRc == 0
    {
      maxSize := k;
      variant := mode;
      kmerDir := 0;
      kmerRc := 0;
      curSize := 0;
      shift := 64 - 2 * k;
      HighMask(shift);
      mask := Shl(TWO_64 - 1, shift);
      window := [];
    }

    /** The direct half of an insertion (insert_direct): the symbol joins the window. */
    method InsertDirect(symbol: Sym)
      requires Shape() && kmerDir == Packed(window)
      modifies this
      ensures Shape()
      ensures maxSize == old(maxSize) && variant == old(variant) && kmerRc == old(kmerRc)
      ensures window == Slide(old(window), symbol, maxSize)
      ensures kmerDir == Packed(window)
    {
      if curSize == maxSize {
        DirSlide(window, symbol);
        kmerDir := AddW(Shl(kmerDir, 2), Shl(symbol, shift));
      } else {
        DirGrow(window, symbol);
        curSize := curSize + 1;
        kmerDir := AddW(kmerDir, Shl(symbol, 64 - 2 * curSize));
      }
      window := Slide(window, symbol, maxSize);
    }

    /** The reverse-complement half of an insertion: shift down, complement on top, mask. */
    method PushRc(symbol: Sym)
      requires Shape() && kmerRc == Packed(ReverseComplement(window))
      modifies this
      ensures Shape()
      ensures maxSize == old(maxSize) && variant == old(variant) && curSize == old(curSize)
      ensures window == old(window) && kmerDir == old(kmerDir)
      ensures kmerRc == Packed(ReverseComplement(Slide(window, symbol, maxSize)))
    {
      var c := Utils.ComplementCode(symbol);
      var x := AddW(kmerRc / 4, Shl(c, 62));
      MaskClears(x, shift, mask);
      if curSize == maxSize {
        RcSlide(window, symbol);
      } else {
        RcGrow(window, symbol, shift);
      }
      kmerRc := And(x, mask);
    }

    /** insert_rev_comp. */
    method InsertRevComp(symbol: Sym)
      requires Shape() && kmerRc == Packed(ReverseComplement(window))
      modifies this
      ensures Shape()
      ensures maxSize == old(maxSize) && variant == old(variant) && kmerDir == old(kmerDir)
      ensures window == Slide(old(window), symbol, maxSize)
      ensures kmerRc == Packed(ReverseComplement(window))
    {
      PushRc(symbol);
      if curSize < maxSize {
        curSize := curSize + 1;
      }
      window := Slide(window, symbol, maxSize);
    }

    /** insert_canonical: both halves, the size moving with the direct half. */
    method InsertCanonical(symbol: Sym)
      requires Shape() && kmerDir == Packed(window) && kmerRc == Packed(ReverseComplement(window))
      modifies this
      ensures Shape()
      ensures maxSize == old(maxSize) && variant == old(variant)
      ensures window == Slide(old(window), symbol, maxSize)
      ensures kmerDir == Packed(window) && kmerRc == Packed(ReverseComplement(window))
    {
      PushRc(symbol);
      InsertDirect(symbol);
    }

    /** insert(symbol): appends a nucleotide, dropping the oldest one when full. */
    method Insert(symbol: Sym)
      requires Valid()
      modifies this
      ensures Valid()
      ensures maxSize == old(maxSize) && variant == old(variant)
      ensures window == Slide(old(window), symbol, maxSize)
    {
      if variant == Direct {
        InsertDirect(symbol);
      } else if variant == RevComp {
        InsertRevComp(symbol);
      } else {
        InsertCanonical(symbol);
      }
    }

    /** insert_zero(): appends the symbol A. */
    method InsertZero()
      requires Valid()
      modifies this
      ensures Valid()
      ensures maxSize == old(maxSize) && variant == old(variant)
      ensures window == Slide(old(window), 0, maxSize)
    {
      Insert(0);
    }

    /** data(): the word of the mode; in canonical mode the smaller of the two. */
    function Data(): (r: U64)
      reads this
      requires Valid()
      ensures variant == Direct ==> r == Packed(window)
      ensures variant == RevComp ==> r == Packed(ReverseComplement(window))
      ensures variant == Canonical ==> r <= Packed(window) && r <= Packed(ReverseComplement(window))
      ensures variant == Canonical ==> r == Packed(window) || r == Packed(ReverseComplement(window))
    {
      if variant == Direct then kmerDir
      else if variant == RevComp then kmerRc
      else if kmerDir < kmerRc then kmerDir else kmerRc
    }

    /** is_full(): the window holds `maxSize` symbols. */
    function IsFull(): (r: bool)
      reads this
      requires Valid()
      ensures r <==> |window| == maxSize
    {
      curSize == maxSize
    }

    /** is_dir_oriented(): in canonical mode, the direct packing is not above the reverse complement. */
    function IsDirOriented(): (r: bool)
      reads this
      requires Valid()
      ensures r <==> variant == Canonical && Packed(window) <= Packed(ReverseComplement(window))
    {
      if variant == Canonical then kmerDir <= kmerRc else false
    }

    /** swap_dir_rc(): in canonical mode the register now holds the reverse complement. */
    method SwapDirRc()
      requires Valid()
      modifies this
      ensures Valid()
      ensures maxSize == old(maxSize) && variant == old(variant) && curSize == old(curSize)
      ensures variant == Canonical ==> window == ReverseComplement(old(window))
      ensures variant == Canonical ==> kmerDir == old(kmerRc) && kmerRc == old(kmerDir)
      ensures variant != Canonical ==> window == old(window) && kmerDir == old(kmerDir) && kmerRc == old(kmerRc)
    {
      if variant == Canonical {
        kmerDir, kmerRc := kmerRc, kmerDir;
        ReverseComplementInvolution(window);
        window := ReverseComplement(window);
      }
    }
  }
}
