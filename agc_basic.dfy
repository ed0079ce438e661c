/**
 * Sequence helpers shared by the compressor and the decompressor
 * (src/core/agc_basic.cpp, src/core/agc_basic.h, src/core/agc_compressor.h):
 * the reverse complement of a contig, the letter/code table `cnv_num` and
 * the little-endian fixed-width integers written with append/append64 and
 * read back with read/read64.
 */
module AgcBasic {
  import opened Basics

  // ---------------------------------------------------------------------------
  // Reverse complement of a contig of codes

  /** The complement of one code: 0..3 become 3..0, every other code is kept. */
  function Complement(x: Byte): Byte
  {
    if x < 4 then 3 - x else x
  }

  /** The reverse complement of a contig, built from its last symbol backwards. */
  function RevComp(s: seq<Byte>): (r: seq<Byte>)
    ensures |r| == |s|
  {
    if s == [] then [] else [Complement(s[|s| - 1])] + RevComp(s[..|s| - 1])
  }

  /** Position `i` of the reverse complement holds the complement of position `|s| - 1 - i`. */
  lemma {:induction false} RevCompAt(s: seq<Byte>, i: nat)
    requires i < |s|
    ensures RevComp(s)[i] == Complement(s[|s| - 1 - i])
    decreases |s|
  {
    if i > 0 {
      RevCompAt(s[..|s| - 1], i - 1);
    }
  }

  /**
   * What reverse_complement does to each symbol: the length is kept, a code
   * below 4 comes back as `3 - x` from the mirrored position, any other code
   * comes back unchanged from there.
   */
  lemma {:induction false} RevCompSymbols(s: seq<Byte>)
    ensures |RevComp(s)| == |s|
    ensures forall i :: 0 <= i < |s| && s[|s| - 1 - i] < 4 ==> RevComp(s)[i] == 3 - s[|s| - 1 - i]
    ensures forall i :: 0 <= i < |s| && s[|s| - 1 - i] >= 4 ==> RevComp(s)[i] == s[|s| - 1 - i]
  {
    forall i | 0 <= i < |s|
      ensures RevComp(s)[i] == Complement(s[|s| - 1 - i])
    {
      RevCompAt(s, i);
    }
  }

  /** The reverse complement of the reverse complement is the contig itself. */
  lemma {:induction false} RevCompInvolution(s: seq<Byte>)
    ensures RevComp(RevComp(s)) == s
  {
    var r := RevComp(s);
    forall i | 0 <= i < |s|
      ensures RevComp(r)[i] == s[i]
    {
      RevCompAt(r, i);
      RevCompAt(s, |s| - 1 - i);
    }
  }

  /**
   * reverse_complement: std::reverse of the contig in place, then every code
   * below 4 replaced by its complement.
   */
  method ReverseComplement(a: array<Byte>)
    modifies a
    ensures a[..] == RevComp(old(a[..]))
  {
    ghost var s := a[..];
    var lo, hi := 0, a.Length;
    while lo + 1 < hi
      invariant 0 <= lo <= a.Length && lo <= hi <= a.Length && lo + hi == a.Length
      invariant forall k :: 0 <= k < lo ==> a[k] == s[a.Length - 1 - k] && a[a.Length - 1 - k] == s[k]
      invariant forall k :: lo <= k < hi ==> a[k] == s[k]
    {
      a[lo], a[hi - 1] := a[hi - 1], a[lo];
      lo, hi := lo + 1, hi - 1;
    }
    for j := 0 to a.Length
      invariant forall k :: 0 <= k < j ==> a[k] == Complement(s[a.Length - 1 - k])
      invariant forall k :: j <= k < a.Length ==> a[k] == s[a.Length - 1 - k]
    {
      if a[j] < 4 {
        a[j] := 3 - a[j];
      }
    }
    forall k | 0 <= k < a.Length
      ensures a[..][k] == RevComp(s)[k]
    {
      RevCompAt(s, k);
    }
  }

  /** reverse_complement_copy: the source read from its end, each code complemented. */
  method ReverseComplementCopy(src: seq<Byte>) returns (dest: seq<Byte>)
    ensures dest == RevComp(src)
  {
    dest := [];
    for k := 0 to |src|
      invariant |dest| == k
      invariant forall i :: 0 <= i < k ==> dest[i] == RevComp(src)[i]
    {
      RevCompAt(src, k);
      var x := src[|src| - 1 - k];
      dest := dest + [if x < 4 then 3 - x else x];
    }
  }

  // ---------------------------------------------------------------------------
  // The cnv_num table

  /** The letter of each of the 16 nucleotide codes: "ACGTNRYSWKMBDHVU". */
  function CodeLetter(c: Byte): (r: Byte)
    requires c < 16
  {
    match c
    case 0 => 'A' as int case 1 => 'C' as int case 2 => 'G' as int case 3 => 'T' as int
    case 4 => 'N' as int case 5 => 'R' as int case 6 => 'Y' as int case 7 => 'S' as int
    case 8 => 'W' as int case 9 => 'K' as int case 10 => 'M' as int case 11 => 'B' as int
    case 12 => 'D' as int case 13 => 'H' as int case 14 => 'V' as int case _ => 'U' as int
  }

  /**
   * The code of the `i`-th letter of the alphabet (1 for A, 2 for B, ...):
   * the IUPAC letters get their codes, every other letter 30.
   */
  function LetterCode(i: nat): (r: Byte)
    requires 1 <= i < 32
  {
    match i
    case 1 => 0 case 2 => 11 case 3 => 1 case 4 => 12 case 7 => 2 case 8 => 13
    case 11 => 9 case 13 => 10 case 14 => 4 case 18 => 5 case 19 => 7 case 20 => 3
    case 21 => 15 case 22 => 14 case 23 => 8 case 25 => 6
    case _ => 30
  }

  /**
   * cnv_num, the 128-entry conversion table: codes 0..15 to their letters,
   * 16..64 and 96 to a space, upper- and lower-case letters to their codes.
   */
  function CnvNum(c: Byte): (r: Byte)
    requires c < 128
  {
    if c < 16 then CodeLetter(c)
    else if c <= 64 then ' ' as int
    else if c < 96 then LetterCode(c - 64)
    else if c == 96 then ' ' as int
    else LetterCode(c - 96)
  }

  /**
   * The table is its own inverse on the 16 codes: each code goes to its
   * upper-case letter, and that letter and its lower-case form go back to
   * the code.
   */
  lemma {:induction false} CnvNumCodes(c: Byte)
    requires c < 16
    ensures 65 <= CnvNum(c) < 96
    ensures CnvNum(CnvNum(c)) == c && CnvNum(CnvNum(c) + 32) == c
  {
  }

  /** The four nucleotide letters, upper or lower case, are the codes 0..3; '@' and '`' are a space. */
  lemma {:induction false} CnvNumLetters()
    ensures CnvNum('A' as int) == 0 && CnvNum('C' as int) == 1 && CnvNum('G' as int) == 2 && CnvNum('T' as int) == 3
    ensures CnvNum('a' as int) == 0 && CnvNum('c' as int) == 1 && CnvNum('g' as int) == 2 && CnvNum('t' as int) == 3
    ensures CnvNum('N' as int) == 4 && CnvNum('n' as int) == 4
    ensures CnvNum('@' as int) == 32 && CnvNum('`' as int) == 32
  {
  }

  // ---------------------------------------------------------------------------
  // Little-endian fixed-width integers

  /** 256 to the power `w`. */
  function Pow256(w: nat): (r: nat)
    ensures r >= 1
  {
    if w == 0 then 1 else 256 * Pow256(w - 1)
  }

  /** The `w` low bytes of `n`, least significant first. */
  function LittleEndian(n: nat, w: nat): (bs: seq<Byte>)
    ensures |bs| == w
  {
    if w == 0 then [] else [n % 256] + LittleEndian(n / 256, w - 1)
  }

  /** The number a run of bytes spells, least significant first. */
  function LeValue(bs: seq<Byte>): (v: nat)
  {
    if bs == [] then 0 else bs[0] + 256 * LeValue(bs[1..])
  }

  /** `n` shifted right by `i` whole bytes. */
  function Shift(n: nat, i: nat): nat
  {
    if i == 0 then n else Shift(n / 256, i - 1)
  }

  lemma {:induction false} ShiftStep(n: nat, i: nat)
    ensures Shift(n, i + 1) == Shift(n, i) / 256
    decreases i
  {
    if i > 0 {
      ShiftStep(n / 256, i - 1);
    }
  }

  /** Spelling `n` in `w` bytes and reading it back gives `n` when it fits. */
  lemma {:induction false} LeRoundTrip(n: nat, w: nat)
    requires n < Pow256(w)
    ensures LeValue(LittleEndian(n, w)) == n
    decreases w
  {
    if w > 0 {
      assert n / 256 < Pow256(w - 1);
      LeRoundTrip(n / 256, w - 1);
    }
  }

  /** One more byte appended to a little-endian spelling. */
  lemma {:induction false} LittleEndianSnoc(n: nat, w: nat)
    ensures LittleEndian(n, w + 1) == LittleEndian(n, w) + [Shift(n, w) % 256]
    decreases w
  {
    if w > 0 {
      LittleEndianSnoc(n / 256, w - 1);
    }
  }

  /** Reading one more byte adds it at weight 256^|bs|. */
  lemma {:induction false} LeValueSnoc(bs: seq<Byte>, b: Byte)
    ensures LeValue(bs + [b]) == LeValue(bs) + b * Pow256(|bs|)
    decreases |bs|
  {
    if bs == [] {
      assert LeValue([b]) == b + 256 * LeValue([]);
    } else {
      var t := bs[1..];
      assert (bs + [b])[1..] == t + [b];
      LeValueSnoc(t, b);
      var v, p := LeValue(t), Pow256(|t|);
      assert LeValue(bs + [b]) == bs[0] + 256 * (v + b * p);
      WeightStep(v, b, p);
    }
  }

  lemma WeightStep(v: nat, b: nat, p: nat)
    ensures 256 * (v + b * p) == 256 * v + b * (256 * p)
  {
  }

  /** append(data, num): the four bytes of a uint32_t, least significant first. */
  method Append(data: seq<Byte>, num: U32) returns (out: seq<Byte>)
    ensures out == data + LittleEndian(num, 4)
  {
    out := data;
    var rest: nat := num;
    for i := 0 to 4
      invariant out == data + LittleEndian(num, i)
      invariant rest == Shift(num, i)
    {
      LittleEndianSnoc(num, i);
      ShiftStep(num, i);
      out := out + [rest % 256];
      rest := rest / 256;
    }
  }

  /** append64(data, num): the eight bytes of a uint64_t, least significant first. */
  method Append64(data: seq<Byte>, num: U64) returns (out: seq<Byte>)
    ensures out == data + LittleEndian(num, 8)
  {
    out := data;
    var rest: nat := num;
    for i := 0 to 8
      invariant out == data + LittleEndian(num, i)
      invariant rest == Shift(num, i)
    {
      LittleEndianSnoc(num, i);
      ShiftStep(num, i);
      out := out + [rest % 256];
      rest := rest / 256;
    }
  }

  /** The sum of the first `i` shifted bytes stays below 256^i. */
  lemma {:induction false} LeValueBound(bs: seq<Byte>)
    ensures LeValue(bs) < Pow256(|bs|)
    decreases |bs|
  {
    if bs != [] {
      LeValueBound(bs[1..]);
    }
  }

  /** read(p, num): a uint32_t from the four bytes at `p`, which then advances by 4. */
  method Read(data: seq<Byte>, p: nat) returns (num: U32, next: nat)
    requires p + 4 <= |data|
    ensures num == LeValue(data[p..p + 4]) && next == p + 4
  {
    var acc: nat := 0;
    for i := 0 to 4
      invariant acc == LeValue(data[p..p + i])
    {
      assert data[p..p + i + 1] == data[p..p + i] + [data[p + i]];
      LeValueSnoc(data[p..p + i], data[p + i]);
      acc := acc + data[p + i] * Pow256(i);
    }
    LeValueBound(data[p..p + 4]);
    assert Pow256(4) == TWO_32;
    num := acc;
    next := p + 4;
  }

  /** read64(p, num): a uint64_t from the eight bytes at `p`, which then advances by 8. */
  method Read64(data: seq<Byte>, p: nat) returns (num: U64, next: nat)
    requires p + 8 <= |data|
    ensures num == LeValue(data[p..p + 8]) && next == p + 8
  {
    var acc: nat := 0;
    for i := 0 to 8
      invariant acc == LeValue(data[p..p + i])
    {
      assert data[p..p + i + 1] == data[p..p + i] + [data[p + i]];
      LeValueSnoc(data[p..p + i], data[p + i]);
      acc := acc + data[p + i] * Pow256(i);
    }
    LeValueBound(data[p..p + 8]);
    assert Pow256(8) == TWO_64;
    num := acc;
    next := p + 8;
  }

  /** What append writes, read reads back: the number, from just after the old data. */
  lemma {:induction false} AppendRead(data: seq<Byte>, num: U32)
    ensures var out := data + LittleEndian(num, 4);
      |out| == |data| + 4 && LeValue(out[|data|..|data| + 4]) == num
  {
    var out := data + LittleEndian(num, 4);
    assert out[|data|..|data| + 4] == LittleEndian(num, 4);
    assert Pow256(4) == TWO_32;
    LeRoundTrip(num, 4);
  }

  /** What append64 writes, read64 reads back. */
  lemma {:induction false} Append64Read64(data: seq<Byte>, num: U64)
    ensures var out := data + LittleEndian(num, 8);
      |out| == |data| + 8 && LeValue(out[|data|..|data| + 8]) == num
  {
    var out := data + LittleEndian(num, 8);
    assert out[|data|..|data| + 8] == LittleEndian(num, 8);
    assert Pow256(8) == TWO_64;
    LeRoundTrip(num, 8);
  }
}
