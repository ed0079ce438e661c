/**
 * The byte-level codecs of a segment stream (src/common/segment.h):
 * packing reference symbols into base-4/6/16 tuples before they are
 * compressed, unpacking them again, and concatenating delta-coded
 * segments into one pack with a separator after each.
 */
module Segment {
  import opened Basics

  /** The byte written after every item of a delta pack. */
  const CONTIG_SEPARATOR: Byte := 0xff

  /** The three packing schemes: `nb` symbols per tuple, in base `mult`. */
  predicate Scheme(nb: nat, mult: nat)
  {
    (nb == 4 && mult == 4) || (nb == 3 && mult == 6) || (nb == 2 && mult == 16)
  }

  /** Every symbol of `w` is a digit in base `mult`. */
  predicate Digits(w: seq<Byte>, mult: nat)
  {
    forall i :: 0 <= i < |w| ==> w[i] < mult
  }

  function Power(b: nat, e: nat): nat
  {
    if e == 0 then 1 else b * Power(b, e - 1)
  }

  lemma {:induction false} PowerPos(b: nat, e: nat)
    requires 1 <= b
    ensures 1 <= Power(b, e)
  {
    if e > 0 {
      PowerPos(b, e - 1);
      var p := Power(b, e - 1);
      assert b * p >= p;
    }
  }

  lemma {:induction false} PowerMono(b: nat, e1: nat, e2: nat)
    requires 1 <= b && e1 <= e2
    ensures 1 <= Power(b, e1) <= Power(b, e2)
    decreases e2
  {
    if e1 < e2 {
      PowerMono(b, e1, e2 - 1);
      var p := Power(b, e2 - 1);
      assert b * p >= p;
    } else {
      PowerPos(b, e1);
    }
  }

  /** A whole tuple of every scheme fits in one byte. */
  lemma SchemeFits(nb: nat, mult: nat, n: nat)
    requires Scheme(nb, mult) && n <= nb
    ensures Power(mult, n) <= 256
  {
    PowerMono(mult, n, nb);
    assert Power(mult, nb) <= 256;
  }

  /** x < p and d < m give x * m + d < p * m. */
  lemma DigitStep(x: nat, d: nat, m: nat, p: nat)
    requires x < p && d < m
    ensures x * m + d < m * p
  {
    assert x * m <= (p - 1) * m;
  }

  /** The value of the digits `w` in base `mult`, the first digit most significant. */
  function Pack(w: seq<Byte>, mult: nat): (r: nat)
    requires 1 <= mult && Digits(w, mult)
    ensures r < Power(mult, |w|)
  {
    if w == [] then 0
    else
      var init := w[..|w| - 1];
      assert Digits(init, mult) by {
        forall i | 0 <= i < |init| ensures init[i] < mult { assert init[i] == w[i]; }
      }
      DigitStep(Pack(init, mult), w[|w| - 1], mult, Power(mult, |init|));
      Pack(init, mult) * mult + w[|w| - 1]
  }

  /** The bases of the three schemes. */
  predicate Base(mult: nat)
  {
    mult == 4 || mult == 6 || mult == 16
  }

  /** The last base-`mult` digit of `c`, `c % MULT`. */
  function LowDigit(c: nat, mult: nat): (d: nat)
    requires Base(mult)
    ensures d < mult
  {
    if mult == 4 then c % 4 else if mult == 6 then c % 6 else c % 16
  }

  /** `c` without its last base-`mult` digit, `c / MULT`. */
  function DropDigit(c: nat, mult: nat): (q: nat)
    requires Base(mult)
    ensures q <= c
  {
    if mult == 4 then c / 4 else if mult == 6 then c / 6 else c / 16
  }

  /** The `n` lowest base-`mult` digits of `c`, the most significant first. */
  function Unpack(c: nat, n: nat, mult: nat): (r: seq<Byte>)
    requires Base(mult)
    ensures |r| == n
  {
    if n == 0 then [] else Unpack(DropDigit(c, mult), n - 1, mult) + [LowDigit(c, mult)]
  }

  lemma DivModDigit(x: nat, d: nat, mult: nat)
    requires Base(mult)
    requires d < mult
    ensures DropDigit(x * mult + d, mult) == x && LowDigit(x * mult + d, mult) == d
  {
    if mult == 4 {
      assert x * mult + d == 4 * x + d;
    } else if mult == 6 {
      assert x * mult + d == 6 * x + d;
    } else {
      assert x * mult + d == 16 * x + d;
    }
  }

  /** Unpacking a packed tuple gives back its digits. */
  lemma {:induction false} UnpackPack(w: seq<Byte>, mult: nat)
    requires Base(mult)
    requires Digits(w, mult)
    ensures Unpack(Pack(w, mult), |w|, mult) == w
  {
    if w != [] {
      var init, d := w[..|w| - 1], w[|w| - 1];
      DigitsTake(w, |w| - 1, mult);
      DivModDigit(Pack(init, mult), d, mult);
      UnpackPack(init, mult);
      FrontLast(w);
    }
  }

  lemma DigitsTake(v: seq<Byte>, n: nat, mult: nat)
    requires n <= |v| && Digits(v, mult)
    ensures Digits(v[..n], mult)
  {
    forall i | 0 <= i < n ensures v[..n][i] < mult { assert v[..n][i] == v[i]; }
  }

  lemma DigitsDrop(v: seq<Byte>, n: nat, mult: nat)
    requires n <= |v| && Digits(v, mult)
    ensures Digits(v[n..], mult)
  {
    forall i | 0 <= i < |v| - n ensures v[n..][i] < mult { assert v[n..][i] == v[n + i]; }
  }

  lemma DigitsSlice(v: seq<Byte>, lo: nat, hi: nat, mult: nat)
    requires lo <= hi <= |v| && Digits(v, mult)
    ensures Digits(v[lo..hi], mult)
  {
    forall i | 0 <= i < hi - lo ensures v[lo..hi][i] < mult { assert v[lo..hi][i] == v[lo + i]; }
  }

  /** A tuple of at most `nb` digits, as the byte it is stored in. */
  function PackByte(w: seq<Byte>, nb: nat, mult: nat): (b: Byte)
    requires Scheme(nb, mult) && |w| <= nb && Digits(w, mult)
  {
    SchemeFits(nb, mult, |w|);
    Pack(w, mult)
  }

  /** The last byte of a tuple code: the tuple width and the length of the partial tuple. */
  function Marker(n: nat, nb: nat): Byte
    requires 1 <= nb <= 4
  {
    nb * 16 + n % nb
  }

  /** The tuples of `w`: its whole tuples, the partial tuple (0 when empty), then `marker`. */
  function EncodedFrom(w: seq<Byte>, nb: nat, mult: nat, marker: Byte): (e: seq<Byte>)
    requires Scheme(nb, mult) && Digits(w, mult)
    decreases |w|
  {
    if |w| < nb then [PackByte(w, nb, mult), marker]
    else
      DigitsTake(w, nb, mult);
      DigitsDrop(w, nb, mult);
      [PackByte(w[..nb], nb, mult)] + EncodedFrom(w[nb..], nb, mult, marker)
  }

  /** The output of bytes2tuples_impl. */
  function Encoded(v: seq<Byte>, nb: nat, mult: nat): seq<Byte>
    requires Scheme(nb, mult) && Digits(v, mult)
  {
    EncodedFrom(v, nb, mult, Marker(|v|, nb))
  }

  /** The largest byte of `v`, 0 for an empty `v` (`max_element`). */
  function MaxByte(v: seq<Byte>): Byte
  {
    if v == [] then 0
    else
      var m := MaxByte(v[1..]);
      if v[0] >= m then v[0] else m
  }

  /** `MaxByte` bounds every byte and is one of them. */
  lemma {:induction false} MaxByteIsMax(v: seq<Byte>)
    ensures forall i :: 0 <= i < |v| ==> v[i] <= MaxByte(v)
    ensures v != [] ==> MaxByte(v) in v
  {
    if v != [] {
      MaxByteIsMax(v[1..]);
      assert forall i :: 1 <= i < |v| ==> v[i] == v[1..][i - 1];
    }
  }

  /** The largest byte is below `b` exactly when every byte is. */
  lemma MaxByteBelow(v: seq<Byte>, b: nat)
    requires 1 <= b
    ensures MaxByte(v) < b <==> Digits(v, b)
  {
    MaxByteIsMax(v);
    if v == [] {
      assert MaxByte(v) == 0;
    } else if Digits(v, b) {
      var i :| 0 <= i < |v| && v[i] == MaxByte(v);
      assert v[i] < b;
    }
  }

  /**
   * The tuple width bytes2tuples picks from the largest byte `me`: four,
   * three or two symbols per tuple, or 1 for a plain copy (the width its
   * marker 0x10 records).
   */
  function Width(me: nat): (nb: nat)
    ensures 1 <= nb <= 4
  {
    if me < 4 then 4 else if me < 6 then 3 else if me < 16 then 2 else 1
  }

  /** The base of the digits packed at width `nb`. */
  function BaseOf(nb: nat): nat
  {
    if nb == 4 then 4 else if nb == 3 then 6 else 16
  }

  /** Every symbol of `v` is a digit of the scheme its width picks. */
  lemma WidthScheme(v: seq<Byte>)
    ensures var nb := Width(MaxByte(v));
      nb >= 2 ==> Scheme(nb, BaseOf(nb)) && Digits(v, BaseOf(nb))
  {
    MaxByteBelow(v, 4);
    MaxByteBelow(v, 6);
    MaxByteBelow(v, 16);
  }

  /** bytes2tuples: the narrowest scheme the largest byte allows, else a copy marked 0x10. */
  function TupleCode(v: seq<Byte>): seq<Byte>
  {
    var nb := Width(MaxByte(v));
    WidthScheme(v);
    if nb == 1 then v + [0x10] else Encoded(v, nb, BaseOf(nb))
  }

  /** How many tuples unpacking `rem` bytes reads (the partial one always, even when empty). */
  function Reads(rem: nat, nb: nat): nat
    requires 1 <= nb
    decreases rem
  {
    if rem >= nb then 1 + Reads(rem - nb, nb) else 1
  }

  /** The `rem` bytes that the tuples `t` spell: whole tuples while `nb` bytes remain, then the rest. */
  function Ungroup(t: seq<Byte>, nb: nat, mult: nat, rem: nat): (r: seq<Byte>)
    requires Scheme(nb, mult) && Reads(rem, nb) <= |t|
    ensures |r| == rem
    decreases rem
  {
    if rem >= nb then Unpack(t[0], nb, mult) + Ungroup(t[1..], nb, mult, rem - nb)
    else Unpack(t[0], rem, mult)
  }

  /** A tuple code that tuples2bytes can read: two bytes at least, and a short partial tuple. */
  predicate WellFormedTuples(t: seq<Byte>)
  {
    |t| >= 2 &&
    var nb := t[|t| - 1] / 16;
    2 <= nb <= 4 ==> t[|t| - 1] % 16 < nb
  }

  /** `output_size` of tuples2bytes, truncated to uint32_t as there. */
  function OutputSize(t: seq<Byte>): (r: nat)
    requires |t| >= 2
    ensures r < TWO_32
  {
    var marker := t[|t| - 1];
    ((|t| - 2) * (marker / 16) + marker % 16) % TWO_32
  }

  /** tuples2bytes: the bytes a tuple code stands for. */
  function TupleDecode(t: seq<Byte>): seq<Byte>
    requires WellFormedTuples(t)
  {
    var nb := t[|t| - 1] / 16;
    var size := OutputSize(t);
    if 2 <= nb <= 4 then
      ReadsOfSize(t);
      if nb == 4 then Ungroup(t, 4, 4, size)
      else if nb == 3 then Ungroup(t, 3, 6, size)
      else Ungroup(t, 2, 16, size)
    else t[..|t| - 1]
  }

  /** `k * nb`, by repeated addition. */
  function Scale(k: nat, nb: nat): nat
  {
    if k == 0 then 0 else nb + Scale(k - 1, nb)
  }

  lemma {:induction false} ScaleMul(k: nat, nb: nat)
    ensures Scale(k, nb) == k * nb
  {
    if k > 0 {
      ScaleMul(k - 1, nb);
    }
  }

  lemma {:induction false} ReadsScale(k: nat, nb: nat, r: nat)
    requires 1 <= nb && r < nb
    ensures Reads(Scale(k, nb) + r, nb) == k + 1
  {
    if k > 0 {
      ReadsScale(k - 1, nb, r);
    }
  }

  lemma {:induction false} ReadsMono(a: nat, b: nat, nb: nat)
    requires 1 <= nb && a <= b
    ensures Reads(a, nb) <= Reads(b, nb)
    decreases b
  {
    if a >= nb {
      ReadsMono(a - nb, b - nb, nb);
    }
  }

  /** A well-formed tuple code holds every tuple its output size reads. */
  lemma ReadsOfSize(t: seq<Byte>)
    requires WellFormedTuples(t)
    requires 2 <= t[|t| - 1] / 16 <= 4
    ensures Reads(OutputSize(t), t[|t| - 1] / 16) <= |t|
  {
    var nb, tr := t[|t| - 1] / 16, t[|t| - 1] % 16;
    var k := |t| - 2;
    ScaleMul(k, nb);
    ReadsScale(k, nb, tr);
    ReadsMono(OutputSize(t), Scale(k, nb) + tr, nb);
  }

  /** The length of the partial last tuple, `output_size % NO_BYTES`. */
  function PartialLength(size: nat, nb: nat): (n: nat)
    requires 2 <= nb <= 4
    ensures n < nb
  {
    if nb == 2 then size % 2 else if nb == 3 then size % 3 else size % 4
  }

  lemma ModScale(k: nat, nb: nat, r: nat)
    requires 2 <= nb <= 4 && r < nb
    ensures PartialLength(Scale(k, nb) + r, nb) == r
  {
    ScaleMul(k, nb);
  }

  lemma UngroupCons(x: Byte, e: seq<Byte>, nb: nat, mult: nat, rem: nat)
    requires Scheme(nb, mult) && rem >= nb && Reads(rem - nb, nb) <= |e|
    ensures Reads(rem, nb) <= |[x] + e|
    ensures Ungroup([x] + e, nb, mult, rem) == Unpack(x, nb, mult) + Ungroup(e, nb, mult, rem - nb)
  {
    assert ([x] + e)[1..] == e;
  }

  /** Unpacking the tuples of `w`, whatever the marker, gives back `w`. */
  lemma {:induction false} UngroupEncoded(w: seq<Byte>, nb: nat, mult: nat, marker: Byte)
    requires Scheme(nb, mult) && Digits(w, mult)
    ensures Reads(|w|, nb) <= |EncodedFrom(w, nb, mult, marker)|
    ensures Ungroup(EncodedFrom(w, nb, mult, marker), nb, mult, |w|) == w
    decreases |w|
  {
    if |w| < nb {
      UnpackPack(w, mult);
    } else {
      DigitsTake(w, nb, mult);
      DigitsDrop(w, nb, mult);
      UngroupEncoded(w[nb..], nb, mult, marker);
      UngroupCons(PackByte(w[..nb], nb, mult), EncodedFrom(w[nb..], nb, mult, marker), nb, mult, |w|);
      UnpackPack(w[..nb], mult);
      TakeDrop(w, nb);
    }
  }

  lemma DivStep(n: nat, nb: nat)
    requires 2 <= nb <= 4 && n >= nb
    ensures (n - nb) / nb + 1 == n / nb
  {
    if nb == 2 {
      assert (n - 2) / 2 + 1 == n / 2;
    } else if nb == 3 {
      assert (n - 3) / 3 + 1 == n / 3;
    } else {
      assert (n - 4) / 4 + 1 == n / 4;
    }
  }

  lemma DivMod(n: nat, nb: nat)
    requires 2 <= nb <= 4
    ensures (n / nb) * nb + n % nb == n
  {
    if nb == 2 {
      assert (n / 2) * 2 + n % 2 == n;
    } else if nb == 3 {
      assert (n / 3) * 3 + n % 3 == n;
    } else {
      assert (n / 4) * 4 + n % 4 == n;
    }
  }

  /** One tuple per `nb` symbols, the partial tuple and the marker, which comes last. */
  lemma {:induction false} EncodedFromShape(w: seq<Byte>, nb: nat, mult: nat, marker: Byte)
    requires Scheme(nb, mult) && Digits(w, mult)
    ensures var e := EncodedFrom(w, nb, mult, marker); |e| == |w| / nb + 2 && e[|e| - 1] == marker
    decreases |w|
  {
    if |w| >= nb {
      DigitsDrop(w, nb, mult);
      EncodedFromShape(w[nb..], nb, mult, marker);
      DivStep(|w|, nb);
    }
  }

  lemma MarkerFields(n: nat, nb: nat)
    requires 2 <= nb <= 4
    ensures Marker(n, nb) / 16 == nb && Marker(n, nb) % 16 == n % nb
  {
  }

  /** The output size a marker announces for `k` whole tuples and `r` trailing symbols. */
  lemma OutputSizeOf(t: seq<Byte>, k: nat, nb: nat, r: nat)
    requires |t| == k + 2 && t[|t| - 1] / 16 == nb && t[|t| - 1] % 16 == r && k * nb + r < TWO_32
    ensures OutputSize(t) == k * nb + r
  {
  }

  /** The tuple count and the output size that the marker records. */
  lemma EncodedSize(v: seq<Byte>, nb: nat, mult: nat)
    requires Scheme(nb, mult) && Digits(v, mult) && |v| < TWO_32
    ensures var e := Encoded(v, nb, mult);
      |e| == |v| / nb + 2 && e[|e| - 1] == nb * 16 + |v| % nb &&
      WellFormedTuples(e) && e[|e| - 1] / 16 == nb && OutputSize(e) == |v|
  {
    var e := Encoded(v, nb, mult);
    EncodedFromShape(v, nb, mult, Marker(|v|, nb));
    MarkerFields(|v|, nb);
    DivMod(|v|, nb);
    OutputSizeOf(e, |v| / nb, nb, |v| % nb);
  }

  /** One scheme's tuple code is well formed and unpacks to the input. */
  lemma EncodedRoundTrip(v: seq<Byte>, nb: nat, mult: nat)
    requires Scheme(nb, mult) && Digits(v, mult) && |v| < TWO_32
    ensures var e := Encoded(v, nb, mult);
      |e| == |v| / nb + 2 && e[|e| - 1] == nb * 16 + |v| % nb &&
      WellFormedTuples(e) && e[|e| - 1] / 16 == nb && OutputSize(e) == |v| &&
      Reads(|v|, nb) <= |e| && Ungroup(e, nb, mult, |v|) == v
  {
    EncodedSize(v, nb, mult);
    UngroupEncoded(v, nb, mult, Marker(|v|, nb));
  }

  /** `TupleDecode` reads one scheme's tuple code with that scheme. */
  lemma DecodeEncoded(v: seq<Byte>, nb: nat, mult: nat)
    requires Scheme(nb, mult) && Digits(v, mult) && |v| < TWO_32
    ensures WellFormedTuples(Encoded(v, nb, mult)) && TupleDecode(Encoded(v, nb, mult)) == v
  {
    EncodedRoundTrip(v, nb, mult);
  }

  /** tuples2bytes inverts bytes2tuples for every segment shorter than 4 GiB. */
  lemma TupleRoundTrip(v: seq<Byte>)
    requires |v| < TWO_32
    ensures WellFormedTuples(TupleCode(v)) && TupleDecode(TupleCode(v)) == v
  {
    var nb := Width(MaxByte(v));
    if nb == 1 {
      var t := v + [0x10];
      assert t[..|t| - 1] == v;
    } else {
      WidthScheme(v);
      DecodeEncoded(v, nb, BaseOf(nb));
    }
  }

  /**
   * The output of bytes2tuples: for a packing width, one tuple per width
   * symbols, the partial tuple and the marker `(width << 4) + |v| % width`;
   * for a plain copy, the input followed by 0x10.
   */
  lemma TupleCodeShape(v: seq<Byte>)
    ensures var t := TupleCode(v); var nb := Width(MaxByte(v));
      (nb == 1 ==> t == v + [0x10]) &&
      (nb >= 2 ==> |t| == |v| / nb + 2 && t[|t| - 1] == nb * 16 + |v| % nb)
  {
    var nb := Width(MaxByte(v));
    if nb >= 2 {
      WidthScheme(v);
      EncodedShape(v, nb, BaseOf(nb));
    }
  }

  lemma EncodedShape(v: seq<Byte>, nb: nat, mult: nat)
    requires Scheme(nb, mult) && Digits(v, mult)
    ensures var e := Encoded(v, nb, mult); |e| == |v| / nb + 2 && e[|e| - 1] == nb * 16 + |v| % nb
  {
    EncodedFromShape(v, nb, mult, Marker(|v|, nb));
  }

  /** Appending the next symbol to a tuple in progress, as `c = c * MULT + v[i]`. */
  lemma PackSnoc(v: seq<Byte>, lo: nat, hi: nat, nb: nat, mult: nat, c: nat)
    requires Scheme(nb, mult) && Digits(v, mult) && lo <= hi < |v| && hi + 1 - lo <= nb
    requires Digits(v[lo..hi], mult) && c == Pack(v[lo..hi], mult)
    ensures Digits(v[lo..hi + 1], mult)
    ensures c * mult + v[hi] == Pack(v[lo..hi + 1], mult) < 256
  {
    DigitsSlice(v, lo, hi + 1, mult);
    var w := v[lo..hi + 1];
    assert w[..|w| - 1] == v[lo..hi];
    SchemeFits(nb, mult, |w|);
  }

  /** One step of the tuple loop: a whole tuple at `i`, then the tuples after it. */
  lemma EncodedStep(v: seq<Byte>, i: nat, nb: nat, mult: nat, marker: Byte)
    requires Scheme(nb, mult) && i + nb <= |v| && Digits(v[i..], mult)
    ensures Digits(v[i..i + nb], mult) && Digits(v[i + nb..], mult)
    ensures EncodedFrom(v[i..], nb, mult, marker)
      == [PackByte(v[i..i + nb], nb, mult)] + EncodedFrom(v[i + nb..], nb, mult, marker)
  {
    var w := v[i..];
    assert w[..nb] == v[i..i + nb];
    assert w[nb..] == v[i + nb..];
    DigitsTake(w, nb, mult);
    DigitsDrop(w, nb, mult);
  }

  /** The inner loop of bytes2tuples_impl: the `n` symbols from `i` as one tuple. */
  method PackTuple(v: seq<Byte>, i: nat, n: nat, nb: nat, mult: nat) returns (c: Byte)
    requires Scheme(nb, mult) && Digits(v, mult) && i + n <= |v| && n <= nb
    ensures Digits(v[i..i + n], mult) && c == Pack(v[i..i + n], mult)
  {
    c := 0;
    for j := 0 to n
      invariant Digits(v[i..i + j], mult) && c == Pack(v[i..i + j], mult)
    {
      PackSnoc(v, i, i + j, nb, mult, c);
      c := c * mult + v[i + j];
    }
  }

  /** The first loop of bytes2tuples_impl: every whole tuple, and where the partial one starts. */
  method WholeTuples(v: seq<Byte>, nb: nat, mult: nat) returns (t: seq<Byte>, i: nat)
    requires Scheme(nb, mult) && Digits(v, mult)
    ensures i <= |v| < i + nb && Digits(v[i..], mult)
    ensures t + EncodedFrom(v[i..], nb, mult, Marker(|v|, nb)) == Encoded(v, nb, mult)
  {
    var marker := Marker(|v|, nb);
    t := [];
    i := 0;
    assert v[i..] == v;
    while i + nb <= |v|
      invariant i <= |v| && Digits(v[i..], mult)
      invariant t + EncodedFrom(v[i..], nb, mult, marker) == Encoded(v, nb, mult)
      decreases |v| - i
    {
      var c := PackTuple(v, i, nb, nb, mult);
      EncodedStep(v, i, nb, mult, marker);
      SnocAssoc(t, c, EncodedFrom(v[i + nb..], nb, mult, marker));
      t := t + [c];
      i := i + nb;
    }
  }

  /** bytes2tuples_impl: whole tuples, then the partial tuple, then the marker. */
  method Bytes2TuplesImpl(v: seq<Byte>, nb: nat, mult: nat) returns (t: seq<Byte>)
    requires Scheme(nb, mult) && Digits(v, mult)
    ensures t == Encoded(v, nb, mult)
  {
    var i;
    t, i := WholeTuples(v, nb, mult);
    var c: Byte := 0;
    var s := i;
    while i < |v|
      invariant s <= i <= |v|
      invariant Digits(v[s..i], mult) && c == Pack(v[s..i], mult)
    {
      PackSnoc(v, s, i, nb, mult, c);
      c := c * mult + v[i];
      i := i + 1;
    }
    assert v[s..i] == v[s..];
    t := t + [c] + [Marker(|v|, nb)];
  }

  /** bytes2tuples: picks the scheme from the largest byte. */
  method Bytes2Tuples(v: seq<Byte>) returns (t: seq<Byte>)
    ensures t == TupleCode(v)
  {
    var me := MaxByte(v);
    MaxByteBelow(v, 4);
    MaxByteBelow(v, 6);
    MaxByteBelow(v, 16);
    if me < 4 {
      t := Bytes2TuplesImpl(v, 4, 4);
    } else if me < 6 {
      t := Bytes2TuplesImpl(v, 3, 6);
    } else if me < 16 {
      t := Bytes2TuplesImpl(v, 2, 16);
    } else {
      t := v + [0x10];
    }
  }

  /** The inner loops of tuples2bytes_impl: the `n` digits of `c` go to `out[j..j + n]`. */
  method WriteDigits(out: array<Byte>, j: nat, c: Byte, n: nat, mult: nat)
    requires Base(mult) && j + n <= out.Length
    modifies out
    ensures out[..j] == old(out[..j]) && out[j + n..] == old(out[j + n..])
    ensures out[j..j + n] == Unpack(c, n, mult)
  {
    var d: Byte := c;
    var k: int := n - 1;
    while k >= 0
      invariant -1 <= k < n
      invariant Unpack(c, n, mult) == Unpack(d, k + 1, mult) + out[j + k + 1..j + n]
      invariant out[..j] == old(out[..j]) && out[j + n..] == old(out[j + n..])
    {
      ghost var tail := out[j + k + 1..j + n];
      var digit: Byte := LowDigit(d, mult);
      out[j + k] := digit;
      assert out[j + k..j + n] == [digit] + tail;
      d := DropDigit(d, mult);
      k := k - 1;
    }
  }

  /** The bytes of the first `i` tuples, unpacked whole. */
  function Unpacked(t: seq<Byte>, i: nat, nb: nat, mult: nat): (r: seq<Byte>)
    requires Base(mult) && i <= |t|
    ensures |r| == Scale(i, nb)
  {
    if i == 0 then [] else Unpacked(t, i - 1, nb, mult) + Unpack(t[i - 1], nb, mult)
  }

  lemma {:induction false} ReadsSub(size: nat, i: nat, nb: nat)
    requires 1 <= nb && Scale(i, nb) <= size
    ensures Reads(size, nb) == i + Reads(size - Scale(i, nb), nb)
  {
    if i > 0 {
      ReadsSub(size, i - 1, nb);
    }
  }

  /** Unpacking is the first `i` whole tuples followed by the unpacking of the rest. */
  lemma {:induction false} UngroupSplit(t: seq<Byte>, nb: nat, mult: nat, size: nat, i: nat)
    requires Scheme(nb, mult) && Reads(size, nb) <= |t| && Scale(i, nb) <= size
    ensures i + Reads(size - Scale(i, nb), nb) <= |t|
    ensures Ungroup(t, nb, mult, size) == Unpacked(t, i, nb, mult) + Ungroup(t[i..], nb, mult, size - Scale(i, nb))
  {
    ReadsSub(size, i, nb);
    if i > 0 {
      UngroupSplit(t, nb, mult, size, i - 1);
      var rem := size - Scale(i - 1, nb);
      assert t[i - 1..][1..] == t[i..];
      ConcatAssoc(Unpacked(t, i - 1, nb, mult), Unpack(t[i - 1], nb, mult), Ungroup(t[i..], nb, mult, rem - nb));
    }
  }

  /** The first loop of tuples2bytes_impl: every whole tuple into `out`. */
  method UnpackWhole(t: seq<Byte>, nb: nat, mult: nat, out: array<Byte>) returns (i: nat, j: nat)
    requires Scheme(nb, mult) && Reads(out.Length, nb) <= |t|
    modifies out
    ensures j <= out.Length < j + nb && j == Scale(i, nb) && i < |t|
    ensures out[..j] == Unpacked(t, i, nb, mult)
  {
    i, j := 0, 0;
    while j + nb <= out.Length
      invariant j <= out.Length && j == Scale(i, nb) && i < |t|
      invariant out[..j] == Unpacked(t, i, nb, mult)
      decreases out.Length - j
    {
      WriteDigits(out, j, t[i], nb, mult);
      PrefixSplit(out[..], j, j + nb);
      ReadsSub(out.Length, i + 1, nb);
      i, j := i + 1, j + nb;
    }
  }

  /** tuples2bytes_impl: fills a zeroed buffer of `size` bytes tuple by tuple. */
  method Tuples2BytesImpl(t: seq<Byte>, nb: nat, mult: nat, size: nat) returns (v: seq<Byte>)
    requires Scheme(nb, mult) && Reads(size, nb) <= |t|
    ensures v == Ungroup(t, nb, mult, size)
  {
    var out := new Byte[size](_ => 0);
    var i, j := UnpackWhole(t, nb, mult, out);
    var c := t[i];
    var n := PartialLength(size, nb);
    ghost var rem := size - j;
    ModScale(i, nb, rem);
    if n > 0 {
      WriteDigits(out, j, c, n, mult);
    }
    assert out[j..size] == Unpack(c, rem, mult);
    PrefixSplit(out[..], j, size);
    UngroupSplit(t, nb, mult, size, i);
    assert Ungroup(t[i..], nb, mult, rem) == Unpack(c, rem, mult);
    v := out[..];
  }

  /** tuples2bytes: reads the scheme and the output size from the marker. */
  method Tuples2Bytes(t: seq<Byte>) returns (v: seq<Byte>)
    requires WellFormedTuples(t)
    ensures v == TupleDecode(t)
  {
    var marker := t[|t| - 1];
    var noBytes := marker / 16;
    var outputSize := OutputSize(t);
    if 2 <= noBytes <= 4 {
      ReadsOfSize(t);
    }
    if noBytes == 4 {
      v := Tuples2BytesImpl(t, 4, 4, outputSize);
    } else if noBytes == 3 {
      v := Tuples2BytesImpl(t, 3, 6, outputSize);
    } else if noBytes == 2 {
      v := Tuples2BytesImpl(t, 2, 16, outputSize);
    } else {
      v := t[..|t| - 1];
    }
  }

  // ---------------------------------------------------------------------------
  // The capacity bytes2tuples_impl reserves

  /**
   * The argument of `v_tuples.reserve` in bytes2tuples_impl, computed in
   * 64-bit `size_t`: `(n - NO_BYTES - 1) / NO_BYTES + 1`, where the
   * subtraction wraps for short inputs.
   */
  function ReserveAsWritten(n: U64, nb: nat): (r: nat)
    requires 2 <= nb <= 4
  {
    ((n - nb - 1) % TWO_64) / nb + 1
  }

  /** For an input of at most NO_BYTES symbols the reservation wraps to more than 2^61 bytes. */
  lemma ReserveWraps(n: U64, nb: nat)
    requires 2 <= nb <= 4 && n <= nb
    ensures ReserveAsWritten(n, nb) > 0x2000_0000_0000_0000
  {
    assert (n - nb - 1) % TWO_64 == TWO_64 + n - nb - 1;
  }

  /** The number of tuples bytes2tuples_impl emits: the whole tuples, the partial one and the marker. */
  function TupleCapacity(n: nat, nb: nat): (r: nat)
    requires 2 <= nb <= 4
  {
    n / nb + 2
  }

  /** The intended capacity is exactly the length of the tuple code, for every input length. */
  lemma TupleCapacityExact(v: seq<Byte>, nb: nat, mult: nat)
    requires Scheme(nb, mult) && Digits(v, mult)
    ensures |Encoded(v, nb, mult)| == TupleCapacity(|v|, nb) <= |v| + 2
  {
    EncodedShape(v, nb, mult);
  }

  // ---------------------------------------------------------------------------
  // Delta packs

  /** The pack store_in_archive builds: every item followed by the separator. */
  function DeltaPack(items: seq<seq<Byte>>): (pack: seq<Byte>)
  {
    if items == [] then []
    else DeltaPack(items[..|items| - 1]) + items[|items| - 1] + [CONTIG_SEPARATOR]
  }

  /** The total length of the items. */
  function TotalLength(items: seq<seq<Byte>>): nat
  {
    if items == [] then 0 else TotalLength(items[..|items| - 1]) + |items[|items| - 1]|
  }

  /** Packing a concatenation is concatenating the packs. */
  lemma {:induction false} DeltaPackAppend(xs: seq<seq<Byte>>, ys: seq<seq<Byte>>)
    ensures DeltaPack(xs + ys) == DeltaPack(xs) + DeltaPack(ys)
    decreases |ys|
  {
    if ys == [] {
      assert xs + ys == xs;
    } else {
      var zs := ys[..|ys| - 1];
      var y := ys[|ys| - 1];
      assert (xs + ys)[..|xs + ys| - 1] == xs + zs;
      DeltaPackAppend(xs, zs);
      ConcatAssoc(DeltaPack(xs), DeltaPack(zs), y);
      ConcatAssoc(DeltaPack(xs), DeltaPack(zs) + y, [CONTIG_SEPARATOR]);
    }
  }

  /** The pack holds every byte of every item plus one separator per item. */
  lemma {:induction false} DeltaPackLength(items: seq<seq<Byte>>)
    ensures |DeltaPack(items)| == TotalLength(items) + |items|
  {
    if items != [] {
      DeltaPackLength(items[..|items| - 1]);
    }
  }

  /** Item `k` sits right after the pack of the items before it, and a separator follows it. */
  lemma DeltaPackItem(items: seq<seq<Byte>>, k: nat)
    requires k < |items|
    ensures var o := |DeltaPack(items[..k])|; var p := DeltaPack(items);
      o + |items[k]| < |p| && p[o..o + |items[k]|] == items[k] && p[o + |items[k]|] == CONTIG_SEPARATOR
  {
    var x := items[k];
    TakeDrop(items, k + 1);
    assert items[..k + 1] == items[..k] + [x];
    DeltaPackAppend(items[..k + 1], items[k + 1..]);
    assert items[..k + 1][..k] == items[..k];
    var head := DeltaPack(items[..k]);
    assert DeltaPack(items) == head + x + [CONTIG_SEPARATOR] + DeltaPack(items[k + 1..]);
    assert (head + x + [CONTIG_SEPARATOR])[|head|..|head| + |x|] == x;
  }

  /** store_in_archive's loop: each item, then the separator. */
  method BuildPack(items: seq<seq<Byte>>) returns (pack: seq<Byte>)
    ensures pack == DeltaPack(items)
  {
    pack := [];
    for i := 0 to |items|
      invariant pack == DeltaPack(items[..i])
    {
      assert items[..i + 1][..i] == items[..i];
      pack := pack + items[i];
      pack := pack + [CONTIG_SEPARATOR];
    }
    assert items[..|items|] == items;
  }
}
