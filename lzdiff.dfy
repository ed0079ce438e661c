/**
 * Token level of the LZ-diff codec: a segment is written against a
 * reference as a byte stream of literals ('A' + symbol), matches
 * ("<ref_pos - pred_pos>,<len - min_match_len>.") and N-runs
 * (30 "<len - 4>" 4). Numbers are decimal text.
 */
module LzDiff {
  import opened Basics
  import Utils

  const N_CODE: Byte := 4
  const N_RUN_STARTER_CODE: Byte := 30
  const MIN_NRUN_LEN: nat := 4
  const HASHING_STEP: nat := 4
  const DEFAULT_MIN_MATCH_LEN: nat := 18

  const CHAR_A: Byte := 65
  const CHAR_0: Byte := 48
  const CHAR_9: Byte := 57
  const CHAR_MINUS: Byte := 45
  const CHAR_COMMA: Byte := 44
  const CHAR_DOT: Byte := 46

  /** The all-ones 64-bit word (~0ull) that marks a window with a non-ACGT symbol. */
  const NO_CODE: nat := TWO_64 - 1

  /** Length of the hashed key for a given minimal match length. */
  function KeyLen(minMatchLen: nat): int
  {
    minMatchLen - HASHING_STEP + 1
  }

  // ---------------------------------------------------------------------
  // Decimal text of integers

  predicate IsDigit(b: Byte)
  {
    CHAR_0 <= b <= CHAR_9
  }

  /** Decimal digits of a positive number, most significant first, as bytes '0'..'9'. */
  function DecText(n: nat): (t: seq<Byte>)
    requires n > 0
    ensures |t| >= 1
    decreases n
  {
    if n < 10 then [CHAR_0 + n] else DecText(n / 10) + [CHAR_0 + n % 10]
  }

  lemma {:induction false} DecTextDigits(n: nat)
    requires n > 0
    ensures forall i :: 0 <= i < |DecText(n)| ==> IsDigit(DecText(n)[i])
    decreases n
  {
    if n >= 10 {
      DecTextDigits(n / 10);
    }
  }

  /** The text append_int writes for `x`: "0", or an optional '-' and the digits of |x|. */
  function IntText(x: int): (t: seq<Byte>)
    ensures |t| >= 1
  {
    if x == 0 then [CHAR_0]
    else if x < 0 then [CHAR_MINUS] + DecText(-x)
    else DecText(x)
  }

  lemma SnocReverse(s: seq<Byte>, b: Byte)
    ensures Utils.Reverse(s + [b]) == [b] + Utils.Reverse(s)
  {
    var r, q := Utils.Reverse(s + [b]), [b] + Utils.Reverse(s);
    forall i | 0 <= i < |r| ensures r[i] == q[i] {
      if i > 0 {
        assert r[i] == (s + [b])[|s| - i];
        assert q[i] == Utils.Reverse(s)[i - 1];
      }
    }
  }

  lemma ConcatAssoc(a: seq<Byte>, b: seq<Byte>, c: seq<Byte>)
    ensures (a + b) + c == a + (b + c)
  {
  }

  /** Text of the digits a loop that has reached `m` still has to produce. */
  function PendingText(m: nat): seq<Byte>
  {
    if m == 0 then [] else DecText(m)
  }

  /** append_int */
  method AppendInt(text: seq<Byte>, x: int) returns (res: seq<Byte>)
    ensures res == text + IntText(x)
  {
    if x == 0 {
      res := text + [CHAR_0];
      return;
    }
    res := text;
    var y := x;
    ghost var sign: seq<Byte> := [];
    if y < 0 {
      res := res + [CHAR_MINUS];
      sign := [CHAR_MINUS];
      y := -y;
    }
    assert res == text + sign;
    assert IntText(x) == sign + DecText(y);
    var tmp: seq<Byte> := [];
    var m: nat := y;
    while m != 0
      invariant PendingText(m) + Utils.Reverse(tmp) == DecText(y)
      decreases m
    {
      var d: Byte := CHAR_0 + m % 10;
      SnocReverse(tmp, d);
      ConcatAssoc(PendingText(m / 10), [d], Utils.Reverse(tmp));
      tmp := tmp + [d];
      m := m / 10;
    }
    ConcatAssoc(text, sign, Utils.Reverse(tmp));
    res := res + Utils.Reverse(tmp);
  }

  // ---------------------------------------------------------------------
  // Reading integers back

  /** Digits read from position `p` on, accumulated onto `acc`; the position after them. */
  function ReadDigits(s: seq<Byte>, p: nat, acc: int): (r: (int, nat))
    ensures p <= r.1
    ensures r.1 < |s| ==> !IsDigit(s[r.1])
    ensures p <= |s| ==> r.1 <= |s|
    decreases |s| - p
  {
    if p < |s| && IsDigit(s[p]) then ReadDigits(s, p + 1, acc * 10 + (s[p] - CHAR_0)) else (acc, p)
  }

  /** The value read_int reads at `p` and the position it stops at; the stream end reads as a non-digit. */
  function ParseInt(s: seq<Byte>, p: nat): (r: (int, nat))
    ensures p <= r.1
    ensures p <= |s| ==> r.1 <= |s|
  {
    if p < |s| && s[p] == CHAR_MINUS then
      var (v, q) := ReadDigits(s, p + 1, 0); (-v, q)
    else
      ReadDigits(s, p, 0)
  }

  /** read_int */
  method ReadInt(s: seq<Byte>, p0: nat) returns (x: int, p: nat)
    ensures (x, p) == ParseInt(s, p0)
  {
    p := p0;
    var isNeg := false;
    x := 0;
    if p < |s| && s[p] == CHAR_MINUS {
      isNeg := true;
      p := p + 1;
    }
    ghost var start := p;
    while p < |s| && IsDigit(s[p])
      invariant start <= p
      invariant ReadDigits(s, p, x) == ReadDigits(s, start, 0)
      decreases |s| - p
    {
      x := x * 10 + (s[p] - CHAR_0);
      p := p + 1;
    }
    if isNeg {
      x := -x;
    }
  }

  /** Value of a run of digit bytes, most significant first, accumulated onto `acc`. */
  function FoldDigits(acc: int, w: seq<Byte>): int
    decreases |w|
  {
    if w == [] then acc else FoldDigits(acc * 10 + (w[0] - CHAR_0), w[1..])
  }

  lemma {:induction false} FoldDigitsSnoc(acc: int, w: seq<Byte>, c: Byte)
    ensures FoldDigits(acc, w + [c]) == FoldDigits(acc, w) * 10 + (c - CHAR_0)
    decreases |w|
  {
    if w != [] {
      assert (w + [c])[1..] == w[1..] + [c];
      FoldDigitsSnoc(acc * 10 + (w[0] - CHAR_0), w[1..], c);
    }
  }

  lemma {:induction false} FoldDecText(n: nat)
    requires n > 0
    ensures FoldDigits(0, DecText(n)) == n
    decreases n
  {
    if n >= 10 {
      FoldDigitsSnoc(0, DecText(n / 10), CHAR_0 + n % 10);
      FoldDecText(n / 10);
    }
  }

  lemma {:induction false} ReadDigitRun(s: seq<Byte>, p: nat, acc: int, w: seq<Byte>)
    requires forall i :: 0 <= i < |w| ==> IsDigit(w[i])
    requires At(s, p, w)
    requires p + |w| == |s| || !IsDigit(s[p + |w|])
    ensures ReadDigits(s, p, acc) == (FoldDigits(acc, w), p + |w|)
    decreases |w|
  {
    if w != [] {
      assert s[p + 0] == w[0];
      assert At(s, p + 1, w[1..]) by {
        forall k | 0 <= k < |w| - 1 ensures s[p + 1 + k] == w[1..][k] { assert s[p + (k + 1)] == w[k + 1]; }
      }
      ReadDigitRun(s, p + 1, acc * 10 + (w[0] - CHAR_0), w[1..]);
    }
  }

  /**
   * read_int inverts append_int: the text of `x` followed by the end of the
   * stream or by a byte that is not a digit is read back as `x`, and exactly
   * the text is consumed.
   */
  lemma ParseIntText(s: seq<Byte>, p: nat, x: int)
    requires At(s, p, IntText(x))
    requires p + |IntText(x)| == |s| || !IsDigit(s[p + |IntText(x)|])
    ensures ParseInt(s, p) == (x, p + |IntText(x)|)
  {
    var t := IntText(x);
    assert s[p + 0] == t[0];
    if x == 0 {
      ReadDigitRun(s, p, 0, [CHAR_0]);
    } else if x < 0 {
      AtSplit(s, p, [CHAR_MINUS], DecText(-x));
      DecTextDigits(-x);
      ReadDigitRun(s, p + 1, 0, DecText(-x));
      FoldDecText(-x);
    } else {
      DecTextDigits(x);
      ReadDigitRun(s, p, 0, DecText(x));
      FoldDecText(x);
    }
  }

  /** The first byte of an integer's text is '-' or a digit. */
  lemma IntTextStart(x: int)
    ensures IntText(x)[0] == CHAR_MINUS || IsDigit(IntText(x)[0])
  {
    if x != 0 {
      DecTextDigits(if x < 0 then -x else x);
    }
  }

  // ---------------------------------------------------------------------
  // Text length and coding cost

  /** int_len: the number of decimal digits of a 32-bit value. */
  function IntLen(x: U32): (n: nat)
  {
    if x < 10 then 1
    else if x < 100 then 2
    else if x < 1000 then 3
    else if x < 10000 then 4
    else if x < 100000 then 5
    else if x < 1000000 then 6
    else if x < 10000000 then 7
    else if x < 100000000 then 8
    else if x < 1000000000 then 9
    else 10
  }

  function Pow10(k: nat): (r: nat)
    ensures r >= 1
  {
    if k == 0 then 1 else 10 * Pow10(k - 1)
  }

  lemma {:induction false} DecTextLength(n: nat, k: nat)
    requires n > 0 && k >= 1 && Pow10(k - 1) <= n < Pow10(k)
    ensures |DecText(n)| == k
    decreases k
  {
    if n >= 10 {
      assert k >= 2;
      DecTextLength(n / 10, k - 1);
    }
  }

  /** int_len counts exactly the digits append_int writes. */
  lemma IntLenCountsDigits(x: U32)
    requires x > 0
    ensures |DecText(x)| == IntLen(x)
  {
    assert Pow10(10) == 10000000000;
    var k := IntLen(x);
    assert Pow10(k) == 10 * Pow10(k - 1);
    DecTextLength(x, k);
  }

  lemma IntTextLength(x: int)
    requires x < TWO_32 && -x < TWO_32
    ensures |IntText(x)| == (if x < 0 then IntLen(-x) + 1 else IntLen(x))
  {
    if x != 0 {
      IntLenCountsDigits(if x < 0 then -x else x);
    }
  }

  /** encode_literal: the symbol shifted into the printable range, wrapping around a byte. */
  function EncodeLiteral(c: Byte): (t: seq<Byte>)
  {
    [if c < 256 - CHAR_A then CHAR_A + c else CHAR_A + c - 256]
  }

  /** encode_match: signed distance from the predicted position, then the length excess. */
  function EncodeMatch(refPos: nat, len: nat, predPos: nat, minMatchLen: nat): (t: seq<Byte>)
    requires len >= minMatchLen
  {
    IntText(refPos - predPos) + [CHAR_COMMA] + IntText(len - minMatchLen) + [CHAR_DOT]
  }

  /** encode_Nrun: start marker, length excess, stop marker (the N code). */
  function EncodeNrun(len: nat): (t: seq<Byte>)
    requires len >= MIN_NRUN_LEN
  {
    [N_RUN_STARTER_CODE] + IntText(len - MIN_NRUN_LEN) + [N_CODE]
  }

  /** coding_cost_match: exactly the number of bytes encode_match appends. */
  function CodingCostMatch(refPos: U32, len: U32, predPos: U32, minMatchLen: nat): (r: nat)
    requires minMatchLen <= len
    ensures r == |EncodeMatch(refPos, len, predPos, minMatchLen)|
  {
    var dif := refPos - predPos;
    IntTextLength(dif);
    IntTextLength(len - minMatchLen);
    (if dif >= 0 then IntLen(dif) else IntLen(-dif) + 1) + IntLen(len - minMatchLen) + 2
  }

  /** coding_cost_Nrun: exactly the number of bytes encode_Nrun appends. */
  function CodingCostNrun(len: U32): (r: nat)
    requires MIN_NRUN_LEN <= len
    ensures r == |EncodeNrun(len)|
  {
    IntTextLength(len - MIN_NRUN_LEN);
    2 + IntLen(len - MIN_NRUN_LEN)
  }

  // ---------------------------------------------------------------------
  // Tokens

  predicate IsLiteral(b: Byte)
  {
    CHAR_A <= b <= CHAR_A + 20
  }

  predicate IsNrun(b: Byte)
  {
    b == N_RUN_STARTER_CODE
  }

  /** decode_literal: the symbol back from its byte (wrapping as a uint8_t does). */
  function DecodeLiteral(b: Byte): (c: Byte)
    ensures IsLiteral(b) ==> c <= 20
  {
    if b >= CHAR_A then b - CHAR_A else b - CHAR_A + 256
  }

  lemma LiteralRoundTrip(c: Byte)
    requires c <= 20
    ensures IsLiteral(EncodeLiteral(c)[0]) && !IsNrun(EncodeLiteral(c)[0])
    ensures DecodeLiteral(EncodeLiteral(c)[0]) == c
  {
  }

  /** decode_match: two integers, each followed by one skipped separator byte; the position after. */
  function DecodeMatch(s: seq<Byte>, p: nat, predPos: nat, minMatchLen: nat): (r: (int, int, nat))
    ensures p < r.2
  {
    var (rawPos, q1) := ParseInt(s, p);
    var (rawLen, q2) := ParseInt(s, q1 + 1);
    (rawPos + predPos, rawLen + minMatchLen, q2 + 1)
  }

  method DecodeMatchAt(s: seq<Byte>, p: nat, predPos: nat, minMatchLen: nat) returns (refPos: int, len: int, q: nat)
    ensures (refPos, len, q) == DecodeMatch(s, p, predPos, minMatchLen)
  {
    var rawPos, q1 := ReadInt(s, p);
    var rawLen, q2 := ReadInt(s, q1 + 1);
    refPos := rawPos + predPos;
    len := rawLen + minMatchLen;
    q := q2 + 1;
  }

  /** decode_Nrun: skip the start marker, read the length excess, skip the stop marker. */
  function DecodeNrun(s: seq<Byte>, p: nat): (r: (int, nat))
    ensures p < r.1
  {
    var (rawLen, q) := ParseInt(s, p + 1);
    (rawLen + MIN_NRUN_LEN, q + 1)
  }

  method DecodeNrunAt(s: seq<Byte>, p: nat) returns (len: int, q: nat)
    ensures (len, q) == DecodeNrun(s, p)
  {
    var rawLen, q1 := ReadInt(s, p + 1);
    len := rawLen + MIN_NRUN_LEN;
    q := q1 + 1;
  }

  /** A number's text followed by a non-digit parses back to that number. */
  lemma ParseBefore(s: seq<Byte>, p: nat, x: int, c: Byte)
    requires At(s, p, IntText(x) + [c]) && !IsDigit(c)
    ensures ParseInt(s, p) == (x, p + |IntText(x)|)
  {
    AtConcat(s, p, IntText(x) + [c], IntText(x), [c]);
    AtOne(s, p + |IntText(x)|, c);
    ParseIntText(s, p, x);
  }

  /** Two numbers written as `a,b.` parse back from the stream. */
  lemma ParsePair(s: seq<Byte>, p: nat, x: int, y: int, a: seq<Byte>, b: seq<Byte>)
    requires a == IntText(x) && b == IntText(y)
    requires At(s, p, a + [CHAR_COMMA] + b + [CHAR_DOT])
    ensures ParseInt(s, p) == (x, p + |a|)
    ensures ParseInt(s, p + |a| + 1) == (y, p + |a| + 1 + |b|)
  {
    AtConcat(s, p, a + [CHAR_COMMA] + b + [CHAR_DOT], a + [CHAR_COMMA], b + [CHAR_DOT]);
    ParseBefore(s, p, x, CHAR_COMMA);
    ParseBefore(s, p + |a| + 1, y, CHAR_DOT);
  }

  /** The two numbers `a` and `b` of an encoded match parse back from the stream. */
  lemma MatchParts(s: seq<Byte>, p: nat, refPos: nat, len: nat, predPos: nat, minMatchLen: nat, a: seq<Byte>, b: seq<Byte>)
    requires len >= minMatchLen
    requires a == IntText(refPos - predPos) && b == IntText(len - minMatchLen)
    requires At(s, p, EncodeMatch(refPos, len, predPos, minMatchLen))
    ensures |EncodeMatch(refPos, len, predPos, minMatchLen)| == |a| + |b| + 2
    ensures ParseInt(s, p) == (refPos - predPos, p + |a|)
    ensures ParseInt(s, p + |a| + 1) == (len - minMatchLen, p + |a| + 1 + |b|)
  {
    assert EncodeMatch(refPos, len, predPos, minMatchLen) == a + [CHAR_COMMA] + b + [CHAR_DOT];
    ParsePair(s, p, refPos - predPos, len - minMatchLen, a, b);
  }

  /** How a match is read once both of its numbers are known. */
  lemma DecodeMatchOf(s: seq<Byte>, p: nat, predPos: nat, minMatchLen: nat, x: int, q1: nat, y: int, q2: nat)
    requires ParseInt(s, p) == (x, q1) && ParseInt(s, q1 + 1) == (y, q2)
    ensures DecodeMatch(s, p, predPos, minMatchLen) == (x + predPos, y + minMatchLen, q2 + 1)
  { }

  lemma MatchRoundTrip(s: seq<Byte>, p: nat, refPos: nat, len: nat, predPos: nat, minMatchLen: nat)
    requires len >= minMatchLen
    requires At(s, p, EncodeMatch(refPos, len, predPos, minMatchLen))
    ensures DecodeMatch(s, p, predPos, minMatchLen) == (refPos, len, p + |EncodeMatch(refPos, len, predPos, minMatchLen)|)
  {
    var a, b := IntText(refPos - predPos), IntText(len - minMatchLen);
    MatchParts(s, p, refPos, len, predPos, minMatchLen, a, b);
    DecodeMatchOf(s, p, predPos, minMatchLen, refPos - predPos, p + |a|, len - minMatchLen, p + |a| + 1 + |b|);
  }

  lemma NrunRoundTrip(s: seq<Byte>, p: nat, len: nat)
    requires len >= MIN_NRUN_LEN
    requires At(s, p, EncodeNrun(len))
    ensures IsNrun(s[p]) && !IsLiteral(s[p])
    ensures DecodeNrun(s, p) == (len, p + |EncodeNrun(len)|)
  {
    var a := IntText(len - MIN_NRUN_LEN);
    AtSplit(s, p, [N_RUN_STARTER_CODE] + a, [N_CODE]);
    AtSplit(s, p, [N_RUN_STARTER_CODE], a);
    AtOne(s, p, N_RUN_STARTER_CODE);
    AtOne(s, p + 1 + |a|, N_CODE);
    ParseIntText(s, p + 1, len - MIN_NRUN_LEN);
  }

  // ---------------------------------------------------------------------
  // Whole-stream decoding

  /** A run of `len` N codes. */
  function NCodes(len: nat): (r: seq<Byte>)
    ensures |r| == len && forall i | 0 <= i < len :: r[i] == N_CODE
  {
    seq(len, _ => N_CODE)
  }

  /** One decoded token: the bytes it produces, the next position and the next predicted position. */
  datatype Step = Step(out: seq<Byte>, next: nat, pred: nat)

  /**
   * The token at `p`, decoded against `reference`; None where the source
   * would read outside the reference or beyond the stream, or would cast
   * a negative position or length to uint32_t.
   */
  function DecodeStep(reference: seq<Byte>, s: seq<Byte>, p: nat, predPos: nat, minMatchLen: nat): (r: Option<Step>)
    requires p < |s|
    ensures r.Some? ==> p < r.value.next <= |s|
  {
    if IsLiteral(s[p]) then
      Some(Step([DecodeLiteral(s[p])], p + 1, predPos + 1))
    else if IsNrun(s[p]) then
      var (len, q) := DecodeNrun(s, p);
      if q <= |s| && len >= 0 then Some(Step(NCodes(len), q, predPos)) else None
    else
      var (refPos, len, q) := DecodeMatch(s, p, predPos, minMatchLen);
      if q <= |s| && 0 <= refPos && 0 <= len && refPos + len <= |reference| then
        Some(Step(reference[refPos..refPos + len], q, refPos + len))
      else None
  }

  /** The bytes Decode produces from position `p` on. */
  function DecodeFrom(reference: seq<Byte>, s: seq<Byte>, p: nat, predPos: nat, minMatchLen: nat): (r: Option<seq<Byte>>)
    requires p <= |s|
    decreases |s| - p
  {
    if p == |s| then Some([])
    else match DecodeStep(reference, s, p, predPos, minMatchLen)
      case None => None
      case Some(st) =>
        match DecodeFrom(reference, s, st.next, st.pred, minMatchLen)
        case None => None
        case Some(rest) => Some(st.out + rest)
  }

  lemma DecodeFromCons(reference: seq<Byte>, s: seq<Byte>, p: nat, predPos: nat, minMatchLen: nat,
                        out: seq<Byte>, next: nat, pred: nat, rest: seq<Byte>)
    requires p < |s| && DecodeStep(reference, s, p, predPos, minMatchLen) == Some(Step(out, next, pred))
    requires DecodeFrom(reference, s, next, pred, minMatchLen) == Some(rest)
    ensures DecodeFrom(reference, s, p, predPos, minMatchLen) == Some(out + rest)
  {
  }

  lemma DecodeFromUncons(reference: seq<Byte>, s: seq<Byte>, p: nat, predPos: nat, minMatchLen: nat)
    requires p < |s| && DecodeFrom(reference, s, p, predPos, minMatchLen).Some?
    ensures DecodeStep(reference, s, p, predPos, minMatchLen).Some?
    ensures var st := DecodeStep(reference, s, p, predPos, minMatchLen).value;
      && DecodeFrom(reference, s, st.next, st.pred, minMatchLen).Some?
      && DecodeFrom(reference, s, p, predPos, minMatchLen).value
         == st.out + DecodeFrom(reference, s, st.next, st.pred, minMatchLen).value
  {
  }

  /** The body of Decode's loop: one token, dispatched on its first byte. */
  method DecodeToken(reference: seq<Byte>, s: seq<Byte>, p: nat, predPos: nat, minMatchLen: nat)
    returns (out: seq<Byte>, q: nat, nextPred: nat)
    requires p < |s| && DecodeStep(reference, s, p, predPos, minMatchLen).Some?
    ensures DecodeStep(reference, s, p, predPos, minMatchLen) == Some(Step(out, q, nextPred))
  {
    if IsLiteral(s[p]) {
      out := [DecodeLiteral(s[p])];
      q := p + 1;
      nextPred := predPos + 1;
    } else if IsNrun(s[p]) {
      var len;
      len, q := DecodeNrunAt(s, p);
      out := NCodes(len);
      nextPred := predPos;
    } else {
      var refPos, len;
      refPos, len, q := DecodeMatchAt(s, p, predPos, minMatchLen);
      out := reference[refPos..refPos + len];
      nextPred := refPos + len;
    }
  }

  /** Decode: the whole stream, token by token, with pred_pos starting at 0. */
  method Decode(reference: seq<Byte>, encoded: seq<Byte>, minMatchLen: nat) returns (decoded: seq<Byte>)
    requires DecodeFrom(reference, encoded, 0, 0, minMatchLen).Some?
    ensures decoded == DecodeFrom(reference, encoded, 0, 0, minMatchLen).value
  {
    ghost var total := DecodeFrom(reference, encoded, 0, 0, minMatchLen).value;
    decoded := [];
    var p: nat := 0;
    var predPos: nat := 0;
    while p != |encoded|
      invariant p <= |encoded|
      invariant DecodeFrom(reference, encoded, p, predPos, minMatchLen).Some?
      invariant decoded + DecodeFrom(reference, encoded, p, predPos, minMatchLen).value == total
      decreases |encoded| - p
    {
      DecodeFromUncons(reference, encoded, p, predPos, minMatchLen);
      var out, q, nextPred := DecodeToken(reference, encoded, p, predPos, minMatchLen);
      ConcatAssoc(decoded, out, DecodeFrom(reference, encoded, q, nextPred, minMatchLen).value);
      decoded := decoded + out;
      p, predPos := q, nextPred;
    }
  }

  // ---------------------------------------------------------------------
  // Token sequences

  datatype Token = Literal(c: Byte) | NRun(len: nat) | Match(refPos: nat, len: nat)

  /** A token the encoder can emit and the decoder recognises. */
  predicate ValidToken(t: Token, reference: seq<Byte>, minMatchLen: nat)
  {
    && (t.Literal? ==> t.c <= 20)
    && (t.NRun? ==> t.len >= MIN_NRUN_LEN)
    && (t.Match? ==> t.len >= minMatchLen && t.refPos + t.len <= |reference|)
  }

  /** Every token of the stream is valid. */
  predicate AllValid(ts: seq<Token>, reference: seq<Byte>, minMatchLen: nat)
  {
    ts == [] || (ValidToken(ts[0], reference, minMatchLen) && AllValid(ts[1..], reference, minMatchLen))
  }

  /** Predicted position after a token: one past a literal, the end of a match, unchanged by an N-run. */
  function NextPred(t: Token, predPos: nat): nat
  {
    match t
    case Literal(_) => predPos + 1
    case NRun(_) => predPos
    case Match(refPos, len) => refPos + len
  }

  function EncodeToken(t: Token, predPos: nat, minMatchLen: nat): (e: seq<Byte>)
    requires t.Match? ==> t.len >= minMatchLen
    requires t.NRun? ==> t.len >= MIN_NRUN_LEN
  {
    match t
    case Literal(c) => EncodeLiteral(c)
    case NRun(len) => EncodeNrun(len)
    case Match(refPos, len) => EncodeMatch(refPos, len, predPos, minMatchLen)
  }

  function EncodeTokens(ts: seq<Token>, predPos: nat, reference: seq<Byte>, minMatchLen: nat): (e: seq<Byte>)
    requires AllValid(ts, reference, minMatchLen)
  {
    if ts == [] then []
    else
      EncodeToken(ts[0], predPos, minMatchLen) + EncodeTokens(ts[1..], NextPred(ts[0], predPos), reference, minMatchLen)
  }

  /** What a token stands for: the symbol, a run of N codes, or a stretch of the reference. */
  function Expand(t: Token, reference: seq<Byte>): seq<Byte>
    requires t.Match? ==> t.refPos + t.len <= |reference|
  {
    match t
    case Literal(c) => [c]
    case NRun(len) => NCodes(len)
    case Match(refPos, len) => reference[refPos..refPos + len]
  }

  function ExpandAll(ts: seq<Token>, reference: seq<Byte>, minMatchLen: nat): seq<Byte>
    requires AllValid(ts, reference, minMatchLen)
  {
    if ts == [] then [] else
      Expand(ts[0], reference) + ExpandAll(ts[1..], reference, minMatchLen)
  }

  function TokenLen(t: Token): nat
  {
    match t
    case Literal(_) => 1
    case NRun(len) => len
    case Match(_, len) => len
  }

  function TotalLen(ts: seq<Token>): nat
  {
    if ts == [] then 0 else TokenLen(ts[0]) + TotalLen(ts[1..])
  }

  /** The decoded length is one per literal plus the N-run and match lengths. */
  lemma {:induction false} ExpandAllLength(ts: seq<Token>, reference: seq<Byte>, minMatchLen: nat)
    requires AllValid(ts, reference, minMatchLen)
    ensures |ExpandAll(ts, reference, minMatchLen)| == TotalLen(ts)
    decreases |ts|
  {
    if ts != [] {
      ExpandAllLength(ts[1..], reference, minMatchLen);
    }
  }

  lemma ExpandAllCons(ts: seq<Token>, reference: seq<Byte>, minMatchLen: nat)
    requires ts != [] && AllValid(ts, reference, minMatchLen)
    ensures ExpandAll(ts, reference, minMatchLen) == Expand(ts[0], reference) + ExpandAll(ts[1..], reference, minMatchLen)
  {
  }

  lemma LiteralStep(c: Byte, reference: seq<Byte>, s: seq<Byte>, p: nat, predPos: nat, minMatchLen: nat)
    requires c <= 20 && p < |s| && s[p] == EncodeLiteral(c)[0]
    ensures DecodeStep(reference, s, p, predPos, minMatchLen) == Some(Step([c], p + 1, predPos + 1))
  {
    LiteralRoundTrip(c);
  }

  lemma NrunStep(len: nat, reference: seq<Byte>, s: seq<Byte>, p: nat, predPos: nat, minMatchLen: nat)
    requires len >= MIN_NRUN_LEN && At(s, p, EncodeNrun(len))
    ensures p < |s|
    ensures DecodeStep(reference, s, p, predPos, minMatchLen)
         == Some(Step(NCodes(len), p + |EncodeNrun(len)|, predPos))
  {
    NrunRoundTrip(s, p, len);
  }

  lemma MatchStep(refPos: nat, len: nat, reference: seq<Byte>, s: seq<Byte>, p: nat, predPos: nat, minMatchLen: nat)
    requires len >= minMatchLen && refPos + len <= |reference|
    requires At(s, p, EncodeMatch(refPos, len, predPos, minMatchLen))
    ensures p < |s|
    ensures DecodeStep(reference, s, p, predPos, minMatchLen)
         == Some(Step(reference[refPos..refPos + len], p + |EncodeMatch(refPos, len, predPos, minMatchLen)|, refPos + len))
  {
    var e := EncodeMatch(refPos, len, predPos, minMatchLen);
    assert s[p + 0] == e[0];
    IntTextStart(refPos - predPos);
    assert e[0] == IntText(refPos - predPos)[0];
    MatchRoundTrip(s, p, refPos, len, predPos, minMatchLen);
  }

  lemma LiteralToken(t: Token, reference: seq<Byte>, s: seq<Byte>, p: nat, predPos: nat, minMatchLen: nat)
    requires t.Literal? && ValidToken(t, reference, minMatchLen)
    requires At(s, p, EncodeToken(t, predPos, minMatchLen))
    ensures p < |s|
    ensures DecodeStep(reference, s, p, predPos, minMatchLen)
         == Some(Step(Expand(t, reference), p + |EncodeToken(t, predPos, minMatchLen)|, NextPred(t, predPos)))
  {
    AtIndex(s, p, EncodeLiteral(t.c), 0);
    LiteralStep(t.c, reference, s, p, predPos, minMatchLen);
  }

  lemma NrunToken(t: Token, reference: seq<Byte>, s: seq<Byte>, p: nat, predPos: nat, minMatchLen: nat)
    requires t.NRun? && ValidToken(t, reference, minMatchLen)
    requires At(s, p, EncodeToken(t, predPos, minMatchLen))
    ensures p < |s|
    ensures DecodeStep(reference, s, p, predPos, minMatchLen)
         == Some(Step(Expand(t, reference), p + |EncodeToken(t, predPos, minMatchLen)|, NextPred(t, predPos)))
  {
    NrunStep(t.len, reference, s, p, predPos, minMatchLen);
  }

  lemma MatchToken(t: Token, reference: seq<Byte>, s: seq<Byte>, p: nat, predPos: nat, minMatchLen: nat)
    requires t.Match? && ValidToken(t, reference, minMatchLen)
    requires At(s, p, EncodeToken(t, predPos, minMatchLen))
    ensures p < |s|
    ensures DecodeStep(reference, s, p, predPos, minMatchLen)
         == Some(Step(Expand(t, reference), p + |EncodeToken(t, predPos, minMatchLen)|, NextPred(t, predPos)))
  {
    assert EncodeToken(t, predPos, minMatchLen) == EncodeMatch(t.refPos, t.len, predPos, minMatchLen);
    MatchStep(t.refPos, t.len, reference, s, p, predPos, minMatchLen);
  }

  lemma StepRoundTrip(t: Token, reference: seq<Byte>, s: seq<Byte>, p: nat, predPos: nat, minMatchLen: nat)
    requires ValidToken(t, reference, minMatchLen)
    requires At(s, p, EncodeToken(t, predPos, minMatchLen))
    ensures p < |s|
    ensures DecodeStep(reference, s, p, predPos, minMatchLen)
         == Some(Step(Expand(t, reference), p + |EncodeToken(t, predPos, minMatchLen)|, NextPred(t, predPos)))
  {
    if t.Literal? {
      LiteralToken(t, reference, s, p, predPos, minMatchLen);
    } else if t.NRun? {
      NrunToken(t, reference, s, p, predPos, minMatchLen);
    } else {
      MatchToken(t, reference, s, p, predPos, minMatchLen);
    }
  }

  /** The encoding of a non-empty token stream: its first token's, then the rest's. */
  lemma SplitTokens(ts: seq<Token>, reference: seq<Byte>, predPos: nat, minMatchLen: nat)
    requires ts != [] && AllValid(ts, reference, minMatchLen)
    ensures EncodeTokens(ts, predPos, reference, minMatchLen)
         == EncodeToken(ts[0], predPos, minMatchLen) + EncodeTokens(ts[1..], NextPred(ts[0], predPos), reference, minMatchLen)
  {
  }

  /** One encoded token in front of a stream that decodes to `tail` decodes to its expansion then `tail`. */
  lemma ConsDecode(t: Token, reference: seq<Byte>, s: seq<Byte>, p: nat, predPos: nat, minMatchLen: nat, q: nat, tail: seq<Byte>)
    requires ValidToken(t, reference, minMatchLen)
    requires At(s, p, EncodeToken(t, predPos, minMatchLen)) && q == p + |EncodeToken(t, predPos, minMatchLen)|
    requires q <= |s| && DecodeFrom(reference, s, q, NextPred(t, predPos), minMatchLen) == Some(tail)
    ensures DecodeFrom(reference, s, p, predPos, minMatchLen) == Some(Expand(t, reference) + tail)
  {
    StepRoundTrip(t, reference, s, p, predPos, minMatchLen);
    DecodeFromCons(reference, s, p, predPos, minMatchLen, Expand(t, reference), q, NextPred(t, predPos), tail);
  }

  /** The first token's bytes lead an encoded stream, and the other tokens' bytes follow them. */
  lemma EncodedCons(ts: seq<Token>, reference: seq<Byte>, s: seq<Byte>, p: nat, predPos: nat, minMatchLen: nat)
    requires ts != [] && AllValid(ts, reference, minMatchLen)
    requires p <= |s| && s[p..] == EncodeTokens(ts, predPos, reference, minMatchLen)
    ensures At(s, p, EncodeToken(ts[0], predPos, minMatchLen))
    ensures p + |EncodeToken(ts[0], predPos, minMatchLen)| <= |s|
    ensures s[p + |EncodeToken(ts[0], predPos, minMatchLen)|..]
         == EncodeTokens(ts[1..], NextPred(ts[0], predPos), reference, minMatchLen)
  {
    SplitTokens(ts, reference, predPos, minMatchLen);
    SuffixSplit(s, p, EncodeToken(ts[0], predPos, minMatchLen),
                EncodeTokens(ts[1..], NextPred(ts[0], predPos), reference, minMatchLen));
  }

  lemma {:induction false} DecodeEncodedTokens(ts: seq<Token>, reference: seq<Byte>, s: seq<Byte>, p: nat, predPos: nat, minMatchLen: nat)
    requires AllValid(ts, reference, minMatchLen)
    requires p <= |s| && s[p..] == EncodeTokens(ts, predPos, reference, minMatchLen)
    ensures DecodeFrom(reference, s, p, predPos, minMatchLen) == Some(ExpandAll(ts, reference, minMatchLen))
    decreases |ts|
  {
    if ts == [] {
      assert p == |s|;
    } else {
      var q := p + |EncodeToken(ts[0], predPos, minMatchLen)|;
      var tail := ExpandAll(ts[1..], reference, minMatchLen);
      EncodedCons(ts, reference, s, p, predPos, minMatchLen);
      DecodeEncodedTokens(ts[1..], reference, s, q, NextPred(ts[0], predPos), minMatchLen);
      ConsDecode(ts[0], reference, s, p, predPos, minMatchLen, q, tail);
      ExpandAllCons(ts, reference, minMatchLen);
    }
  }

  /** The decoder's entry point on a whole encoded stream. */
  lemma DecodeRoundTrip(ts: seq<Token>, reference: seq<Byte>, minMatchLen: nat)
    requires AllValid(ts, reference, minMatchLen)
    ensures DecodeFrom(reference, EncodeTokens(ts, 0, reference, minMatchLen), 0, 0, minMatchLen)
         == Some(ExpandAll(ts, reference, minMatchLen))
  {
    var s := EncodeTokens(ts, 0, reference, minMatchLen);
    assert s[0..] == s;
    DecodeEncodedTokens(ts, reference, s, 0, 0, minMatchLen);
  }

  // ---------------------------------------------------------------------
  // Key codes and N-runs in the text being encoded

  /** Base-4 value of a window of symbols 0..3, first symbol most significant. */
  function Base4(w: seq<Byte>): nat
  {
    if w == [] then 0 else Base4(w[..|w| - 1]) * 4 + w[|w| - 1]
  }

  predicate HasNonAcgt(w: seq<Byte>)
  {
    exists i :: 0 <= i < |w| && w[i] > 3
  }

  /** get_code: ~0 if the key window holds a symbol above 3, else its base-4 packing in 64 bits. */
  method GetCode(s: seq<Byte>, keyLen: nat) returns (x: nat)
    requires keyLen <= |s|
    ensures HasNonAcgt(s[..keyLen]) ==> x == NO_CODE
    ensures !HasNonAcgt(s[..keyLen]) ==> x == Base4(s[..keyLen]) % TWO_64
  {
    x := 0;
    var i := 0;
    while i < keyLen
      invariant i <= keyLen
      invariant !HasNonAcgt(s[..i])
      invariant x == Base4(s[..i]) % TWO_64
    {
      if s[i] > 3 {
        assert s[..keyLen][i] > 3;
        return NO_CODE;
      }
      assert s[..i + 1][..i] == s[..i];
      ModStep(Base4(s[..i]), s[i]);
      x := (x * 4 + s[i]) % TWO_64;
      i := i + 1;
    }
    assert s[..i] == s[..keyLen];
  }

  lemma ModStep(b: nat, d: nat)
    ensures ((b % TWO_64) * 4 + d) % TWO_64 == (b * 4 + d) % TWO_64
  {
    var q, r := b / TWO_64, b % TWO_64;
    assert b * 4 + d == (q * 4) * TWO_64 + (r * 4 + d);
    ModShift(q * 4, r * 4 + d);
  }

  /** Adding a multiple of 2^64 does not change the remainder. */
  lemma ModShift(x: nat, y: nat)
    ensures (x * TWO_64 + y) % TWO_64 == y % TWO_64
  {
    var k, m := y / TWO_64, y % TWO_64;
    assert x * TWO_64 + y == (x + k) * TWO_64 + m;
    ModUnique(x * TWO_64 + y, x + k, m);
  }

  lemma ModUnique(a: nat, q: nat, r: nat)
    requires a == q * TWO_64 + r && r < TWO_64
    ensures a % TWO_64 == r
  {
  }

  function Pow4(k: nat): (r: nat)
    ensures r >= 1
  {
    if k == 0 then 1 else 4 * Pow4(k - 1)
  }

  lemma {:induction false} Base4Bound(w: seq<Byte>)
    requires !HasNonAcgt(w)
    ensures Base4(w) < Pow4(|w|)
    decreases |w|
  {
    if w != [] {
      var v := w[..|w| - 1];
      assert !HasNonAcgt(v) by {
        forall i | 0 <= i < |v| ensures v[i] <= 3 { assert v[i] == w[i]; }
      }
      Base4Bound(v);
    }
  }

  lemma {:induction false} Pow4Monotone(j: nat, k: nat)
    requires j <= k
    ensures Pow4(j) <= Pow4(k)
    decreases k
  {
    if j < k { Pow4Monotone(j, k - 1); }
  }

  lemma {:induction false} Pow4Add(a: nat, b: nat)
    ensures Pow4(a + b) == Pow4(a) * Pow4(b)
    decreases b
  {
    if b > 0 {
      Pow4Add(a, b - 1);
      calc {
        Pow4(a + b);
        4 * Pow4(a + (b - 1));
        4 * (Pow4(a) * Pow4(b - 1));
        Pow4(a) * (4 * Pow4(b - 1));
      }
    }
  }

  /** For keys shorter than 32 symbols the ~0 marker never collides with a real code. */
  lemma Pow4ThirtyOne()
    ensures Pow4(31) == 0x4000_0000_0000_0000
  {
    assert Pow4(10) == 0x10_0000;
    Pow4Add(10, 10);
    Pow4Add(20, 10);
    Pow4Add(30, 1);
  }

  lemma CodeMarkerUnambiguous(w: seq<Byte>)
    requires |w| < 32 && !HasNonAcgt(w)
    ensures Base4(w) % TWO_64 == Base4(w) < NO_CODE
  {
    Base4Bound(w);
    Pow4Monotone(|w|, 31);
    Pow4ThirtyOne();
  }

  /** get_Nrun_len: length of the run of N codes at the start of `s`, if it is at least 3. */
  method GetNrunLen(s: seq<Byte>, maxLen: nat) returns (len: nat)
    requires 3 <= maxLen <= |s|
    ensures len == 0 <==> !(s[0] == N_CODE && s[1] == N_CODE && s[2] == N_CODE)
    ensures len != 0 ==> 3 <= len <= maxLen
    ensures forall i :: 0 <= i < len ==> s[i] == N_CODE
    ensures len != 0 && len < maxLen ==> s[len] != N_CODE
  {
    if s[0] != N_CODE || s[1] != N_CODE || s[2] != N_CODE {
      return 0;
    }
    len := 3;
    while len < maxLen && s[len] == N_CODE
      invariant 3 <= len <= maxLen
      invariant forall i :: 0 <= i < len ==> s[i] == N_CODE
    {
      len := len + 1;
    }
  }
}
