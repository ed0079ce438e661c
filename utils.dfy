/**
 * Nucleotide codes, zigzag integer mappings, digit strings and the names of
 * the archive streams that hold segment groups.
 */
module Utils {
  import opened Basics

  // ---------------------------------------------------------------------
  // Nucleotide codes

  /** Code of a nucleotide letter: A, C, G, T become 0..3, anything else 4. */
  function DnaCode(x: Byte): (r: Byte)
    ensures r <= 4
    ensures r < 4 <==> x in {'A' as int, 'C' as int, 'G' as int, 'T' as int}
  {
    if x == 'A' as int then 0
    else if x == 'C' as int then 1
    else if x == 'G' as int then 2
    else if x == 'T' as int then 3
    else 4
  }

  /** The letter for a code below 4, recovered by position in "ACGT". */
  lemma DnaCodeOfLetters()
    ensures DnaCode('A' as int) == 0 && DnaCode('C' as int) == 1
    ensures DnaCode('G' as int) == 2 && DnaCode('T' as int) == 3
    ensures forall x: Byte :: DnaCode(x) < 4 ==> x == "ACGT"[DnaCode(x)] as int
  {
  }

  /** Complement of a code: A<->T, C<->G, everything else becomes 4. */
  function ComplementCode(x: Byte): (r: Byte)
    ensures r <= 4
    ensures x < 4 ==> r == 3 - x
    ensures x >= 4 ==> r == 4
  {
    if x == 0 then 3
    else if x == 1 then 2
    else if x == 2 then 1
    else if x == 3 then 0
    else 4
  }

  /** Complementing is an involution on the four nucleotides and sends everything else to 4. */
  lemma ComplementCodeInvolution(x: Byte)
    ensures x < 4 ==> ComplementCode(ComplementCode(x)) == x
    ensures ComplementCode(x) == 4 <==> x >= 4
  {
  }

  // ---------------------------------------------------------------------
  // Zigzag mappings (on unbounded integers)

  /**
   * Non-negative values go to the even numbers, negative ones to the odd
   * numbers, and a value's code is between its magnitude and twice it.
   */
  function ZigzagEncode(x: int): (r: nat)
    ensures r % 2 == 0 <==> x >= 0
    ensures (if x >= 0 then x else -x) <= r <= 2 * (if x >= 0 then x else -x)
  {
    if x >= 0 then 2 * x else 2 * (-x) - 1
  }

  /** Every code is the encoding of its decoding, so the zigzag code is onto. */
  function ZigzagDecode(x: nat): (r: int)
    ensures ZigzagEncode(r) == x
  {
    if x % 2 == 1 then -((x + 1) / 2) else x / 2
  }

  lemma ZigzagRoundTrip(x: int)
    ensures ZigzagDecode(ZigzagEncode(x)) == x
  {
  }

  /**
   * Encoding of `curr` relative to a prediction `prev`: small deviations
   * become small numbers, and values far above the prediction are kept as is.
   */
  function ZigzagEncodeRel(curr: nat, prev: nat): (r: nat)
    ensures ZigzagDecodeRel(r, prev) == curr
    ensures curr >= 2 * prev ==> r == curr
    ensures r < 2 * prev <==> curr < 2 * prev
  {
    if curr < prev then 2 * (prev - curr) - 1
    else if curr < 2 * prev then 2 * (curr - prev)
    else curr
  }

  /** Codes below twice the prediction decode to values below it, the others to themselves. */
  function ZigzagDecodeRel(val: nat, prev: nat): (r: nat)
    ensures val < 2 * prev <==> r < 2 * prev
  {
    if val >= 2 * prev then val
    else if val % 2 == 1 then (2 * prev - val) / 2
    else (val + 2 * prev) / 2
  }

  // ---------------------------------------------------------------------
  // Digit strings

  /** Lowest digit and the rest of `n` in base `b`. */
  function DivMod(n: nat, b: nat): (qr: (nat, nat))
    requires b >= 2
    ensures qr.1 < b && n == qr.0 * b + qr.1
    ensures n >= b ==> 0 < qr.0 < n
    ensures n < b ==> qr == (0, n)
  {
    DivModFacts(n, b);
    (n / b, n % b)
  }

  lemma {:induction false} MulAtLeast(q: nat, b: nat)
    ensures q * b >= q * 2 || b < 2
    ensures q >= 1 ==> q * b >= b
    decreases q
  {
    if q > 0 {
      MulAtLeast(q - 1, b);
      assert q * b == (q - 1) * b + b;
    }
  }

  lemma DivModFacts(n: nat, b: nat)
    requires b >= 2
    ensures n == (n / b) * b + n % b && 0 <= n % b < b
    ensures n >= b ==> 0 < n / b < n
    ensures n < b ==> n / b == 0 && n % b == n
  {
    var q, r := n / b, n % b;
    assert n == q * b + r && 0 <= r < b;
    MulAtLeast(q, b);
    if n >= b {
      assert q * b > 0;
      assert q * b >= q * 2;
    } else {
      assert q * b < b;
    }
  }

  /** Digits of `n` in base `b`, least significant first; zero has the one digit 0. */
  function Digits(n: nat, b: nat): (ds: seq<nat>)
    requires b >= 2
    ensures |ds| >= 1
    ensures forall i :: 0 <= i < |ds| ==> ds[i] < b
    decreases n
  {
    if n < b then [n] else [DivMod(n, b).1] + Digits(DivMod(n, b).0, b)
  }

  /** Value of a digit sequence read least significant first. */
  function Value(ds: seq<nat>, b: nat): (v: nat)
  {
    if ds == [] then 0 else ds[0] + Value(ds[1..], b) * b
  }

  lemma {:induction false} DigitsValue(n: nat, b: nat)
    requires b >= 2
    ensures Value(Digits(n, b), b) == n
    decreases n
  {
    if n >= b {
      var (q, r) := DivMod(n, b);
      DigitsValue(q, b);
      assert Digits(n, b)[1..] == Digits(q, b);
    }
  }

  lemma DigitsInjective(n: nat, m: nat, b: nat)
    requires b >= 2
    requires Digits(n, b) == Digits(m, b)
    ensures n == m
  {
    DigitsValue(n, b);
    DigitsValue(m, b);
  }

  /** The characters of the digits in an alphabet. */
  function Spell(ds: seq<nat>, alphabet: string): (s: string)
    requires forall i :: 0 <= i < |ds| ==> ds[i] < |alphabet|
    ensures |s| == |ds|
    ensures forall i {:trigger s[i]} :: 0 <= i < |ds| ==> s[i] == alphabet[ds[i]]
  {
    if ds == [] then [] else [alphabet[ds[0]]] + Spell(ds[1..], alphabet)
  }

  function Reverse<T>(s: seq<T>): (r: seq<T>)
    ensures |r| == |s|
    ensures forall i {:trigger r[i]} :: 0 <= i < |s| ==> r[i] == s[|s| - 1 - i]
  {
    if s == [] then [] else Reverse(s[1..]) + [s[0]]
  }

  const HEX_DIGITS: string := "0123456789ABCDEF"
  const BASE64_DIGITS: string := "0123456789ABCDEFGHIJKLMNOPQRSTUVWXYZabcdefghijklmnopqrstuvwxyz_#"
  const DEC_DIGITS: string := "0123456789"

  /** Decimal text of `n` as std::to_string writes it. */
  function ToDecimal(n: nat): (s: string)
    ensures |s| >= 1
  {
    Reverse(Spell(Digits(n, 10), DEC_DIGITS))
  }

  /** The digits of `m` still to be written: none once `m` is zero. */
  function Pending(m: nat, b: nat, alphabet: string): (s: string)
    requires 2 <= b <= |alphabet|
  {
    if m == 0 then [] else Spell(Digits(m, b), alphabet)
  }

  /** One step of the digit loop: the lowest digit, then the digits of the quotient. */
  lemma SpellStep(m: nat, b: nat, alphabet: string)
    requires 2 <= b <= |alphabet|
    ensures Spell(Digits(m, b), alphabet) == [alphabet[DivMod(m, b).1]] + Pending(DivMod(m, b).0, b, alphabet)
  {
  }

  /** int_to_hex: hexadecimal digits of `n`, least significant first. */
  method IntToHex(n: U32) returns (res: string)
    ensures res == Spell(Digits(n, 16), HEX_DIGITS)
  {
    SpellStep(n, 16, HEX_DIGITS);
    var (q, r) := DivMod(n, 16);
    res := [HEX_DIGITS[r]];
    var m: nat := q;
    while m != 0
      invariant res + Pending(m, 16, HEX_DIGITS) == Spell(Digits(n, 16), HEX_DIGITS)
    {
      SpellStep(m, 16, HEX_DIGITS);
      var (q', r') := DivMod(m, 16);
      assert res + Pending(m, 16, HEX_DIGITS) == (res + [HEX_DIGITS[r']]) + Pending(q', 16, HEX_DIGITS);
      res := res + [HEX_DIGITS[r']];
      m := q';
    }
    assert res + [] == res;
  }

  /** int_to_base64: base-64 digits of `n`, least significant first. */
  method IntToBase64(n: U32) returns (res: string)
    ensures res == Spell(Digits(n, 64), BASE64_DIGITS)
  {
    SpellStep(n, 64, BASE64_DIGITS);
    var (q, r) := DivMod(n, 64);
    res := [BASE64_DIGITS[r]];
    var m: nat := q;
    while m != 0
      invariant res + Pending(m, 64, BASE64_DIGITS) == Spell(Digits(n, 64), BASE64_DIGITS)
    {
      SpellStep(m, 64, BASE64_DIGITS);
      var (q', r') := DivMod(m, 64);
      assert res + Pending(m, 64, BASE64_DIGITS) == (res + [BASE64_DIGITS[r']]) + Pending(q', 64, BASE64_DIGITS);
      res := res + [BASE64_DIGITS[r']];
      m := q';
    }
    assert res + [] == res;
  }

  /** The text int_to_base64 produces, as a value. */
  function Base64(n: nat): (s: string)
    ensures |s| >= 1
  {
    Spell(Digits(n, 64), BASE64_DIGITS)
  }

  // ---------------------------------------------------------------------
  // Stream names

  /** Archive versions below 3000 use the long "seg-<decimal>" names. */
  const FIRST_SHORT_NAME_VERSION: nat := 3000

  function SsPrefix(version: U32): (s: string)
  {
    if version < FIRST_SHORT_NAME_VERSION then "seg-" else "x"
  }

  function SsBase(version: U32, n: U32): (s: string)
    ensures |s| > |SsPrefix(version)| && s[..|SsPrefix(version)|] == SsPrefix(version)
  {
    if version < FIRST_SHORT_NAME_VERSION then "seg-" + ToDecimal(n) else "x" + Base64(n)
  }

  function SsRefExt(version: U32): (s: string)
  {
    if version < FIRST_SHORT_NAME_VERSION then "-ref" else "r"
  }

  function SsDeltaExt(version: U32): (s: string)
  {
    if version < FIRST_SHORT_NAME_VERSION then "-delta" else "d"
  }

  function SsRefName(version: U32, n: U32): (s: string)
  {
    if version < FIRST_SHORT_NAME_VERSION then "seg-" + ToDecimal(n) + "-ref" else "x" + Base64(n) + "r"
  }

  function SsDeltaName(version: U32, n: U32): (s: string)
  {
    if version < FIRST_SHORT_NAME_VERSION then "seg-" + ToDecimal(n) + "-delta" else "x" + Base64(n) + "d"
  }

  /** The full names are the base name followed by the extension. */
  lemma StreamNamesCompose(version: U32, n: U32)
    ensures SsRefName(version, n) == SsBase(version, n) + SsRefExt(version)
    ensures SsDeltaName(version, n) == SsBase(version, n) + SsDeltaExt(version)
  {
  }

}
