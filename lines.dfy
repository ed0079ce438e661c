/**
 * Turning a decompressed contig into FASTA text
 * (CNumAlphaConverter::convert_and_split_into_lines in
 * src/common/agc_decompressor_lib.cpp): every code goes through cnv_num,
 * and a '\n' follows every `lineLen` symbols. Output may continue a line
 * that an earlier call left unfinished, and the count of symbols in the
 * last line is handed back for the next call.
 */
module LineSplit {
  import opened Basics
  import AgcBasic

  const NL: Byte := 10

  // ---------------------------------------------------------------------------
  // Lines of a text

  /** The number of lines `x` symbols fill when a line holds `lineLen`. */
  function LineCount(x: nat, lineLen: nat): nat
    requires lineLen >= 1
  {
    if x <= lineLen then 1 else 1 + LineCount(x - lineLen, lineLen)
  }

  /** The number of symbols in the last of those lines. */
  function LastLine(x: nat, lineLen: nat): nat
    requires lineLen >= 1
  {
    if x <= lineLen then x else LastLine(x - lineLen, lineLen)
  }

  /**
   * The text `t[p..]` in lines of `lineLen` symbols, each ended by `nl`,
   * the last one holding what is left.
   */
  function LinesAt<T>(t: seq<T>, lineLen: nat, p: nat, nl: T): seq<T>
    requires lineLen >= 1 && p < |t|
    decreases |t| - p
  {
    if |t| - p <= lineLen then t[p..] + [nl]
    else t[p..p + lineLen] + [nl] + LinesAt(t, lineLen, p + lineLen, nl)
  }

  /** Removing the line end after every `lineLen` symbols and at the end of `o`. */
  function Unlines<T>(o: seq<T>, lineLen: nat): seq<T>
    requires lineLen >= 1 && o != []
    decreases |o|
  {
    if |o| <= lineLen + 1 then o[..|o| - 1] else o[..lineLen] + Unlines(o[lineLen + 1..], lineLen)
  }

  /** The last line holds between 1 and `lineLen` symbols, and the others hold `lineLen` each. */
  lemma {:induction false} LastLineBounds(x: nat, lineLen: nat)
    requires lineLen >= 1 && x >= 1
    ensures 1 <= LastLine(x, lineLen) <= lineLen
    ensures LastLine(x, lineLen) + (LineCount(x, lineLen) - 1) * lineLen == x
    decreases x
  {
    if x > lineLen {
      LastLineBounds(x - lineLen, lineLen);
      var c := LineCount(x - lineLen, lineLen);
      assert (c + 1 - 1) * lineLen == (c - 1) * lineLen + lineLen;
    }
  }

  /** More than a line left: a full line, its end, then the lines after it. */
  lemma LinesAtCons<T>(t: seq<T>, lineLen: nat, p: nat, nl: T)
    requires lineLen >= 1 && p + lineLen < |t|
    ensures LinesAt(t, lineLen, p, nl) == t[p..p + lineLen] + [nl] + LinesAt(t, lineLen, p + lineLen, nl)
    ensures LinesAt(t, lineLen, p + lineLen, nl) != []
  {
  }

  /** More than a line left: the text is a full line and its end longer than the lines after it. */
  lemma LinesAtStep<T>(t: seq<T>, lineLen: nat, p: nat, nl: T)
    requires lineLen >= 1 && p + lineLen < |t|
    ensures |LinesAt(t, lineLen, p, nl)| == lineLen + 1 + |LinesAt(t, lineLen, p + lineLen, nl)|
    ensures LastLine(|t| - p, lineLen) == LastLine(|t| - (p + lineLen), lineLen)
  {
  }

  /** The text has one line end per line on top of the symbols. */
  lemma {:induction false} LinesAtLength<T>(t: seq<T>, lineLen: nat, p: nat, nl: T)
    requires lineLen >= 1 && p < |t|
    ensures |LinesAt(t, lineLen, p, nl)| == (|t| - p) + LineCount(|t| - p, lineLen)
    decreases |t| - p
  {
    if |t| - p > lineLen {
      LinesAtLength(t, lineLen, p + lineLen, nl);
      LinesAtStep(t, lineLen, p, nl);
    }
  }

  /** A full line, its end and more text: the line is kept and its end removed. */
  lemma UnlinesLine<T>(line: seq<T>, x: T, rest: seq<T>, lineLen: nat)
    requires lineLen >= 1 && |line| == lineLen && rest != []
    ensures Unlines(line + [x] + rest, lineLen) == line + Unlines(rest, lineLen)
  {
    var o := line + [x] + rest;
    assert o[..lineLen] == line;
    assert o[lineLen + 1..] == rest;
  }

  /** The last line and its end: the line is kept. */
  lemma UnlinesLast<T>(line: seq<T>, x: T, lineLen: nat)
    requires lineLen >= 1 && |line| <= lineLen
    ensures Unlines(line + [x], lineLen) == line
  {
    assert (line + [x])[..|line|] == line;
  }

  /** Taking the line ends out of the lines gives back the text. */
  lemma {:induction false} UnlinesLinesAt<T>(t: seq<T>, lineLen: nat, p: nat, nl: T)
    requires lineLen >= 1 && p < |t|
    ensures Unlines(LinesAt(t, lineLen, p, nl), lineLen) == t[p..]
    decreases |t| - p
  {
    if |t| - p > lineLen {
      var a := t[p..p + lineLen];
      var b := LinesAt(t, lineLen, p + lineLen, nl);
      calc {
        Unlines(LinesAt(t, lineLen, p, nl), lineLen);
        { LinesAtCons(t, lineLen, p, nl); }
        Unlines(a + [nl] + b, lineLen);
        { UnlinesLine(a, nl, b, lineLen); }
        a + Unlines(b, lineLen);
        { UnlinesLinesAt(t, lineLen, p + lineLen, nl); }
        a + t[p + lineLen..];
        t[p..];
      }
    } else {
      UnlinesLast(t[p..], nl, lineLen);
    }
  }

  /** Fewer symbols never need more lines. */
  lemma {:induction false} LineCountMono(x: nat, y: nat, lineLen: nat)
    requires lineLen >= 1 && x <= y
    ensures LineCount(x, lineLen) <= LineCount(y, lineLen)
    decreases y
  {
    if x > lineLen {
      LineCountMono(x - lineLen, y - lineLen, lineLen);
    }
  }

  /** c * d <= y gives c <= y / d. */
  lemma DivLowerBound(c: nat, d: nat, y: nat)
    requires d >= 1 && c * d <= y
    ensures c <= y / d
  {
    var q := y / d;
    assert q * d + y % d == y;
    if c > q {
      MulMono(q + 1, c, d);
    }
  }

  lemma MulMono(a: nat, b: nat, d: nat)
    requires a <= b
    ensures a * d <= b * d
  {
  }

  /** The lines `x >= 1` symbols fill are at most the rounded-up quotient the buffer is sized with. */
  lemma LineCountFits(x: nat, lineLen: nat)
    requires lineLen >= 1 && x >= 1
    ensures LineCount(x, lineLen) <= (x + lineLen - 1) / lineLen
  {
    LastLineBounds(x, lineLen);
    var c := LineCount(x, lineLen);
    assert c * lineLen == (c - 1) * lineLen + lineLen;
    DivLowerBound(c, lineLen, x + lineLen - 1);
  }

  // ---------------------------------------------------------------------------
  // What convert_and_split_into_lines produces

  /** The letters of a contig of codes, through cnv_num. */
  function Letters(s: seq<Byte>): seq<Byte>
    requires AllBelow(s, 128)
  {
    seq(|s|, i requires 0 <= i < |s| => AgcBasic.CnvNum(s[i]))
  }

  /** How many symbols complete a line that already holds `partial` of `lineLen` (0: no open line). */
  function Completing(n: nat, lineLen: nat, partial: nat): nat
  {
    if partial == 0 || lineLen <= partial then 0
    else if n <= lineLen - partial then n
    else lineLen - partial
  }

  /** The letters that close the open line, and its '\n'; nothing when no line is open. */
  function Head(s: seq<Byte>, lineLen: nat, partial: nat): seq<Byte>
    requires AllBelow(s, 128)
  {
    if partial == 0 then [] else Letters(s)[..Completing(|s|, lineLen, partial)] + [NL]
  }

  /** The text with its final '\n' kept, or dropped when `appendEol` is false. */
  function Eol(t: seq<Byte>, appendEol: bool): seq<Byte>
    requires t != []
  {
    if appendEol then t else t[..|t| - 1]
  }

  /**
   * What convert_and_split_into_lines leaves in the contig and returns:
   * an empty contig stays empty and gives 0; codes that fit in the open
   * line give it the new count; otherwise the rest is split into full
   * lines and the count of the last line is returned.
   */
  function Split(s: seq<Byte>, lineLen: nat, partial: nat, appendEol: bool): (seq<Byte>, nat)
    requires AllBelow(s, 128) && lineLen >= 1
  {
    if s == [] then ([], 0)
    else
      var m := Completing(|s|, lineLen, partial);
      if partial != 0 && m == |s| then (Eol(Head(s, lineLen, partial), appendEol), partial + m)
      else (Eol(Head(s, lineLen, partial) + LinesAt(Letters(s), lineLen, m, NL), appendEol),
            LastLine(|s| - m, lineLen))
  }

  /**
   * With no open line and the final '\n' kept, the text is the letters in
   * lines of `lineLen`, one '\n' per line, and the count returned is the
   * length of the last line, between 1 and `lineLen`.
   */
  lemma SplitFresh(s: seq<Byte>, lineLen: nat)
    requires AllBelow(s, 128) && lineLen >= 1 && s != []
    ensures var (out, r) := Split(s, lineLen, 0, true);
      out != [] && Unlines(out, lineLen) == Letters(s) &&
      |out| == |s| + LineCount(|s|, lineLen) && 1 <= r <= lineLen
  {
    var t := Letters(s);
    assert Split(s, lineLen, 0, true) == (LinesAt(t, lineLen, 0, NL), LastLine(|s|, lineLen)) by {
      assert Head(s, lineLen, 0) + LinesAt(t, lineLen, 0, NL) == LinesAt(t, lineLen, 0, NL);
    }
    UnlinesLinesAt(t, lineLen, 0, NL);
    LinesAtLength(t, lineLen, 0, NL);
    LastLineBounds(|s|, lineLen);
  }

  /**
   * With an open line of `partial` symbols, the first letters complete it
   * and a '\n' ends it; the rest are split into fresh lines.
   */
  lemma SplitContinues(s: seq<Byte>, lineLen: nat, partial: nat)
    requires AllBelow(s, 128) && lineLen >= 1 && s != [] && partial != 0
    ensures var (out, r) := Split(s, lineLen, partial, true);
      var m := Completing(|s|, lineLen, partial);
      m < |out| && out[..m] == Letters(s)[..m] && out[m] == NL &&
      (m == |s| ==> |out| == m + 1 && r == partial + m) &&
      (m < |s| ==> Unlines(out[m + 1..], lineLen) == Letters(s)[m..])
  {
    var m := Completing(|s|, lineLen, partial);
    var t := Letters(s);
    var head := t[..m] + [NL];
    assert head[..m] == t[..m];
    if m < |s| {
      var out := head + LinesAt(t, lineLen, m, NL);
      assert out[..m] == t[..m];
      assert out[m + 1..] == LinesAt(t, lineLen, m, NL);
      UnlinesLinesAt(t, lineLen, m, NL);
    }
  }

  /** The count returned for a nonempty contig is the length of a line: between 1 and `lineLen`. */
  lemma SplitCountIsLine(s: seq<Byte>, lineLen: nat, partial: nat, appendEol: bool)
    requires AllBelow(s, 128) && lineLen >= 1 && s != []
    ensures 1 <= Split(s, lineLen, partial, appendEol).1 <= lineLen
  {
    var m := Completing(|s|, lineLen, partial);
    if !(partial != 0 && m == |s|) {
      LastLineBounds(|s| - m, lineLen);
    }
  }

  /**
   * The text, before the final '\n' is dropped, has at most one '\n' per
   * line of `lineLen` plus one for the open line on top of the symbols.
   */
  lemma SplitFits(s: seq<Byte>, lineLen: nat, partial: nat)
    requires AllBelow(s, 128) && lineLen >= 1 && s != []
    ensures var m := Completing(|s|, lineLen, partial);
      |Head(s, lineLen, partial)| + (if m < |s| then |LinesAt(Letters(s), lineLen, m, NL)| else 0)
        <= |s| + LineCount(|s|, lineLen) + 1
  {
    var m := Completing(|s|, lineLen, partial);
    var n := |s|;
    assert |Head(s, lineLen, partial)| <= m + 1 by {
      assert |Letters(s)| == n;
    }
    if m < n {
      LinesAtLength(Letters(s), lineLen, m, NL);
      LineCountMono(n - m, n, lineLen);
    }
  }

  // ---------------------------------------------------------------------------
  // convert_and_split_into_lines

  /**
   * Writes the text into a working space of n + (n + lineLen - 1) / lineLen + 2
   * bytes, one symbol at a time, and returns it cut to what was written.
   */
  method ConvertAndSplitIntoLines(ctg: seq<Byte>, lineLen: U32, partial: U32, appendEol: bool)
    returns (out: seq<Byte>, r: nat)
    requires AllBelow(ctg, 128) && lineLen >= 1
    ensures (out, r) == Split(ctg, lineLen, partial, appendEol)
  {
    if ctg == [] {
      return [], 0;
    }
    var n := |ctg|;
    var destSize := n + (n + lineLen - 1) / lineLen + 2;
    var ws := new Byte[destSize];
    SplitFits(ctg, lineLen, partial);
    LineCountFits(n, lineLen);
    var p, q, c := WriteHead(ctg, lineLen, partial, ws);
    if partial != 0 && p == n {
      assert Split(ctg, lineLen, partial, appendEol) == (Eol(Head(ctg, lineLen, partial), appendEol), partial + p);
      return Eol(ws[..q], appendEol), c;
    }
    ghost var text := Head(ctg, lineLen, partial) + LinesAt(Letters(ctg), lineLen, p, NL);
    assert Split(ctg, lineLen, partial, appendEol) == (Eol(text, appendEol), LastLine(n - p, lineLen));
    q, r := WriteLines(ctg, lineLen, ws, p, q);
    out := Eol(ws[..q], appendEol);
  }

  /** Writes the open line's completion and its '\n' (nothing when no line is open). */
  method WriteHead(ctg: seq<Byte>, lineLen: U32, partial: nat, ws: array<Byte>) returns (p: nat, q: nat, c: nat)
    requires AllBelow(ctg, 128) && lineLen >= 1 && ctg != []
    requires |Head(ctg, lineLen, partial)| <= ws.Length
    modifies ws
    ensures p == Completing(|ctg|, lineLen, partial) && q <= ws.Length && ws[..q] == Head(ctg, lineLen, partial)
    ensures partial != 0 && p == |ctg| ==> c == partial + p
  {
    p, q, c := 0, 0, 0;
    if partial != 0 {
      p, c := CompleteLine(ctg, lineLen, partial, ws);
      q := p;
      ws[q] := NL;
      q := q + 1;
      assert ws[..q] == ws[..q - 1] + [NL];
    }
  }

  /**
   * Completes an open line of `partial` symbols: a symbol is copied while
   * symbols are left and the count, incremented at every test, was below
   * `lineLen`. The count handed back is meaningful when all symbols went.
   */
  method CompleteLine(ctg: seq<Byte>, lineLen: U32, partial: nat, ws: array<Byte>) returns (p: nat, c: nat)
    requires AllBelow(ctg, 128) && lineLen >= 1 && ctg != [] && partial != 0
    requires Completing(|ctg|, lineLen, partial) < ws.Length
    modifies ws
    ensures p == Completing(|ctg|, lineLen, partial) && ws[..p] == Letters(ctg)[..p]
    ensures p == |ctg| ==> c == partial + p
  {
    ghost var m := Completing(|ctg|, lineLen, partial);
    ghost var t := Letters(ctg);
    var toSave := |ctg|;
    p, c := 0, partial;
    var go := true;
    while go
      invariant p <= m && toSave == |ctg| - p && ws[..p] == t[..p]
      invariant go ==> c == partial + p && p < |ctg|
      invariant !go ==> p == m && (p == |ctg| ==> c == partial + p)
      decreases toSave, go
    {
      go := c < lineLen;
      c := c + 1;
      if go {
        ws[p] := AgcBasic.CnvNum(ctg[p]);
        assert ws[..p + 1] == ws[..p] + [ws[p]];
        assert t[..p + 1] == t[..p] + [t[p]];
        p, toSave := p + 1, toSave - 1;
        go := toSave > 0;
      }
    }
  }

  /** Writes the letters from `p0` on in lines and returns the count of the last line. */
  method WriteLines(ctg: seq<Byte>, lineLen: U32, ws: array<Byte>, p0: nat, q0: nat) returns (q: nat, r: nat)
    requires AllBelow(ctg, 128) && lineLen >= 1 && p0 < |ctg|
    requires q0 + |LinesAt(Letters(ctg), lineLen, p0, NL)| <= ws.Length
    modifies ws
    ensures q <= ws.Length && ws[..q] == old(ws[..q0]) + LinesAt(Letters(ctg), lineLen, p0, NL)
    ensures r == LastLine(|ctg| - p0, lineLen)
  {
    ghost var t := Letters(ctg);
    var p;
    p, q := FullLines(ctg, lineLen, ws, p0, q0);
    ghost var mid := ws[..q];
    r := |ctg| - p;
    q := CopyLetters(ctg, p, |ctg|, ws, q);
    ws[q] := NL;
    q := q + 1;
    assert ws[..q] == ws[..q - 1] + [NL];
    Regroup(ws[..q], mid, t[p..], NL, [], LinesAt(t, lineLen, p, NL));
  }

  /** Text written so far plus a line and its end, regrouped around what is left to write. */
  lemma Regroup<T>(w: seq<T>, before: seq<T>, line: seq<T>, x: T, rest: seq<T>, whole: seq<T>)
    requires w == before + line + [x] && whole == line + [x] + rest
    ensures w + rest == before + whole
  {
  }

  /** Copies the letters of `ctg[lo..hi]` into `ws` from `q0` on. */
  method CopyLetters(ctg: seq<Byte>, lo: nat, hi: nat, ws: array<Byte>, q0: nat) returns (q: nat)
    requires AllBelow(ctg, 128) && lo <= hi <= |ctg| && q0 + (hi - lo) <= ws.Length
    modifies ws
    ensures q == q0 + (hi - lo) && ws[..q] == old(ws[..q0]) + Letters(ctg)[lo..hi]
  {
    ghost var t := Letters(ctg);
    q := q0;
    var p := lo;
    while p < hi
      invariant lo <= p <= hi && q == q0 + (p - lo)
      invariant ws[..q] == old(ws[..q0]) + t[lo..p]
    {
      ws[q] := AgcBasic.CnvNum(ctg[p]);
      assert ws[..q + 1] == ws[..q] + [ws[q]];
      assert t[lo..p + 1] == t[lo..p] + [t[p]];
      p, q := p + 1, q + 1;
    }
  }

  /** Writes full lines of `lineLen` symbols while more than `lineLen` symbols are left. */
  method FullLines(ctg: seq<Byte>, lineLen: U32, ws: array<Byte>, p0: nat, q0: nat) returns (p: nat, q: nat)
    requires AllBelow(ctg, 128) && lineLen >= 1 && p0 < |ctg|
    requires q0 + |LinesAt(Letters(ctg), lineLen, p0, NL)| <= ws.Length
    modifies ws
    ensures p < |ctg| && |ctg| - p <= lineLen && LastLine(|ctg| - p, lineLen) == LastLine(|ctg| - p0, lineLen)
    ensures q + |LinesAt(Letters(ctg), lineLen, p, NL)| <= ws.Length
    ensures ws[..q] + LinesAt(Letters(ctg), lineLen, p, NL) == old(ws[..q0]) + LinesAt(Letters(ctg), lineLen, p0, NL)
  {
    ghost var t := Letters(ctg);
    ghost var goal := old(ws[..q0]) + LinesAt(t, lineLen, p0, NL);
    p, q := p0, q0;
    var toSave := |ctg| - p0;
    while toSave > lineLen
      invariant toSave == |ctg| - p && 0 < toSave
      invariant LastLine(toSave, lineLen) == LastLine(|ctg| - p0, lineLen)
      invariant q + |LinesAt(t, lineLen, p, NL)| <= ws.Length
      invariant ws[..q] + LinesAt(t, lineLen, p, NL) == goal
    {
      LinesAtStep(t, lineLen, p, NL);
      q := WriteLine(ctg, lineLen, ws, p, q);
      p, toSave := p + lineLen, toSave - lineLen;
    }
  }

  /** Writes one full line of `lineLen` symbols and its '\n'. */
  method WriteLine(ctg: seq<Byte>, lineLen: U32, ws: array<Byte>, p: nat, q0: nat) returns (q: nat)
    requires AllBelow(ctg, 128) && lineLen >= 1 && p + lineLen < |ctg|
    requires q0 + lineLen + 1 <= ws.Length
    modifies ws
    ensures q == q0 + lineLen + 1
    ensures ws[..q] + LinesAt(Letters(ctg), lineLen, p + lineLen, NL) == old(ws[..q0]) + LinesAt(Letters(ctg), lineLen, p, NL)
  {
    ghost var t := Letters(ctg);
    ghost var before := ws[..q0];
    q := CopyLetters(ctg, p, p + lineLen, ws, q0);
    ws[q] := NL;
    assert ws[..q + 1] == ws[..q] + [NL];
    q := q + 1;
    LinesAtCons(t, lineLen, p, NL);
    Regroup(ws[..q], before, t[p..p + lineLen], NL, LinesAt(t, lineLen, p + lineLen, NL), LinesAt(t, lineLen, p, NL));
  }
}
