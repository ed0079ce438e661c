/**
 * Reassembling a contig from its segments (src/common/agc_decompressor_lib.cpp):
 * normalising the requested range, choosing the segments that cover it,
 * joining them on their k-symbol overlaps and cutting the result to the
 * range; plus the library calls that answer the length or the text of a
 * contig, and closing the library.
 */
module Decompressor {
  import opened Basics
  import opened Collection
  import AgcBasic

  /** The largest int64_t, the open end of a range. */
  const MAX_POS: int := 0x7fff_ffff_ffff_ffff
  const TWO_31: nat := 0x8000_0000

  type I64 = x: int | -0x8000_0000_0000_0000 <= x <= MAX_POS

  /** A requested range of positions, both ends inclusive; a negative end means "open". */
  datatype Range = Range(from: I64, to: I64)

  // ---------------------------------------------------------------------------
  // Range normalisation

  /** The lower bound decompress_contig works with when the range is not wholly open. */
  function LowerEnd(r: Range): int
  {
    if r.from < 0 then 0 else r.from
  }

  /** The upper bound decompress_contig works with when the range is not wholly open. */
  function UpperEnd(r: Range): int
  {
    if r.to < 0 then MAX_POS else r.to
  }

  /**
   * The bounds decompress_contig cuts to: the whole contig when both ends
   * are negative or the ends are crossed, otherwise a negative start
   * becomes 0 and a negative end the largest position.
   */
  function Bounds(r: Range): (b: Range)
  {
    if r.from < 0 && r.to < 0 then Range(0, MAX_POS)
    else if LowerEnd(r) > UpperEnd(r) then Range(0, MAX_POS)
    else Range(LowerEnd(r), UpperEnd(r))
  }

  /** The range decompress_contig writes back into its task: crossed ends become (-1, -1). */
  function StoredRange(r: Range): (s: Range)
  {
    if r.from < 0 && r.to < 0 then r
    else if LowerEnd(r) > UpperEnd(r) then Range(-1, -1)
    else Range(LowerEnd(r), UpperEnd(r))
  }

  /** The bounds are an ordered pair of positions, and a range that already is one is kept. */
  lemma BoundsOrdered(r: Range)
    ensures 0 <= Bounds(r).from <= Bounds(r).to <= MAX_POS
    ensures Bounds(r) == r <==> 0 <= r.from <= r.to
  {
  }

  /** Normalising twice is normalising once. */
  lemma BoundsIdempotent(r: Range)
    ensures Bounds(Bounds(r)) == Bounds(r)
  {
    BoundsOrdered(r);
    BoundsOrdered(Bounds(r));
  }

  /** The range written back denotes the same bounds, so a later call cuts the same symbols. */
  lemma StoredRangeSameBounds(r: Range)
    ensures Bounds(StoredRange(r)) == Bounds(r)
    ensures StoredRange(r) == r || StoredRange(r) == Range(-1, -1) || StoredRange(r) == Bounds(r)
  {
  }

  // ---------------------------------------------------------------------------
  // Segments

  /** `int32_t seg_len = seg.raw_length`: the signed reading of a 32-bit length. */
  function SegLen(raw: U32): int
  {
    if raw < TWO_31 then raw else raw - TWO_32
  }

  /** `seg_len - kmer_length`, evaluated in unsigned 32-bit arithmetic. */
  function Advance(raw: U32, k: U32): (d: nat)
  {
    if k <= raw then raw - k else raw - k + TWO_32
  }

  /** Advance is the 32-bit wrap-around of the difference. */
  lemma AdvanceWraps(raw: U32, k: U32)
    ensures Advance(raw, k) == (raw - k) % TWO_32 && Advance(raw, k) < TWO_32
  {
  }

  /** A segment as decompress_contig uses it: decoded, and reverse-complemented when so stored. */
  function Oriented(seg: SegmentDesc, decode: SegmentDesc -> seq<Byte>): seq<Byte>
  {
    if seg.isRevComp then AgcBasic.RevComp(decode(seg)) else decode(seg)
  }

  /** Every segment of a contig description, oriented. */
  function Orients(segs: seq<SegmentDesc>, decode: SegmentDesc -> seq<Byte>): (os: seq<seq<Byte>>)
    ensures |os| == |segs|
    ensures forall i :: 0 <= i < |segs| ==> os[i] == Oriented(segs[i], decode)
  {
    seq(|segs|, i requires 0 <= i < |segs| => Oriented(segs[i], decode))
  }

  /**
   * A contig description the archive can hold, given its oriented
   * segments: every segment decodes to its recorded raw length, below
   * 2^31, and when there are several segments each holds at least the k
   * symbols it shares with a neighbour.
   */
  predicate Consistent(segs: seq<SegmentDesc>, os: seq<seq<Byte>>, k: U32)
  {
    |os| == |segs| &&
    forall i | 0 <= i < |segs| ::
      |os[i]| == segs[i].rawLength < TWO_31 && (|segs| >= 2 ==> k <= segs[i].rawLength)
  }

  /** Consecutive oriented segments share k symbols: the end of one is the start of the next. */
  predicate Overlapping(os: seq<seq<Byte>>, k: nat)
  {
    forall i | 1 <= i < |os| :: OverlapAt(os, i, k)
  }

  /** Segment `i - 1` ends with the k symbols segment `i` starts with. */
  predicate OverlapAt(os: seq<seq<Byte>>, i: nat, k: nat)
    requires 1 <= i < |os|
  {
    k <= |os[i - 1]| && k <= |os[i]| && os[i - 1][|os[i - 1]| - k..] == os[i][..k]
  }

  lemma OrientedLength(seg: SegmentDesc, decode: SegmentDesc -> seq<Byte>)
    ensures |Oriented(seg, decode)| == |decode(seg)|
  {
  }

  // ---------------------------------------------------------------------------
  // Joining segments

  /** A later segment without its first k symbols, dropped one at a time; one shorter than k contributes nothing. */
  function Trimmed(s: seq<Byte>, k: nat): (r: seq<Byte>)
    decreases k
  {
    if k == 0 || s == [] then s else Trimmed(s[1..], k - 1)
  }

  /** Trimming is the suffix after the first k symbols. */
  lemma {:induction false} TrimmedSuffix(s: seq<Byte>, k: nat)
    ensures Trimmed(s, k) == if |s| < k then [] else s[k..]
    decreases k
  {
    if k > 0 && s != [] {
      TrimmedSuffix(s[1..], k - 1);
    }
  }

  /** The join of `xs[lo..hi]`: the first whole, each later one trimmed. */
  function Joined(xs: seq<seq<Byte>>, lo: nat, hi: nat, k: nat): (r: seq<Byte>)
    requires lo <= hi <= |xs|
    decreases hi
  {
    if hi == lo then []
    else if hi == lo + 1 then xs[lo]
    else Joined(xs, lo, hi - 1, k) + Trimmed(xs[hi - 1], k)
  }

  /** A join is at least as long as its first segment. */
  lemma {:induction false} JoinedStart(xs: seq<seq<Byte>>, lo: nat, hi: nat, k: nat)
    requires lo < hi <= |xs|
    ensures |xs[lo]| <= |Joined(xs, lo, hi, k)|
    decreases hi
  {
    if hi > lo + 1 {
      JoinedStart(xs, lo, hi - 1, k);
    }
  }

  /** A shorter join is a prefix of a longer one. */
  lemma {:induction false} JoinedPrefix(xs: seq<seq<Byte>>, lo: nat, mid: nat, hi: nat, k: nat)
    requires lo <= mid <= hi <= |xs|
    ensures var a := Joined(xs, lo, mid, k); |a| <= |Joined(xs, lo, hi, k)| && Joined(xs, lo, hi, k)[..|a|] == a
    decreases hi
  {
    if hi > mid {
      JoinedPrefix(xs, lo, mid, hi - 1, k);
      var a := Joined(xs, lo, mid, k);
      var b := Joined(xs, lo, hi - 1, k);
      if hi > lo + 1 {
        assert (b + Trimmed(xs[hi - 1], k))[..|a|] == b[..|a|];
      } else {
        assert a == [];
      }
    }
  }

  /** A join reads only the segments it spans: the same segments further along give the same join. */
  lemma {:induction false} JoinedShift(xs: seq<seq<Byte>>, ys: seq<seq<Byte>>, lo: nat, hi: nat, d: nat, k: nat)
    requires lo <= hi <= |xs| && hi + d <= |ys|
    requires forall j | lo <= j < hi :: xs[j] == ys[j + d]
    ensures Joined(xs, lo, hi, k) == Joined(ys, lo + d, hi + d, k)
    decreases hi
  {
    if hi > lo + 1 {
      JoinedShift(xs, ys, lo, hi - 1, d, k);
    }
  }

  /** The join of a run of segments taken out on its own is the join of that run in place. */
  lemma JoinedSlice(xs: seq<seq<Byte>>, i: nat, m: nat, k: nat)
    requires i + m <= |xs|
    ensures Joined(xs[i..i + m], 0, m, k) == Joined(xs, i, i + m, k)
  {
    JoinedShift(xs[i..i + m], xs, 0, m, i, k);
  }

  /**
   * With overlapping segments, a join of two or more is the first segment
   * without its last k symbols followed by the join of the rest.
   */
  lemma {:induction false} JoinedSkipFirst(xs: seq<seq<Byte>>, lo: nat, hi: nat, k: nat)
    requires lo + 1 < hi <= |xs| && Overlapping(xs, k)
    ensures k <= |xs[lo]|
    ensures Joined(xs, lo, hi, k) == xs[lo][..|xs[lo]| - k] + Joined(xs, lo + 1, hi, k)
    decreases hi
  {
    var x, y := xs[lo], xs[lo + 1];
    assert OverlapAt(xs, lo + 1, k);
    if hi == lo + 2 {
      TrimmedSuffix(y, k);
      calc {
        Joined(xs, lo, hi, k);
        x + y[k..];
        { TakeDrop(x, |x| - k); }
        x[..|x| - k] + x[|x| - k..] + y[k..];
        { ConcatAssoc(x[..|x| - k], y[..k], y[k..]); TakeDrop(y, k); }
        x[..|x| - k] + y;
      }
    } else {
      JoinedSkipFirst(xs, lo, hi - 1, k);
      ConcatAssoc(x[..|x| - k], Joined(xs, lo + 1, hi - 1, k), Trimmed(xs[hi - 1], k));
    }
  }

  /** The length of a join of segments of at least k symbols: each later one adds its length less k. */
  lemma JoinedStep(xs: seq<seq<Byte>>, lo: nat, hi: nat, k: nat)
    requires lo < hi < |xs| && k <= |xs[hi]|
    ensures |Joined(xs, lo, hi + 1, k)| == |Joined(xs, lo, hi, k)| + |xs[hi]| - k
  {
    TrimmedSuffix(xs[hi], k);
  }

  // ---------------------------------------------------------------------------
  // Choosing the segments

  /** The segments kept for the join and the bounds as the skipped segments left them. */
  datatype Selection<T> = Selection(kept: seq<T>, from: int, to: int)

  /**
   * The segment loop of decompress_contig from segment `i` on, `os` holding
   * the segments' data: a segment ending before `from` is skipped and moves
   * both bounds back by its length less k; the loop stops at the first
   * segment starting after `to`; every other segment is kept and moves the
   * current position on by its length less k.
   */
  function Select<T>(segs: seq<SegmentDesc>, os: seq<T>, k: U32,
                     i: nat, from: int, to: int, curr: int): (s: Selection<T>)
    requires i <= |segs| == |os|
    decreases |segs| - i
  {
    if i == |segs| then Selection([], from, to)
    else
      var raw := segs[i].rawLength;
      if curr + SegLen(raw) < from then
        Select(segs, os, k, i + 1, from - Advance(raw, k), to - Advance(raw, k), curr)
      else if curr > to then Selection([], from, to)
      else
        var rest := Select(segs, os, k, i + 1, from, to, curr + Advance(raw, k));
        Selection([os[i]] + rest.kept, rest.from, rest.to)
  }

  /** How far the current position moves over the kept segments `lo..hi`. */
  function Span(segs: seq<SegmentDesc>, k: U32, lo: nat, hi: nat): int
    requires lo <= hi <= |segs|
    decreases hi
  {
    if hi == lo then 0 else Span(segs, k, lo, hi - 1) + Advance(segs[hi - 1].rawLength, k)
  }

  lemma {:induction false} SpanCons(segs: seq<SegmentDesc>, k: U32, lo: nat, hi: nat)
    requires lo < hi <= |segs|
    ensures Span(segs, k, lo, hi) == Advance(segs[lo].rawLength, k) + Span(segs, k, lo + 1, hi)
    decreases hi
  {
    if hi > lo + 1 {
      SpanCons(segs, k, lo, hi - 1);
    }
  }

  /** Segments `lo..` all hold at least k symbols, and fewer than 2^31. */
  predicate LongFrom(segs: seq<SegmentDesc>, k: U32, lo: nat)
  {
    forall j | lo <= j < |segs| :: k <= segs[j].rawLength < TWO_31
  }

  /**
   * Once a segment is kept, no later one is skipped: the bounds stay put,
   * and the kept segments are the next ones in order, up to the end or to
   * the first one that starts after `to`.
   */
  lemma {:induction false} SelectRun<T>(segs: seq<SegmentDesc>, os: seq<T>, k: U32,
                                        i: nat, from: int, to: int, curr: int)
    requires i <= |segs| == |os| && LongFrom(segs, k, i) && from <= curr + k
    ensures var r := Select(segs, os, k, i, from, to, curr); var m := |r.kept|;
      r.from == from && r.to == to && i + m <= |segs| && r.kept == os[i..i + m] &&
      (i + m == |segs| || curr + Span(segs, k, i, i + m) > to)
    decreases |segs| - i
  {
    if i < |segs| {
      var raw := segs[i].rawLength;
      if curr <= to {
        var next := curr + Advance(raw, k);
        SelectRun(segs, os, k, i + 1, from, to, next);
        var m := |Select(segs, os, k, i + 1, from, to, next).kept|;
        SliceCons(os, i, i + 1 + m);
        SpanCons(segs, k, i, i + 1 + m);
      }
    }
  }

  /**
   * The first segment kept: from it on the kept segments are consecutive,
   * the bounds stay put, and the run ends at the contig's end or once the
   * position passes `to`.
   */
  lemma SelectKeepFirst<T>(segs: seq<SegmentDesc>, os: seq<T>, k: U32, i: nat, from: int, to: int)
    requires i < |segs| == |os| && LongFrom(segs, k, i + 1) && segs[i].rawLength < TWO_31
    requires from <= SegLen(segs[i].rawLength) && 0 <= to
    ensures var r := Select(segs, os, k, i, from, to, 0); var m := |r.kept|;
      1 <= m && r.from == from && r.to == to && i + m <= |segs| && r.kept == os[i..i + m] &&
      (i + m == |segs| || Span(segs, k, i, i + m) > to)
  {
    var raw := segs[i].rawLength;
    var next := Advance(raw, k);
    SelectRun(segs, os, k, i + 1, from, to, next);
    var m := |Select(segs, os, k, i + 1, from, to, next).kept|;
    SliceCons(os, i, i + 1 + m);
    SpanCons(segs, k, i, i + 1 + m);
  }

  /** The join of segments of at least k symbols is k longer than the span it covers. */
  lemma {:induction false} JoinedSpan(segs: seq<SegmentDesc>, os: seq<seq<Byte>>, k: U32, lo: nat, hi: nat)
    requires lo < hi <= |segs| == |os|
    requires forall j | lo <= j < hi :: |os[j]| == segs[j].rawLength && k <= segs[j].rawLength
    ensures |Joined(os, lo, hi, k)| == Span(segs, k, lo, hi) + k
    decreases hi
  {
    var raw := segs[hi - 1].rawLength;
    if hi > lo + 1 {
      JoinedSpan(segs, os, k, lo, hi - 1);
      TrimmedSuffix(os[hi - 1], k);
      assert Span(segs, k, lo, hi) == Span(segs, k, lo, hi - 1) + (raw - k);
    } else {
      assert Span(segs, k, lo, hi) == raw - k;
    }
  }

  /**
   * Before anything is kept the current position is 0 and the bounds are
   * ordered; then, if anything is kept, the bounds stay ordered and the
   * first kept segment reaches the lower bound.
   */
  lemma {:induction false} SelectBounds(segs: seq<SegmentDesc>, os: seq<seq<Byte>>, k: U32,
                                        i: nat, from: int, to: int)
    requires Consistent(segs, os, k) && i <= |segs| && 0 <= from <= to
    ensures var r := Select(segs, os, k, i, from, to, 0);
      r.kept != [] ==> 0 <= r.from <= r.to && r.from <= |r.kept[0]|
    decreases |segs| - i
  {
    if i < |segs| {
      var raw := segs[i].rawLength;
      if SegLen(raw) < from {
        if |segs| >= 2 {
          SelectBounds(segs, os, k, i + 1, from - Advance(raw, k), to - Advance(raw, k));
        } else {
          assert i + 1 == |segs|;
        }
      } else {
        assert LongFrom(segs, k, i + 1);
        SelectKeepFirst(segs, os, k, i, from, to);
      }
    }
  }

  /** `ctg.resize(to + 1)` when longer, then `erase` of the first `from` symbols. */
  function Cut(c: seq<Byte>, from: int, to: int): (r: seq<Byte>)
    requires 0 <= from <= to && from <= |c|
  {
    var c1 := if |c| > to + 1 then c[..to + 1] else c;
    if from != 0 then c1[from..] else c1
  }

  /** What decompress_contig leaves in `ctg` for a consistent contig description. */
  function DecompressedRange(segs: seq<SegmentDesc>, os: seq<seq<Byte>>, k: U32, r: Range): seq<Byte>
    requires Consistent(segs, os, k)
  {
    var b := Bounds(r);
    BoundsOrdered(r);
    var sel := Select(segs, os, k, 0, b.from, b.to, 0);
    SelectBounds(segs, os, k, 0, b.from, b.to);
    if sel.kept == [] then []
    else
      JoinedStart(sel.kept, 0, |sel.kept|, k);
      Cut(Joined(sel.kept, 0, |sel.kept|, k), sel.from, sel.to)
  }

  // ---------------------------------------------------------------------------
  // The range theorem

  /** The symbols of `j` from `from` to `to`, clipped to `j`. */
  function Window(j: seq<Byte>, from: nat, to: nat): (w: seq<Byte>)
  {
    var hi := if to + 1 < |j| then to + 1 else |j|;
    var lo := if from < hi then from else hi;
    if lo == 0 then j[..hi] else j[lo..hi]
  }

  /** Dropping a head no longer than the lower bound shifts the window. */
  lemma WindowShift(a: seq<Byte>, b: seq<Byte>, j: seq<Byte>, from: nat, to: nat)
    requires |a| <= from <= to && j == a + b
    ensures Window(j, from, to) == Window(b, from - |a|, to - |a|)
  {
    var hi := if to + 1 < |j| then to + 1 else |j|;
    var lo := if from < hi then from else hi;
    assert j[lo..hi] == b[lo - |a|..hi - |a|];
  }

  /** Cutting a join that runs past the upper bound, or is the whole contig, is the window of the whole contig. */
  lemma CutWindow(run: seq<Byte>, whole: seq<Byte>, from: nat, to: nat, k: nat)
    requires from <= to && from <= |run| <= |whole| && whole[..|run|] == run
    requires |run| == |whole| || |run| - k > to
    ensures Cut(run, from, to) == Window(whole, from, to)
  {
    if |run| == |whole| {
      assert run == whole;
    } else {
      assert run[..to + 1] == whole[..to + 1];
      assert whole[from..to + 1] == whole[..to + 1][from..];
    }
  }

  /**
   * A run of segments from `i` that reaches `from` and ends at the contig's
   * end or past `to`: its join reaches `from`, and unless it is the whole
   * rest of the contig it holds more than `to + k` symbols.
   */
  lemma RunCovers(segs: seq<SegmentDesc>, os: seq<seq<Byte>>, k: U32, i: nat, m: nat, from: int, to: int)
    requires Consistent(segs, os, k)
    requires 1 <= m && i + m <= |segs| && from <= segs[i].rawLength
    requires i + m == |segs| || Span(segs, k, i, i + m) > to
    ensures var run := Joined(os, i, i + m, k);
      from <= |os[i]| <= |run| && (i + m == |segs| || |run| - k > to)
  {
    JoinedStart(os, i, i + m, k);
    if i + m < |segs| {
      JoinedSpan(segs, os, k, i, i + m);
    }
  }

  /** Cutting the join of such a run gives the window of the join from `i` on. */
  lemma RunWindow(segs: seq<SegmentDesc>, os: seq<seq<Byte>>, k: U32, i: nat, m: nat, from: int, to: int, run: seq<Byte>)
    requires Consistent(segs, os, k)
    requires 1 <= m && i + m <= |segs| && 0 <= from <= to && from <= segs[i].rawLength
    requires i + m == |segs| || Span(segs, k, i, i + m) > to
    requires run == Joined(os, i, i + m, k)
    ensures from <= |run| && Cut(run, from, to) == Window(Joined(os, i, |segs|, k), from, to)
  {
    RunCovers(segs, os, k, i, m, from, to);
    JoinedPrefix(os, i, i + m, |segs|, k);
    CutWindow(run, Joined(os, i, |segs|, k), from, to, k);
  }

  /** When segment `i` is the first kept, the kept run joins like the same run in place. */
  lemma KeptJoin(segs: seq<SegmentDesc>, os: seq<seq<Byte>>, k: U32, i: nat, from: int, to: int)
    requires Consistent(segs, os, k)
    requires i < |segs| && 0 <= to && from <= SegLen(segs[i].rawLength)
    ensures var r := Select(segs, os, k, i, from, to, 0); var m := |r.kept|;
      1 <= m && i + m <= |segs| && r.from == from && r.to == to &&
      Joined(r.kept, 0, m, k) == Joined(os, i, i + m, k) &&
      (i + m == |segs| || Span(segs, k, i, i + m) > to)
  {
    assert LongFrom(segs, k, i + 1);
    SelectKeepFirst(segs, os, k, i, from, to);
    var r := Select(segs, os, k, i, from, to, 0);
    JoinedSlice(os, i, |r.kept|, k);
  }

  /** When segment `i` is the first kept, the cut join of the kept run is the window of the join from `i` on. */
  lemma KeepWindow(segs: seq<SegmentDesc>, os: seq<seq<Byte>>, k: U32, i: nat, from: int, to: int)
    requires Consistent(segs, os, k)
    requires i < |segs| && 0 <= from <= to && from <= SegLen(segs[i].rawLength)
    ensures var r := Select(segs, os, k, i, from, to, 0);
      r.kept != [] && r.from == from && r.to == to && from <= |Joined(r.kept, 0, |r.kept|, k)| &&
      Cut(Joined(r.kept, 0, |r.kept|, k), from, to) == Window(Joined(os, i, |segs|, k), from, to)
  {
    KeptJoin(segs, os, k, i, from, to);
    var r := Select(segs, os, k, i, from, to, 0);
    RunWindow(segs, os, k, i, |r.kept|, from, to, Joined(r.kept, 0, |r.kept|, k));
  }

  /** Skipping a segment that ends before `from` moves the window of the join back by its length less k. */
  lemma SkipWindow(segs: seq<SegmentDesc>, os: seq<seq<Byte>>, k: U32, i: nat, from: int, to: int)
    requires Consistent(segs, os, k) && Overlapping(os, k)
    requires i + 1 < |segs| && SegLen(segs[i].rawLength) < from <= to
    ensures var d := Advance(segs[i].rawLength, k);
      d < from && Window(Joined(os, i, |segs|, k), from, to) == Window(Joined(os, i + 1, |segs|, k), from - d, to - d)
  {
    var raw := segs[i].rawLength;
    JoinedSkipFirst(os, i, |segs|, k);
    WindowShift(os[i][..raw - k], Joined(os, i + 1, |segs|, k), Joined(os, i, |segs|, k), from, to);
  }

  /** The kept segments, joined and cut at the new bounds, give `win`; nothing kept means `win` is empty. */
  predicate Matches(r: Selection<seq<Byte>>, win: seq<Byte>, k: U32)
  {
    (r.kept == [] ==> win == []) &&
    (r.kept != [] ==>
      0 <= r.from <= r.to && r.from <= |Joined(r.kept, 0, |r.kept|, k)| &&
      Cut(Joined(r.kept, 0, |r.kept|, k), r.from, r.to) == win)
  }

  /** From segment `i` on, before anything is kept: the cut join is the window of the join of the rest. */
  lemma {:induction false} SelectWindow(segs: seq<SegmentDesc>, os: seq<seq<Byte>>, k: U32,
                                        i: nat, from: int, to: int)
    requires Consistent(segs, os, k) && Overlapping(os, k)
    requires i <= |segs| && 0 <= from <= to
    ensures Matches(Select(segs, os, k, i, from, to, 0), Window(Joined(os, i, |segs|, k), from, to), k)
    decreases |segs| - i
  {
    var n := |segs|;
    if i == n {
      NothingLeft(segs, os, k, from, to);
    } else if SegLen(segs[i].rawLength) >= from {
      KeepMatches(segs, os, k, i, from, to);
    } else if i + 1 == n {
      LastSkipped(segs, os, k, from, to);
    } else {
      var d := Advance(segs[i].rawLength, k);
      SelectWindow(segs, os, k, i + 1, from - d, to - d);
      SkipMatches(segs, os, k, i, from, to);
    }
  }

  /** Past the last segment nothing is kept and the window is empty. */
  lemma NothingLeft(segs: seq<SegmentDesc>, os: seq<seq<Byte>>, k: U32, from: int, to: int)
    requires Consistent(segs, os, k) && 0 <= from <= to
    ensures Matches(Select(segs, os, k, |segs|, from, to, 0), Window(Joined(os, |segs|, |segs|, k), from, to), k)
  {
  }

  /** A segment that reaches `from` is kept, and the cut join is the window. */
  lemma KeepMatches(segs: seq<SegmentDesc>, os: seq<seq<Byte>>, k: U32, i: nat, from: int, to: int)
    requires Consistent(segs, os, k)
    requires i < |segs| && 0 <= from <= to && from <= SegLen(segs[i].rawLength)
    ensures Matches(Select(segs, os, k, i, from, to, 0), Window(Joined(os, i, |segs|, k), from, to), k)
  {
    KeepWindow(segs, os, k, i, from, to);
  }

  /** A last segment that ends before `from` is skipped, leaving nothing, and the window is empty. */
  lemma LastSkipped(segs: seq<SegmentDesc>, os: seq<seq<Byte>>, k: U32, from: int, to: int)
    requires Consistent(segs, os, k) && segs != []
    requires 0 <= from <= to && SegLen(segs[|segs| - 1].rawLength) < from
    ensures var i := |segs| - 1;
      Matches(Select(segs, os, k, i, from, to, 0), Window(Joined(os, i, |segs|, k), from, to), k)
  {
    var i := |segs| - 1;
    assert Joined(os, i, |segs|, k) == os[i];
  }

  /** Skipping a segment that ends before `from` carries the match over from the rest. */
  lemma SkipMatches(segs: seq<SegmentDesc>, os: seq<seq<Byte>>, k: U32, i: nat, from: int, to: int)
    requires Consistent(segs, os, k) && Overlapping(os, k)
    requires i + 1 < |segs| && 0 <= from <= to && SegLen(segs[i].rawLength) < from
    requires var d := Advance(segs[i].rawLength, k);
      Matches(Select(segs, os, k, i + 1, from - d, to - d, 0), Window(Joined(os, i + 1, |segs|, k), from - d, to - d), k)
    ensures Matches(Select(segs, os, k, i, from, to, 0), Window(Joined(os, i, |segs|, k), from, to), k)
  {
    SkipWindow(segs, os, k, i, from, to);
  }

  /**
   * For a consistent contig whose segments overlap on k symbols, the text
   * decompress_contig returns is exactly the requested range of the whole
   * joined contig, clipped to its length.
   */
  lemma DecompressedIsWindow(segs: seq<SegmentDesc>, os: seq<seq<Byte>>, k: U32, r: Range)
    requires Consistent(segs, os, k) && Overlapping(os, k)
    ensures var b := Bounds(r);
      DecompressedRange(segs, os, k, r) == Window(Joined(os, 0, |segs|, k), b.from, b.to)
  {
    BoundsOrdered(r);
    SelectWindow(segs, os, k, 0, Bounds(r).from, Bounds(r).to);
  }

  // ---------------------------------------------------------------------------
  // Contig length

  /** The raw lengths of segments `0..hi` added up. */
  function RawSum(segs: seq<SegmentDesc>, hi: nat): nat
    requires hi <= |segs|
  {
    if hi == 0 then 0 else RawSum(segs, hi - 1) + segs[hi - 1].rawLength
  }

  /** The span of a run from the first segment is its raw lengths less k for each segment. */
  lemma {:induction false} SpanRawSum(segs: seq<SegmentDesc>, k: U32, hi: nat)
    requires hi <= |segs|
    ensures Span(segs, k, 0, hi) == RawSum(segs, hi) - hi * k + Wraps(segs, k, hi) * TWO_32
  {
    if hi > 0 {
      SpanRawSum(segs, k, hi - 1);
      assert hi * k == (hi - 1) * k + k;
    }
  }

  /** How many of segments `0..hi` are shorter than k (their advance wraps around 2^32). */
  function Wraps(segs: seq<SegmentDesc>, k: U32, hi: nat): nat
    requires hi <= |segs|
  {
    if hi == 0 then 0 else Wraps(segs, k, hi - 1) + (if segs[hi - 1].rawLength < k then 1 else 0)
  }

  /** An int64_t read back from the 64-bit pattern `u`. */
  function ToI64(u: nat): int
    requires u < TWO_64
  {
    if u <= MAX_POS then u else u - TWO_64
  }

  /**
   * GetContigLength's arithmetic as written: the raw lengths added up in
   * int64_t, less (size() - 1) * kmer_length evaluated in size_t, so that
   * for an empty description size() - 1 wraps around.
   */
  function ContigLengthAsWritten(segs: seq<SegmentDesc>, k: U32): (len: int)
    ensures -0x8000_0000_0000_0000 <= len <= MAX_POS
  {
    var sub := ((|segs| - 1) % TWO_64) * k % TWO_64;
    ToI64((RawSum(segs, |segs|) - sub) % TWO_64)
  }

  /** For a contig with no segments the length as written is the k-mer length, not 0. */
  lemma EmptyContigLengthAsWritten(k: U32)
    ensures ContigLengthAsWritten([], k) == k
  {
    if k > 0 {
      calc {
        ((TWO_64 - 1) * k) % TWO_64;
        (TWO_64 * (k - 1) + (TWO_64 - k)) % TWO_64;
        { ModMultiple(k - 1, TWO_64 - k); }
        TWO_64 - k;
      }
    }
  }

  lemma ModMultiple(a: nat, b: nat)
    requires b < TWO_64
    ensures (TWO_64 * a + b) % TWO_64 == b
  {
  }

  /** The length of a contig: its raw lengths less k for each overlap; 0 for a contig with no segments. */
  function ContigLength(segs: seq<SegmentDesc>, k: U32): int
  {
    if segs == [] then 0 else RawSum(segs, |segs|) - (|segs| - 1) * k
  }

  /** The length is the length of the whole joined contig. */
  lemma ContigLengthIsJoined(segs: seq<SegmentDesc>, os: seq<seq<Byte>>, k: U32)
    requires Consistent(segs, os, k)
    ensures ContigLength(segs, k) == |Joined(os, 0, |segs|, k)|
  {
    var n := |segs|;
    if n >= 2 {
      JoinedSpan(segs, os, k, 0, n);
      SpanRawSum(segs, k, n);
      NoWraps(segs, k, n);
    } else if n == 1 {
      assert RawSum(segs, 1) == segs[0].rawLength;
    }
  }

  /** Segments of at least k symbols never wrap. */
  lemma {:induction false} NoWraps(segs: seq<SegmentDesc>, k: U32, hi: nat)
    requires hi <= |segs| && forall j | 0 <= j < hi :: k <= segs[j].rawLength
    ensures Wraps(segs, k, hi) == 0
  {
    if hi > 0 {
      NoWraps(segs, k, hi - 1);
    }
  }

  /**
   * For a contig with segments whose lengths add up to an int64_t, the
   * length as written is the length.
   */
  lemma ContigLengthAsWrittenAgrees(segs: seq<SegmentDesc>, os: seq<seq<Byte>>, k: U32)
    requires Consistent(segs, os, k) && segs != [] && RawSum(segs, |segs|) <= MAX_POS
    ensures ContigLengthAsWritten(segs, k) == ContigLength(segs, k)
  {
    ConsistentCovers(segs, os, k);
    AsWrittenNoWrap(segs, k);
  }

  /** A consistent contig is at least k symbols long per overlap. */
  lemma ConsistentCovers(segs: seq<SegmentDesc>, os: seq<seq<Byte>>, k: U32)
    requires Consistent(segs, os, k) && segs != []
    ensures (|segs| - 1) * k <= RawSum(segs, |segs|)
  {
    var n := |segs|;
    if n >= 2 {
      RawSumCovers(segs, k, n);
    }
  }

  /** When the overlaps fit in the total, the size_t arithmetic does not wrap. */
  lemma AsWrittenNoWrap(segs: seq<SegmentDesc>, k: U32)
    requires segs != [] && (|segs| - 1) * k <= RawSum(segs, |segs|) <= MAX_POS
    ensures ContigLengthAsWritten(segs, k) == ContigLength(segs, k)
  {
    SubtrahendNoWrap(|segs|, k, RawSum(segs, |segs|));
  }

  /** The size_t product (n - 1) * k does not wrap when it is at most an int64_t total. */
  lemma SubtrahendNoWrap(n: nat, k: U32, total: nat)
    requires n >= 1 && (n - 1) * k <= total <= MAX_POS
    ensures ToI64((total - ((n - 1) % TWO_64) * k % TWO_64) % TWO_64) == total - (n - 1) * k
  {
    var m := n - 1;
    var p := m * k;
    if k == 0 {
      assert (m % TWO_64) * k == 0;
    } else {
      assert m <= p by { MulAtLeast(m, k); }
      assert m % TWO_64 == m;
    }
    assert (m % TWO_64) * k == p;
    assert p % TWO_64 == p;
    assert (total - p) % TWO_64 == total - p;
  }

  lemma MulAtLeast(m: nat, k: nat)
    requires k >= 1
    ensures m <= m * k
  {
  }

  /** Segments of at least k symbols each add up to at least k per segment. */
  lemma {:induction false} RawSumCovers(segs: seq<SegmentDesc>, k: U32, hi: nat)
    requires hi <= |segs| && forall j | 0 <= j < hi :: k <= segs[j].rawLength
    ensures hi * k <= RawSum(segs, hi)
  {
    if hi > 0 {
      RawSumCovers(segs, k, hi - 1);
      assert hi * k == (hi - 1) * k + k;
    }
  }

  // ---------------------------------------------------------------------------
  // decompress_contig

  /**
   * decompress_contig: normalises the range (writing the normalised range
   * back), walks the segments keeping those that reach into the range,
   * decodes each kept one (reverse-complementing it in place when so
   * stored), joins them and cuts the join to the range. Decoding a segment
   * from the archive is the parameter `decode`.
   */
  method DecompressContig(segs: seq<SegmentDesc>, decode: SegmentDesc -> seq<Byte>, k: U32, r: Range)
    returns (ctg: seq<Byte>, stored: Range)
    requires Consistent(segs, Orients(segs, decode), k)
    ensures ctg == DecompressedRange(segs, Orients(segs, decode), k, r)
    ensures stored == StoredRange(r)
  {
    var from, to;
    from, to, stored := NormaliseRange(r);
    var loc;
    loc, from, to := ChooseSegments(segs, decode, k, from, to);
    SelectBounds(segs, Orients(segs, decode), k, 0, Bounds(r).from, Bounds(r).to);
    if loc != [] {
      ctg := JoinSegments(loc, k);
      JoinedStart(loc, 0, |loc|, k);
      if |ctg| > to + 1 {
        ctg := ctg[..to + 1];
      }
      if from != 0 {
        ctg := ctg[from..];
      }
    } else {
      ctg := [];
    }
  }

  /** The range normalisation at the head of decompress_contig, with the range it writes back. */
  method NormaliseRange(r: Range) returns (from: int, to: int, stored: Range)
    ensures from == Bounds(r).from && to == Bounds(r).to && stored == StoredRange(r)
  {
    from, to := r.from, r.to;
    stored := r;
    if from < 0 && to < 0 {
      from, to := 0, MAX_POS;
    } else {
      if from < 0 {
        from := 0;
        stored := stored.(from := 0);
      }
      if to < 0 {
        to := MAX_POS;
        stored := stored.(to := MAX_POS);
      }
      if from > to {
        from, to := 0, MAX_POS;
        stored := Range(-1, -1);
      }
    }
  }

  /**
   * The segment loop of decompress_contig: the segments it decodes and
   * keeps, and the bounds as the skipped segments leave them.
   */
  method ChooseSegments(segs: seq<SegmentDesc>, decode: SegmentDesc -> seq<Byte>, k: U32, from0: int, to0: int)
    returns (loc: seq<seq<Byte>>, from: int, to: int)
    ensures Select(segs, Orients(segs, decode), k, 0, from0, to0, 0) == Selection(loc, from, to)
  {
    ghost var os := Orients(segs, decode);
    ghost var sel := Select(segs, os, k, 0, from0, to0, 0);
    from, to := from0, to0;
    loc := [];
    var curr := 0;
    var i := 0;
    while i < |segs|
      invariant 0 <= i <= |segs|
      invariant var rest := Select(segs, os, k, i, from, to, curr);
        sel == Selection(loc + rest.kept, rest.from, rest.to)
      decreases |segs| - i
    {
      var seg := segs[i];
      var segLen := SegLen(seg.rawLength);
      if curr + segLen < from {
        from := from - Advance(seg.rawLength, k);
        to := to - Advance(seg.rawLength, k);
      } else if curr > to {
        break;
      } else {
        var s := DecodeOriented(seg, decode);
        ghost var rest := Select(segs, os, k, i + 1, from, to, curr + Advance(seg.rawLength, k));
        assert loc + ([s] + rest.kept) == (loc + [s]) + rest.kept;
        loc := loc + [s];
        curr := curr + Advance(seg.rawLength, k);
      }
      i := i + 1;
    }
  }

  /** One kept segment: decoded, then reverse-complemented in place when so stored. */
  method DecodeOriented(seg: SegmentDesc, decode: SegmentDesc -> seq<Byte>) returns (s: seq<Byte>)
    ensures s == Oriented(seg, decode)
  {
    s := decode(seg);
    if seg.isRevComp {
      var a := new Byte[|s|](j requires 0 <= j < |s| reads {} => s[j]);
      assert a[..] == s;
      AgcBasic.ReverseComplement(a);
      s := a[..];
    }
  }

  /**
   * The join loop: the first kept segment whole, then each later one
   * without its first k symbols; one shorter than k (a corrupted archive)
   * is passed over.
   */
  method JoinSegments(loc: seq<seq<Byte>>, k: U32) returns (ctg: seq<Byte>)
    requires |loc| >= 1
    ensures ctg == Joined(loc, 0, |loc|, k)
  {
    ctg := loc[0];
    var j := 1;
    while j < |loc|
      invariant 1 <= j <= |loc|
      invariant ctg == Joined(loc, 0, j, k)
    {
      TrimmedSuffix(loc[j], k);
      if |loc[j]| < k {
      } else {
        ctg := ctg + loc[j][k..];
      }
      j := j + 1;
    }
  }
}
