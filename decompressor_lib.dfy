/**
 * The library front end of the decompressor
 * (src/common/agc_decompressor_lib.cpp): opening and closing an archive,
 * and answering the length or the text of one contig of one sample.
 *
 * What the collection knows is given to each query as two parameters: the
 * samples that hold a contig name (the answer of get_samples_for_contig)
 * and, for every sample, its contig descriptions in order (what
 * get_contig_desc scans). The data of a segment is the parameter `decode`,
 * as in decompress_contig.
 */
module DecompressorLib {
  import opened Basics
  import opened Collection
  import opened Decompressor
  import AgcBasic
  import LineSplit

  /** working_mode_t: what an archive object is currently doing. */
  datatype Mode = NoMode | Compression | Decompression | Appending | PreAppending

  // ---------------------------------------------------------------------------
  // Finding the contig a query names

  /** The sample a query is answered from, or the error code for a query that names none. */
  datatype Resolution = Resolved(sample: Name) | Unresolved(code: int)

  /**
   * The sample of a query: the one it names, or for an empty sample name
   * the only sample holding the contig; -1 when no sample holds it, -2
   * when several do.
   */
  function ResolveSample(sampleName: Name, candidates: seq<Name>): (r: Resolution)
    ensures r.Resolved? <==> sampleName != [] || |candidates| == 1
    ensures r.Resolved? ==> r.sample == if sampleName != [] then sampleName else candidates[0]
    ensures r.Unresolved? ==> r.code == if candidates == [] then -1 else -2
  {
    if sampleName != [] then Resolved(sampleName)
    else if |candidates| == 0 then Unresolved(-1)
    else if |candidates| > 1 then Unresolved(-2)
    else Resolved(candidates[0])
  }

  /**
   * The scan of get_contig_desc from position `p` of a sample's contigs:
   * the first contig whose short name is `short`.
   */
  function FirstContig(contigs: seq<ContigDesc>, short: Name, p: nat): (r: Option<nat>)
    requires p <= |contigs|
    ensures r.Some? ==> p <= r.value < |contigs| && ContigName(contigs[r.value].name) == short
    decreases |contigs| - p
  {
    if p == |contigs| then None
    else if ContigName(contigs[p].name) == short then Some(p)
    else FirstContig(contigs, short, p + 1)
  }

  /** No contig before the one found has the short name, and none at all when nothing is found. */
  lemma {:induction false} FirstContigIsFirst(contigs: seq<ContigDesc>, short: Name, p: nat)
    requires p <= |contigs|
    ensures var r := FirstContig(contigs, short, p);
      forall j | p <= j < (if r.Some? then r.value else |contigs|) :: ContigName(contigs[j].name) != short
    decreases |contigs| - p
  {
    if p < |contigs| && ContigName(contigs[p].name) != short {
      FirstContigIsFirst(contigs, short, p + 1);
    }
  }

  /** The segments of a contig, or the error code a query returns without reaching them. */
  datatype Lookup = Found(segs: seq<SegmentDesc>) | Missing(code: int)

  /**
   * The lookup GetContigLength and GetContigString share: resolve the
   * sample, then take the segments of its first contig with the query's
   * short name; -1 for an unknown sample or contig.
   */
  function FindContig(sampleName: Name, contigName: Name, candidates: seq<Name>,
                      samples: map<Name, seq<ContigDesc>>): (r: Lookup)
    ensures r.Missing? ==> r.code == -1 || (r.code == -2 && sampleName == [] && |candidates| > 1)
    ensures r.Found? ==> var s := ResolveSample(sampleName, candidates);
      s.Resolved? && s.sample in samples &&
      exists i | 0 <= i < |samples[s.sample]| :: samples[s.sample][i].segments == r.segs &&
        ContigName(samples[s.sample][i].name) == ContigName(contigName)
  {
    match ResolveSample(sampleName, candidates)
    case Unresolved(c) => Missing(c)
    case Resolved(s) =>
      if s !in samples then Missing(-1)
      else
        match FirstContig(samples[s], ContigName(contigName), 0)
        case None => Missing(-1)
        case Some(i) => Found(samples[s][i].segments)
  }

  /** A query without a sample name that two samples answer is refused with -2, whatever they hold. */
  lemma AmbiguousQuery(contigName: Name, candidates: seq<Name>, samples: map<Name, seq<ContigDesc>>)
    requires |candidates| >= 2
    ensures FindContig([], contigName, candidates, samples) == Missing(-2)
  {
  }

  // ---------------------------------------------------------------------------
  // Codes of the returned text

  /** Every segment decodes to codes the 128-entry cnv_num table can look up. */
  ghost predicate Tabled(decode: SegmentDesc -> seq<Byte>)
  {
    forall s :: AllBelow(decode(s), 128)
  }

  /** Every sequence of a list holds codes below 128. */
  predicate EachTabled(xs: seq<seq<Byte>>)
  {
    forall j | 0 <= j < |xs| :: AllBelow(xs[j], 128)
  }

  /** Every contig of every sample is consistent with its segments' data. */
  predicate Decodable(samples: map<Name, seq<ContigDesc>>, decode: SegmentDesc -> seq<Byte>, k: U32)
  {
    forall s, c | s in samples && c in samples[s] ::
      Decompressor.Consistent(c.segments, Orients(c.segments, decode), k)
  }

  lemma OrientsTabled(segs: seq<SegmentDesc>, decode: SegmentDesc -> seq<Byte>)
    requires Tabled(decode)
    ensures EachTabled(Orients(segs, decode))
  {
    var os := Orients(segs, decode);
    forall j, i | 0 <= j < |segs| && 0 <= i < |os[j]|
      ensures os[j][i] < 128
    {
      var d := decode(segs[j]);
      assert AllBelow(d, 128);
      if segs[j].isRevComp {
        AgcBasic.RevCompAt(d, i);
      }
    }
  }

  lemma {:induction false} SelectTabled(segs: seq<SegmentDesc>, os: seq<seq<Byte>>, k: U32,
                                        i: nat, from: int, to: int, curr: int)
    requires i <= |segs| == |os| && EachTabled(os)
    ensures EachTabled(Select(segs, os, k, i, from, to, curr).kept)
    decreases |segs| - i
  {
    if i < |segs| {
      var raw := segs[i].rawLength;
      if curr + SegLen(raw) < from {
        SelectTabled(segs, os, k, i + 1, from - Advance(raw, k), to - Advance(raw, k), curr);
      } else if curr <= to {
        SelectTabled(segs, os, k, i + 1, from, to, curr + Advance(raw, k));
      }
    }
  }

  lemma {:induction false} JoinedTabled(xs: seq<seq<Byte>>, lo: nat, hi: nat, k: nat)
    requires lo <= hi <= |xs| && EachTabled(xs)
    ensures AllBelow(Joined(xs, lo, hi, k), 128)
    decreases hi
  {
    if hi > lo + 1 {
      JoinedTabled(xs, lo, hi - 1, k);
      TrimmedSuffix(xs[hi - 1], k);
    }
  }

  /** The text decompress_contig returns holds only codes the table can convert. */
  lemma DecompressedTabled(segs: seq<SegmentDesc>, decode: SegmentDesc -> seq<Byte>, k: U32, r: Range)
    requires Tabled(decode) && Decompressor.Consistent(segs, Orients(segs, decode), k)
    ensures AllBelow(DecompressedRange(segs, Orients(segs, decode), k, r), 128)
  {
    var os := Orients(segs, decode);
    var b := Bounds(r);
    BoundsOrdered(r);
    OrientsTabled(segs, decode);
    SelectTabled(segs, os, k, 0, b.from, b.to, 0);
    var sel := Select(segs, os, k, 0, b.from, b.to, 0);
    SelectBounds(segs, os, k, 0, b.from, b.to);
    if sel.kept != [] {
      var j := Joined(sel.kept, 0, |sel.kept|, k);
      JoinedTabled(sel.kept, 0, |sel.kept|, k);
      JoinedStart(sel.kept, 0, |sel.kept|, k);
      assert DecompressedRange(segs, os, k, r) == Cut(j, sel.from, sel.to);
      CutTabled(j, sel.from, sel.to);
    }
  }

  lemma CutTabled(c: seq<Byte>, from: int, to: int)
    requires 0 <= from <= to && from <= |c| && AllBelow(c, 128)
    ensures AllBelow(Cut(c, from, to), 128)
  {
    var c1 := if |c| > to + 1 then c[..to + 1] else c;
    assert AllBelow(c1, 128);
  }

  // ---------------------------------------------------------------------------
  // The whole contig

  /**
   * For overlapping segments whose lengths add up to an int64_t, the text of
   * the whole contig (the range with both ends negative) is the whole join,
   * and its length is the contig length.
   */
  lemma WholeContig(segs: seq<SegmentDesc>, os: seq<seq<Byte>>, k: U32)
    requires Decompressor.Consistent(segs, os, k) && Overlapping(os, k) && RawSum(segs, |segs|) <= MAX_POS
    ensures DecompressedRange(segs, os, k, Range(-1, -1)) == Joined(os, 0, |segs|, k)
    ensures |DecompressedRange(segs, os, k, Range(-1, -1))| == ContigLength(segs, k)
  {
    var j := Joined(os, 0, |segs|, k);
    DecompressedIsWindow(segs, os, k, Range(-1, -1));
    assert Bounds(Range(-1, -1)) == Range(0, MAX_POS);
    ContigLengthIsJoined(segs, os, k);
    LengthWithinSum(segs, k);
    WholeWindow(j);
  }

  lemma LengthWithinSum(segs: seq<SegmentDesc>, k: U32)
    ensures ContigLength(segs, k) <= RawSum(segs, |segs|)
  {
    var m: nat := |segs|;
    if m > 0 {
      var sub: nat := (m - 1) * k;
      assert ContigLength(segs, k) == RawSum(segs, m) - sub;
    }
  }

  lemma WholeWindow(j: seq<Byte>)
    requires |j| <= MAX_POS
    ensures Window(j, 0, MAX_POS) == j
  {
  }

  // ---------------------------------------------------------------------------
  // The library object

  class Library {
    var mode: Mode
    var kmerLength: U32

    /** A library object starts with no archive open. */
    constructor ()
      ensures mode == NoMode
    {
      mode := NoMode;
      kmerLength := 0;
    }

    /**
     * Open: refused when an archive is already open; otherwise the object
     * enters decompression mode, and the result is whether the archive
     * loaded, `loaded` being its k-mer length or None when loading failed.
     */
    method Open(loaded: Option<U32>) returns (ok: bool)
      modifies this
      ensures old(mode) != NoMode ==> !ok && mode == old(mode) && kmerLength == old(kmerLength)
      ensures old(mode) == NoMode ==> mode == Decompression && ok == loaded.Some?
      ensures old(mode) == NoMode && loaded.Some? ==> kmerLength == loaded.value
    {
      if mode != NoMode {
        return false;
      }
      mode := Decompression;
      if loaded.None? {
        return false;
      }
      kmerLength := loaded.value;
      ok := true;
    }

    /** close_decompression: it succeeds only in decompression mode. */
    method CloseDecompression() returns (ok: bool)
      ensures ok <==> mode == Decompression
    {
      if mode != Decompression {
        return false;
      }
      ok := true;
    }

    /** Close: false when nothing is open, and the object always ends with no archive open. */
    method Close() returns (r: bool)
      modifies this
      ensures r <==> old(mode) != NoMode
      ensures mode == NoMode && kmerLength == old(kmerLength)
    {
      r := true;
      if mode == NoMode {
        r := false;
      } else if mode == Decompression {
        r := CloseDecompression();
      }
      mode := NoMode;
    }

    /**
     * GetContigLength: the lookup's error code, or the raw lengths of the
     * contig's segments added up less k for each overlap. Unlike
     * GetContigString it does not check that an archive is open.
     */
    method GetContigLength(sampleName: Name, contigName: Name, candidates: seq<Name>,
                           samples: map<Name, seq<ContigDesc>>) returns (len: int)
      ensures match FindContig(sampleName, contigName, candidates, samples)
        case Missing(c) => len == c
        case Found(segs) => len == ContigLength(segs, kmerLength)
    {
      var found := Find(sampleName, contigName, candidates, samples);
      if found.Missing? {
        return found.code;
      }
      var segs := found.segs;
      len := 0;
      for i := 0 to |segs|
        invariant len == RawSum(segs, i)
      {
        len := len + segs[i].rawLength;
      }
      if segs == [] {
        len := 0;
      } else {
        len := len - (|segs| - 1) * kmerLength;
      }
    }

    /**
     * GetContigString: -1 when no archive is open for decompression, the
     * lookup's error code when the query names no contig, and otherwise 0
     * with the requested range of the contig converted to letters. On an
     * error the caller's text is left as it was.
     */
    method GetContigString(sampleName: Name, contigName: Name, start: I64, end: I64,
                           candidates: seq<Name>, samples: map<Name, seq<ContigDesc>>,
                           decode: SegmentDesc -> seq<Byte>, contigData: seq<Byte>)
      returns (code: int, data: seq<Byte>)
      requires Tabled(decode) && Decodable(samples, decode, kmerLength)
      ensures mode != Decompression ==> code == -1 && data == contigData
      ensures mode == Decompression ==>
        match FindContig(sampleName, contigName, candidates, samples)
        case Missing(c) => code == c && data == contigData
        case Found(segs) =>
          code == 0 && Decompressor.Consistent(segs, Orients(segs, decode), kmerLength) &&
          var ctg := DecompressedRange(segs, Orients(segs, decode), kmerLength, Range(start, end));
          AllBelow(ctg, 128) && data == LineSplit.Letters(ctg)
    {
      if mode != Decompression {
        return -1, contigData;
      }
      var found := Find(sampleName, contigName, candidates, samples);
      if found.Missing? {
        return found.code, contigData;
      }
      var segs := found.segs;
      FoundDecodable(sampleName, contigName, candidates, samples, decode, kmerLength);
      var ctg, _ := DecompressContig(segs, decode, kmerLength, Range(start, end));
      DecompressedTabled(segs, decode, kmerLength, Range(start, end));
      data := ToLetters(ctg);
      code := 0;
    }
  }

  /** The lookup of both queries: the sample resolved, then the scan of its contigs. */
  method Find(sampleName: Name, contigName: Name, candidates: seq<Name>,
              samples: map<Name, seq<ContigDesc>>) returns (r: Lookup)
    ensures r == FindContig(sampleName, contigName, candidates, samples)
  {
    var sample := sampleName;
    if sampleName == [] {
      if |candidates| == 0 {
        return Missing(-1);
      }
      if |candidates| > 1 {
        return Missing(-2);
      }
      sample := candidates[0];
    }
    if sample !in samples {
      return Missing(-1);
    }
    var contigs := samples[sample];
    var short := ContigName(contigName);
    for p := 0 to |contigs|
      invariant FirstContig(contigs, short, p) == FirstContig(contigs, short, 0)
    {
      if ContigName(contigs[p].name) == short {
        return Found(contigs[p].segments);
      }
    }
    r := Missing(-1);
  }

  /** The contig a query finds is consistent when every contig of the collection is. */
  lemma FoundDecodable(sampleName: Name, contigName: Name, candidates: seq<Name>,
                       samples: map<Name, seq<ContigDesc>>, decode: SegmentDesc -> seq<Byte>, k: U32)
    requires Decodable(samples, decode, k)
    ensures var r := FindContig(sampleName, contigName, candidates, samples);
      r.Found? ==> Decompressor.Consistent(r.segs, Orients(r.segs, decode), k)
  {
    var r := FindContig(sampleName, contigName, candidates, samples);
    if r.Found? {
      var s := ResolveSample(sampleName, candidates).sample;
      var i := FirstContig(samples[s], ContigName(contigName), 0).value;
      assert samples[s][i] in samples[s];
    }
  }

  /** The letters of a contig, one cnv_num lookup per code. */
  method ToLetters(ctg: seq<Byte>) returns (data: seq<Byte>)
    requires AllBelow(ctg, 128)
    ensures data == LineSplit.Letters(ctg)
  {
    data := [];
    for i := 0 to |ctg|
      invariant |data| == i
      invariant forall j | 0 <= j < i :: data[j] == AgcBasic.CnvNum(ctg[j])
    {
      data := data + [AgcBasic.CnvNum(ctg[i])];
    }
  }
}
