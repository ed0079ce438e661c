/**
 * The byte layout of a format-v1 collection (src/core/collection_v1.cpp,
 * serialize and deserialize): samples in registration order, each with
 * its contigs, each contig with its segments stored as zigzag-coded
 * 32-bit deltas, then the command lines.
 */
module CollectionV1Format {
  import opened Basics
  import Utils
  import opened Collection

  const TWO_31: int := 0x8000_0000

  /** The int32_t that a value converts to (two's complement wrap-around). */
  function Int32(x: int): (r: int)
    ensures -TWO_31 <= r < TWO_31
    ensures -TWO_31 <= x < TWO_31 ==> r == x
    ensures TWO_31 <= x < TWO_32 + TWO_31 ==> r == x - TWO_32
    ensures -(TWO_32 as int) - TWO_31 <= x < -TWO_31 ==> r == x + TWO_32
  {
    (x + TWO_31) % TWO_32 - TWO_31
  }

  predicate IsInt32(x: int)
  {
    -TWO_31 <= x < TWO_31
  }

  /** `zigzag_encode((int32_t)c - prev)`: the delta is taken in 32-bit arithmetic. */
  function EncodeDelta(c: U32, prev: int): (e: U32)
    requires IsInt32(prev)
  {
    Utils.ZigzagEncode(Int32(Int32(c) - prev))
  }

  /** `(uint32_t)(prev + zigzag_decode(e))`. */
  function DecodeDelta(e: U32, prev: int): (c: U32)
  {
    (prev + Utils.ZigzagDecode(e)) % TWO_32
  }

  lemma WrapBack(c: U32, j: int)
    requires -2 <= j <= 1
    ensures (c + j * TWO_32) % TWO_32 == c
  {
  }

  /** Every uint32_t survives the delta coding, whatever the previous value. */
  lemma DeltaRoundTrip(c: U32, prev: int)
    requires IsInt32(prev)
    ensures DecodeDelta(EncodeDelta(c, prev), prev) == c
  {
    var a := Int32(c);
    var d := Int32(a - prev);
    Utils.ZigzagRoundTrip(d);
    assert a == c || a == c - TWO_32;
    assert d == a - prev || d == a - prev - TWO_32 || d == a - prev + TWO_32;
    if prev + d == c {
      WrapBack(c, 0);
    } else {
      assert prev + d == c - TWO_32;
      WrapBack(c, -1);
    }
  }

  // ---------------------------------------------------------------------
  // Reading from the front of the remaining bytes

  /** `read(p, num)`: the number and the bytes after it. */
  function TakeNum(s: seq<Byte>): (r: Option<(U32, seq<Byte>)>)
    ensures r.Some? ==> |r.value.1| < |s|
  {
    match ReadNum(s, 0)
    case None => None
    case Some((v, q)) => Some((v, s[q..]))
  }

  /** `read(p, str)`: the string up to the NUL and the bytes after the NUL. */
  function TakeString(s: seq<Byte>): (r: Option<(Name, seq<Byte>)>)
    ensures r.Some? ==> |r.value.1| < |s|
  {
    match StringAt(s, 0)
    case None => None
    case Some((str, q)) => Some((str, s[q..]))
  }

  lemma TakeEncodedNum(x: U32, rest: seq<Byte>)
    ensures TakeNum(EncodeNum(x) + rest) == Some((x, rest))
  {
    var s := EncodeNum(x) + rest;
    assert At(s, 0, EncodeNum(x));
    ReadEncodeNum(s, 0, x);
    assert s[|EncodeNum(x)|..] == rest;
  }

  lemma TakeEncodedString(str: Name, rest: seq<Byte>)
    requires 0 !in str
    ensures TakeString(EncodeString(str) + rest) == Some((str, rest))
  {
    var s := EncodeString(str) + rest;
    assert At(s, 0, EncodeString(str));
    ReadEncodeString(s, 0, str);
    assert s[|str| + 1..] == rest;
  }

  lemma Assoc<T>(a: seq<T>, b: seq<T>, c: seq<T>)
    ensures (a + b) + c == a + (b + c)
  {
  }

  lemma Assoc3<T>(a: seq<T>, b: seq<T>, c: seq<T>, d: seq<T>)
    ensures (a + (b + c)) + d == a + (b + (c + d))
  {
    Assoc(a, b + c, d);
    Assoc(b, c, d);
  }

  /** What has been decoded so far, glued in front of what the rest decodes to. */
  function Glue<T>(acc: seq<T>, r: Option<(seq<T>, seq<Byte>)>): (g: Option<(seq<T>, seq<Byte>)>)
    ensures g.Some? <==> r.Some?
  {
    match r
    case None => None
    case Some((t, q)) => Some((acc + t, q))
  }

  /** `n` items read one after the other by `dec`, each from the bytes the previous one left. */
  function DecMany<T>(dec: seq<Byte> -> Option<(T, seq<Byte>)>, s: seq<Byte>, n: nat): (r: Option<(seq<T>, seq<Byte>)>)
    ensures r.Some? ==> |r.value.0| == n
    decreases n
  {
    if n == 0 then Some(([], s))
    else
      match dec(s)
      case None => None
      case Some((x, s')) =>
        Glue([x], DecMany(dec, s', n - 1))
  }

  /** An item that decodes, followed by `n - 1` more, is `n` items. */
  lemma DecManyCons<T>(dec: seq<Byte> -> Option<(T, seq<Byte>)>, s: seq<Byte>, n: nat,
                       xs: seq<T>, s1: seq<Byte>, r: seq<Byte>)
    requires n >= 1 && |xs| >= 1 && dec(s) == Some((xs[0], s1)) && DecMany(dec, s1, n - 1) == Some((xs[1..], r))
    ensures DecMany(dec, s, n) == Some((xs, r))
  {
    assert [xs[0]] + xs[1..] == xs;
  }

  /** One item more: the first is decoded, then `m` others. */
  lemma DecManyStep<T>(dec: seq<Byte> -> Option<(T, seq<Byte>)>, s: seq<Byte>, n: nat, m: nat)
    requires n == m + 1
    ensures dec(s).None? ==> DecMany(dec, s, n).None?
    ensures dec(s).Some? ==> DecMany(dec, s, n) == Glue([dec(s).value.0], DecMany(dec, dec(s).value.1, m))
  {
  }

  // ---------------------------------------------------------------------
  // Segments

  /** The previous segment's values as int32_t; all 0 before the first segment of a contig. */
  datatype Prev = Prev(groupId: int, inGroupId: int, rawLength: int)

  const NO_PREV := Prev(0, 0, 0)

  predicate PrevOk(pv: Prev)
  {
    IsInt32(pv.groupId) && IsInt32(pv.inGroupId) && IsInt32(pv.rawLength)
  }

  function After(seg: SegmentDesc): (pv: Prev)
    ensures PrevOk(pv)
  {
    Prev(Int32(seg.groupId), Int32(seg.inGroupId), Int32(seg.rawLength))
  }

  /** The four varints of one segment. */
  function EncSeg(seg: SegmentDesc, pv: Prev): (e: seq<Byte>)
    requires PrevOk(pv)
  {
    EncodeNum(EncodeDelta(seg.groupId, pv.groupId))
    + (EncodeNum(EncodeDelta(seg.inGroupId, pv.inGroupId))
    + (EncodeNum(EncodeDelta(seg.rawLength, pv.rawLength))
    + EncodeNum(if seg.isRevComp then 1 else 0)))
  }

  function DecSeg(s: seq<Byte>, pv: Prev): (r: Option<(SegmentDesc, seq<Byte>)>)
    ensures r.Some? ==> |r.value.1| < |s|
  {
    match TakeNum(s)
    case None => None
    case Some((eg, s1)) =>
      match TakeNum(s1)
      case None => None
      case Some((ei, s2)) =>
        match TakeNum(s2)
        case None => None
        case Some((er, s3)) =>
          match TakeNum(s3)
          case None => None
          case Some((eo, s4)) =>
            Some((SegmentDesc(DecodeDelta(eg, pv.groupId), DecodeDelta(ei, pv.inGroupId), eo != 0,
                              DecodeDelta(er, pv.rawLength)), s4))
  }

  /** `DecSeg` once each of its four varints is known. */
  lemma DecSegOf(s: seq<Byte>, pv: Prev, eg: U32, s1: seq<Byte>, ei: U32, s2: seq<Byte>,
                 er: U32, s3: seq<Byte>, eo: U32, s4: seq<Byte>)
    requires TakeNum(s) == Some((eg, s1)) && TakeNum(s1) == Some((ei, s2))
    requires TakeNum(s2) == Some((er, s3)) && TakeNum(s3) == Some((eo, s4))
    ensures DecSeg(s, pv) == Some((SegmentDesc(DecodeDelta(eg, pv.groupId), DecodeDelta(ei, pv.inGroupId), eo != 0,
                                               DecodeDelta(er, pv.rawLength)), s4))
  {
  }

  lemma Assoc4<T>(a: seq<T>, b: seq<T>, c: seq<T>, d: seq<T>, e: seq<T>)
    ensures (a + (b + (c + d))) + e == a + (b + (c + (d + e)))
  {
    Assoc(a, b + (c + d), e);
    Assoc3(b, c, d, e);
  }

  lemma SegRoundTrip(seg: SegmentDesc, pv: Prev, rest: seq<Byte>)
    requires PrevOk(pv)
    ensures DecSeg(EncSeg(seg, pv) + rest, pv) == Some((seg, rest))
  {
    var eg, ei, er, eo := EncodeDelta(seg.groupId, pv.groupId), EncodeDelta(seg.inGroupId, pv.inGroupId),
                          EncodeDelta(seg.rawLength, pv.rawLength), if seg.isRevComp then 1 else 0;
    var a, b, c, d := EncodeNum(eg), EncodeNum(ei), EncodeNum(er), EncodeNum(eo);
    Assoc4(a, b, c, d, rest);
    TakeEncodedNum(eg, b + (c + (d + rest)));
    TakeEncodedNum(ei, c + (d + rest));
    TakeEncodedNum(er, d + rest);
    TakeEncodedNum(eo, rest);
    DecSegOf(a + (b + (c + (d + rest))), pv, eg, b + (c + (d + rest)), ei, c + (d + rest), er, d + rest, eo, rest);
    DeltaRoundTrip(seg.groupId, pv.groupId);
    DeltaRoundTrip(seg.inGroupId, pv.inGroupId);
    DeltaRoundTrip(seg.rawLength, pv.rawLength);
  }

  function EncSegs(segs: seq<SegmentDesc>, pv: Prev): (e: seq<Byte>)
    requires PrevOk(pv)
  {
    if segs == [] then [] else EncSeg(segs[0], pv) + EncSegs(segs[1..], After(segs[0]))
  }

  /** `n` segments, each delta taken against the one before. */
  function DecSegs(s: seq<Byte>, n: nat, pv: Prev): (r: Option<(seq<SegmentDesc>, seq<Byte>)>)
    ensures r.Some? ==> |r.value.0| == n
    decreases n
  {
    if n == 0 then Some(([], s))
    else
      match DecSeg(s, pv)
      case None => None
      case Some((seg, s')) =>
        Glue([seg], DecSegs(s', n - 1, After(seg)))
  }

  /** One segment more: the first is decoded, then `m` others from the values it leaves. */
  lemma DecSegsStep(s: seq<Byte>, n: nat, pv: Prev, m: nat)
    requires n == m + 1
    ensures DecSeg(s, pv).None? ==> DecSegs(s, n, pv).None?
    ensures DecSeg(s, pv).Some? ==>
      DecSegs(s, n, pv) == Glue([DecSeg(s, pv).value.0], DecSegs(DecSeg(s, pv).value.1, m, After(DecSeg(s, pv).value.0)))
  {
  }

  lemma {:induction false} SegsRoundTrip(segs: seq<SegmentDesc>, pv: Prev, rest: seq<Byte>)
    requires PrevOk(pv)
    ensures DecSegs(EncSegs(segs, pv) + rest, |segs|, pv) == Some((segs, rest))
    decreases |segs|
  {
    if segs != [] {
      var e := EncSeg(segs[0], pv);
      var tail := EncSegs(segs[1..], After(segs[0]));
      assert [segs[0]] + segs[1..] == segs;
      assert EncSegs(segs, pv) + rest == e + (tail + rest) by {
        assert EncSegs(segs, pv) == e + tail;
        Assoc(e, tail, rest);
      }
      assert DecSegs(e + (tail + rest), |segs|, pv) == Some(([segs[0]] + segs[1..], rest)) by {
        SegRoundTrip(segs[0], pv, tail + rest);
        SegsRoundTrip(segs[1..], After(segs[0]), rest);
      }
    } else {
      assert EncSegs(segs, pv) + rest == rest;
    }
  }

  /** The previous values after the segments `segs`, starting from `pv`. */
  function LastPrev(segs: seq<SegmentDesc>, pv: Prev): (r: Prev)
  {
    if segs == [] then pv else After(segs[|segs| - 1])
  }

  /** Writing one more segment appends its four varints, coded against the last one. */
  lemma {:induction false} EncSegsSnoc(segs: seq<SegmentDesc>, x: SegmentDesc, pv: Prev)
    requires PrevOk(pv)
    ensures PrevOk(LastPrev(segs, pv))
    ensures EncSegs(segs + [x], pv) == EncSegs(segs, pv) + EncSeg(x, LastPrev(segs, pv))
    decreases |segs|
  {
    if segs == [] {
      assert [x][1..] == [];
    } else {
      assert (segs + [x])[1..] == segs[1..] + [x];
      EncSegsSnoc(segs[1..], x, After(segs[0]));
      assert LastPrev(segs[1..], After(segs[0])) == LastPrev(segs, pv);
    }
  }

  // ---------------------------------------------------------------------
  // Contigs, samples and command lines

  predicate NulFree(str: Name)
  {
    0 !in str
  }

  function EncContig(c: ContigDesc): (e: seq<Byte>)
  {
    EncodeString(c.name) + (EncodeNum(|c.segments| % TWO_32) + EncSegs(c.segments, NO_PREV))
  }

  function DecContig(s: seq<Byte>): (r: Option<(ContigDesc, seq<Byte>)>)
  {
    match TakeString(s)
    case None => None
    case Some((name, s1)) =>
      match TakeNum(s1)
      case None => None
      case Some((n, s2)) =>
        match DecSegs(s2, n, NO_PREV)
        case None => None
        case Some((segs, s3)) => Some((ContigDesc(name, segs), s3))
  }

  predicate WfContig(c: ContigDesc)
  {
    NulFree(c.name) && |c.segments| < TWO_32
  }

  lemma ContigRoundTrip(c: ContigDesc, rest: seq<Byte>)
    requires WfContig(c)
    ensures DecContig(EncContig(c) + rest) == Some((c, rest))
  {
    var n: U32 := |c.segments| % TWO_32;
    assert n == |c.segments|;
    var a := EncodeString(c.name);
    var b := EncodeNum(n);
    var e := EncSegs(c.segments, NO_PREV);
    Assoc3(a, b, e, rest);
    TakeEncodedString(c.name, b + (e + rest));
    TakeEncodedNum(n, e + rest);
    SegsRoundTrip(c.segments, NO_PREV, rest);
  }

  function EncContigs(cs: seq<ContigDesc>): (e: seq<Byte>)
  {
    if cs == [] then [] else EncContig(cs[0]) + EncContigs(cs[1..])
  }

  function DecContigs(s: seq<Byte>, n: nat): (r: Option<(seq<ContigDesc>, seq<Byte>)>)
    ensures r.Some? ==> |r.value.0| == n
  {
    DecMany(DecContig, s, n)
  }

  lemma {:induction false} ContigsRoundTrip(cs: seq<ContigDesc>, rest: seq<Byte>)
    requires forall i :: 0 <= i < |cs| ==> WfContig(cs[i])
    ensures DecContigs(EncContigs(cs) + rest, |cs|) == Some((cs, rest))
    decreases |cs|
  {
    if cs != [] {
      var e := EncContig(cs[0]);
      var tail := EncContigs(cs[1..]);
      Assoc(e, tail, rest);
      assert DecContigs(e + (tail + rest), |cs|) == Some(([cs[0]] + cs[1..], rest)) by {
        ContigRoundTrip(cs[0], tail + rest);
        DecManyStep(DecContig, e + (tail + rest), |cs|, |cs| - 1);
        ContigsRoundTrip(cs[1..], rest);
      }
      assert [cs[0]] + cs[1..] == cs;
    } else {
      assert EncContigs(cs) + rest == rest;
    }
  }

  lemma {:induction false} EncContigsSnoc(cs: seq<ContigDesc>, x: ContigDesc)
    ensures EncContigs(cs + [x]) == EncContigs(cs) + EncContig(x)
    decreases |cs|
  {
    if cs == [] {
      assert [x][1..] == [];
    } else {
      assert (cs + [x])[1..] == cs[1..] + [x];
      EncContigsSnoc(cs[1..], x);
    }
  }

  /** A sample as stored: its name and its contigs in registration order. */
  datatype Sample = Sample(name: Name, contigs: seq<ContigDesc>)

  function EncSample(x: Sample): (e: seq<Byte>)
  {
    EncodeString(x.name) + (EncodeNum(|x.contigs| % TWO_32) + EncContigs(x.contigs))
  }

  function DecSample(s: seq<Byte>): (r: Option<(Sample, seq<Byte>)>)
  {
    match TakeString(s)
    case None => None
    case Some((name, s1)) =>
      match TakeNum(s1)
      case None => None
      case Some((n, s2)) =>
        match DecContigs(s2, n)
        case None => None
        case Some((cs, s3)) => Some((Sample(name, cs), s3))
  }

  predicate WfSample(x: Sample)
  {
    NulFree(x.name) && |x.contigs| < TWO_32 && forall i :: 0 <= i < |x.contigs| ==> WfContig(x.contigs[i])
  }

  lemma SampleRoundTrip(x: Sample, rest: seq<Byte>)
    requires WfSample(x)
    ensures DecSample(EncSample(x) + rest) == Some((x, rest))
  {
    var n: U32 := |x.contigs| % TWO_32;
    assert n == |x.contigs|;
    var a := EncodeString(x.name);
    var b := EncodeNum(n);
    var e := EncContigs(x.contigs);
    Assoc3(a, b, e, rest);
    TakeEncodedString(x.name, b + (e + rest));
    TakeEncodedNum(n, e + rest);
    ContigsRoundTrip(x.contigs, rest);
  }

  function EncSamples(xs: seq<Sample>): (e: seq<Byte>)
  {
    if xs == [] then [] else EncSample(xs[0]) + EncSamples(xs[1..])
  }

  function DecSamples(s: seq<Byte>, n: nat): (r: Option<(seq<Sample>, seq<Byte>)>)
    ensures r.Some? ==> |r.value.0| == n
  {
    DecMany(DecSample, s, n)
  }

  lemma {:induction false} SamplesRoundTrip(xs: seq<Sample>, rest: seq<Byte>)
    requires forall i :: 0 <= i < |xs| ==> WfSample(xs[i])
    ensures DecSamples(EncSamples(xs) + rest, |xs|) == Some((xs, rest))
    decreases |xs|
  {
    if xs != [] {
      var e := EncSample(xs[0]);
      var tail := EncSamples(xs[1..]);
      Assoc(e, tail, rest);
      assert DecSamples(e + (tail + rest), |xs|) == Some(([xs[0]] + xs[1..], rest)) by {
        SampleRoundTrip(xs[0], tail + rest);
        DecManyStep(DecSample, e + (tail + rest), |xs|, |xs| - 1);
        SamplesRoundTrip(xs[1..], rest);
      }
      assert [xs[0]] + xs[1..] == xs;
    } else {
      assert EncSamples(xs) + rest == rest;
    }
  }

  lemma {:induction false} EncSamplesSnoc(xs: seq<Sample>, x: Sample)
    ensures EncSamples(xs + [x]) == EncSamples(xs) + EncSample(x)
    decreases |xs|
  {
    if xs == [] {
      assert [x][1..] == [];
    } else {
      assert (xs + [x])[1..] == xs[1..] + [x];
      EncSamplesSnoc(xs[1..], x);
    }
  }

  /** A command line of the archive and its date. */
  datatype CmdLine = CmdLine(command: Name, date: Name)

  /** The date is written only when dates are stored; otherwise an empty string stands in. */
  function EncCmd(c: CmdLine, storeDate: bool): (e: seq<Byte>)
  {
    EncodeString(c.command) + EncodeString(if storeDate then c.date else [])
  }

  function DecCmd(s: seq<Byte>): (r: Option<(CmdLine, seq<Byte>)>)
  {
    match TakeString(s)
    case None => None
    case Some((command, s1)) =>
      match TakeString(s1)
      case None => None
      case Some((date, s2)) => Some((CmdLine(command, date), s2))
  }

  predicate WfCmd(c: CmdLine)
  {
    NulFree(c.command) && NulFree(c.date)
  }

  /** The command line as read back: its date is empty when dates were not stored. */
  function Stored(c: CmdLine, storeDate: bool): (r: CmdLine)
  {
    if storeDate then c else CmdLine(c.command, [])
  }

  lemma CmdRoundTrip(c: CmdLine, storeDate: bool, rest: seq<Byte>)
    requires WfCmd(c)
    ensures DecCmd(EncCmd(c, storeDate) + rest) == Some((Stored(c, storeDate), rest))
  {
    var a := EncodeString(c.command);
    var b := EncodeString(if storeDate then c.date else []);
    Assoc(a, b, rest);
    TakeEncodedString(c.command, b + rest);
    TakeEncodedString(if storeDate then c.date else [], rest);
  }

  function EncCmds(cs: seq<CmdLine>, storeDate: bool): (e: seq<Byte>)
  {
    if cs == [] then [] else EncCmd(cs[0], storeDate) + EncCmds(cs[1..], storeDate)
  }

  function StoredAll(cs: seq<CmdLine>, storeDate: bool): (r: seq<CmdLine>)
    ensures |r| == |cs|
    ensures forall i :: 0 <= i < |cs| ==> r[i] == Stored(cs[i], storeDate)
  {
    if cs == [] then [] else [Stored(cs[0], storeDate)] + StoredAll(cs[1..], storeDate)
  }

  function DecCmds(s: seq<Byte>, n: nat): (r: Option<(seq<CmdLine>, seq<Byte>)>)
    ensures r.Some? ==> |r.value.0| == n
  {
    DecMany(DecCmd, s, n)
  }

  lemma {:induction false} CmdsRoundTrip(cs: seq<CmdLine>, storeDate: bool, rest: seq<Byte>)
    requires forall i :: 0 <= i < |cs| ==> WfCmd(cs[i])
    ensures DecCmds(EncCmds(cs, storeDate) + rest, |cs|) == Some((StoredAll(cs, storeDate), rest))
    decreases |cs|
  {
    if cs != [] {
      var e := EncCmd(cs[0], storeDate);
      var tail := EncCmds(cs[1..], storeDate);
      Assoc(e, tail, rest);
      assert DecCmds(e + (tail + rest), |cs|) == Some(([Stored(cs[0], storeDate)] + StoredAll(cs[1..], storeDate), rest)) by {
        CmdRoundTrip(cs[0], storeDate, tail + rest);
        CmdsRoundTrip(cs[1..], storeDate, rest);
        var stored := [Stored(cs[0], storeDate)] + StoredAll(cs[1..], storeDate);
        assert stored[1..] == StoredAll(cs[1..], storeDate);
        DecManyCons(DecCmd, e + (tail + rest), |cs|, stored, tail + rest, rest);
      }
    } else {
      assert EncCmds(cs, storeDate) + rest == rest;
    }
  }

  lemma {:induction false} EncCmdsSnoc(cs: seq<CmdLine>, x: CmdLine, storeDate: bool)
    ensures EncCmds(cs + [x], storeDate) == EncCmds(cs, storeDate) + EncCmd(x, storeDate)
    decreases |cs|
  {
    if cs == [] {
      assert [x][1..] == [];
    } else {
      assert (cs + [x])[1..] == cs[1..] + [x];
      EncCmdsSnoc(cs[1..], x, storeDate);
    }
  }

  // ---------------------------------------------------------------------
  // The whole collection

  /** `serialize`: the sample count, the samples, the command-line count, the command lines. */
  function EncCollection(xs: seq<Sample>, cmds: seq<CmdLine>, storeDate: bool): (e: seq<Byte>)
  {
    EncodeNum(|xs| % TWO_32) + (EncSamples(xs) + (EncodeNum(|cmds| % TWO_32) + EncCmds(cmds, storeDate)))
  }

  /** What `deserialize` reads from `data`; None when the bytes run out first. */
  function DecCollection(data: seq<Byte>): (r: Option<(seq<Sample>, seq<CmdLine>)>)
  {
    match TakeNum(data)
    case None => None
    case Some((n, s1)) =>
      match DecSamples(s1, n)
      case None => None
      case Some((xs, s2)) =>
        match TakeNum(s2)
        case None => None
        case Some((m, s3)) =>
          match DecCmds(s3, m)
          case None => None
          case Some((cmds, _)) => Some((xs, cmds))
  }

  predicate WfCollection(xs: seq<Sample>, cmds: seq<CmdLine>)
  {
    |xs| < TWO_32 && (forall i :: 0 <= i < |xs| ==> WfSample(xs[i]))
    && |cmds| < TWO_32 && (forall i :: 0 <= i < |cmds| ==> WfCmd(cmds[i]))
  }

  /**
   * Deserializing a serialized collection restores every sample, contig
   * and segment; the command lines come back with empty dates unless the
   * dates were stored.
   */
  lemma CollectionRoundTrip(xs: seq<Sample>, cmds: seq<CmdLine>, storeDate: bool)
    requires WfCollection(xs, cmds)
    ensures DecCollection(EncCollection(xs, cmds, storeDate)) == Some((xs, StoredAll(cmds, storeDate)))
  {
    var n: U32, m: U32 := |xs| % TWO_32, |cmds| % TWO_32;
    assert n == |xs| && m == |cmds|;
    var b := EncSamples(xs);
    var c := EncodeNum(m);
    var d := EncCmds(cmds, storeDate);
    TakeEncodedNum(n, b + (c + d));
    SamplesRoundTrip(xs, c + d);
    TakeEncodedNum(m, d);
    assert d == d + [];
    CmdsRoundTrip(cmds, storeDate, []);
    DecCollectionOf(EncCollection(xs, cmds, storeDate), n, b + (c + d), xs, c + d, m, d, StoredAll(cmds, storeDate), []);
  }

  /** `DecCollection` once each of its four parts is known. */
  lemma DecCollectionOf(data: seq<Byte>, n: U32, s1: seq<Byte>, xs: seq<Sample>, s2: seq<Byte>,
                        m: U32, s3: seq<Byte>, cmds: seq<CmdLine>, s4: seq<Byte>)
    requires TakeNum(data) == Some((n, s1)) && DecSamples(s1, n) == Some((xs, s2))
    requires TakeNum(s2) == Some((m, s3)) && DecCmds(s3, m) == Some((cmds, s4))
    ensures DecCollection(data) == Some((xs, cmds))
  {
  }

}
