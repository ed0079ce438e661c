/**
 * The collection of format v3 (src/core/collection_v3.cpp): samples in
 * registration order with their contigs and segments, the in-group-id
 * coding of the segment details, and the sorted sample list.
 */
module CollectionV3 {
  import opened Basics
  import Utils
  import opened Collection

  /** A sample: its name and its contigs in registration order. */
  datatype SampleDesc = SampleDesc(name: Name, contigs: seq<ContigDesc>)

  /** `segment_desc_t()`: the filler for slots not placed yet. */
  const DEFAULT_SEGMENT := SegmentDesc(TWO_32 - 1, TWO_32 - 1, false, 0)

  // ---------------------------------------------------------------------
  // Sorting sample names (std::sort on std::string)

  /** `a < b` for strings: bytewise, unsigned, a proper prefix first. */
  predicate LexLess(a: Name, b: Name)
    decreases |a|
  {
    b != [] && (a == [] || a[0] < b[0] || (a[0] == b[0] && LexLess(a[1..], b[1..])))
  }

  predicate LexLe(a: Name, b: Name)
  {
    a == b || LexLess(a, b)
  }

  /** Any two strings are ordered one way or the other. */
  lemma {:induction false} LexTotal(a: Name, b: Name)
    ensures LexLe(a, b) || LexLe(b, a)
    decreases |a|
  {
    if a != [] && b != [] && a[0] == b[0] {
      LexTotal(a[1..], b[1..]);
      if a[1..] == b[1..] {
        assert a == [a[0]] + a[1..] && b == [b[0]] + b[1..];
      }
    }
  }

  /** Each name is at most the next one. */
  predicate Sorted(s: seq<Name>)
  {
    forall i :: 0 <= i < |s| - 1 ==> LexLe(s[i], s[i + 1])
  }

  function Insert(x: Name, s: seq<Name>): (r: seq<Name>)
    ensures multiset(r) == multiset(s) + multiset{x}
    ensures |r| == |s| + 1 && (r[0] == x || (s != [] && r[0] == s[0]))
  {
    if s == [] || LexLe(x, s[0]) then [x] + s
    else
      assert s == [s[0]] + s[1..];
      [s[0]] + Insert(x, s[1..])
  }

  lemma {:induction false} InsertSorted(x: Name, s: seq<Name>)
    requires Sorted(s)
    ensures Sorted(Insert(x, s))
  {
    if s != [] && !LexLe(x, s[0]) {
      LexTotal(x, s[0]);
      InsertSorted(x, s[1..]);
      var t := Insert(x, s[1..]);
      assert Insert(x, s) == [s[0]] + t;
      assert LexLe(s[0], t[0]) by {
        if t[0] != x {
          assert t[0] == s[1];
        }
      }
    }
  }

  /** The sorted arrangement of `s`. */
  function Sort(s: seq<Name>): (r: seq<Name>)
    ensures multiset(r) == multiset(s) && |r| == |s|
  {
    if s == [] then []
    else
      assert s == [s[0]] + s[1..];
      Insert(s[0], Sort(s[1..]))
  }

  lemma {:induction false} SortSorted(s: seq<Name>)
    ensures Sorted(Sort(s))
  {
    if s != [] {
      SortSorted(s[1..]);
      InsertSorted(s[0], Sort(s[1..]));
    }
  }

  /** The names of the samples, in registration order. */
  function Names(samples: seq<SampleDesc>): (ns: seq<Name>)
    ensures |ns| == |samples|
    ensures forall i :: 0 <= i < |samples| ==> ns[i] == samples[i].name
  {
    if samples == [] then [] else [samples[0].name] + Names(samples[1..])
  }

  // ---------------------------------------------------------------------
  // Placing a segment in a contig

  /** Index of the first contig whose full name is `name`. */
  function FindContig(contigs: seq<ContigDesc>, name: Name): (r: Option<nat>)
    ensures r.Some? ==> r.value < |contigs| && contigs[r.value].name == name
    ensures r.Some? ==> forall k :: 0 <= k < r.value ==> contigs[k].name != name
    ensures r.None? ==> forall k :: 0 <= k < |contigs| ==> contigs[k].name != name
  {
    if contigs == [] then None
    else if contigs[0].name == name then Some(0)
    else
      match FindContig(contigs[1..], name)
      case None => None
      case Some(i) => Some(i + 1)
  }

  // ---------------------------------------------------------------------
  // The registry

  /** `sample_ids` maps each sample name to its position in `sample_desc`, and back. */
  ghost predicate Indexed(ids: map<Name, nat>, desc: seq<SampleDesc>)
  {
    (forall n | n in ids :: ids[n] < |desc| && desc[ids[n]].name == n)
    && (forall i | 0 <= i < |desc| :: desc[i].name in ids && ids[desc[i].name] == i)
  }

  /** Opening a sample under a new name keeps the index. */
  lemma IndexedAppend(ids: map<Name, nat>, desc: seq<SampleDesc>, sd: SampleDesc)
    requires Indexed(ids, desc) && sd.name !in ids
    ensures Indexed(ids[sd.name := |desc|], desc + [sd])
  {
    var desc' := desc + [sd];
    forall i | 0 <= i < |desc'|
      ensures desc'[i].name in ids[sd.name := |desc|] && ids[sd.name := |desc|][desc'[i].name] == i
    {
      if i < |desc| {
        assert desc'[i] == desc[i];
      }
    }
  }

  /** Changing a sample's contigs, but not its name, keeps the index. */
  lemma IndexedUpdate(ids: map<Name, nat>, desc: seq<SampleDesc>, i: nat, sd: SampleDesc)
    requires Indexed(ids, desc) && i < |desc| && sd.name == desc[i].name
    ensures Indexed(ids, desc[i := sd])
  {
  }

  class CollectionV3 {
    /** Sample name to its position in sampleDesc. */
    var sampleIds: map<Name, nat>
    var sampleDesc: seq<SampleDesc>
    /** The sample of the previous registration, or empty after a reset. */
    var prevSampleName: Name
    /** Cache of the sample the last segment was placed in. */
    var placingSampleName: Name
    var placingSampleId: nat

    ghost predicate Valid()
      reads this
    {
      Indexed(sampleIds, sampleDesc)
      && (prevSampleName != [] ==> sampleDesc != [] && sampleDesc[|sampleDesc| - 1].name == prevSampleName)
      && |sampleDesc| <= TWO_32 - 1
      && (placingSampleId == TWO_32 - 1
          || (placingSampleId < |sampleDesc| && sampleDesc[placingSampleId].name == placingSampleName))
    }

    constructor ()
      ensures Valid()
      ensures sampleIds == map[] && sampleDesc == [] && prevSampleName == []
    {
      sampleIds := map[];
      sampleDesc := [];
      prevSampleName := [];
      placingSampleName := [];
      placingSampleId := TWO_32 - 1;
    }

    /**
     * `register_sample_contig`: a contig is appended to the current sample
     * when the sample name repeats the previous one; otherwise a new sample
     * is opened, unless that name was registered before, which is refused.
     * Contig names are not checked for repeats.
     */
    method RegisterSampleContig(sampleName: Name, contigName: Name) returns (ok: bool)
      requires Valid()
      requires StoredSample(sampleName, contigName) == prevSampleName ==> sampleDesc != []
      requires |sampleDesc| < TWO_32 - 1
      modifies this
      ensures Valid()
      ensures var stored := StoredSample(sampleName, contigName);
        ok <==> stored == old(prevSampleName) || stored !in old(sampleIds)
      ensures !ok ==> sampleIds == old(sampleIds) && sampleDesc == old(sampleDesc)
                      && prevSampleName == old(prevSampleName)
      ensures var stored := StoredSample(sampleName, contigName);
        ok && stored != old(prevSampleName) ==>
          sampleIds == old(sampleIds)[stored := |old(sampleDesc)|]
          && sampleDesc == old(sampleDesc) + [SampleDesc(stored, [ContigDesc(contigName, [])])]
          && prevSampleName == stored
      ensures var stored, n := StoredSample(sampleName, contigName), |old(sampleDesc)|;
        ok && stored == old(prevSampleName) ==>
          sampleIds == old(sampleIds) && prevSampleName == old(prevSampleName)
          && n > 0 && sampleDesc == old(sampleDesc)[n - 1 := SampleDesc(old(sampleDesc)[n - 1].name,
                                                  old(sampleDesc)[n - 1].contigs + [ContigDesc(contigName, [])])]
      ensures placingSampleName == old(placingSampleName) && placingSampleId == old(placingSampleId)
    {
      var short := ExtractContigName(contigName);
      var stored := if sampleName == [] then short else sampleName;
      if stored != prevSampleName {
        if stored in sampleIds {
          return false;
        }
        IndexedAppend(sampleIds, sampleDesc, SampleDesc(stored, [ContigDesc(contigName, [])]));
        sampleIds := sampleIds[stored := |sampleDesc|];
        sampleDesc := sampleDesc + [SampleDesc(stored, [ContigDesc(contigName, [])])];
        prevSampleName := stored;
      } else {
        var n := |sampleDesc|;
        var last := sampleDesc[n - 1];
        IndexedUpdate(sampleIds, sampleDesc, n - 1, SampleDesc(last.name, last.contigs + [ContigDesc(contigName, [])]));
        sampleDesc := sampleDesc[n - 1 := SampleDesc(last.name, last.contigs + [ContigDesc(contigName, [])])];
      }
      ok := true;
    }

    /** `reset_prev_sample_name`. */
    method ResetPrevSampleName()
      requires Valid()
      modifies this
      ensures Valid()
      ensures prevSampleName == [] && sampleIds == old(sampleIds) && sampleDesc == old(sampleDesc)
      ensures placingSampleName == old(placingSampleName) && placingSampleId == old(placingSampleId)
    {
      prevSampleName := [];
    }

    /**
     * `add_segment_placed`: in the first contig of the sample whose full name
     * is `contigName`, the segment is put at `place`; nothing changes when
     * the sample has no such contig. The sample must be registered.
     */
    method AddSegmentPlaced(sampleName: Name, contigName: Name, place: U32, seg: SegmentDesc)
      requires Valid()
      requires StoredSample(sampleName, contigName) in sampleIds
      requires StoredSample(sampleName, contigName) == placingSampleName ==> placingSampleId < |sampleDesc|
      modifies this
      ensures Valid()
      ensures sampleIds == old(sampleIds) && prevSampleName == old(prevSampleName)
      ensures var id := old(sampleIds)[StoredSample(sampleName, contigName)];
        var s := old(sampleDesc)[id];
        match FindContig(s.contigs, contigName)
        case None => sampleDesc == old(sampleDesc)
        case Some(ci) =>
          sampleDesc == old(sampleDesc)[id := SampleDesc(s.name, s.contigs[ci :=
            ContigDesc(contigName, PlaceSegment(s.contigs[ci].segments, place, seg, DEFAULT_SEGMENT))])]
    {
      var stored := if sampleName == [] then ContigName(contigName) else sampleName;
      if placingSampleName != stored {
        placingSampleName := stored;
        placingSampleId := sampleIds[stored];
      }
      var s := sampleDesc[placingSampleId];
      var found := FindContigIndex(s.contigs, contigName);
      if found.Some? {
        var ci := found.value;
        var x := s.contigs[ci];
        var sd := SampleDesc(s.name, s.contigs[ci := ContigDesc(x.name, PlaceSegment(x.segments, place, seg, DEFAULT_SEGMENT))]);
        IndexedUpdate(sampleIds, sampleDesc, placingSampleId, sd);
        sampleDesc := sampleDesc[placingSampleId := sd];
      }
    }

    /** `get_reference_name`: the first registered sample, if any. */
    method GetReferenceName() returns (ok: bool, name: Name)
      requires Valid()
      ensures ok <==> sampleDesc != []
      ensures ok ==> name in sampleIds && sampleIds[name] == 0
    {
      if sampleDesc == [] {
        return false, [];
      }
      return true, sampleDesc[0].name;
    }

    /** `get_samples_list`: every sample name, sorted. */
    method GetSamplesList() returns (v: seq<Name>)
      requires Valid()
      ensures Sorted(v)
      ensures multiset(v) == multiset(Names(sampleDesc))
      ensures forall n :: n in v <==> n in sampleIds
    {
      v := [];
      for i := 0 to |sampleDesc|
        invariant v == Names(sampleDesc)[..i]
      {
        v := v + [sampleDesc[i].name];
      }
      assert v == Names(sampleDesc);
      v := Sort(v);
      SortSorted(Names(sampleDesc));
      forall n ensures n in v <==> n in sampleIds {
        assert n in v <==> n in multiset(Names(sampleDesc));
        if n in sampleIds {
          assert Names(sampleDesc)[sampleIds[n]] == n;
        }
      }
    }
  }

  /** The loop of `add_segment_placed` looking for the contig by its full name. */
  method FindContigIndex(contigs: seq<ContigDesc>, name: Name) returns (r: Option<nat>)
    ensures r == FindContig(contigs, name)
  {
    var i := 0;
    while i < |contigs|
      invariant i <= |contigs|
      invariant forall k :: 0 <= k < i ==> contigs[k].name != name
    {
      if contigs[i].name == name {
        FindContigFirst(contigs, name, i);
        return Some(i);
      }
      i := i + 1;
    }
    FindContigNone(contigs, name);
    return None;
  }

  lemma {:induction false} FindContigFirst(contigs: seq<ContigDesc>, name: Name, i: nat)
    requires i < |contigs| && contigs[i].name == name
    requires forall k :: 0 <= k < i ==> contigs[k].name != name
    ensures FindContig(contigs, name) == Some(i)
  {
    if i > 0 {
      FindContigFirst(contigs[1..], name, i - 1);
    }
  }

  lemma {:induction false} FindContigNone(contigs: seq<ContigDesc>, name: Name)
    requires forall k :: 0 <= k < |contigs| ==> contigs[k].name != name
    ensures FindContig(contigs, name) == None
  {
    if contigs != [] {
      FindContigNone(contigs[1..], name);
    }
  }

  // ---------------------------------------------------------------------
  // In-group ids of the segment details

  /**
   * The stored in-group id given the last id seen in the same group (-1
   * for none): raw for a new group, 0 for 0, 1 for the successor, else the
   * zigzag coding against the successor plus one.
   */
  function InGroupEncode(inGroupId: nat, prev: int): (e: nat)
    requires prev >= -1
  {
    if prev == -1 then inGroupId
    else if inGroupId == 0 then 0
    else if inGroupId == prev + 1 then 1
    else Utils.ZigzagEncodeRel(inGroupId, prev + 1) + 1
  }

  function InGroupDecode(e: nat, prev: int): (inGroupId: nat)
    requires prev >= -1
  {
    if prev == -1 then e
    else if e == 0 then 0
    else if e == 1 then prev + 1
    else Utils.ZigzagDecodeRel(e - 1, prev + 1)
  }

  /** Every in-group id is restored, whatever id the group saw last. */
  lemma InGroupRoundTrip(inGroupId: nat, prev: int)
    requires prev >= -1
    ensures InGroupDecode(InGroupEncode(inGroupId, prev), prev) == inGroupId
    ensures prev >= 0 && inGroupId == prev + 1 ==> InGroupEncode(inGroupId, prev) == 1
  {
    if prev >= 0 && inGroupId != 0 && inGroupId != prev + 1 {
      assert Utils.ZigzagEncodeRel(inGroupId, prev + 1) != 0;
    }
  }

  /** Last in-group id recorded per group; an absent group reads as -1. */
  type InGroupTable = map<U32, nat>

  function LastInGroup(t: InGroupTable, g: U32): (r: int)
    ensures r >= -1
  {
    if g in t then t[g] else -1
  }

  /** `set_in_group_id` happens only for an id above the recorded one and above 0. */
  function Record(t: InGroupTable, g: U32, inGroupId: nat): (t': InGroupTable)
  {
    if inGroupId > LastInGroup(t, g) && inGroupId > 0 then t[g := inGroupId] else t
  }

  /** The values of one segment in the four detail streams. */
  datatype DetailCodes = DetailCodes(groupId: nat, inGroupId: nat, rawLength: nat, orientation: nat)

  /** One segment's detail values, given the group table so far. */
  function EncodeOne(s: SegmentDesc, t: InGroupTable, predRawLength: nat): (c: DetailCodes)
  {
    DetailCodes(s.groupId, InGroupEncode(s.inGroupId, LastInGroup(t, s.groupId)),
                Utils.ZigzagEncodeRel(s.rawLength, predRawLength), if s.isRevComp then 1 else 0)
  }

  /** One segment read back; values are cut to uint32_t as in the source. */
  function DecodeOne(c: DetailCodes, t: InGroupTable, predRawLength: nat): (s: SegmentDesc)
  {
    var g := c.groupId % TWO_32;
    SegmentDesc(g, InGroupDecode(c.inGroupId, LastInGroup(t, g)) % TWO_32, c.orientation != 0,
                Utils.ZigzagDecodeRel(c.rawLength, predRawLength) % TWO_32)
  }

  lemma OneRoundTrip(s: SegmentDesc, t: InGroupTable, predRawLength: nat)
    ensures DecodeOne(EncodeOne(s, t, predRawLength), t, predRawLength) == s
  {
    InGroupRoundTrip(s.inGroupId, LastInGroup(t, s.groupId));
  }

  /** The detail values of the segments of a batch (in sample, contig, segment order). */
  function EncodeDetails(segs: seq<SegmentDesc>, t: InGroupTable, predRawLength: nat): (cs: seq<DetailCodes>)
    ensures |cs| == |segs|
  {
    if segs == [] then []
    else
      [EncodeOne(segs[0], t, predRawLength)]
      + EncodeDetails(segs[1..], Record(t, segs[0].groupId, segs[0].inGroupId), predRawLength)
  }

  function DecodeDetails(cs: seq<DetailCodes>, t: InGroupTable, predRawLength: nat): (segs: seq<SegmentDesc>)
    ensures |segs| == |cs|
  {
    if cs == [] then []
    else
      var s := DecodeOne(cs[0], t, predRawLength);
      [s] + DecodeDetails(cs[1..], Record(t, s.groupId, s.inGroupId), predRawLength)
  }

  /** The details of every batch are read back as written, the group table evolving alike on both sides. */
  lemma {:induction false} DetailsRoundTrip(segs: seq<SegmentDesc>, t: InGroupTable, predRawLength: nat)
    ensures DecodeDetails(EncodeDetails(segs, t, predRawLength), t, predRawLength) == segs
    decreases |segs|
  {
    if segs != [] {
      var s := segs[0];
      var cs := EncodeDetails(segs, t, predRawLength);
      var t' := Record(t, s.groupId, s.inGroupId);
      OneRoundTrip(s, t, predRawLength);
      assert cs[0] == EncodeOne(s, t, predRawLength);
      assert cs[1..] == EncodeDetails(segs[1..], t', predRawLength);
      DetailsRoundTrip(segs[1..], t', predRawLength);
      assert DecodeDetails(cs, t, predRawLength) == [s] + DecodeDetails(cs[1..], t', predRawLength);
      assert segs == [s] + segs[1..];
    }
  }

  lemma EncodeDetailsStep(segs: seq<SegmentDesc>, k: nat, t: InGroupTable, pred: nat)
    requires k < |segs|
    ensures EncodeDetails(segs[k..], t, pred)
         == [EncodeOne(segs[k], t, pred)] + EncodeDetails(segs[k + 1..], Record(t, segs[k].groupId, segs[k].inGroupId), pred)
  {
    assert segs[k..][1..] == segs[k + 1..];
  }

  lemma DecodeDetailsStep(cs: seq<DetailCodes>, k: nat, t: InGroupTable, pred: nat)
    requires k < |cs|
    ensures var s := DecodeOne(cs[k], t, pred);
      DecodeDetails(cs[k..], t, pred) == [s] + DecodeDetails(cs[k + 1..], Record(t, s.groupId, s.inGroupId), pred)
  {
    assert cs[k..][1..] == cs[k + 1..];
  }

  lemma AppendStep<T>(acc: seq<T>, x: T, rest: seq<T>)
    ensures acc + ([x] + rest) == (acc + [x]) + rest
  {
  }

  /** `serialize_contig_details`, the loop over segments with a cleared group table; the raw-length prediction is a `uint32_t` sum. */
  method SerializeContigDetails(segs: seq<SegmentDesc>, segmentSize: U32, kmerLength: U32)
    returns (cs: seq<DetailCodes>)
    ensures cs == EncodeDetails(segs, map[], (segmentSize + kmerLength) % TWO_32)
  {
    var t: InGroupTable := map[];
    var pred := (segmentSize + kmerLength) % TWO_32;
    cs := [];
    for k := 0 to |segs|
      invariant cs + EncodeDetails(segs[k..], t, pred) == EncodeDetails(segs, map[], pred)
    {
      var seg := segs[k];
      var prev := LastInGroup(t, seg.groupId);
      var eInGroupId;
      if prev == -1 {
        eInGroupId := seg.inGroupId;
      } else if seg.inGroupId == 0 {
        eInGroupId := 0;
      } else if seg.inGroupId == prev + 1 {
        eInGroupId := 1;
      } else {
        eInGroupId := Utils.ZigzagEncodeRel(seg.inGroupId, prev + 1) + 1;
      }
      var code := DetailCodes(seg.groupId, eInGroupId, Utils.ZigzagEncodeRel(seg.rawLength, pred),
                              if seg.isRevComp then 1 else 0);
      assert code == EncodeOne(seg, t, pred);
      EncodeDetailsStep(segs, k, t, pred);
      AppendStep(cs, code, EncodeDetails(segs[k + 1..], Record(t, seg.groupId, seg.inGroupId), pred));
      cs := cs + [code];
      ghost var t' := Record(t, seg.groupId, seg.inGroupId);
      if seg.inGroupId > prev && seg.inGroupId > 0 {
        t := t[seg.groupId := seg.inGroupId];
      }
      assert t == t';
    }
    assert segs[|segs|..] == [];
  }

  /** `deserialize_contig_details`, the loop that rebuilds the segments. */
  method DeserializeContigDetails(cs: seq<DetailCodes>, segmentSize: U32, kmerLength: U32)
    returns (segs: seq<SegmentDesc>)
    ensures segs == DecodeDetails(cs, map[], (segmentSize + kmerLength) % TWO_32)
  {
    var t: InGroupTable := map[];
    var pred := (segmentSize + kmerLength) % TWO_32;
    segs := [];
    for k := 0 to |cs|
      invariant segs + DecodeDetails(cs[k..], t, pred) == DecodeDetails(cs, map[], pred)
    {
      var c := cs[k];
      var g := c.groupId % TWO_32;
      var prev := LastInGroup(t, g);
      var inGroupId;
      if prev == -1 {
        inGroupId := c.inGroupId;
      } else if c.inGroupId == 0 {
        inGroupId := 0;
      } else if c.inGroupId == 1 {
        inGroupId := prev + 1;
      } else {
        inGroupId := Utils.ZigzagDecodeRel(c.inGroupId - 1, prev + 1);
      }
      assert inGroupId == InGroupDecode(c.inGroupId, prev);
      inGroupId := inGroupId % TWO_32;
      var seg := SegmentDesc(g, inGroupId, c.orientation != 0, Utils.ZigzagDecodeRel(c.rawLength, pred) % TWO_32);
      assert seg == DecodeOne(c, t, pred);
      DecodeDetailsStep(cs, k, t, pred);
      AppendStep(segs, seg, DecodeDetails(cs[k + 1..], Record(t, g, inGroupId), pred));
      segs := segs + [seg];
      ghost var t' := Record(t, g, inGroupId);
      if inGroupId > prev && inGroupId > 0 {
        t := t[g := inGroupId];
      }
      assert t == t';
    }
    assert cs[|cs|..] == [];
  }
}
