/**
 * The collection of format v1 (src/core/collection_v1.cpp): samples with
 * their contigs and segments, kept in maps keyed by name, the registration
 * order of the samples, and the whole collection written to and read from
 * one byte stream.
 */
module CollectionV1 {
  import opened Basics
  import opened Collection
  import opened CollectionV1Format

  /** The filler of slots not placed yet. */
  const SENTINEL := SegmentDesc(555555555, 555555555, true, 555555555)

  /** `sample_ids` gives each sample its position in `order`, and back. */
  ghost predicate Ordered(ids: map<Name, nat>, order: seq<Name>)
  {
    (forall n {:trigger ids[n]} | n in ids :: ids[n] < |order| && order[ids[n]] == n)
    && (forall i | 0 <= i < |order| :: order[i] in ids && ids[order[i]] == i)
  }

  lemma OrderedAppend(ids: map<Name, nat>, order: seq<Name>, n: Name)
    requires Ordered(ids, order) && n !in ids
    ensures Ordered(ids[n := |order|], order + [n])
  {
    var order' := order + [n];
    forall i | 0 <= i < |order'|
      ensures order'[i] in ids[n := |order|] && ids[n := |order|][order'[i]] == i
    {
      if i < |order| {
        assert order'[i] == order[i];
      }
    }
  }

  /** What `col`, `sample_ids` and `contig_ids_no_seg` keep true of each other. */
  ghost predicate Wf(col: map<Name, seq<ContigDesc>>, ids: map<Name, nat>, order: seq<Name>,
                     cids: map<(Name, Name), (nat, nat)>)
  {
    Ordered(ids, order)
    && ids.Keys == col.Keys
    && |ids| == |order| && |col| == |order|
    && (forall key {:trigger cids[key]} | key in cids :: key.0 in col && cids[key].0 < |col[key.0]|)
  }

  /** The contigs of `stored` once the pair is filed: unchanged when filed already, else one more. */
  function Filed(col: map<Name, seq<ContigDesc>>, cids: map<(Name, Name), (nat, nat)>,
                 stored: Name, contigName: Name): (cs: seq<ContigDesc>)
    ensures (stored, ContigName(contigName)) in cids ==> cs == Entries(col, stored)
    ensures (stored, ContigName(contigName)) !in cids ==>
      |cs| == |Entries(col, stored)| + 1 && cs[..|cs| - 1] == Entries(col, stored)
      && cs[|cs| - 1] == ContigDesc(contigName, [])
  {
    if (stored, ContigName(contigName)) in cids then Entries(col, stored)
    else Entries(col, stored) + [ContigDesc(contigName, [])]
  }

  /** The index in `Filed(..)` of the contig filed under the pair. */
  function FiledIndex(col: map<Name, seq<ContigDesc>>, cids: map<(Name, Name), (nat, nat)>,
                      stored: Name, contigName: Name): (ci: nat)
    ensures (stored, ContigName(contigName)) in cids ==> ci == cids[(stored, ContigName(contigName))].0
    ensures (stored, ContigName(contigName)) !in cids ==> ci == |Entries(col, stored)|
  {
    var key := (stored, ContigName(contigName));
    if key in cids then cids[key].0 else |Entries(col, stored)|
  }

  /** Filing a new pair, and the sample with it when it is new, keeps `Wf`. */
  lemma WfFile(col: map<Name, seq<ContigDesc>>, ids: map<Name, nat>, order: seq<Name>,
               cids: map<(Name, Name), (nat, nat)>, stored: Name, contigName: Name)
    requires Wf(col, ids, order, cids)
    requires (stored, ContigName(contigName)) !in cids
    ensures var ids', order' := if stored in ids then ids else ids[stored := |order|],
                                if stored in ids then order else order + [stored];
      Wf(col[stored := Filed(col, cids, stored, contigName)], ids', order',
         cids[(stored, ContigName(contigName)) := (FiledIndex(col, cids, stored, contigName), 0)])
  {
    if stored !in ids {
      OrderedAppend(ids, order, stored);
    }
  }

  /** Replacing one contig by another keeps `Wf`. */
  lemma WfReplace(col: map<Name, seq<ContigDesc>>, ids: map<Name, nat>, order: seq<Name>,
                  cids: map<(Name, Name), (nat, nat)>, stored: Name, ci: nat, c: ContigDesc)
    requires Wf(col, ids, order, cids)
    requires stored in col && ci < |col[stored]|
    ensures Wf(col[stored := col[stored][ci := c]], ids, order, cids)
  {
  }

  /** The samples named in `names`, each with its contigs. */
  function InOrder(names: seq<Name>, col: map<Name, seq<ContigDesc>>): (xs: seq<Sample>)
    requires forall i | 0 <= i < |names| :: names[i] in col
    ensures |xs| == |names|
    ensures forall i | 0 <= i < |names| :: xs[i] == Sample(names[i], col[names[i]])
  {
    seq(|names|, i requires 0 <= i < |names| && names[i] in col => Sample(names[i], col[names[i]]))
  }

  /** The map from (sample, short contig name) to (contig index, segment count). */
  type ContigIds = map<(Name, Name), (nat, nat)>

  /** The samples of a stream, by name. */
  function NamesOf(xs: seq<Sample>): (names: seq<Name>)
    ensures |names| == |xs|
    ensures forall i | 0 <= i < |xs| :: names[i] == xs[i].name
  {
    if xs == [] then [] else NamesOf(xs[..|xs| - 1]) + [xs[|xs| - 1].name]
  }

  predicate DistinctNames(xs: seq<Sample>)
  {
    forall i, j | 0 <= i < j < |xs| :: xs[i].name != xs[j].name
  }

  /**
   * The contigs of a sample read over the slots `prev` it already has:
   * `resize(|cs|)` keeps the first slots and adds empty ones, then each slot
   * takes the name read and has the segments read appended to its own.
   */
  function Reload(prev: seq<ContigDesc>, cs: seq<ContigDesc>): (r: seq<ContigDesc>)
  {
    seq(|cs|, j requires 0 <= j < |cs| =>
      ContigDesc(cs[j].name, (if j < |prev| then prev[j].segments else []) + cs[j].segments))
  }

  lemma ReloadEmpty(cs: seq<ContigDesc>)
    ensures Reload([], cs) == cs
  {
    forall j | 0 <= j < |cs| ensures Reload([], cs)[j] == cs[j] {
      assert [] + cs[j].segments == cs[j].segments;
    }
  }

  /** `col` after reading `xs` into an empty map: a name read again is reloaded over its own slots. */
  function ColOf(xs: seq<Sample>): (col: map<Name, seq<ContigDesc>>)
  {
    if xs == [] then map[]
    else
      var m, x := ColOf(xs[..|xs| - 1]), xs[|xs| - 1];
      m[x.name := Reload(Entries(m, x.name), x.contigs)]
  }

  /** With no name repeated, `col` holds each sample read under its name, and nothing else. */
  lemma {:induction false} ColOfDistinct(xs: seq<Sample>)
    requires DistinctNames(xs)
    ensures forall n :: n in ColOf(xs) <==> n in NamesOf(xs)
    ensures forall i | 0 <= i < |xs| :: ColOf(xs)[xs[i].name] == xs[i].contigs
    decreases |xs|
  {
    if xs != [] {
      var p, x := xs[..|xs| - 1], xs[|xs| - 1];
      assert DistinctNames(p);
      ColOfDistinct(p);
      assert NamesOf(xs) == NamesOf(p) + [x.name];
      assert x.name !in ColOf(p) by {
        forall i | 0 <= i < |p| ensures NamesOf(p)[i] != x.name {
          assert p[i] == xs[i];
        }
      }
      ReloadEmpty(x.contigs);
      forall i | 0 <= i < |xs| - 1 ensures ColOf(xs)[xs[i].name] == xs[i].contigs {
        assert p[i] == xs[i];
      }
    }
  }

  /** `sample_ids` after reading `xs` on top of `ids`: each name gets the size of the map at that point. */
  function IdsFrom(ids: map<Name, nat>, xs: seq<Sample>): (r: map<Name, nat>)
  {
    if xs == [] then ids
    else
      var m := IdsFrom(ids, xs[..|xs| - 1]);
      m[xs[|xs| - 1].name := |m|]
  }

  /** `contig_ids_no_seg` after the contigs `cs` of sample `name`: a later contig with the same short name wins. */
  function IdsOf(name: Name, cs: seq<ContigDesc>, cids: ContigIds): (r: ContigIds)
  {
    if cs == [] then cids
    else
      var c := cs[|cs| - 1];
      IdsOf(name, cs[..|cs| - 1], cids)[(name, ContigName(c.name)) := (|cs| - 1, |c.segments|)]
  }

  /** `mm_contig2sample` after the contigs `cs` of sample `name`: one more entry per contig. */
  function ListedOf(name: Name, cs: seq<ContigDesc>, c2s: map<Name, seq<Name>>): (r: map<Name, seq<Name>>)
  {
    if cs == [] then c2s
    else
      var m := ListedOf(name, cs[..|cs| - 1], c2s);
      var short := ContigName(cs[|cs| - 1].name);
      m[short := Entries(m, short) + [name]]
  }

  function AllIds(cids: ContigIds, xs: seq<Sample>): (r: ContigIds)
  {
    if xs == [] then cids
    else IdsOf(xs[|xs| - 1].name, xs[|xs| - 1].contigs, AllIds(cids, xs[..|xs| - 1]))
  }

  function AllListed(c2s: map<Name, seq<Name>>, xs: seq<Sample>): (r: map<Name, seq<Name>>)
  {
    if xs == [] then c2s
    else ListedOf(xs[|xs| - 1].name, xs[|xs| - 1].contigs, AllListed(c2s, xs[..|xs| - 1]))
  }

  lemma LoadSnoc(ids: map<Name, nat>, cids: ContigIds, c2s: map<Name, seq<Name>>, xs: seq<Sample>, x: Sample)
    ensures ColOf(xs + [x]) == ColOf(xs)[x.name := Reload(Entries(ColOf(xs), x.name), x.contigs)]
    ensures IdsFrom(ids, xs + [x]) == IdsFrom(ids, xs)[x.name := |IdsFrom(ids, xs)|]
    ensures AllIds(cids, xs + [x]) == IdsOf(x.name, x.contigs, AllIds(cids, xs))
    ensures AllListed(c2s, xs + [x]) == ListedOf(x.name, x.contigs, AllListed(c2s, xs))
    ensures NamesOf(xs + [x]) == NamesOf(xs) + [x.name]
  {
    assert (xs + [x])[..|xs|] == xs;
  }

  lemma FileSnoc(name: Name, cids: ContigIds, c2s: map<Name, seq<Name>>, cs: seq<ContigDesc>, c: ContigDesc)
    ensures IdsOf(name, cs + [c], cids) == IdsOf(name, cs, cids)[(name, ContigName(c.name)) := (|cs|, |c.segments|)]
    ensures var m, short := ListedOf(name, cs, c2s), ContigName(c.name);
      ListedOf(name, cs + [c], c2s) == m[short := Entries(m, short) + [name]]
  {
    assert (cs + [c])[..|cs|] == cs;
  }

  lemma GlueStep<T>(acc: seq<T>, x: T, r: Option<(seq<T>, seq<Byte>)>)
    ensures Glue(acc, Glue([x], r)) == Glue(acc + [x], r)
  {
    if r.Some? {
      assert acc + ([x] + r.value.0) == (acc + [x]) + r.value.0;
    }
  }

  lemma GlueNil<T>(r: Option<(seq<T>, seq<Byte>)>)
    ensures Glue([], r) == r
  {
    if r.Some? {
      assert [] + r.value.0 == r.value.0;
    }
  }

  lemma GlueDone<T>(acc: seq<T>, q: seq<Byte>)
    ensures Glue(acc, Some(([], q))) == Some((acc, q))
  {
    assert acc + [] == acc;
  }

  class CollectionV1 {
    /** Contigs of every sample. */
    var col: map<Name, seq<ContigDesc>>
    /** (sample, short contig name) to (index in col[sample], number of segments read). */
    var contigIdsNoSeg: ContigIds
    /** Short contig name to the samples holding it, in insertion order. */
    var contig2sample: map<Name, seq<Name>>
    /** Sample name to its registration number. */
    var sampleIds: map<Name, nat>
    /** Sample names in the order they were read back. */
    var vSampleName: seq<Name>
    var cmdLines: seq<CmdLine>
    /** Sample names in registration order. */
    ghost var order: seq<Name>

    ghost predicate Valid()
      reads this
    {
      Wf(col, sampleIds, order, contigIdsNoSeg)
    }

    constructor ()
      ensures Valid()
      ensures col == map[] && contigIdsNoSeg == map[] && contig2sample == map[]
      ensures sampleIds == map[] && vSampleName == [] && cmdLines == [] && order == []
    {
      col := map[];
      contigIdsNoSeg := map[];
      contig2sample := map[];
      sampleIds := map[];
      vSampleName := [];
      cmdLines := [];
      order := [];
    }

    /** A sample seen for the first time gets the next registration number and no contigs yet. */
    method Admit(stored: Name)
      requires Valid()
      requires stored !in sampleIds
      modifies this
      ensures Valid()
      ensures sampleIds == old(sampleIds)[stored := |old(order)|] && order == old(order) + [stored]
      ensures col == old(col)[stored := []]
      ensures contigIdsNoSeg == old(contigIdsNoSeg) && contig2sample == old(contig2sample)
      ensures vSampleName == old(vSampleName) && cmdLines == old(cmdLines)
    {
      OrderedAppend(sampleIds, order, stored);
      sampleIds := sampleIds[stored := |sampleIds|];
      order := order + [stored];
      col := col[stored := []];
    }

    /** Appends contig `contigName` to a registered sample and files it under its short name. */
    method FileContig(stored: Name, contigName: Name)
      requires Valid()
      requires stored in sampleIds && (stored, ContigName(contigName)) !in contigIdsNoSeg
      modifies this
      ensures Valid()
      ensures col == old(col)[stored := old(col)[stored] + [ContigDesc(contigName, [])]]
      ensures contigIdsNoSeg == old(contigIdsNoSeg)[(stored, ContigName(contigName)) := (|old(col)[stored]|, 0)]
      ensures var short := ContigName(contigName);
        contig2sample == old(contig2sample)[short := Entries(old(contig2sample), short) + [stored]]
      ensures sampleIds == old(sampleIds) && order == old(order)
      ensures vSampleName == old(vSampleName) && cmdLines == old(cmdLines)
    {
      WfFile(col, sampleIds, order, contigIdsNoSeg, stored, contigName);
      var short := ExtractContigName(contigName);
      var contigs := col[stored];
      contigIdsNoSeg := contigIdsNoSeg[(stored, short) := (|contigs|, 0)];
      col := col[stored := contigs + [ContigDesc(contigName, [])]];
      var samples := if short in contig2sample then contig2sample[short] else [];
      contig2sample := contig2sample[short := samples + [stored]];
    }

    /**
     * `register_sample_contig`: the sample gets the next registration
     * number when it is new; the contig is appended unless the sample
     * already has one with the same short name, which is refused.
     */
    method RegisterSampleContig(sampleName: Name, contigName: Name) returns (ok: bool)
      requires Valid()
      modifies this
      ensures Valid()
      ensures var stored, short := StoredSample(sampleName, contigName), ContigName(contigName);
        ok <==> (stored, short) !in old(contigIdsNoSeg)
      ensures !ok ==> col == old(col) && contigIdsNoSeg == old(contigIdsNoSeg) && contig2sample == old(contig2sample)
                      && sampleIds == old(sampleIds) && order == old(order)
      ensures var stored, short := StoredSample(sampleName, contigName), ContigName(contigName);
        var contigs := Entries(old(col), stored);
        ok ==>
          sampleIds == (if stored in old(sampleIds) then old(sampleIds) else old(sampleIds)[stored := |old(order)|])
          && col == old(col)[stored := contigs + [ContigDesc(contigName, [])]]
          && contigIdsNoSeg == old(contigIdsNoSeg)[(stored, short) := (|contigs|, 0)]
          && contig2sample == old(contig2sample)[short := Entries(old(contig2sample), short) + [stored]]
      ensures vSampleName == old(vSampleName) && cmdLines == old(cmdLines)
    {
      var short := ExtractContigName(contigName);
      var stored := if sampleName == [] then short else sampleName;
      ghost var col0 := col;
      if stored !in sampleIds {
        Admit(stored);
      }
      if (stored, short) in contigIdsNoSeg {
        return false;
      }
      ghost var c := ContigDesc(contigName, []);
      assert col[stored := col[stored] + [c]] == col0[stored := Entries(col0, stored) + [c]];
      FileContig(stored, contigName);
      ok := true;
    }

    /**
     * `add_segment_basic`: the index of the contig filed under the sample
     * and the short name, filing a new empty contig when there is none.
     */
    method AddSegmentBasic(sampleName: Name, contigName: Name) returns (ci: nat)
      requires Valid()
      requires StoredSample(sampleName, contigName) in sampleIds
      modifies this
      ensures Valid()
      ensures var stored := StoredSample(sampleName, contigName);
        ci == FiledIndex(old(col), old(contigIdsNoSeg), stored, contigName)
        && col == old(col)[stored := Filed(old(col), old(contigIdsNoSeg), stored, contigName)]
        && ci < |col[stored]|
      ensures var stored, short := StoredSample(sampleName, contigName), ContigName(contigName);
        contigIdsNoSeg == (if (stored, short) in old(contigIdsNoSeg) then old(contigIdsNoSeg)
                           else old(contigIdsNoSeg)[(stored, short) := (ci, 0)])
        && contig2sample == (if (stored, short) in old(contigIdsNoSeg) then old(contig2sample)
                             else old(contig2sample)[short := Entries(old(contig2sample), short) + [stored]])
      ensures sampleIds == old(sampleIds) && order == old(order)
      ensures vSampleName == old(vSampleName) && cmdLines == old(cmdLines)
    {
      var short := ExtractContigName(contigName);
      var stored := if sampleName == [] then short else sampleName;
      if (stored, short) in contigIdsNoSeg {
        ci := contigIdsNoSeg[(stored, short)].0;
        assert col[stored := col[stored]] == col;
      } else {
        ci := |col[stored]|;
        FileContig(stored, contigName);
      }
    }

    /**
     * `add_segment_placed`: the segment is put at `place` of the contig
     * found (or filed) by `add_segment_basic`; a list too short is padded
     * with the 555555555 sentinel first.
     */
    method AddSegmentPlaced(sampleName: Name, contigName: Name, place: U32, seg: SegmentDesc)
      requires Valid()
      requires StoredSample(sampleName, contigName) in sampleIds
      modifies this
      ensures Valid()
      ensures var stored := StoredSample(sampleName, contigName);
        var base := Filed(old(col), old(contigIdsNoSeg), stored, contigName);
        var ci := FiledIndex(old(col), old(contigIdsNoSeg), stored, contigName);
        ci < |base|
        && col == old(col)[stored := base[ci := ContigDesc(base[ci].name, PlaceSegment(base[ci].segments, place, seg, SENTINEL))]]
      ensures var stored, short := StoredSample(sampleName, contigName), ContigName(contigName);
        contigIdsNoSeg == (if (stored, short) in old(contigIdsNoSeg) then old(contigIdsNoSeg)
                           else old(contigIdsNoSeg)[(stored, short) := (|Entries(old(col), stored)|, 0)])
      ensures sampleIds == old(sampleIds) && order == old(order)
      ensures vSampleName == old(vSampleName) && cmdLines == old(cmdLines)
    {
      var ci := AddSegmentBasic(sampleName, contigName);
      var stored := if sampleName == [] then ContigName(contigName) else sampleName;
      var x := col[stored][ci];
      var segs := x.segments;
      if place >= |segs| {
        segs := segs + seq(place + 1 - |segs|, _ => SENTINEL);
      }
      segs := segs[place := seg];
      assert segs == PlaceSegment(x.segments, place, seg, SENTINEL);
      WfReplace(col, sampleIds, order, contigIdsNoSeg, stored, ci, ContigDesc(x.name, segs));
      col := col[stored := col[stored][ci := ContigDesc(x.name, segs)]];
    }

    /** `get_sample_original_order`: sample names by registration number. */
    method GetSampleOriginalOrder() returns (vec: seq<Name>)
      requires Valid()
      ensures vec == order
    {
      vec := seq(|sampleIds|, _ => []);
      var rest := sampleIds.Keys;
      while rest != {}
        invariant rest <= sampleIds.Keys
        invariant |vec| == |order|
        invariant forall n | n in sampleIds.Keys - rest :: vec[sampleIds[n]] == n
        decreases |rest|
      {
        var n :| n in rest;
        vec := vec[sampleIds[n] := n];
        rest := rest - {n};
      }
      forall i | 0 <= i < |vec| ensures vec[i] == order[i] {
        assert order[i] in sampleIds.Keys - rest;
      }
    }

    /** `serialize`: the samples in registration order, then the command lines; dates only when `storeDate`. */
    method Serialize(storeDate: bool) returns (data: seq<Byte>)
      requires Valid()
      ensures data == EncCollection(InOrder(order, col), cmdLines, storeDate)
    {
      WfNames(col, sampleIds, order, contigIdsNoSeg);
      var colOrder := GetSampleOriginalOrder();
      data := EncodeCollection(|col|, colOrder, col, cmdLines, storeDate);
    }

    /**
     * `deserialize`: `col` is rebuilt from the stream, a sample name read
     * twice keeping its slots and having segments appended; `sample_ids`,
     * `contig_ids_no_seg`, `mm_contig2sample` and `v_sample_name` are not
     * cleared but added to; the command lines are replaced.
     */
    method Deserialize(data: seq<Byte>) returns (ok: bool, ghost xs: seq<Sample>)
      requires DecCollection(data).Some?
      modifies this
      ensures ok
      ensures DecCollection(data) == Some((xs, cmdLines))
      ensures col == ColOf(xs) && sampleIds == IdsFrom(old(sampleIds), xs)
        && contigIdsNoSeg == AllIds(old(contigIdsNoSeg), xs)
        && contig2sample == AllListed(old(contig2sample), xs)
        && vSampleName == old(vSampleName) + NamesOf(xs)
      ensures old(sampleIds) == map[] && old(contigIdsNoSeg) == map[] && DistinctNames(xs)
              ==> Valid() && order == NamesOf(xs)
    {
      ghost var ids0, cids0 := sampleIds, contigIdsNoSeg;
      var loaded, ids, cids, c2s, names, cmds, xs' :=
        ReadCollection(data, sampleIds, contigIdsNoSeg, contig2sample, vSampleName);
      xs := xs';
      col, sampleIds, contigIdsNoSeg, contig2sample, vSampleName := loaded, ids, cids, c2s, names;
      cmdLines := cmds;
      order := NamesOf(xs);
      if ids0 == map[] && cids0 == map[] && DistinctNames(xs) {
        WfLoaded(xs);
      }
      ok := true;
    }

    /** `get_no_samples`: the number of samples. */
    method GetNoSamples() returns (n: nat)
      requires Valid()
      ensures n == |order|
    {
      n := |col|;
    }

    /** `get_no_contigs`: -1 for an unknown sample, else its contig count as an int32_t. */
    method GetNoContigs(sampleName: Name) returns (n: int)
      ensures sampleName !in col ==> n == -1
      ensures sampleName in col ==> n == Int32(|col[sampleName]|)
      ensures sampleName in col && |col[sampleName]| < TWO_31 ==> n == |col[sampleName]|
    {
      if sampleName !in col {
        return -1;
      }
      n := Int32(|col[sampleName]|);
    }

    /** `get_reference_name`: the first sample read back, if any. */
    method GetReferenceName() returns (ok: bool, name: Name)
      ensures ok <==> vSampleName != []
      ensures ok ==> name == vSampleName[0]
    {
      if vSampleName == [] {
        return false, [];
      }
      return true, vSampleName[0];
    }
  }

  // ---------------------------------------------------------------------
  // The loops of serialize

  /** The body of `serialize` once the registration order is known: `count` is the number of samples. */
  method EncodeCollection(count: nat, names: seq<Name>, col: map<Name, seq<ContigDesc>>,
                          cmds: seq<CmdLine>, storeDate: bool) returns (data: seq<Byte>)
    requires forall i | 0 <= i < |names| :: names[i] in col
    requires count == |names|
    ensures data == EncCollection(InOrder(names, col), cmds, storeDate)
  {
    var head := EncodeNum(count % TWO_32);
    var samples := AppendSamples(names, col);
    var mid := EncodeNum(|cmds| % TWO_32);
    var tail := AppendCmds(cmds, storeDate);
    data := head + (samples + (mid + tail));
  }

  method AppendSamples(names: seq<Name>, col: map<Name, seq<ContigDesc>>) returns (e: seq<Byte>)
    requires forall i | 0 <= i < |names| :: names[i] in col
    ensures e == EncSamples(InOrder(names, col))
  {
    e := [];
    for i := 0 to |names|
      invariant e == EncSamples(InOrder(names[..i], col))
    {
      var enc := AppendSample(names[i], col[names[i]]);
      SamplesPrefix(names, col, i);
      e := e + enc;
    }
    assert names[..|names|] == names;
  }

  lemma SamplesPrefix(names: seq<Name>, col: map<Name, seq<ContigDesc>>, i: nat)
    requires forall k | 0 <= k < |names| :: names[k] in col
    requires i < |names|
    ensures EncSamples(InOrder(names[..i + 1], col))
         == EncSamples(InOrder(names[..i], col)) + EncSample(Sample(names[i], col[names[i]]))
  {
    assert InOrder(names[..i + 1], col) == InOrder(names[..i], col) + [Sample(names[i], col[names[i]])];
    EncSamplesSnoc(InOrder(names[..i], col), Sample(names[i], col[names[i]]));
  }

  lemma ContigsPrefix(cs: seq<ContigDesc>, j: nat)
    requires j < |cs|
    ensures EncContigs(cs[..j + 1]) == EncContigs(cs[..j]) + EncContig(cs[j])
  {
    assert cs[..j + 1] == cs[..j] + [cs[j]];
    EncContigsSnoc(cs[..j], cs[j]);
  }

  /** The samples in registration order are exactly the samples of the collection. */
  lemma WfNames(col: map<Name, seq<ContigDesc>>, ids: map<Name, nat>, order: seq<Name>, cids: ContigIds)
    requires Wf(col, ids, order, cids)
    ensures forall i | 0 <= i < |order| :: order[i] in col
    ensures |InOrder(order, col)| == |col|
  {
  }

  /** The bytes of one sample: its name, its contig count, its contigs with their segments. */
  method AppendSample(sampleName: Name, contigs: seq<ContigDesc>) returns (e: seq<Byte>)
    ensures e == EncSample(Sample(sampleName, contigs))
  {
    var body := [];
    for j := 0 to |contigs|
      invariant body == EncContigs(contigs[..j])
    {
      var ce := AppendContig(contigs[j]);
      ContigsPrefix(contigs, j);
      body := body + ce;
    }
    assert contigs[..|contigs|] == contigs;
    e := EncodeString(sampleName) + EncodeNum(|contigs| % TWO_32) + body;
    Assoc(EncodeString(sampleName), EncodeNum(|contigs| % TWO_32), body);
  }

  /** The bytes of one contig: its name, its segment count, its segments. */
  method AppendContig(c: ContigDesc) returns (e: seq<Byte>)
    ensures e == EncContig(c)
  {
    var se := AppendSegments(c.segments);
    e := EncodeString(c.name) + EncodeNum(|c.segments| % TWO_32) + se;
    Assoc(EncodeString(c.name), EncodeNum(|c.segments| % TWO_32), se);
  }

  /** The segment loop of `serialize`: four varints per segment, deltas against the previous one. */
  method AppendSegments(segs: seq<SegmentDesc>) returns (e: seq<Byte>)
    ensures e == EncSegs(segs, NO_PREV)
  {
    e := [];
    var prevGroupId, prevInGroupId, prevRawLength := 0, 0, 0;
    for k := 0 to |segs|
      invariant Prev(prevGroupId, prevInGroupId, prevRawLength) == LastPrev(segs[..k], NO_PREV)
      invariant PrevOk(Prev(prevGroupId, prevInGroupId, prevRawLength))
      invariant e == EncSegs(segs[..k], NO_PREV)
    {
      var seg := segs[k];
      var eGroupId := EncodeDelta(seg.groupId, prevGroupId);
      var eInGroupId := EncodeDelta(seg.inGroupId, prevInGroupId);
      var eRawLength := EncodeDelta(seg.rawLength, prevRawLength);
      assert segs[..k + 1] == segs[..k] + [seg];
      EncSegsSnoc(segs[..k], seg, NO_PREV);
      e := e + (EncodeNum(eGroupId) + (EncodeNum(eInGroupId) + (EncodeNum(eRawLength)
             + EncodeNum(if seg.isRevComp then 1 else 0))));
      prevGroupId, prevInGroupId, prevRawLength := Int32(seg.groupId), Int32(seg.inGroupId), Int32(seg.rawLength);
    }
    assert segs[..|segs|] == segs;
  }

  /** The command lines, each date written as "" unless `storeDate`. */
  method AppendCmds(cmds: seq<CmdLine>, storeDate: bool) returns (e: seq<Byte>)
    ensures e == EncCmds(cmds, storeDate)
  {
    e := [];
    for i := 0 to |cmds|
      invariant e == EncCmds(cmds[..i], storeDate)
    {
      var c := cmds[i];
      assert cmds[..i + 1] == cmds[..i] + [c];
      EncCmdsSnoc(cmds[..i], c, storeDate);
      if storeDate {
        e := e + (EncodeString(c.command) + EncodeString(c.date));
      } else {
        e := e + (EncodeString(c.command) + EncodeString([]));
      }
    }
    assert cmds[..|cmds|] == cmds;
  }

  // ---------------------------------------------------------------------
  // The loops of deserialize

  lemma DecContigsStep(s: seq<Byte>, n: nat, m: nat)
    requires n == m + 1
    ensures DecContig(s).None? ==> DecContigs(s, n).None?
    ensures DecContig(s).Some? ==>
      DecContigs(s, n) == Glue([DecContig(s).value.0], DecContigs(DecContig(s).value.1, m))
  {
    DecManyStep(DecContig, s, n, m);
  }

  /** The maps and the name list after the samples `xs` are read on top of the initial ones. */
  ghost predicate Loaded(xs: seq<Sample>, ids0: map<Name, nat>, cids0: ContigIds, c2s0: map<Name, seq<Name>>,
                         names0: seq<Name>, col: map<Name, seq<ContigDesc>>, ids: map<Name, nat>,
                         cids: ContigIds, c2s: map<Name, seq<Name>>, names: seq<Name>)
  {
    col == ColOf(xs) && ids == IdsFrom(ids0, xs) && cids == AllIds(cids0, xs)
    && c2s == AllListed(c2s0, xs) && names == names0 + NamesOf(xs)
  }

  /** Reading one more sample updates each map as `deserialize` does. */
  lemma LoadedStep(xs: seq<Sample>, ids0: map<Name, nat>, cids0: ContigIds, c2s0: map<Name, seq<Name>>,
                   names0: seq<Name>, col: map<Name, seq<ContigDesc>>, ids: map<Name, nat>,
                   cids: ContigIds, c2s: map<Name, seq<Name>>, names: seq<Name>, x: Sample)
    requires Loaded(xs, ids0, cids0, c2s0, names0, col, ids, cids, c2s, names)
    ensures Loaded(xs + [x], ids0, cids0, c2s0, names0, col[x.name := Reload(Entries(col, x.name), x.contigs)],
                   ids[x.name := |ids|],
                   IdsOf(x.name, x.contigs, cids), ListedOf(x.name, x.contigs, c2s), names + [x.name])
  {
    LoadSnoc(ids0, cids0, c2s0, xs, x);
    Assoc(names0, NamesOf(xs), [x.name]);
  }

  /** While samples are left to read, the next one decodes. */
  lemma SamplesAhead(s: seq<Byte>, n: nat, xs: seq<Sample>, rest: seq<Byte>, next: nat)
    requires DecSamples(s, n).Some? && DecSamples(s, n) == Glue(xs, DecSamples(rest, next + 1))
    ensures DecSample(rest).Some?
  {
    DecSamplesStep(rest, next + 1, next);
  }

  /** Reading one more sample moves it from what is left to what has been read. */
  lemma SamplesAdvance(s: seq<Byte>, n: nat, xs: seq<Sample>, rest: seq<Byte>, next: nat, x: Sample, r: seq<Byte>)
    requires DecSamples(s, n) == Glue(xs, DecSamples(rest, next + 1))
    requires DecSample(rest) == Some((x, r))
    ensures DecSamples(s, n) == Glue(xs + [x], DecSamples(r, next))
  {
    DecSamplesStep(rest, next + 1, next);
    GlueStep(xs, x, DecSamples(r, next));
  }

  lemma DecSamplesZero(s: seq<Byte>)
    ensures DecSamples(s, 0) == Some(([], s))
  {
  }

  lemma DecSamplesStep(s: seq<Byte>, n: nat, m: nat)
    requires n == m + 1
    ensures DecSample(s).None? ==> DecSamples(s, n).None?
    ensures DecSample(s).Some? ==>
      DecSamples(s, n) == Glue([DecSample(s).value.0], DecSamples(DecSample(s).value.1, m))
  {
    DecManyStep(DecSample, s, n, m);
  }

  lemma DecCmdsStep(s: seq<Byte>, n: nat, m: nat)
    requires n == m + 1
    ensures DecCmd(s).None? ==> DecCmds(s, n).None?
    ensures DecCmd(s).Some? ==>
      DecCmds(s, n) == Glue([DecCmd(s).value.0], DecCmds(DecCmd(s).value.1, m))
  {
    DecManyStep(DecCmd, s, n, m);
  }

  /** The four varints of one segment, each value the previous one plus the zigzag-decoded delta. */
  method ReadSegment(s: seq<Byte>, prevGroupId: int, prevInGroupId: int, prevRawLength: int)
    returns (seg: SegmentDesc, rest: seq<Byte>)
    requires DecSeg(s, Prev(prevGroupId, prevInGroupId, prevRawLength)).Some?
    ensures DecSeg(s, Prev(prevGroupId, prevInGroupId, prevRawLength)) == Some((seg, rest))
  {
    var (eGroupId, r1) := TakeNum(s).value;
    var (eInGroupId, r2) := TakeNum(r1).value;
    var (eRawLength, r3) := TakeNum(r2).value;
    var (eOrientation, r4) := TakeNum(r3).value;
    seg := SegmentDesc(DecodeDelta(eGroupId, prevGroupId), DecodeDelta(eInGroupId, prevInGroupId),
                       eOrientation != 0, DecodeDelta(eRawLength, prevRawLength));
    rest := r4;
  }

  /** `no_seg` segments, the deltas of the first taken against zeros. */
  method ReadSegments(s: seq<Byte>, n: U32) returns (segs: seq<SegmentDesc>, rest: seq<Byte>)
    requires DecSegs(s, n, NO_PREV).Some?
    ensures DecSegs(s, n, NO_PREV) == Some((segs, rest))
  {
    segs, rest := [], s;
    var prevGroupId, prevInGroupId, prevRawLength := 0, 0, 0;
    GlueNil(DecSegs(s, n, NO_PREV));
    var k: nat := 0;
    ghost var left: nat := n;
    while k < n
      invariant k <= n && left == n - k
      invariant DecSegs(s, n, NO_PREV) == Glue(segs, DecSegs(rest, left, Prev(prevGroupId, prevInGroupId, prevRawLength)))
    {
      ghost var next: nat := left - 1;
      DecSegsStep(rest, left, Prev(prevGroupId, prevInGroupId, prevRawLength), next);
      var seg, r := ReadSegment(rest, prevGroupId, prevInGroupId, prevRawLength);
      GlueStep(segs, seg, DecSegs(r, next, After(seg)));
      segs := segs + [seg];
      rest := r;
      prevGroupId, prevInGroupId, prevRawLength := Int32(seg.groupId), Int32(seg.inGroupId), Int32(seg.rawLength);
      k, left := k + 1, next;
    }
    GlueDone(segs, rest);
  }

  /** A contig's name and segment count; its segments follow. */
  method ReadContigHead(s: seq<Byte>) returns (contigName: Name, noSeg: U32, rest: seq<Byte>)
    requires DecContig(s).Some?
    ensures DecSegs(rest, noSeg, NO_PREV).Some?
    ensures DecContig(s) == Some((ContigDesc(contigName, DecSegs(rest, noSeg, NO_PREV).value.0),
                                  DecSegs(rest, noSeg, NO_PREV).value.1))
  {
    var (name, r1) := TakeString(s).value;
    var (n, r2) := TakeNum(r1).value;
    contigName, noSeg, rest := name, n, r2;
  }

  /** A stream that decodes, read piece by piece: the sample count, the samples, the command count, the command lines. */
  lemma CollectionParts(data: seq<Byte>)
    requires DecCollection(data).Some?
    ensures TakeNum(data).Some?
    ensures var (n, s1) := TakeNum(data).value;
      DecSamples(s1, n).Some? && DecCollection(data).value.0 == DecSamples(s1, n).value.0
      && TakeNum(DecSamples(s1, n).value.1).Some?
      && var (m, s3) := TakeNum(DecSamples(s1, n).value.1).value;
      DecCmds(s3, m).Some? && DecCollection(data).value.1 == DecCmds(s3, m).value.0
  {
  }

  /** The reading part of `deserialize`, on the maps it adds to. */
  method ReadCollection(data: seq<Byte>, ids0: map<Name, nat>, cids0: ContigIds,
                        c2s0: map<Name, seq<Name>>, names0: seq<Name>)
    returns (col: map<Name, seq<ContigDesc>>, ids: map<Name, nat>, cids: ContigIds,
             c2s: map<Name, seq<Name>>, names: seq<Name>, cmds: seq<CmdLine>, ghost xs: seq<Sample>)
    requires DecCollection(data).Some?
    ensures DecCollection(data) == Some((xs, cmds))
    ensures col == ColOf(xs) && ids == IdsFrom(ids0, xs) && cids == AllIds(cids0, xs)
      && c2s == AllListed(c2s0, xs) && names == names0 + NamesOf(xs)
  {
    CollectionParts(data);
    var (n, s1) := TakeNum(data).value;
    var rest;
    col, ids, cids, c2s, names, rest, xs := ReadSamples(s1, n, ids0, cids0, c2s0, names0);
    var (m, s3) := TakeNum(rest).value;
    var r4;
    cmds, r4 := ReadCmds(s3, m);
  }

  /**
   * The sample loop of `deserialize`: `col` starts empty, the other maps and
   * the name list are added to.
   */
  method ReadSamples(s: seq<Byte>, n: U32, ids0: map<Name, nat>, cids0: ContigIds,
                     c2s0: map<Name, seq<Name>>, names0: seq<Name>)
    returns (col: map<Name, seq<ContigDesc>>, ids: map<Name, nat>, cids: ContigIds,
             c2s: map<Name, seq<Name>>, names: seq<Name>, rest: seq<Byte>, ghost xs: seq<Sample>)
    requires DecSamples(s, n).Some?
    ensures DecSamples(s, n) == Some((xs, rest))
    ensures col == ColOf(xs) && ids == IdsFrom(ids0, xs)
    ensures cids == AllIds(cids0, xs) && c2s == AllListed(c2s0, xs)
    ensures names == names0 + NamesOf(xs)
  {
    col, ids, cids, c2s, names, rest := map[], ids0, cids0, c2s0, names0, s;
    xs := [];
    GlueNil(DecSamples(s, n));
    assert names0 + [] == names0;
    var i: nat := 0;
    ghost var left: nat := n;
    while i < n
      invariant i <= n && left == n - i
      invariant DecSamples(s, n) == Glue(xs, DecSamples(rest, left))
      invariant Loaded(xs, ids0, cids0, c2s0, names0, col, ids, cids, c2s, names)
    {
      ghost var next: nat := left - 1;
      SamplesAhead(s, n, xs, rest, next);
      var sampleName, cs, r3, cids', c2s' := ReadSample(rest, cids, c2s);
      ghost var x := Sample(sampleName, cs);
      SamplesAdvance(s, n, xs, rest, next, x, r3);
      LoadedStep(xs, ids0, cids0, c2s0, names0, col, ids, cids, c2s, names, x);
      names := names + [sampleName];
      ids := ids[sampleName := |ids|];
      col := col[sampleName := Reload(Entries(col, sampleName), cs)];
      cids, c2s := cids', c2s';
      xs := xs + [x];
      rest := r3;
      i, left := i + 1, next;
    }
    DecSamplesZero(rest);
    GlueDone(xs, rest);
  }

  /** One sample: its name, its contig count and its contigs, each filed under its short name. */
  method ReadSample(s: seq<Byte>, cids0: ContigIds, c2s0: map<Name, seq<Name>>)
    returns (sampleName: Name, cs: seq<ContigDesc>, rest: seq<Byte>, cids: ContigIds, c2s: map<Name, seq<Name>>)
    requires DecSample(s).Some?
    ensures DecSample(s) == Some((Sample(sampleName, cs), rest))
    ensures cids == IdsOf(sampleName, cs, cids0) && c2s == ListedOf(sampleName, cs, c2s0)
  {
    var noContigs, r2;
    sampleName, noContigs, r2 := ReadSampleHead(s);
    cs, rest, cids, c2s := ReadContigs(r2, noContigs, sampleName, cids0, c2s0);
  }

  /** The contigs of sample `name`, filing each under its short name as it is read. */
  method ReadContigs(s: seq<Byte>, n: U32, name: Name, cids0: ContigIds, c2s0: map<Name, seq<Name>>)
    returns (cs: seq<ContigDesc>, rest: seq<Byte>, cids: ContigIds, c2s: map<Name, seq<Name>>)
    requires DecContigs(s, n).Some?
    ensures DecContigs(s, n) == Some((cs, rest))
    ensures cids == IdsOf(name, cs, cids0) && c2s == ListedOf(name, cs, c2s0)
  {
    cs, rest, cids, c2s := [], s, cids0, c2s0;
    GlueNil(DecContigs(s, n));
    var j: nat := 0;
    ghost var left: nat := n;
    while j < n
      invariant j <= n && j == |cs| && left == n - j
      invariant DecContigs(s, n) == Glue(cs, DecContigs(rest, left))
      invariant cids == IdsOf(name, cs, cids0) && c2s == ListedOf(name, cs, c2s0)
    {
      ghost var next: nat := left - 1;
      assert DecContig(rest).Some? by {
        DecContigsStep(rest, left, next);
      }
      var contigName, noSeg, r2 := ReadContigHead(rest);
      var segs, r3 := ReadSegments(r2, noSeg);
      var c := ContigDesc(contigName, segs);
      assert DecContigs(s, n) == Glue(cs + [c], DecContigs(r3, next)) && noSeg == |c.segments| by {
        DecContigsStep(rest, left, next);
        GlueStep(cs, c, DecContigs(r3, next));
      }
      var short := ExtractContigName(contigName);
      cids := cids[(name, short) := (j, noSeg)];
      var listed := if short in c2s then c2s[short] else [];
      c2s := c2s[short := listed + [name]];
      FileSnoc(name, cids0, c2s0, cs, c);
      cs := cs + [c];
      rest := r3;
      j, left := j + 1, next;
    }
    GlueDone(cs, rest);
  }

  /** A sample's name and contig count; its contigs follow. */
  method ReadSampleHead(s: seq<Byte>) returns (sampleName: Name, noContigs: U32, rest: seq<Byte>)
    requires DecSample(s).Some?
    ensures DecContigs(rest, noContigs).Some?
    ensures DecSample(s) == Some((Sample(sampleName, DecContigs(rest, noContigs).value.0),
                                  DecContigs(rest, noContigs).value.1))
  {
    var (name, r1) := TakeString(s).value;
    var (n, r2) := TakeNum(r1).value;
    sampleName, noContigs, rest := name, n, r2;
  }

  /** The command lines, each a command and a date. */
  method ReadCmds(s: seq<Byte>, n: U32) returns (cmds: seq<CmdLine>, rest: seq<Byte>)
    requires DecCmds(s, n).Some?
    ensures DecCmds(s, n) == Some((cmds, rest))
  {
    cmds, rest := [], s;
    GlueNil(DecCmds(s, n));
    var i: nat := 0;
    ghost var left: nat := n;
    while i < n
      invariant i <= n && left == n - i
      invariant DecCmds(s, n) == Glue(cmds, DecCmds(rest, left))
    {
      ghost var next: nat := left - 1;
      DecCmdsStep(rest, left, next);
      var (command, r1) := TakeString(rest).value;
      var (date, r2) := TakeString(r1).value;
      var c := CmdLine(command, date);
      GlueStep(cmds, c, DecCmds(r2, next));
      cmds := cmds + [c];
      rest := r2;
      i, left := i + 1, next;
    }
    GlueDone(cmds, rest);
  }

  // ---------------------------------------------------------------------
  // What deserialize builds

  /** Every key `IdsOf` adds is filed under `name`, at an index of `cs`; other keys keep their value. */
  lemma {:induction false} IdsOfKeys(name: Name, cs: seq<ContigDesc>, cids: ContigIds)
    ensures forall key | key in IdsOf(name, cs, cids) ::
      (key in cids && IdsOf(name, cs, cids)[key] == cids[key])
      || (key.0 == name && IdsOf(name, cs, cids)[key].0 < |cs|)
    decreases |cs|
  {
    if cs != [] {
      IdsOfKeys(name, cs[..|cs| - 1], cids);
    }
  }

  /**
   * Each contig of `cs` is filed under its short name, pointing at the
   * last contig with that short name and holding its segment count.
   */
  lemma {:induction false} IdsOfLast(name: Name, cs: seq<ContigDesc>, cids: ContigIds, j: nat)
    requires j < |cs|
    ensures var key := (name, ContigName(cs[j].name));
      key in IdsOf(name, cs, cids)
      && var v := IdsOf(name, cs, cids)[key];
      j <= v.0 < |cs| && ContigName(cs[v.0].name) == ContigName(cs[j].name) && v.1 == |cs[v.0].segments|
    decreases |cs|
  {
    var last := |cs| - 1;
    if j < last && ContigName(cs[last].name) != ContigName(cs[j].name) {
      IdsOfLast(name, cs[..last], cids, j);
      assert IdsOf(name, cs[..last], cids)[(name, ContigName(cs[j].name))].0 < last by {
        IdsOfKeys(name, cs[..last], cids);
      }
    }
  }

  /** Reading one more sample, with a name not read before, keeps `Wf`. */
  lemma WfLoadStep(col: map<Name, seq<ContigDesc>>, ids: map<Name, nat>, names: seq<Name>,
                   cids: ContigIds, x: Sample)
    requires Wf(col, ids, names, cids)
    requires forall i | 0 <= i < |names| :: names[i] != x.name
    ensures x.name !in ids
    ensures Wf(col[x.name := x.contigs], ids[x.name := |ids|], names + [x.name], IdsOf(x.name, x.contigs, cids))
  {
    forall n | n in ids ensures n != x.name {
      assert names[ids[n]] == n;
    }
    OrderedAppend(ids, names, x.name);
    IdsOfKeys(x.name, x.contigs, cids);
  }

  /** A stream of distinct samples read into an empty collection leaves it consistent. */
  lemma {:induction false} WfLoaded(xs: seq<Sample>)
    requires DistinctNames(xs)
    ensures Wf(ColOf(xs), IdsFrom(map[], xs), NamesOf(xs), AllIds(map[], xs))
    decreases |xs|
  {
    if xs != [] {
      var p := xs[..|xs| - 1];
      var x := xs[|xs| - 1];
      assert DistinctNames(p);
      WfLoaded(p);
      assert NamesOf(xs) == NamesOf(p) + [x.name];
      forall i | 0 <= i < |p| ensures NamesOf(p)[i] != x.name {
        assert p[i] == xs[i];
      }
      WfLoadStep(ColOf(p), IdsFrom(map[], p), NamesOf(p), AllIds(map[], p), x);
      ReloadEmpty(x.contigs);
    }
  }

  /** The entries of `f` whose registration number is below `k`. */
  function Below<V>(f: map<Name, V>, ids: map<Name, nat>, k: nat): map<Name, V>
  {
    map n | n in f && n in ids && ids[n] < k :: f[n]
  }

  lemma BelowGrow<V>(f: map<Name, V>, ids: map<Name, nat>, k: nat, n: Name)
    requires n in f && n in ids && ids[n] == k
    requires forall m | m in ids && ids[m] == k :: m == n
    ensures n !in Below(f, ids, k)
    ensures Below(f, ids, k)[n := f[n]] == Below(f, ids, k + 1)
    ensures |Below(f, ids, k + 1)| == |Below(f, ids, k)| + 1
  {
  }

  /** The first `k` samples in order are the first `k - 1` and then the `k`-th. */
  lemma InOrderPrefix(order: seq<Name>, col: map<Name, seq<ContigDesc>>, k: nat)
    requires 0 < k <= |order| && forall i | 0 <= i < |order| :: order[i] in col
    ensures InOrder(order[..k], col) == InOrder(order[..k - 1], col) + [Sample(order[k - 1], col[order[k - 1]])]
  {
  }

  /** Only the `k`-th name in order has registration number `k`. */
  lemma OrderedAt(ids: map<Name, nat>, order: seq<Name>, k: nat)
    requires Ordered(ids, order) && k < |order|
    ensures order[k] in ids && ids[order[k]] == k
    ensures forall m | m in ids && ids[m] == k :: m == order[k]
  {
  }

  /** A sample not read before is added to `col` as it was read. */
  lemma ColSnoc(xs: seq<Sample>, x: Sample)
    requires x.name !in ColOf(xs)
    ensures ColOf(xs + [x]) == ColOf(xs)[x.name := x.contigs]
  {
    assert (xs + [x])[..|xs|] == xs;
    ReloadEmpty(x.contigs);
  }

  lemma IdsSnoc(xs: seq<Sample>, x: Sample)
    ensures IdsFrom(map[], xs + [x]) == IdsFrom(map[], xs)[x.name := |IdsFrom(map[], xs)|]
  {
    assert (xs + [x])[..|xs|] == xs;
  }

  /** Reading back the first `k` samples written yields the part of `col` they cover. */
  lemma {:induction false} RestoredCol(col: map<Name, seq<ContigDesc>>, ids: map<Name, nat>, order: seq<Name>, k: nat)
    requires Ordered(ids, order) && k <= |order|
    requires forall i | 0 <= i < |order| :: order[i] in col
    ensures ColOf(InOrder(order[..k], col)) == Below(col, ids, k)
    decreases k
  {
    if k > 0 {
      var n := order[k - 1];
      RestoredCol(col, ids, order, k - 1);
      InOrderPrefix(order, col, k);
      OrderedAt(ids, order, k - 1);
      BelowGrow(col, ids, k - 1, n);
      ColSnoc(InOrder(order[..k - 1], col), Sample(n, col[n]));
    }
  }

  /** The names registered before the `k`-th number are `k` in all. */
  lemma {:induction false} BelowSize(ids: map<Name, nat>, order: seq<Name>, k: nat)
    requires Ordered(ids, order) && k <= |order|
    ensures |Below(ids, ids, k)| == k
    decreases k
  {
    if k > 0 {
      BelowSize(ids, order, k - 1);
      OrderedAt(ids, order, k - 1);
      BelowGrow(ids, ids, k - 1, order[k - 1]);
    }
  }

  /** Reading back the first `k` samples written numbers them as `sample_ids` does. */
  lemma {:induction false} RestoredIds(col: map<Name, seq<ContigDesc>>, ids: map<Name, nat>, order: seq<Name>, k: nat)
    requires Ordered(ids, order) && k <= |order|
    requires forall i | 0 <= i < |order| :: order[i] in col
    ensures IdsFrom(map[], InOrder(order[..k], col)) == Below(ids, ids, k)
    decreases k
  {
    if k > 0 {
      var n := order[k - 1];
      var p := InOrder(order[..k - 1], col);
      RestoredIds(col, ids, order, k - 1);
      BelowSize(ids, order, k - 1);
      OrderedAt(ids, order, k - 1);
      BelowGrow(ids, ids, k - 1, n);
      InOrderPrefix(order, col, k);
      IdsSnoc(p, Sample(n, col[n]));
    }
  }

  /** Reading back what serialize wrote yields the same `col` and `sample_ids`. */
  lemma Restored(col: map<Name, seq<ContigDesc>>, ids: map<Name, nat>, order: seq<Name>, cids: ContigIds)
    requires Wf(col, ids, order, cids)
    ensures DistinctNames(InOrder(order, col))
    ensures ColOf(InOrder(order, col)) == col
    ensures IdsFrom(map[], InOrder(order, col)) == ids
  {
    var xs := InOrder(order, col);
    forall i, j | 0 <= i < j < |xs| ensures xs[i].name != xs[j].name {
      assert ids[order[i]] == i && ids[order[j]] == j;
    }
    assert order[..|order|] == order;
    RestoredCol(col, ids, order, |order|);
    RestoredIds(col, ids, order, |order|);
    assert Below(col, ids, |order|) == col;
    assert Below(ids, ids, |order|) == ids;
  }

  /**
   * `deserialize(serialize(c))` on an empty collection: the same samples
   * with the same contigs and segments, the same registration numbers, and
   * the command lines with empty dates unless the dates were stored.
   */
  lemma SerializeDeserialize(col: map<Name, seq<ContigDesc>>, ids: map<Name, nat>, order: seq<Name>,
                             cids: ContigIds, cmds: seq<CmdLine>, storeDate: bool)
    requires Wf(col, ids, order, cids)
    requires WfCollection(InOrder(order, col), cmds)
    ensures var r := DecCollection(EncCollection(InOrder(order, col), cmds, storeDate));
      r.Some? && DistinctNames(r.value.0) && ColOf(r.value.0) == col && IdsFrom(map[], r.value.0) == ids
      && NamesOf(r.value.0) == order && r.value.1 == StoredAll(cmds, storeDate)
  {
    CollectionRoundTrip(InOrder(order, col), cmds, storeDate);
    Restored(col, ids, order, cids);
  }
}
