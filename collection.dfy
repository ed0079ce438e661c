/**
 * The metadata side of an archive (src/core/collection.cpp): the prefix
 * varint and NUL-terminated string codecs its serialised form is built
 * from, short contig names, and the registry of (sample, contig) pairs.
 */
module Collection {
  import opened Basics

  /** Names are kept as the raw bytes of a std::string. */
  type Name = seq<Byte>

  // ---------------------------------------------------------------------
  // Prefix varint: 1 to 5 bytes, the length announced by the first byte

  const THR_1: nat := 0x80
  const THR_2: nat := THR_1 + 0x4000
  const THR_3: nat := THR_2 + 0x20_0000
  const THR_4: nat := THR_3 + 0x1000_0000

  const PREF_2: Byte := 0x80
  const PREF_3: Byte := 0xC0
  const PREF_4: Byte := 0xE0
  const PREF_5: Byte := 0xF0

  /** Number of bytes of the varint whose first byte is `b`. */
  function VarintWidth(b: Byte): (w: nat)
    ensures 1 <= w <= 5
  {
    if b < 0x80 then 1
    else if b < 0xC0 then 2
    else if b < 0xE0 then 3
    else if b < 0xF0 then 4
    else 5
  }

  /** The same width as `read` finds it, by masking the first byte. */
  lemma VarintWidthMasks(b: Byte)
    ensures VarintWidth(b) == 1 <==> (b as bv8) & 0x80 == 0x00
    ensures VarintWidth(b) == 2 <==> (b as bv8) & 0xC0 == 0x80
    ensures VarintWidth(b) == 3 <==> (b as bv8) & 0xE0 == 0xC0
    ensures VarintWidth(b) == 4 <==> (b as bv8) & 0xF0 == 0xE0
    ensures VarintWidth(b) == 5 <==> (b as bv8) & 0xF0 == 0xF0
  {
  }

  /** The bytes `append(data, num)` pushes for a uint32_t `num`. */
  function EncodeNum(num: U32): (e: seq<Byte>)
    ensures 1 <= |e| <= 5 && VarintWidth(e[0]) == |e|
  {
    if num < THR_1 then [num]
    else if num < THR_2 then
      var n := num - THR_1;
      [PREF_2 + n / 0x100, n % 0x100]
    else if num < THR_3 then
      var n := num - THR_2;
      [PREF_3 + n / 0x1_0000, n / 0x100 % 0x100, n % 0x100]
    else if num < THR_4 then
      var n := num - THR_3;
      [PREF_4 + n / 0x100_0000, n / 0x1_0000 % 0x100, n / 0x100 % 0x100, n % 0x100]
    else
      var n := num - THR_4;
      [PREF_5, n / 0x100_0000 % 0x100, n / 0x1_0000 % 0x100, n / 0x100 % 0x100, n % 0x100]
  }

  /**
   * The value `read` takes from position `p`, and the position after it;
   * None when the varint does not fit in `s`. The 5-byte form adds in
   * uint32_t and so wraps.
   */
  function ReadNum(s: seq<Byte>, p: nat): (r: Option<(U32, nat)>)
    ensures r.None? <==> p >= |s| || p + VarintWidth(s[p]) > |s|
    ensures r.Some? ==> r.value.1 == p + VarintWidth(s[p]) <= |s|
  {
    if p >= |s| then None
    else
      var w := VarintWidth(s[p]);
      if p + w > |s| then None
      else if w == 1 then Some((s[p], p + 1))
      else if w == 2 then
        Some(((s[p] - PREF_2) * 0x100 + s[p + 1] + THR_1, p + 2))
      else if w == 3 then
        Some((((s[p] - PREF_3) * 0x100 + s[p + 1]) * 0x100 + s[p + 2] + THR_2, p + 3))
      else if w == 4 then
        Some(((((s[p] - PREF_4) * 0x100 + s[p + 1]) * 0x100 + s[p + 2]) * 0x100 + s[p + 3] + THR_3, p + 4))
      else
        Some(((((s[p + 1] * 0x100 + s[p + 2]) * 0x100 + s[p + 3]) * 0x100 + s[p + 4] + THR_4) % TWO_32, p + 5))
  }

  /** The varint width steps up exactly at the thresholds. */
  lemma EncodeNumLength(num: U32)
    ensures |EncodeNum(num)| == 1 <==> num < THR_1
    ensures |EncodeNum(num)| == 2 <==> THR_1 <= num < THR_2
    ensures |EncodeNum(num)| == 3 <==> THR_2 <= num < THR_3
    ensures |EncodeNum(num)| == 4 <==> THR_3 <= num < THR_4
    ensures |EncodeNum(num)| == 5 <==> THR_4 <= num
  {
  }

  /** Reading a written varint gives the number back and consumes exactly its bytes. */
  lemma ReadEncodeNum(s: seq<Byte>, p: nat, num: U32)
    requires At(s, p, EncodeNum(num))
    ensures ReadNum(s, p) == Some((num, p + |EncodeNum(num)|))
  {
    var e := EncodeNum(num);
    assert s[p + 0] == e[0];
    if num < THR_1 {
    } else if num < THR_2 {
      assert s[p + 1] == e[1];
      ReadEncodeNum2(s, p, num);
    } else if num < THR_3 {
      assert s[p + 1] == e[1] && s[p + 2] == e[2];
      ReadEncodeNum3(s, p, num);
    } else if num < THR_4 {
      assert s[p + 1] == e[1] && s[p + 2] == e[2] && s[p + 3] == e[3];
      ReadEncodeNum4(s, p, num);
    } else {
      assert s[p + 1] == e[1] && s[p + 2] == e[2] && s[p + 3] == e[3] && s[p + 4] == e[4];
      ReadEncodeNum5(s, p, num);
    }
  }

  lemma ReadEncodeNum2(s: seq<Byte>, p: nat, num: U32)
    requires THR_1 <= num < THR_2 && p + 2 <= |s|
    requires s[p] == EncodeNum(num)[0] && s[p + 1] == EncodeNum(num)[1]
    ensures ReadNum(s, p) == Some((num, p + 2))
  {
    var n := num - THR_1;
    assert s[p] - PREF_2 == n / 0x100 && s[p + 1] == n % 0x100;
  }

  lemma ReadEncodeNum3(s: seq<Byte>, p: nat, num: U32)
    requires THR_2 <= num < THR_3 && p + 3 <= |s|
    requires s[p] == EncodeNum(num)[0] && s[p + 1] == EncodeNum(num)[1] && s[p + 2] == EncodeNum(num)[2]
    ensures ReadNum(s, p) == Some((num, p + 3))
  {
    var n := num - THR_2;
    var hi := n / 0x100;
    assert s[p] - PREF_3 == hi / 0x100 && s[p + 1] == hi % 0x100 && s[p + 2] == n % 0x100;
    assert (s[p] - PREF_3) * 0x100 + s[p + 1] == hi;
  }

  lemma ReadEncodeNum4(s: seq<Byte>, p: nat, num: U32)
    requires THR_3 <= num < THR_4 && p + 4 <= |s|
    requires s[p] == EncodeNum(num)[0] && s[p + 1] == EncodeNum(num)[1]
    requires s[p + 2] == EncodeNum(num)[2] && s[p + 3] == EncodeNum(num)[3]
    ensures ReadNum(s, p) == Some((num, p + 4))
  {
    var n := num - THR_3;
    var hi := n / 0x100;
    var top := hi / 0x100;
    assert n / 0x1_0000 == top && n / 0x100_0000 == top / 0x100;
    assert (s[p] - PREF_4) * 0x100 + s[p + 1] == top;
    assert top * 0x100 + s[p + 2] == hi;
  }

  lemma ReadEncodeNum5(s: seq<Byte>, p: nat, num: U32)
    requires THR_4 <= num && p + 5 <= |s|
    requires s[p] == EncodeNum(num)[0] && s[p + 1] == EncodeNum(num)[1] && s[p + 2] == EncodeNum(num)[2]
    requires s[p + 3] == EncodeNum(num)[3] && s[p + 4] == EncodeNum(num)[4]
    ensures ReadNum(s, p) == Some((num, p + 5))
  {
    var n := num - THR_4;
    var hi := n / 0x100;
    var top := hi / 0x100;
    assert n / 0x1_0000 == top && n / 0x100_0000 == top / 0x100;
    assert (s[p + 1] as int) * 0x100 + s[p + 2] == top;
    assert top * 0x100 + s[p + 3] == hi;
  }

  // ---------------------------------------------------------------------
  // NUL-terminated strings

  /** The bytes `append(data, str)` pushes. */
  function EncodeString(str: Name): (e: seq<Byte>)
    ensures |e| == |str| + 1 && e[|str|] == 0
  {
    str + [0]
  }

  /** Position of the first NUL at or after `p`. */
  function FindNul(s: seq<Byte>, p: nat): (r: Option<nat>)
    ensures r.Some? ==> p <= r.value < |s| && s[r.value] == 0
    ensures r.Some? ==> forall k :: p <= k < r.value ==> s[k] != 0
    ensures r.None? ==> forall k :: p <= k < |s| ==> s[k] != 0
    decreases |s| - p
  {
    if p >= |s| then None
    else if s[p] == 0 then Some(p)
    else FindNul(s, p + 1)
  }

  /** The string `read` takes from position `p` and the position after its NUL; None when no NUL follows. */
  function StringAt(s: seq<Byte>, p: nat): (r: Option<(Name, nat)>)
    ensures r.Some? ==> p < r.value.1 <= |s| && r.value.1 == p + |r.value.0| + 1
    ensures r.Some? ==> 0 !in r.value.0 && s[r.value.1 - 1] == 0
  {
    match FindNul(s, p)
    case None => None
    case Some(i) => Some((s[p..i], i + 1))
  }

  /** `read(p, str)`: copies bytes up to the NUL and steps past it. */
  method ReadString(s: seq<Byte>, p0: nat) returns (r: Option<(Name, nat)>)
    ensures r == StringAt(s, p0)
  {
    var str: Name := [];
    var p := p0;
    while p < |s| && s[p] != 0
      invariant p0 <= p <= |s| || (p == p0 && p0 > |s|)
      invariant p0 <= |s| ==> str == s[p0..p]
      invariant FindNul(s, p0) == FindNul(s, p)
      decreases |s| - p
    {
      str := str + [s[p]];
      p := p + 1;
    }
    if p < |s| {
      r := Some((str, p + 1));
    } else {
      r := None;
    }
  }

  /** A string without NUL bytes is read back whole, and reading stops right after its terminator. */
  lemma ReadEncodeString(s: seq<Byte>, p: nat, str: Name)
    requires 0 !in str
    requires At(s, p, EncodeString(str))
    ensures StringAt(s, p) == Some((str, p + |str| + 1))
  {
    var e := EncodeString(str);
    assert s[p + |str|] == e[|str|];
    forall k | p <= k < p + |str| ensures s[k] != 0 {
      assert s[p + (k - p)] == e[k - p] == str[k - p];
    }
    FindNulAt(s, p, p + |str|);
    assert s[p..p + |str|] == str by {
      forall k | 0 <= k < |str| ensures s[p..p + |str|][k] == str[k] {
        assert s[p + k] == e[k];
      }
    }
  }

  /** FindNul stops at the first NUL. */
  lemma {:induction false} FindNulAt(s: seq<Byte>, p: nat, i: nat)
    requires p <= i < |s| && s[i] == 0
    requires forall k :: p <= k < i ==> s[k] != 0
    ensures FindNul(s, p) == Some(i)
    decreases i - p
  {
    if p < i {
      FindNulAt(s, p + 1, i);
    }
  }

  // ---------------------------------------------------------------------
  // Short contig names

  predicate IsSpace(c: Byte)
  {
    c == ' ' as Byte || c == '\n' as Byte || c == '\r' as Byte || c == '\t' as Byte
  }

  /** Index of the first space, tab, CR or LF of `s`, or |s| when there is none. */
  function FirstSpace(s: Name): (i: nat)
    ensures i <= |s|
    ensures forall k :: 0 <= k < i ==> !IsSpace(s[k])
    ensures i < |s| ==> IsSpace(s[i])
  {
    if s == [] || IsSpace(s[0]) then 0 else 1 + FirstSpace(s[1..])
  }

  /** The short name of a contig: its description line up to the first whitespace. */
  function ContigName(s: Name): (r: Name)
    ensures |r| <= |s| && r == s[..|r|]
    ensures forall k :: 0 <= k < |r| ==> !IsSpace(r[k])
    ensures |r| < |s| ==> IsSpace(s[|r|])
  {
    s[..FirstSpace(s)]
  }

  /** `extract_contig_name`: scans for the first whitespace. */
  method ExtractContigName(s: Name) returns (r: Name)
    ensures r == ContigName(s)
  {
    var p := 0;
    while p < |s| && !IsSpace(s[p])
      invariant p <= |s|
      invariant forall k :: 0 <= k < p ==> !IsSpace(s[k])
    {
      p := p + 1;
    }
    r := s[..p];
    FirstSpaceUnique(s, p);
  }

  /** A whitespace-free prefix followed by whitespace or the end is the one FirstSpace finds. */
  lemma {:induction false} FirstSpaceUnique(s: Name, i: nat)
    requires i <= |s|
    requires forall k :: 0 <= k < i ==> !IsSpace(s[k])
    requires i < |s| ==> IsSpace(s[i])
    ensures FirstSpace(s) == i
  {
    if i > 0 {
      FirstSpaceUnique(s[1..], i - 1);
    }
  }

  /** Shortening a short name again changes nothing. */
  lemma ContigNameIdempotent(s: Name)
    ensures ContigName(ContigName(s)) == ContigName(s)
  {
    var r := ContigName(s);
    FirstSpaceUnique(r, |r|);
  }

  /** The name a (sample, contig) pair is filed under: an empty sample name is replaced by the short contig name. */
  function StoredSample(sampleName: Name, contigName: Name): (r: Name)
    ensures sampleName != [] ==> r == sampleName
    ensures sampleName == [] ==> r == ContigName(contigName)
  {
    if sampleName == [] then ContigName(contigName) else sampleName
  }

  // ---------------------------------------------------------------------
  // Registry of samples and contigs

  /** One segment of a contig: which group holds it, where, its orientation and length. */
  datatype SegmentDesc = SegmentDesc(groupId: U32, inGroupId: U32, isRevComp: bool, rawLength: U32)

  /** A contig: its full name and its segments. */
  datatype ContigDesc = ContigDesc(name: Name, segments: seq<SegmentDesc>)

  /** The entries kept under `k`, none for a missing key (`operator[]` creates it empty, `equal_range` finds none). */
  function Entries<K, V>(m: map<K, seq<V>>, k: K): seq<V>
  {
    if k in m then m[k] else []
  }

  /**
   * The segment list after `seg` is put at `place`: a list too short is
   * first grown to `place + 1` entries with `filler`.
   */
  function PlaceSegment(segs: seq<SegmentDesc>, place: nat, seg: SegmentDesc, filler: SegmentDesc): (r: seq<SegmentDesc>)
    ensures |r| == if place < |segs| then |segs| else place + 1
    ensures r[place] == seg
    ensures forall k :: 0 <= k < |segs| && k != place ==> r[k] == segs[k]
    ensures forall k :: |segs| <= k < |r| && k != place ==> r[k] == filler
  {
    var grown := if place < |segs| then segs else segs + seq(place + 1 - |segs|, _ => filler);
    grown[place := seg]
  }

  /** Every filed pair points at a contig of its sample with that short name, and the sample is listed under it. */
  ghost predicate IdsResolve(col: map<Name, seq<ContigDesc>>, contigIds: map<(Name, Name), nat>,
                             contig2sample: map<Name, seq<Name>>)
  {
    forall key | key in contigIds ::
      key.0 in col && contigIds[key] < |col[key.0]|
      && ContigName(col[key.0][contigIds[key]].name) == key.1
      && key.1 in contig2sample && key.0 in contig2sample[key.1]
  }

  /** Every contig of every sample is filed. */
  ghost predicate ContigsFiled(col: map<Name, seq<ContigDesc>>, contigIds: map<(Name, Name), nat>)
  {
    forall sample, i | sample in col && 0 <= i < |col[sample]| ::
      (sample, ContigName(col[sample][i].name)) in contigIds
  }

  /** Every sample listed under a short contig name is filed with it. */
  ghost predicate SamplesFiled(contigIds: map<(Name, Name), nat>, contig2sample: map<Name, seq<Name>>)
  {
    forall c, j | c in contig2sample && 0 <= j < |contig2sample[c]| ::
      (contig2sample[c][j], c) in contigIds
  }

  ghost predicate Consistent(col: map<Name, seq<ContigDesc>>, contigIds: map<(Name, Name), nat>,
                             contig2sample: map<Name, seq<Name>>)
  {
    IdsResolve(col, contigIds, contig2sample) && ContigsFiled(col, contigIds) && SamplesFiled(contigIds, contig2sample)
  }

  /** Filing a new contig under an unregistered pair keeps the maps consistent. */
  lemma RegisterKeepsConsistent(col: map<Name, seq<ContigDesc>>, contigIds: map<(Name, Name), nat>,
                                contig2sample: map<Name, seq<Name>>, sample: Name, contigName: Name)
    requires Consistent(col, contigIds, contig2sample)
    requires (sample, ContigName(contigName)) !in contigIds
    ensures var short := ContigName(contigName);
      var contigs := if sample in col then col[sample] else [];
      var samples := if short in contig2sample then contig2sample[short] else [];
      Consistent(col[sample := contigs + [ContigDesc(contigName, [])]],
                 contigIds[(sample, short) := |contigs|],
                 contig2sample[short := samples + [sample]])
  {
    RegisterKeepsIdsResolve(col, contigIds, contig2sample, sample, contigName);
    RegisterKeepsContigsFiled(col, contigIds, sample, contigName);
    RegisterKeepsSamplesFiled(contigIds, contig2sample, sample, contigName,
                              if sample in col then |col[sample]| else 0);
  }

  lemma RegisterKeepsIdsResolve(col: map<Name, seq<ContigDesc>>, contigIds: map<(Name, Name), nat>,
                                contig2sample: map<Name, seq<Name>>, sample: Name, contigName: Name)
    requires IdsResolve(col, contigIds, contig2sample)
    requires (sample, ContigName(contigName)) !in contigIds
    ensures var short := ContigName(contigName);
      var contigs := if sample in col then col[sample] else [];
      var samples := if short in contig2sample then contig2sample[short] else [];
      IdsResolve(col[sample := contigs + [ContigDesc(contigName, [])]],
                 contigIds[(sample, short) := |contigs|],
                 contig2sample[short := samples + [sample]])
  {
    var short := ContigName(contigName);
    var contigs: seq<ContigDesc> := if sample in col then col[sample] else [];
    var samples: seq<Name> := if short in contig2sample then contig2sample[short] else [];
    var col': map<Name, seq<ContigDesc>> := col[sample := contigs + [ContigDesc(contigName, [])]];
    var ids': map<(Name, Name), nat> := contigIds[(sample, short) := |contigs|];
    var mm': map<Name, seq<Name>> := contig2sample[short := samples + [sample]];
    forall key | key in ids'
      ensures key.0 in col' && ids'[key] < |col'[key.0]|
      ensures ContigName(col'[key.0][ids'[key]].name) == key.1
      ensures key.1 in mm' && key.0 in mm'[key.1]
    {
      if key != (sample, short) {
        assert col'[key.0][ids'[key]] == col[key.0][contigIds[key]];
      } else {
        assert col'[sample][|contigs|].name == contigName;
        ContigNameIdempotent(contigName);
        assert mm'[short][|samples|] == sample;
      }
    }
  }

  lemma RegisterKeepsContigsFiled(col: map<Name, seq<ContigDesc>>, contigIds: map<(Name, Name), nat>,
                                  sample: Name, contigName: Name)
    requires ContigsFiled(col, contigIds)
    ensures var short := ContigName(contigName);
      var contigs := if sample in col then col[sample] else [];
      ContigsFiled(col[sample := contigs + [ContigDesc(contigName, [])]], contigIds[(sample, short) := |contigs|])
  {
    var short := ContigName(contigName);
    var contigs: seq<ContigDesc> := if sample in col then col[sample] else [];
    var col': map<Name, seq<ContigDesc>> := col[sample := contigs + [ContigDesc(contigName, [])]];
    var ids': map<(Name, Name), nat> := contigIds[(sample, short) := |contigs|];
    forall s, i | s in col' && 0 <= i < |col'[s]|
      ensures (s, ContigName(col'[s][i].name)) in ids'
    {
      if s == sample && i == |contigs| {
        ContigNameIdempotent(contigName);
      } else {
        assert col'[s][i] == col[s][i];
      }
    }
  }

  lemma RegisterKeepsSamplesFiled(contigIds: map<(Name, Name), nat>, contig2sample: map<Name, seq<Name>>,
                                  sample: Name, contigName: Name, n: nat)
    requires SamplesFiled(contigIds, contig2sample)
    ensures var short := ContigName(contigName);
      var samples := if short in contig2sample then contig2sample[short] else [];
      SamplesFiled(contigIds[(sample, short) := n], contig2sample[short := samples + [sample]])
  {
    var short := ContigName(contigName);
    var samples: seq<Name> := if short in contig2sample then contig2sample[short] else [];
    var mm': map<Name, seq<Name>> := contig2sample[short := samples + [sample]];
    forall c, j | c in mm' && 0 <= j < |mm'[c]|
      ensures (mm'[c][j], c) in contigIds[(sample, short) := n]
    {
      if c == short && j == |samples| {
      } else {
        assert mm'[c][j] == contig2sample[c][j];
      }
    }
  }

  class Registry {
    /** Contigs of every sample, in registration order. */
    var col: map<Name, seq<ContigDesc>>
    /** (sample, short contig name) to the contig's index in col[sample]. */
    var contigIds: map<(Name, Name), nat>
    /** Short contig name to the samples holding it, in registration order (the multimap). */
    var contig2sample: map<Name, seq<Name>>

    ghost predicate Valid()
      reads this
    {
      Consistent(col, contigIds, contig2sample)
    }

    constructor ()
      ensures Valid()
      ensures col == map[] && contigIds == map[] && contig2sample == map[]
    {
      col := map[];
      contigIds := map[];
      contig2sample := map[];
    }

    /**
     * `register_sample_contig`: files a new contig under its sample and
     * answers true, or answers false and changes nothing when the
     * (sample, short contig name) pair is already registered.
     */
    method RegisterSampleContig(sampleName: Name, contigName: Name) returns (added: bool)
      requires Valid()
      modifies this
      ensures Valid()
      ensures var key := (StoredSample(sampleName, contigName), ContigName(contigName));
        added <==> key !in old(contigIds)
      ensures !added ==> col == old(col) && contigIds == old(contigIds) && contig2sample == old(contig2sample)
      ensures var sample, short := StoredSample(sampleName, contigName), ContigName(contigName);
        added ==>
          col == old(col)[sample := Entries(old(col), sample) + [ContigDesc(contigName, [])]]
          && contigIds == old(contigIds)[(sample, short) := |Entries(old(col), sample)|]
          && contig2sample == old(contig2sample)[short := Entries(old(contig2sample), short) + [sample]]
    {
      var short := ExtractContigName(contigName);
      var sample := if sampleName == [] then short else sampleName;
      if (sample, short) in contigIds {
        return false;
      }
      var contigs := Entries(col, sample);
      var samples := Entries(contig2sample, short);
      col := col[sample := contigs + [ContigDesc(contigName, [])]];
      contigIds := contigIds[(sample, short) := |contigs|];
      contig2sample := contig2sample[short := samples + [sample]];
      added := true;
      RegisterKeepsConsistent(old(col), old(contigIds), old(contig2sample), sample, contigName);
    }

    /** `get_samples_for_contig`: the samples registered with this short contig name, in registration order. */
    method GetSamplesForContig(contigName: Name) returns (vs: seq<Name>)
      requires Valid()
      ensures vs == Entries(contig2sample, ContigName(contigName))
      ensures forall s :: s in vs <==> (s, ContigName(contigName)) in contigIds
    {
      var short := ExtractContigName(contigName);
      var range := Entries(contig2sample, short);
      vs := [];
      for i := 0 to |range|
        invariant vs == range[..i]
      {
        vs := vs + [range[i]];
      }
    }
  }
}
