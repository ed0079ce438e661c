/**
 * The buffer of segment parts between the compression passes,
 * CBufferedSegPart (src/core/agc_compressor.h): parts of groups already
 * known are queued on their group's list; parts of new groups wait in an
 * ordered set until process_new gives every new pair of splitters a group
 * of its own. The mutexes and atomics are left out: each operation is
 * modelled as one step.
 */
module SegParts {
  import opened Basics
  import opened Collection
  import CollectionV3

  /** seg_part_t: one segment waiting to be stored, with the splitters bounding it. */
  datatype SegPart = SegPart(kmer1: U64, kmer2: U64, sampleName: Name, contigName: Name,
                             segData: seq<Byte>, isRevComp: bool, segPartNo: U32)

  // ---------------------------------------------------------------------------
  // The order of parts

  /** What the order compares: sample name, contig name, part number. */
  function Key(x: SegPart): (Name, Name, U32)
  {
    (x.sampleName, x.contigName, x.segPartNo)
  }

  /** seg_part_t::operator<: by sample, then contig, then part number. */
  predicate Before(x: SegPart, y: SegPart)
  {
    if x.sampleName != y.sampleName then CollectionV3.LexLess(x.sampleName, y.sampleName)
    else if x.contigName != y.contigName then CollectionV3.LexLess(x.contigName, y.contigName)
    else x.segPartNo < y.segPartNo
  }

  /** A string never comes before itself. */
  lemma {:induction false} LexLessDistinct(a: Name, b: Name)
    ensures CollectionV3.LexLess(a, b) ==> a != b
    decreases |a|
  {
    if a != [] && b != [] && a[0] == b[0] {
      LexLessDistinct(a[1..], b[1..]);
    }
  }

  lemma {:induction false} LexTransitive(a: Name, b: Name, c: Name)
    requires CollectionV3.LexLess(a, b) && CollectionV3.LexLess(b, c)
    ensures CollectionV3.LexLess(a, c)
    decreases |a|
  {
    if a != [] && a[0] == b[0] && b[0] == c[0] {
      LexTransitive(a[1..], b[1..], c[1..]);
    }
  }

  /** Two different strings are ordered one way. */
  lemma LexTrichotomy(a: Name, b: Name)
    requires a != b
    ensures CollectionV3.LexLess(a, b) || CollectionV3.LexLess(b, a)
  {
    CollectionV3.LexTotal(a, b);
  }

  lemma BeforeTransitive(x: SegPart, y: SegPart, z: SegPart)
    requires Before(x, y) && Before(y, z)
    ensures Before(x, z)
  {
    var lx, ly, lz := x.sampleName, y.sampleName, z.sampleName;
    if lx != ly && ly != lz {
      LexTransitive(lx, ly, lz);
      LexLessDistinct(lx, lz);
    } else if lx == ly && ly == lz && x.contigName != y.contigName && y.contigName != z.contigName {
      LexTransitive(x.contigName, y.contigName, z.contigName);
      LexLessDistinct(x.contigName, z.contigName);
    }
  }

  /** Of two parts one comes first, unless they agree on sample, contig and part number. */
  lemma BeforeTotal(x: SegPart, y: SegPart)
    ensures Before(x, y) || Before(y, x) || Key(x) == Key(y)
    ensures Key(x) == Key(y) ==> !Before(x, y) && !Before(y, x)
  {
    if x.sampleName != y.sampleName {
      LexTrichotomy(x.sampleName, y.sampleName);
    } else if x.contigName != y.contigName {
      LexTrichotomy(x.contigName, y.contigName);
    }
  }

  // ---------------------------------------------------------------------------
  // The set of new parts (std::set ordered by operator<)

  /** Strictly increasing: a std::set in iteration order. */
  predicate Ordered(s: seq<SegPart>)
  {
    forall i | 0 <= i < |s| - 1 :: Before(s[i], s[i + 1])
  }

  /** The keys held. */
  function Keys(s: seq<SegPart>): set<(Name, Name, U32)>
  {
    set y | y in s :: Key(y)
  }

  /** emplace into the set: `x` in its place, or nothing when a part with its key is there. */
  function Emplace(x: SegPart, s: seq<SegPart>): (r: seq<SegPart>)
  {
    if s == [] then [x]
    else if Before(x, s[0]) then [x] + s
    else if Before(s[0], x) then [s[0]] + Emplace(x, s[1..])
    else s
  }

  /** The first element after an emplace is the new part or the old first one. */
  lemma {:induction false} EmplaceHead(x: SegPart, s: seq<SegPart>)
    ensures Emplace(x, s) != [] && (Emplace(x, s)[0] == x || (s != [] && Emplace(x, s)[0] == s[0]))
  {
  }

  /** An emplace keeps the set ordered. */
  lemma {:induction false} EmplaceOrdered(x: SegPart, s: seq<SegPart>)
    requires Ordered(s)
    ensures Ordered(Emplace(x, s))
  {
    if s != [] && !Before(x, s[0]) && Before(s[0], x) {
      var t := s[1..];
      assert Ordered(t);
      EmplaceOrdered(x, t);
      EmplaceHead(x, t);
      var r := Emplace(x, t);
      assert Emplace(x, s) == [s[0]] + r;
      assert Before(s[0], r[0]) by {
        if r[0] != x {
          assert r[0] == s[1];
        }
      }
    }
  }

  /** In an ordered set the first part comes before every later one. */
  lemma {:induction false} OrderedFirst(s: seq<SegPart>)
    requires Ordered(s)
    ensures forall j | 0 < j < |s| :: Before(s[0], s[j])
  {
    if |s| > 2 {
      var t := s[1..];
      assert Ordered(t);
      OrderedFirst(t);
      forall j | 0 < j < |s|
        ensures Before(s[0], s[j])
      {
        if j > 1 {
          assert Before(t[0], t[j - 1]);
          BeforeTransitive(s[0], s[1], s[j]);
        }
      }
    }
  }

  /** A part before the first of an ordered set has a key the set does not hold. */
  lemma BeforeAll(x: SegPart, s: seq<SegPart>)
    requires Ordered(s) && s != [] && Before(x, s[0])
    ensures Key(x) !in Keys(s)
  {
    OrderedFirst(s);
    forall j | 0 <= j < |s|
      ensures Key(s[j]) != Key(x)
    {
      if j > 0 {
        BeforeTransitive(x, s[0], s[j]);
      }
      BeforeTotal(x, s[j]);
    }
  }

  /**
   * An emplace adds the part exactly when no part with its key is held;
   * otherwise the set is unchanged.
   */
  lemma {:induction false} EmplaceContents(x: SegPart, s: seq<SegPart>)
    requires Ordered(s)
    ensures Key(x) in Keys(s) ==> Emplace(x, s) == s
    ensures Key(x) !in Keys(s) ==> multiset(Emplace(x, s)) == multiset(s) + multiset{x}
  {
    if s != [] {
      BeforeTotal(x, s[0]);
      assert s == [s[0]] + s[1..];
      assert Keys(s) == {Key(s[0])} + Keys(s[1..]);
      if Before(x, s[0]) {
        BeforeAll(x, s);
      } else if Before(s[0], x) {
        assert Ordered(s[1..]);
        EmplaceContents(x, s[1..]);
      }
    }
  }

  // ---------------------------------------------------------------------------
  // Group ids for new pairs of splitters

  /** The pair of splitters of a part. */
  function Pair(x: SegPart): (U64, U64)
  {
    (x.kmer1, x.kmer2)
  }

  /**
   * The map process_new builds over the first `n` new parts: each pair of
   * splitters not seen before gets the next id, counting from `base`.
   */
  function Ids(s: seq<SegPart>, base: nat, n: nat): (m: map<(U64, U64), nat>)
    requires n <= |s|
  {
    if n == 0 then map[]
    else
      var m := Ids(s, base, n - 1);
      if Pair(s[n - 1]) in m then m else m[Pair(s[n - 1]) := base + |m|]
  }

  /**
   * The ids are consecutive from `base`, one per pair, different pairs
   * have different ids, and every pair of the first `n` parts has one.
   */
  lemma {:induction false} IdsFresh(s: seq<SegPart>, base: nat, n: nat)
    requires n <= |s|
    ensures var m := Ids(s, base, n);
      |m| <= n &&
      (forall p | p in m :: base <= m[p] < base + |m|) &&
      (forall p, q | p in m && q in m && p != q :: m[p] != m[q]) &&
      (forall j | 0 <= j < n :: Pair(s[j]) in m)
  {
    if n > 0 {
      IdsFresh(s, base, n - 1);
    }
  }

  /** The ids of a longer prefix extend those of a shorter one. */
  lemma {:induction false} IdsGrow(s: seq<SegPart>, base: nat, n: nat, n': nat)
    requires n <= n' <= |s|
    ensures forall p | p in Ids(s, base, n) :: p in Ids(s, base, n') && Ids(s, base, n')[p] == Ids(s, base, n)[p]
    decreases n' - n
  {
    if n < n' {
      IdsGrow(s, base, n, n' - 1);
    }
  }

  // ---------------------------------------------------------------------------
  // All parts held

  /** Every part of every list. */
  function Parts(gs: seq<seq<SegPart>>): multiset<SegPart>
  {
    if gs == [] then multiset{} else Parts(gs[..|gs| - 1]) + multiset(gs[|gs| - 1])
  }

  /** The parts of the lists are those of the others plus those of list `g`, whatever it holds. */
  lemma {:induction false} PartsUpdate(gs: seq<seq<SegPart>>, g: nat, l: seq<SegPart>)
    requires g < |gs|
    ensures Parts(gs[g := l]) == Parts(gs[g := []]) + multiset(l)
    decreases |gs|
  {
    var n := |gs|;
    var a, b := gs[g := l], gs[g := []];
    assert Parts(a) == Parts(a[..n - 1]) + multiset(a[n - 1]);
    assert Parts(b) == Parts(b[..n - 1]) + multiset(b[n - 1]);
    if g == n - 1 {
      assert a[..n - 1] == b[..n - 1];
    } else {
      var init := gs[..n - 1];
      assert a[..n - 1] == init[g := l] && b[..n - 1] == init[g := []] && a[n - 1] == b[n - 1];
      PartsUpdate(init, g, l);
    }
  }

  /** The lists of `gs` but `g`, with `g` emptied. */
  lemma PartsSplit(gs: seq<seq<SegPart>>, g: nat)
    requires g < |gs|
    ensures Parts(gs) == Parts(gs[g := []]) + multiset(gs[g])
  {
    PartsUpdate(gs, g, gs[g]);
    assert gs[g := gs[g]] == gs;
  }

  /** `n` empty lists. */
  function NoParts(n: nat): (r: seq<seq<SegPart>>)
    ensures |r| == n && forall i | 0 <= i < n :: r[i] == []
  {
    seq(n, _ => [])
  }

  /** Empty lists add no parts. */
  lemma {:induction false} PartsEmpty(gs: seq<seq<SegPart>>, extra: nat)
    ensures Parts(gs + NoParts(extra)) == Parts(gs)
  {
    if extra > 0 {
      var all := gs + NoParts(extra);
      var init := gs + NoParts(extra - 1);
      assert all[..|all| - 1] == init;
      var last := all[|all| - 1];
      assert last == [];
      assert Parts(all) == Parts(init) + multiset(last);
      PartsEmpty(gs, extra - 1);
      assert multiset(last) == multiset{};
    } else {
      assert gs + NoParts(extra) == gs;
    }
  }

  /** Every part of `s` has a pair with an id below `limit`. */
  predicate Assigned(s: seq<SegPart>, ids: map<(U64, U64), nat>, limit: nat)
  {
    forall j | 0 <= j < |s| :: Pair(s[j]) in ids && ids[Pair(s[j])] < limit
  }

  /**
   * The lists after appending each of the first `n` new parts to the list
   * of its pair's id (a part whose pair has no list is left out).
   */
  function Placed(gs: seq<seq<SegPart>>, s: seq<SegPart>, ids: map<(U64, U64), nat>, n: nat): (r: seq<seq<SegPart>>)
    requires n <= |s|
    ensures |r| == |gs|
  {
    if n == 0 then gs
    else
      var r := Placed(gs, s, ids, n - 1);
      var p := Pair(s[n - 1]);
      if p in ids && ids[p] < |r| then r[ids[p] := r[ids[p]] + [s[n - 1]]] else r
  }

  /** Appending a part to one list adds just that part. */
  lemma AppendParts(r: seq<seq<SegPart>>, g: nat, x: SegPart)
    requires g < |r|
    ensures Parts(r[g := r[g] + [x]]) == Parts(r) + multiset{x}
  {
    PartsUpdate(r, g, r[g] + [x]);
    PartsSplit(r, g);
    assert multiset(r[g] + [x]) == multiset(r[g]) + multiset{x};
  }

  lemma SliceMultiset(s: seq<SegPart>, n: nat)
    requires 0 < n <= |s|
    ensures multiset(s[..n]) == multiset(s[..n - 1]) + multiset{s[n - 1]}
  {
    assert s[..n] == s[..n - 1] + [s[n - 1]];
  }

  /** Each placed part sits on the list of its pair's id. */
  lemma {:induction false} PlacedWhere(gs: seq<seq<SegPart>>, s: seq<SegPart>, ids: map<(U64, U64), nat>, n: nat, j: nat)
    requires j < n <= |s| && Assigned(s, ids, |gs|)
    ensures s[j] in Placed(gs, s, ids, n)[ids[Pair(s[j])]]
  {
    var r := Placed(gs, s, ids, n - 1);
    var g := ids[Pair(s[n - 1])];
    assert Placed(gs, s, ids, n) == r[g := r[g] + [s[n - 1]]];
    if j < n - 1 {
      PlacedWhere(gs, s, ids, n - 1, j);
    }
  }

  // ---------------------------------------------------------------------------
  // Round-robin distribution

  /** The list distribute_segments moves the `i`-th part to: from `from` upwards, back to `from` at `to`. */
  function Target(from: nat, to: nat, i: nat): (t: nat)
    requires from < to
    ensures from <= t < to
  {
    if i == 0 then from
    else
      var t := Target(from, to, i - 1);
      if t + 1 == to then from else t + 1
  }

  /** The first round of a cycle goes to `from`, the next ones to the lists after it in turn. */
  lemma {:induction false} TargetStarts(from: nat, to: nat, i: nat)
    requires from < to && i < to - from
    ensures Target(from, to, i) == from + i
  {
    if i > 0 {
      TargetStarts(from, to, i - 1);
    }
  }

  /** The targets repeat with period `to - from`: a round robin. */
  lemma {:induction false} TargetCycles(from: nat, to: nat, i: nat)
    requires from < to
    ensures Target(from, to, i + (to - from)) == Target(from, to, i)
  {
    if i == 0 {
      TargetStarts(from, to, to - from - 1);
    } else {
      TargetCycles(from, to, i - 1);
    }
  }

  /** How many of the first `i` rounds move a part. */
  function DistributedMoves(src: nat, from: nat, to: nat, i: nat): (m: nat)
    requires from < to
    ensures m <= i
  {
    if i == 0 then 0 else DistributedMoves(src, from, to, i - 1) + (if Target(from, to, i - 1) == src then 0 else 1)
  }

  /**
   * The lists after the first `i` rounds of distribute_segments: a round
   * whose target is not the source moves the source's first part to the
   * end of the target.
   */
  function Distributed(gs: seq<seq<SegPart>>, src: nat, from: nat, to: nat, i: nat): (r: seq<seq<SegPart>>)
    requires src < |gs| && from < to <= |gs| && i <= |gs[src]|
    ensures |r| == |gs|
    ensures |r[src]| + DistributedMoves(src, from, to, i) == |gs[src]|
  {
    if i == 0 then gs
    else
      var r := Distributed(gs, src, from, to, i - 1);
      var t := Target(from, to, i - 1);
      if t == src then r
      else r[src := r[src][1..]][t := r[t] + [r[src][0]]]
  }

  /** Taking the first part off one list removes just that part. */
  lemma TakeParts(r: seq<seq<SegPart>>, g: nat)
    requires g < |r| && r[g] != []
    ensures Parts(r[g := r[g][1..]]) + multiset{r[g][0]} == Parts(r)
  {
    var rest := r[g][1..];
    PartsUpdate(r, g, rest);
    PartsSplit(r, g);
    assert r[g] == [r[g][0]] + rest;
    assert multiset(r[g]) == multiset(rest) + multiset{r[g][0]};
  }

  /** Moving the first part of one list to the end of another keeps the parts. */
  lemma MoveParts(r: seq<seq<SegPart>>, src: nat, t: nat)
    requires src < |r| && t < |r| && src != t && r[src] != []
    ensures Parts(r[src := r[src][1..]][t := r[t] + [r[src][0]]]) == Parts(r)
  {
    var r1 := r[src := r[src][1..]];
    TakeParts(r, src);
    AppendParts(r1, t, r[src][0]);
    assert r1[t] == r[t];
  }

  /** Distribution moves parts between lists and loses none. */
  lemma {:induction false} DistributedParts(gs: seq<seq<SegPart>>, src: nat, from: nat, to: nat, i: nat)
    requires src < |gs| && from < to <= |gs| && i <= |gs[src]|
    ensures Parts(Distributed(gs, src, from, to, i)) == Parts(gs)
  {
    if i > 0 {
      var r := Distributed(gs, src, from, to, i - 1);
      var t := Target(from, to, i - 1);
      DistributedParts(gs, src, from, to, i - 1);
      if t != src {
        MoveParts(r, src, t);
      }
    }
  }

  /** The source keeps its last parts: as many as rounds whose target it is. */
  lemma {:induction false} DistributedSource(gs: seq<seq<SegPart>>, src: nat, from: nat, to: nat, i: nat)
    requires src < |gs| && from < to <= |gs| && i <= |gs[src]|
    ensures Distributed(gs, src, from, to, i)[src] == gs[src][DistributedMoves(src, from, to, i)..]
  {
    if i > 0 {
      DistributedSource(gs, src, from, to, i - 1);
    }
  }

  // ---------------------------------------------------------------------------
  // The buffer

  class BufferedSegPart {
    /** vl_seg_part: the queued parts of each group. */
    var groups: seq<seq<SegPart>>
    /** s_seg_part: the parts of new groups, in the set's order. */
    var pending: seq<SegPart>

    ghost predicate Valid()
      reads this
    {
      Ordered(pending)
    }

    /** CBufferedSegPart(no_raw_groups): that many empty groups. */
    constructor (noRawGroups: U32)
      ensures Valid() && groups == NoParts(noRawGroups) && pending == []
    {
      groups := NoParts(noRawGroups);
      pending := [];
    }

    /** resize: groups beyond the new count are dropped, missing ones added empty. */
    method Resize(noGroups: U32)
      modifies this
      ensures |groups| == noGroups && pending == old(pending)
      ensures forall g | 0 <= g < noGroups :: groups[g] == if g < |old(groups)| then old(groups)[g] else []
    {
      if noGroups <= |groups| {
        groups := groups[..noGroups];
      } else {
        groups := groups + seq(noGroups - |groups|, _ => []);
      }
    }

    /** add_known: the part joins the end of its group's list. */
    method AddKnown(groupId: U32, part: SegPart)
      requires groupId < |groups|
      modifies this
      ensures groups == old(groups)[groupId := old(groups)[groupId] + [part]] && pending == old(pending)
    {
      groups := groups[groupId := groups[groupId] + [part]];
    }

    /** add_new: the part joins the set of new parts unless one with its key is there. */
    method AddNew(part: SegPart)
      requires Valid()
      modifies this
      ensures Valid() && pending == Emplace(part, old(pending)) && groups == old(groups)
    {
      EmplaceOrdered(part, pending);
      pending := Emplace(part, pending);
    }

    /**
     * process_new: every pair of splitters of the new parts gets the next
     * free group id, the groups grow by that many, each new part joins the
     * group of its pair in the set's order, and the set is emptied; the
     * result is the number of new groups.
     */
    method ProcessNew() returns (noNew: U32)
      requires Valid() && |groups| + |pending| < TWO_32
      modifies this
      ensures var ids := Ids(old(pending), |old(groups)|, |old(pending)|);
        noNew == |ids| &&
        groups == Placed(old(groups) + NoParts(noNew), old(pending), ids, |old(pending)|)
      ensures Parts(groups) == Parts(old(groups)) + multiset(old(pending))
      ensures pending == [] && Valid()
    {
      var s := pending;
      var base := |groups|;
      var ids, groupId := NumberPairs(s, base);
      IdsFresh(s, base, |s|);
      noNew := groupId - base;
      PartsEmpty(groups, noNew);
      groups := PlaceParts(groups + NoParts(noNew), s, ids);
      pending := [];
    }

    /**
     * distribute_segments: as many rounds as the source group has parts,
     * the target cycling through `from .. to - 1`; a round whose target is
     * not the source moves the source's first part to the target.
     */
    method DistributeSegments(src: U32, from: U32, to: U32)
      requires src < |groups| && from < to <= |groups|
      modifies this
      ensures groups == Distributed(old(groups), src, from, to, |old(groups)[src]|) && pending == old(pending)
    {
      var noInSrc := |groups[src]|;
      var cur := from;
      ghost var start := groups;
      for i := 0 to noInSrc
        invariant |groups| == |start| && cur == Target(from, to, i) && pending == old(pending)
        invariant groups == Distributed(start, src, from, to, i)
      {
        if cur != src {
          var part := groups[src][0];
          groups := groups[src := groups[src][1..]];
          groups := groups[cur := groups[cur] + [part]];
        }
        cur := cur + 1;
        if cur == to {
          cur := from;
        }
      }
    }

    /** clear: the set and every list emptied; the number of groups stays. */
    method Clear()
      modifies this
      ensures pending == [] && groups == NoParts(|old(groups)|)
    {
      pending := [];
      groups := NoParts(|groups|);
    }

    /** get_part: nothing for a group out of range or empty; otherwise the group's first part, taken off. */
    method GetPart(groupId: U32) returns (r: Option<SegPart>)
      modifies this
      ensures groupId >= |old(groups)| || old(groups)[groupId] == [] ==> r.None? && groups == old(groups)
      ensures groupId < |old(groups)| && old(groups)[groupId] != [] ==>
        r == Some(old(groups)[groupId][0]) && groups == old(groups)[groupId := old(groups)[groupId][1..]]
      ensures pending == old(pending)
    {
      if groupId >= |groups| || groups[groupId] == [] {
        return None;
      }
      r := Some(groups[groupId][0]);
      groups := groups[groupId := groups[groupId][1..]];
    }
  }

  /** The numbering loop of process_new: the next id to each pair not numbered yet. */
  method NumberPairs(s: seq<SegPart>, base: nat) returns (ids: map<(U64, U64), nat>, next: nat)
    ensures ids == Ids(s, base, |s|) && next == base + |ids|
  {
    ids, next := map[], base;
    for n := 0 to |s|
      invariant ids == Ids(s, base, n) && next == base + |ids|
    {
      var p := Pair(s[n]);
      if p !in ids {
        ids := ids[p := next];
        next := next + 1;
      }
    }
  }

  /** The placing loop of process_new: each part to the end of its pair's list, in order. */
  method PlaceParts(gs: seq<seq<SegPart>>, s: seq<SegPart>, ids: map<(U64, U64), nat>) returns (r: seq<seq<SegPart>>)
    requires Assigned(s, ids, |gs|)
    ensures r == Placed(gs, s, ids, |s|)
    ensures Parts(r) == Parts(gs) + multiset(s)
  {
    r := gs;
    for n := 0 to |s|
      invariant r == Placed(gs, s, ids, n)
      invariant Parts(r) == Parts(gs) + multiset(s[..n])
    {
      var g := ids[Pair(s[n])];
      AppendParts(r, g, s[n]);
      SliceMultiset(s, n + 1);
      r := r[g := r[g] + [s[n]]];
    }
    assert s[..|s|] == s;
  }

  /** After process_new each new part sits in the group of its pair, one of the new groups. */
  lemma ProcessNewKeepsParts(gs: seq<seq<SegPart>>, s: seq<SegPart>)
    ensures var ids := Ids(s, |gs|, |s|);
      var gs' := Placed(gs + NoParts(|ids|), s, ids, |s|);
      forall j | 0 <= j < |s| :: Pair(s[j]) in ids && |gs| <= ids[Pair(s[j])] < |gs'| && s[j] in gs'[ids[Pair(s[j])]]
  {
    var ids := Ids(s, |gs|, |s|);
    IdsFresh(s, |gs|, |s|);
    var start := gs + NoParts(|ids|);
    assert Assigned(s, ids, |start|);
    forall j | 0 <= j < |s|
      ensures s[j] in Placed(start, s, ids, |s|)[ids[Pair(s[j])]]
    {
      PlacedWhere(start, s, ids, |s|, j);
    }
  }
}
