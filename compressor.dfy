/**
 * Sequential helpers of the compressor (src/core/agc_compressor.cpp): the
 * singleton filter that keeps candidate splitter k-mers occurring once,
 * the preprocessing of a raw contig into codes, the cut of a contig part,
 * the enumeration of canonical k-mers and the scan that picks splitters.
 */
module Compressor {
  import opened Basics
  import AgcBasic
  import Kmer

  // ---------------------------------------------------------------------------
  // Runs of equal values

  /** Nondecreasing. */
  predicate Sorted(s: seq<nat>)
  {
    forall a, b | 0 <= a < b < |s| :: s[a] <= s[b]
  }

  /** Strictly increasing. */
  predicate Increasing(s: seq<nat>)
  {
    forall a, b | 0 <= a < b < |s| :: s[a] < s[b]
  }

  /** The end of the run of values equal to `s[i]` that starts at `i`. */
  function RunEnd(s: seq<U64>, i: nat): (j: nat)
    requires i < |s|
    ensures i < j <= |s|
    decreases |s| - i
  {
    if i + 1 < |s| && s[i + 1] == s[i] then RunEnd(s, i + 1) else i + 1
  }

  /** A run holds equal values and ends at the end or at a different value. */
  lemma {:induction false} RunEndShape(s: seq<U64>, i: nat)
    requires i < |s|
    ensures forall m | i <= m < RunEnd(s, i) :: s[m] == s[i]
    ensures RunEnd(s, i) == |s| || s[RunEnd(s, i)] != s[i]
    decreases |s| - i
  {
    if i + 1 < |s| && s[i + 1] == s[i] {
      RunEndShape(s, i + 1);
    }
  }

  /** Any end with those two properties is the run's end. */
  lemma {:induction false} RunEndIs(s: seq<U64>, i: nat, j: nat)
    requires i < j <= |s| && forall m | i <= m < j :: s[m] == s[i]
    requires j == |s| || s[j] != s[i]
    ensures RunEnd(s, i) == j
    decreases j - i
  {
    if i + 1 < j {
      RunEndIs(s, i + 1, j);
    }
  }

  /** The values of `s[i..]` whose run has length one, in order. */
  function Singles(s: seq<U64>, i: nat): seq<U64>
    requires i <= |s|
    decreases |s| - i
  {
    if i == |s| then []
    else
      var j := RunEnd(s, i);
      (if j == i + 1 then [s[i]] else []) + Singles(s, j)
  }

  /** One value of each run of `s[i..]` longer than one, in order. */
  function Repeats(s: seq<U64>, i: nat): seq<U64>
    requires i <= |s|
    decreases |s| - i
  {
    if i == |s| then []
    else
      var j := RunEnd(s, i);
      (if j == i + 1 then [] else [s[i]]) + Repeats(s, j)
  }

  /** A run of `s[i]` from `i` to `j` counts `j - i` copies of it and nothing else. */
  lemma {:induction false} RunCount(s: seq<U64>, i: nat, j: nat, x: U64)
    requires i <= j <= |s| && forall m | i <= m < j :: s[m] == x
    ensures multiset(s[i..j])[x] == j - i
    ensures forall y | y != x :: multiset(s[i..j])[y] == 0
    decreases j - i
  {
    if i < j {
      RunCount(s, i, j - 1, x);
      assert s[i..j] == s[i..j - 1] + [s[j - 1]];
    }
  }

  /** In a sorted sequence nothing after a run equals the run's value. */
  lemma AfterRun(s: seq<U64>, i: nat)
    requires Sorted(s) && i < |s|
    ensures multiset(s[RunEnd(s, i)..])[s[i]] == 0
  {
    var j := RunEnd(s, i);
    RunEndShape(s, i);
    forall m | j <= m < |s|
      ensures s[i] < s[m]
    {
      assert s[i] <= s[j] <= s[m];
    }
    assert s[i] !in s[j..];
  }

  /** The values of a suffix are those of the first run followed by those after it. */
  lemma RunSplit(s: seq<U64>, i: nat, x: U64)
    requires i < |s|
    ensures var j := RunEnd(s, i);
      multiset(s[i..])[x] == (if x == s[i] then j - i else 0) + multiset(s[j..])[x]
  {
    var j := RunEnd(s, i);
    RunEndShape(s, i);
    RunCount(s, i, j, s[i]);
    assert s[i..] == s[i..j] + s[j..];
  }

  /** In a sorted sequence, the singletons are exactly the values occurring once. */
  lemma {:induction false} SinglesOccurOnce(s: seq<U64>, i: nat, x: U64)
    requires Sorted(s) && i <= |s|
    ensures x in Singles(s, i) <==> multiset(s[i..])[x] == 1
    decreases |s| - i
  {
    if i < |s| {
      var j := RunEnd(s, i);
      SinglesOccurOnce(s, j, x);
      RunSplit(s, i, x);
      if x == s[i] {
        AfterRun(s, i);
      }
    }
  }

  /** In a sorted sequence, the repeats are exactly the values occurring more than once. */
  lemma {:induction false} RepeatsOccurTwice(s: seq<U64>, i: nat, x: U64)
    requires Sorted(s) && i <= |s|
    ensures x in Repeats(s, i) <==> multiset(s[i..])[x] >= 2
    decreases |s| - i
  {
    if i < |s| {
      var j := RunEnd(s, i);
      RepeatsOccurTwice(s, j, x);
      RunSplit(s, i, x);
      if x == s[i] {
        AfterRun(s, i);
      }
    }
  }

  /** Everything the filters keep from `s[i..]` is above a value below all of it. */
  lemma {:induction false} KeptAbove(s: seq<U64>, i: nat, lower: int)
    requires i <= |s| && forall m | i <= m < |s| :: lower < s[m]
    ensures forall y | y in Singles(s, i) :: lower < y
    ensures forall y | y in Repeats(s, i) :: lower < y
    decreases |s| - i
  {
    if i < |s| {
      KeptAbove(s, RunEnd(s, i), lower);
    }
  }

  /** Of a sorted sequence both filters keep one copy each, in increasing order. */
  lemma {:induction false} FiltersIncreasing(s: seq<U64>, i: nat)
    requires Sorted(s) && i <= |s|
    ensures Increasing(Singles(s, i)) && Increasing(Repeats(s, i))
    decreases |s| - i
  {
    if i < |s| {
      var j := RunEnd(s, i);
      RunEndShape(s, i);
      FiltersIncreasing(s, j);
      forall m | j <= m < |s|
        ensures s[i] < s[m]
      {
        assert s[i] <= s[j] <= s[m];
      }
      KeptAbove(s, j, s[i]);
      ConsIncreasing(s[i], Singles(s, j));
      ConsIncreasing(s[i], Repeats(s, j));
    }
  }

  lemma ConsIncreasing(h: U64, r: seq<U64>)
    requires Increasing(r) && forall y | y in r :: h < y
    ensures Increasing([h] + r)
  {
    var t := [h] + r;
    forall a, b | 0 <= a < b < |t|
      ensures t[a] < t[b]
    {
      if a == 0 {
        assert t[b] == r[b - 1] && r[b - 1] in r;
      }
    }
  }

  /** The run starting at `i`, found by the inner loop of remove_non_singletons. */
  method FindRunEnd(a: array<U64>, i: nat, ghost s: seq<U64>) returns (j: nat)
    requires i < a.Length == |s| && forall m | i <= m < |s| :: a[m] == s[m]
    ensures j == RunEnd(s, i)
  {
    j := i + 1;
    while j < a.Length && a[i] == a[j]
      invariant i < j <= a.Length
      invariant forall m | i <= m < j :: s[m] == s[i]
    {
      j := j + 1;
    }
    RunEndIs(s, i, j);
  }

  /**
   * The compaction loop at the run boundary `i`: `a` still holds `s` from
   * `i` on, and what it holds before `currEnd` followed by the singletons
   * still to come is the prefix followed by all singletons.
   */
  ghost predicate Compacted(a: seq<U64>, s: seq<U64>, virtualBegin: nat, currEnd: nat, i: nat)
  {
    virtualBegin <= currEnd <= i <= |s| == |a| &&
    (forall m | i <= m < |a| :: a[m] == s[m]) &&
    a[..currEnd] + Singles(s, i) == s[..virtualBegin] + Singles(s, virtualBegin)
  }

  /** A run of one is copied down to `currEnd`. */
  lemma KeepStep(a: seq<U64>, s: seq<U64>, virtualBegin: nat, currEnd: nat, i: nat)
    requires Compacted(a, s, virtualBegin, currEnd, i) && i < |s| && RunEnd(s, i) == i + 1
    ensures Compacted(a[currEnd := s[i]], s, virtualBegin, currEnd + 1, i + 1)
  {
    var a' := a[currEnd := s[i]];
    assert a'[..currEnd + 1] == a[..currEnd] + [s[i]];
    assert Singles(s, i) == [s[i]] + Singles(s, i + 1);
    SnocAssoc(a[..currEnd], s[i], Singles(s, i + 1));
  }

  /** A longer run is passed over. */
  lemma SkipStep(a: seq<U64>, s: seq<U64>, virtualBegin: nat, currEnd: nat, i: nat)
    requires Compacted(a, s, virtualBegin, currEnd, i) && i < |s| && RunEnd(s, i) > i + 1
    ensures Compacted(a, s, virtualBegin, currEnd, RunEnd(s, i))
  {
    var j := RunEnd(s, i);
    SkipSingles(s, i);
    forall m | j <= m < |a|
      ensures a[m] == s[m]
    {
    }
  }

  lemma SkipSingles(s: seq<U64>, i: nat)
    requires i < |s| && RunEnd(s, i) > i + 1
    ensures Singles(s, i) == Singles(s, RunEnd(s, i))
  {
    assert [] + Singles(s, RunEnd(s, i)) == Singles(s, RunEnd(s, i));
  }

  lemma KeepRepeats(s: seq<U64>, i: nat)
    requires i < |s| && RunEnd(s, i) == i + 1
    ensures Repeats(s, i) == Repeats(s, i + 1)
  {
    assert [] + Repeats(s, i + 1) == Repeats(s, i + 1);
  }

  lemma SkipRepeats(s: seq<U64>, i: nat)
    requires i < |s| && RunEnd(s, i) > i + 1
    ensures Repeats(s, i) == [s[i]] + Repeats(s, RunEnd(s, i))
  {
  }

  /** At the end of the vector the compacted prefix is the result. */
  lemma CompactedEnd(a: seq<U64>, s: seq<U64>, virtualBegin: nat, currEnd: nat)
    requires Compacted(a, s, virtualBegin, currEnd, |s|)
    ensures a[..currEnd] == s[..virtualBegin] + Singles(s, virtualBegin)
  {
    assert a[..currEnd] + [] == a[..currEnd];
  }

  /** The collected repeats of `s[..i]` followed by those still to come are all repeats. */
  lemma RepeatStep(duplicated: seq<U64>, s: seq<U64>, virtualBegin: nat, i: nat)
    requires virtualBegin <= i < |s| && duplicated + Repeats(s, i) == Repeats(s, virtualBegin)
    ensures var j := RunEnd(s, i);
      (if j == i + 1 then duplicated else duplicated + [s[i]]) + Repeats(s, j) == Repeats(s, virtualBegin)
  {
    var j := RunEnd(s, i);
    if j > i + 1 {
      SkipRepeats(s, i);
      SnocAssoc(duplicated, s[i], Repeats(s, j));
    } else {
      KeepRepeats(s, i);
    }
  }

  /**
   * remove_non_singletons: compacts `a[virtualBegin..]` in place to the
   * values whose run has length one, leaving the prefix before
   * `virtualBegin` alone; the vector is then resized to the result.
   */
  method RemoveNonSingletons(a: array<U64>, virtualBegin: nat) returns (currEnd: nat)
    requires virtualBegin <= a.Length
    modifies a
    ensures currEnd <= a.Length
    ensures a[..currEnd] == old(a[..virtualBegin]) + Singles(old(a[..]), virtualBegin)
  {
    ghost var s := a[..];
    currEnd := virtualBegin;
    var i := virtualBegin;
    while i < a.Length
      invariant Compacted(a[..], s, virtualBegin, currEnd, i)
      decreases a.Length - i
    {
      var j := FindRunEnd(a, i, s);
      if i + 1 == j {
        KeepStep(a[..], s, virtualBegin, currEnd, i);
        a[currEnd] := a[i];
        currEnd := currEnd + 1;
      } else {
        SkipStep(a[..], s, virtualBegin, currEnd, i);
      }
      i := j;
    }
    CompactedEnd(a[..], s, virtualBegin, currEnd);
  }

  /** The duplicate-collecting remove_non_singletons: also lists one copy of each repeated value. */
  method RemoveNonSingletonsCollecting(a: array<U64>, virtualBegin: nat)
    returns (currEnd: nat, duplicated: seq<U64>)
    requires virtualBegin <= a.Length
    modifies a
    ensures currEnd <= a.Length
    ensures a[..currEnd] == old(a[..virtualBegin]) + Singles(old(a[..]), virtualBegin)
    ensures duplicated == Repeats(old(a[..]), virtualBegin)
  {
    ghost var s := a[..];
    duplicated := [];
    currEnd := virtualBegin;
    var i := virtualBegin;
    while i < a.Length
      invariant Compacted(a[..], s, virtualBegin, currEnd, i)
      invariant duplicated + Repeats(s, i) == Repeats(s, virtualBegin)
      decreases a.Length - i
    {
      var j := FindRunEnd(a, i, s);
      RepeatStep(duplicated, s, virtualBegin, i);
      if i + 1 == j {
        KeepStep(a[..], s, virtualBegin, currEnd, i);
        a[currEnd] := a[i];
        currEnd := currEnd + 1;
      } else {
        SkipStep(a[..], s, virtualBegin, currEnd, i);
        duplicated := duplicated + [a[i]];
      }
      i := j;
    }
    CompactedEnd(a[..], s, virtualBegin, currEnd);
    assert Repeats(s, a.Length) == [];
  }

  // ---------------------------------------------------------------------------
  // Preprocessing a raw contig

  /** preprocess_raw_contig's result: bytes below 64 dropped, the rest converted by cnv_num, in order. */
  function Preprocessed(s: seq<Byte>): seq<Byte>
    requires AllBelow(s, 128)
    decreases |s|
  {
    if s == [] then []
    else
      var c := s[|s| - 1];
      Preprocessed(s[..|s| - 1]) + (if c >= 64 then [AgcBasic.CnvNum(c)] else [])
  }

  /** Preprocessing never lengthens a contig. */
  lemma {:induction false} PreprocessedShorter(s: seq<Byte>)
    requires AllBelow(s, 128)
    ensures |Preprocessed(s)| <= |s|
    decreases |s|
  {
    if s != [] {
      PreprocessedShorter(s[..|s| - 1]);
    }
  }

  /** Preprocessing works byte by byte: the result of a concatenation is the concatenation of the results. */
  lemma {:induction false} PreprocessedConcat(a: seq<Byte>, b: seq<Byte>)
    requires AllBelow(a, 128) && AllBelow(b, 128)
    ensures AllBelow(a + b, 128)
    ensures Preprocessed(a + b) == Preprocessed(a) + Preprocessed(b)
    decreases |b|
  {
    if b != [] {
      var b', c := b[..|b| - 1], b[|b| - 1];
      var tail := if c >= 64 then [AgcBasic.CnvNum(c)] else [];
      assert (a + b)[..|a + b| - 1] == a + b' && (a + b)[|a + b| - 1] == c;
      PreprocessedConcat(a, b');
      ConcatAssoc(Preprocessed(a), Preprocessed(b'), tail);
    } else {
      assert a + b == a;
    }
  }

  /** One byte: a control character, digit or punctuation below '@' vanishes; a letter becomes its code. */
  lemma PreprocessedByte(c: Byte)
    requires c < 128
    ensures Preprocessed([c]) == if c < 64 then [] else [AgcBasic.CnvNum(c)]
  {
    assert [c][..0] == [];
  }

  /**
   * preprocess_raw_contig: converts the contig in place, writing each kept
   * code at the output position, and returns the new size.
   */
  method PreprocessRawContig(a: array<Byte>) returns (outPos: nat)
    requires AllBelow(a[..], 128)
    modifies a
    ensures outPos <= a.Length
    ensures a[..outPos] == Preprocessed(old(a[..]))
  {
    ghost var s := a[..];
    outPos := 0;
    for inPos := 0 to a.Length
      invariant outPos <= inPos
      invariant forall m | inPos <= m < a.Length :: a[m] == s[m]
      invariant a[..outPos] == Preprocessed(s[..inPos])
    {
      var c := a[inPos];
      assert s[..inPos + 1][..inPos] == s[..inPos];
      if c >= 64 {
        ghost var before := a[..outPos];
        a[outPos] := AgcBasic.CnvNum(c);
        assert a[..outPos + 1] == before + [AgcBasic.CnvNum(c)];
        outPos := outPos + 1;
      }
    }
    assert s[..a.Length] == s;
  }

  // ---------------------------------------------------------------------------
  // A part of a contig

  /** get_part: `len` symbols from `pos`, or up to the end when the contig is shorter. */
  function GetPart(contig: seq<Byte>, pos: U64, len: U64): (r: seq<Byte>)
    requires pos <= |contig| && pos + len < TWO_64
    ensures |r| == if pos + len <= |contig| then len else |contig| - pos
    ensures forall i | 0 <= i < |r| :: r[i] == contig[pos + i]
  {
    if pos + len < |contig| then contig[pos..pos + len] else contig[pos..]
  }

  /** Two consecutive parts make up the part that spans both. */
  lemma PartsJoin(contig: seq<Byte>, pos: U64, len1: U64, len2: U64)
    requires pos + len1 <= |contig| && pos + len1 + len2 < TWO_64
    ensures GetPart(contig, pos, len1) + GetPart(contig, pos + len1, len2) == GetPart(contig, pos, len1 + len2)
  {
    var l, r, w := GetPart(contig, pos, len1), GetPart(contig, pos + len1, len2), GetPart(contig, pos, len1 + len2);
    assert |l + r| == |w|;
    forall i | 0 <= i < |w|
      ensures (l + r)[i] == w[i]
    {
      if i >= len1 {
        assert (l + r)[i] == r[i - len1];
      }
    }
  }

  // ---------------------------------------------------------------------------
  // Binary search

  /** std::binary_search on a sorted range: lower_bound, then a test for equality. */
  method BinarySearch(a: seq<U64>, x: nat) returns (found: bool)
    requires Sorted(a)
    ensures found <==> x in a
  {
    var lo, hi := 0, |a|;
    while lo < hi
      invariant 0 <= lo <= hi <= |a|
      invariant forall m | 0 <= m < lo :: a[m] < x
      invariant forall m | hi <= m < |a| :: x <= a[m]
    {
      var mid := lo + (hi - lo) / 2;
      if a[mid] < x {
        lo := mid + 1;
      } else {
        hi := mid;
      }
    }
    if x in a {
      var m :| 0 <= m < |a| && a[m] == x;
      assert a[lo] <= a[m];
    }
    found := lo < |a| && a[lo] == x;
  }

  // ---------------------------------------------------------------------------
  // Canonical k-mers of a contig

  /** The canonical value of a k-mer: the smaller of its packing and that of its reverse complement. */
  function Canonical(w: seq<Kmer.Sym>): nat
    requires |w| <= 32
  {
    var d, r := Kmer.Packed(w), Kmer.Packed(Kmer.ReverseComplement(w));
    if d < r then d else r
  }

  /** The nucleotides since the last symbol above 3 among the first `i` of the contig. */
  function RunOf(ctg: seq<Byte>, i: nat): (r: seq<Kmer.Sym>)
    requires i <= |ctg|
    ensures |r| <= i
  {
    if i == 0 || ctg[i - 1] > 3 then [] else RunOf(ctg, i - 1) + [ctg[i - 1]]
  }

  /** The run is the end of the contig read so far, and starts at the contig's start or after a symbol above 3. */
  lemma {:induction false} RunOfShape(ctg: seq<Byte>, i: nat)
    requires i <= |ctg|
    ensures var n := |RunOf(ctg, i)|;
      (forall m | 0 <= m < n :: RunOf(ctg, i)[m] == ctg[i - n + m]) &&
      (n == i || ctg[i - n - 1] > 3)
  {
    if i > 0 && ctg[i - 1] <= 3 {
      RunOfShape(ctg, i - 1);
    }
  }

  /** The run reaches `k` exactly when the last `k` symbols read are all nucleotides. */
  lemma {:induction false} RunOfReaches(ctg: seq<Byte>, i: nat, k: nat)
    requires k <= i <= |ctg|
    ensures |RunOf(ctg, i)| >= k <==> forall m | i - k <= m < i :: ctg[m] <= 3
    decreases k
  {
    if k > 0 {
      if ctg[i - 1] <= 3 {
        RunOfReaches(ctg, i - 1, k - 1);
      }
    }
  }

  /**
   * What enumerate_kmers lists for the first `i` symbols: after every
   * nucleotide that completes a run of at least k, the canonical value of
   * the last k of them.
   */
  function Kmers(ctg: seq<Byte>, k: nat, i: nat): seq<nat>
    requires 1 <= k <= 32 && i <= |ctg|
  {
    if i == 0 then []
    else
      var run := RunOf(ctg, i);
      Kmers(ctg, k, i - 1) + (if |run| >= k then [Canonical(Kmer.LastK(run, k))] else [])
  }

  /** The k-mer listed after position `i - 1` covers exactly the contig's symbols `i - k .. i`. */
  lemma KmerWindow(ctg: seq<Byte>, k: nat, i: nat)
    requires 1 <= k <= 32 && i <= |ctg| && |RunOf(ctg, i)| >= k
    ensures var w := Kmer.LastK(RunOf(ctg, i), k);
      |w| == k && forall m | 0 <= m < k :: w[m] == ctg[i - k + m]
  {
    RunOfShape(ctg, i);
  }

  /** A contig shorter than k has no k-mers, and one of length n at most n + 1 - k. */
  lemma {:induction false} KmersCount(ctg: seq<Byte>, k: nat, i: nat)
    requires 1 <= k <= 32 && i <= |ctg|
    ensures i < k ==> Kmers(ctg, k, i) == []
    ensures i >= k ==> |Kmers(ctg, k, i)| <= i + 1 - k
  {
    if i > 0 {
      KmersCount(ctg, k, i - 1);
    }
  }

  /**
   * enumerate_kmers: the canonical k-mers of the contig, a symbol above 3
   * emptying the register.
   */
  method EnumerateKmers(ctg: seq<Byte>, k: U32) returns (vec: seq<U64>)
    requires 1 <= k <= 32
    ensures vec == Kmers(ctg, k, |ctg|)
  {
    var kmer := new Kmer.CKmer(k, Kmer.Canonical);
    vec := [];
    if |ctg| < k {
      KmersCount(ctg, k, |ctg|);
      return;
    }
    kmer.Reset();
    for i := 0 to |ctg|
      invariant kmer.Valid() && kmer.maxSize == k && kmer.variant == Kmer.Canonical
      invariant kmer.window == Kmer.LastK(RunOf(ctg, i), k)
      invariant vec == Kmers(ctg, k, i)
    {
      vec := EnumerateStep(kmer, ctg, k, i, vec);
    }
  }

  /** One symbol of enumerate_kmers. */
  method EnumerateStep(kmer: Kmer.CKmer, ctg: seq<Byte>, k: U32, i: nat, vec: seq<U64>) returns (vec': seq<U64>)
    requires 1 <= k <= 32 && i < |ctg|
    requires kmer.Valid() && kmer.maxSize == k && kmer.variant == Kmer.Canonical
    requires kmer.window == Kmer.LastK(RunOf(ctg, i), k) && vec == Kmers(ctg, k, i)
    modifies kmer
    ensures kmer.Valid() && kmer.maxSize == k && kmer.variant == Kmer.Canonical
    ensures kmer.window == Kmer.LastK(RunOf(ctg, i + 1), k) && vec' == Kmers(ctg, k, i + 1)
  {
    var x := ctg[i];
    vec' := vec;
    if x > 3 {
      kmer.Reset();
    } else {
      Kmer.SlideLastK(RunOf(ctg, i), x, k);
      kmer.Insert(x);
      if kmer.IsFull() {
        var d := CanonicalData(kmer);
        vec' := vec + [d];
      }
    }
  }

  /** data() of a canonical register is the canonical value of its window. */
  method CanonicalData(kmer: Kmer.CKmer) returns (d: U64)
    requires kmer.Valid() && kmer.variant == Kmer.Canonical
    ensures d == Canonical(kmer.window)
  {
    d := kmer.Data();
  }

  // ---------------------------------------------------------------------------
  // Choosing splitters

  /**
   * The state of find_splitters_in_contig: symbols since the last splitter
   * (current_len), the register's window, the candidate k-mers seen since
   * then (v_recent_kmers) and the splitters taken.
   */
  datatype Scan = Scan(len: nat, window: seq<Kmer.Sym>, recent: seq<nat>, splitters: seq<nat>)

  /**
   * One symbol of the scan: a symbol above 3 empties the register; a full
   * register's k-mer joins the recent ones and, once `segSize` symbols have
   * passed since the last splitter, becomes a splitter when it is a
   * candidate, which restarts the count, the register and the recent list.
   */
  function ScanStep(st: Scan, x: Byte, k: nat, segSize: nat, cands: seq<nat>): (r: Scan)
    requires 1 <= k <= 32 && |st.window| <= k
    ensures |r.window| <= k
  {
    if x > 3 then Scan(st.len + 1, [], st.recent, st.splitters)
    else
      var w := Kmer.Slide(st.window, x, k);
      if |w| < k then Scan(st.len + 1, w, st.recent, st.splitters)
      else
        var d := Canonical(w);
        if st.len >= segSize && d in cands then Scan(1, [], [], st.splitters + [d])
        else Scan(st.len + 1, w, st.recent + [d], st.splitters)
  }

  /** The scan after the first `i` symbols; the count starts at `segSize` so that the first candidate is taken. */
  function ScanTo(ctg: seq<Byte>, i: nat, k: nat, segSize: nat, cands: seq<nat>): (r: Scan)
    requires 1 <= k <= 32 && i <= |ctg|
    ensures |r.window| <= k
  {
    if i == 0 then Scan(segSize, [], [], [])
    else ScanStep(ScanTo(ctg, i - 1, k, segSize, cands), ctg[i - 1], k, segSize, cands)
  }

  /** The last recent k-mer that is a candidate, if any. */
  function LastCandidate(recent: seq<nat>, cands: seq<nat>): (r: seq<nat>)
    ensures |r| <= 1
  {
    if recent == [] then []
    else if recent[|recent| - 1] in cands then [recent[|recent| - 1]]
    else LastCandidate(recent[..|recent| - 1], cands)
  }

  /** The splitters find_splitters_in_contig appends for a contig. */
  function Splitters(ctg: seq<Byte>, k: nat, segSize: nat, cands: seq<nat>): seq<nat>
    requires 1 <= k <= 32
  {
    var st := ScanTo(ctg, |ctg|, k, segSize, cands);
    st.splitters + LastCandidate(st.recent, cands)
  }

  /** Every splitter the scan takes is a candidate k-mer. */
  lemma {:induction false} ScanCandidates(ctg: seq<Byte>, i: nat, k: nat, segSize: nat, cands: seq<nat>)
    requires 1 <= k <= 32 && i <= |ctg|
    ensures forall d | d in ScanTo(ctg, i, k, segSize, cands).splitters :: d in cands
  {
    if i > 0 {
      ScanCandidates(ctg, i - 1, k, segSize, cands);
    }
  }

  lemma {:induction false} LastCandidateIs(recent: seq<nat>, cands: seq<nat>)
    ensures forall d | d in LastCandidate(recent, cands) :: d in recent && d in cands
  {
    if recent != [] && recent[|recent| - 1] !in cands {
      LastCandidateIs(recent[..|recent| - 1], cands);
    }
  }

  /** Every splitter found in a contig lies in the candidate range. */
  lemma SplittersAreCandidates(ctg: seq<Byte>, k: nat, segSize: nat, cands: seq<nat>)
    requires 1 <= k <= 32
    ensures forall d | d in Splitters(ctg, k, segSize, cands) :: d in cands
  {
    var st := ScanTo(ctg, |ctg|, k, segSize, cands);
    ScanCandidates(ctg, |ctg|, k, segSize, cands);
    LastCandidateIs(st.recent, cands);
  }

  /**
   * find_splitters_in_contig: the scan over the contig, then the rightmost
   * recent candidate, appended to the splitters already found.
   */
  method FindSplittersInContig(ctg: seq<Byte>, k: U32, segSize: U32, cands: seq<U64>, splittersIn: seq<U64>)
    returns (splitters: seq<U64>)
    requires 1 <= k <= 32 && Sorted(cands)
    ensures splitters == splittersIn + Splitters(ctg, k, segSize, cands)
  {
    var currentLen: nat := segSize;
    var recent: seq<U64> := [];
    var kmer := new Kmer.CKmer(k, Kmer.Canonical);
    kmer.Reset();
    splitters := splittersIn;
    for i := 0 to |ctg|
      invariant kmer.Valid() && kmer.maxSize == k && kmer.variant == Kmer.Canonical
      invariant Scanned(ScanTo(ctg, i, k, segSize, cands), currentLen, kmer.window, recent, splitters, splittersIn)
    {
      currentLen, recent, splitters :=
        SplitterStep(kmer, ctg[i], k, segSize, cands, currentLen, recent, splitters, splittersIn,
                     ScanTo(ctg, i, k, segSize, cands));
    }
    var last := RightmostCandidate(recent, cands);
    splitters := splitters + last;
  }

  /** The method's variables hold the scan's state. */
  ghost predicate Scanned(st: Scan, currentLen: nat, window: seq<Kmer.Sym>, recent: seq<U64>,
                          splitters: seq<U64>, splittersIn: seq<U64>)
  {
    currentLen == st.len && window == st.window && recent == st.recent && splitters == splittersIn + st.splitters
  }

  /** One symbol of find_splitters_in_contig. */
  method SplitterStep(kmer: Kmer.CKmer, x: Byte, k: U32, segSize: U32, cands: seq<U64>,
                      currentLen: nat, recent: seq<U64>, splitters: seq<U64>, splittersIn: seq<U64>, ghost st: Scan)
    returns (currentLen': nat, recent': seq<U64>, splitters': seq<U64>)
    requires 1 <= k <= 32 && Sorted(cands) && |st.window| <= k
    requires kmer.Valid() && kmer.maxSize == k && kmer.variant == Kmer.Canonical
    requires Scanned(st, currentLen, kmer.window, recent, splitters, splittersIn)
    modifies kmer
    ensures kmer.Valid() && kmer.maxSize == k && kmer.variant == Kmer.Canonical
    ensures Scanned(ScanStep(st, x, k, segSize, cands), currentLen', kmer.window, recent', splitters', splittersIn)
  {
    currentLen', recent', splitters' := currentLen, recent, splitters;
    if x > 3 {
      kmer.Reset();
    } else {
      kmer.Insert(x);
      if kmer.IsFull() {
        var d := CanonicalData(kmer);
        recent' := recent + [d];
        if currentLen >= segSize {
          var found := BinarySearch(cands, d);
          if found {
            splitters' := splitters + [d];
            currentLen' := 0;
            kmer.Reset();
            recent' := [];
          }
        }
      }
    }
    currentLen' := currentLen' + 1;
  }

  /** The closing loop of find_splitters_in_contig: the recent k-mers from the last one back. */
  method RightmostCandidate(recent: seq<U64>, cands: seq<U64>) returns (r: seq<U64>)
    requires Sorted(cands)
    ensures r == LastCandidate(recent, cands)
  {
    var p := |recent|;
    assert recent[..p] == recent;
    while p > 0
      invariant 0 <= p <= |recent|
      invariant LastCandidate(recent[..p], cands) == LastCandidate(recent, cands)
    {
      var found := BinarySearch(cands, recent[p - 1]);
      if found {
        return [recent[p - 1]];
      }
      assert recent[..p][..p - 1] == recent[..p - 1];
      p := p - 1;
    }
    r := [];
  }
}
