/**
 * Contig names of format v3 (src/core/collection_v3.cpp): a name is split
 * at spaces, and when it has as many components as the previous name of
 * the sample each component is stored as a difference against the
 * previous one.
 */
module NameSplit {
  import opened Basics

  type Name = seq<Byte>

  const SPACE: Byte := 0x20
  /** `(char) -127`: the component equals the previous one. */
  const SAME: Byte := 0x81
  /** Longest run a single repetition marker covers. */
  const MAX_RUN: nat := 100

  /** `(char) -n`: copy `n` bytes of the previous component. */
  function Marker(n: nat): (b: Byte)
    requires 1 <= n <= MAX_RUN
    ensures 0x9C <= b && 256 - b == n
  {
    256 - n
  }

  /** Every byte is 7-bit, that is, non-negative as a (signed) char. */
  predicate Ascii(s: Name)
  {
    forall k :: 0 <= k < |s| ==> s[k] < 0x80
  }

  // ---------------------------------------------------------------------
  // split_string and its inverse

  /** `find(p, s.end(), c)`: the first `c` at or after `p`, or |s|. */
  function Find(s: Name, c: Byte, p: nat): (q: nat)
    requires p <= |s|
    ensures p <= q <= |s| && (q < |s| ==> s[q] == c)
    decreases |s| - p
  {
    if p == |s| || s[p] == c then p else Find(s, c, p + 1)
  }

  /** No `c` lies between `p` and the position `Find` returns. */
  lemma {:induction false} FindFirst(s: Name, c: Byte, p: nat)
    requires p <= |s|
    ensures forall k :: p <= k < Find(s, c, p) ==> s[k] != c
    decreases |s| - p
  {
    if p < |s| && s[p] != c {
      FindFirst(s, c, p + 1);
    }
  }

  /** `Find` stops at the first `c`: at `q` when no `c` comes between `p` and `q`. */
  lemma {:induction false} FindUnique(s: Name, c: Byte, p: nat, q: nat)
    requires p <= q <= |s|
    requires forall k :: p <= k < q ==> s[k] != c
    requires q < |s| ==> s[q] == c
    ensures Find(s, c, p) == q
    decreases q - p
  {
    if p < q {
      FindUnique(s, c, p + 1, q);
    }
  }

  /** The components from position `p` on, as the scan of `split_string` finds them. */
  function SplitFrom(s: Name, p: nat): (parts: seq<Name>)
    requires p <= |s|
    ensures |parts| >= 1
    decreases |s| - p
  {
    var q := Find(s, SPACE, p);
    if q == |s| then [s[p..q]] else [s[p..q]] + SplitFrom(s, q + 1)
  }

  /** The components of `s` between spaces (`split_string`). */
  function Split(s: Name): (parts: seq<Name>)
    ensures |parts| >= 1
  {
    SplitFrom(s, 0)
  }

  /** The components joined with single spaces. */
  function Join(parts: seq<Name>): (s: Name)
    requires |parts| >= 1
  {
    if |parts| == 1 then parts[0] else parts[0] + [SPACE] + Join(parts[1..])
  }

  /** Joining a component in front of at least one other puts a space between them. */
  lemma JoinCons(a: Name, rest: seq<Name>)
    requires |rest| >= 1
    ensures Join([a] + rest) == a + [SPACE] + Join(rest)
  {
    assert ([a] + rest)[1..] == rest;
  }

  /** A suffix is the slice up to `q`, the element at `q`, and the suffix after it. */
  lemma Around<T>(s: seq<T>, p: nat, q: nat)
    requires p <= q < |s|
    ensures s[p..] == s[p..q] + [s[q]] + s[q + 1..]
  {
  }

  /** Joining the components from `p` on rebuilds the name from `p` on. */
  lemma {:induction false} JoinSplitFrom(s: Name, p: nat)
    requires p <= |s|
    ensures Join(SplitFrom(s, p)) == s[p..]
    decreases |s| - p
  {
    var q := Find(s, SPACE, p);
    if q < |s| {
      var rest := SplitFrom(s, q + 1);
      calc {
        Join(SplitFrom(s, p));
        Join([s[p..q]] + rest);
        { JoinCons(s[p..q], rest); }
        s[p..q] + [SPACE] + Join(rest);
        { JoinSplitFrom(s, q + 1); }
        s[p..q] + [SPACE] + s[q + 1..];
        { Around(s, p, q); }
        s[p..];
      }
    } else {
      assert s[p..q] == s[p..];
    }
  }

  /** Joining the components rebuilds the name. */
  lemma JoinSplit(s: Name)
    ensures Join(Split(s)) == s
  {
    JoinSplitFrom(s, 0);
    assert s[0..] == s;
  }

  /** A component followed by a space at `p` is the first one scanned from `p`. */
  lemma SplitFromCons(x: Name, p: nat, a: Name)
    requires p + |a| < |x| && x[p..p + |a|] == a && x[p + |a|] == SPACE
    requires SPACE !in a
    ensures SplitFrom(x, p) == [a] + SplitFrom(x, p + |a| + 1)
  {
    forall k | p <= k < p + |a| ensures x[k] != SPACE {
      assert x[k] == a[k - p];
    }
    FindUnique(x, SPACE, p, p + |a|);
  }

  /** A space-free suffix at `p` is the only component scanned from `p`. */
  lemma SplitFromLast(x: Name, p: nat, a: Name)
    requires p <= |x| && x[p..] == a && SPACE !in a
    ensures SplitFrom(x, p) == [a]
  {
    forall k | p <= k < |x| ensures x[k] != SPACE {
      assert x[k] == a[k - p];
    }
    FindUnique(x, SPACE, p, |x|);
    assert x[p..|x|] == x[p..];
  }

  /** Where a sequence placed between `pre` and a separator and `rest` sits in the whole. */
  lemma Placed<T>(pre: seq<T>, a: seq<T>, mid: T, rest: seq<T>)
    ensures var x := pre + (a + [mid] + rest);
      && |pre| + |a| < |x| && x[|pre| + |a|] == mid
      && x[|pre|..|pre| + |a|] == a
      && x == (pre + a + [mid]) + rest
  {
    var x := pre + (a + [mid] + rest);
    assert x[|pre|..|pre| + |a|] == a;
  }

  /** Scanning the join of space-free components from where they start gives them back. */
  lemma {:induction false} SplitFromJoin(pre: Name, parts: seq<Name>)
    requires |parts| >= 1
    requires forall k :: 0 <= k < |parts| ==> SPACE !in parts[k]
    ensures SplitFrom(pre + Join(parts), |pre|) == parts
    decreases |parts|
  {
    var a := parts[0];
    if |parts| == 1 {
      assert (pre + a)[|pre|..] == a;
      SplitFromLast(pre + a, |pre|, a);
      assert parts == [a];
    } else {
      var rest := parts[1..];
      HeadTail(parts);
      JoinCons(a, rest);
      var x := pre + Join(parts);
      var pre' := pre + a + [SPACE];
      Placed(pre, a, SPACE, Join(rest));
      assert SPACE !in a;
      SplitFromCons(x, |pre|, a);
      assert |pre'| == |pre| + |a| + 1 && x == pre' + Join(rest);
      SplitFromJoin(pre', rest);
      assert SplitFrom(x, |pre|) == [a] + rest;
    }
  }

  /** Splitting a join of space-free components gives them back. */
  lemma SplitJoin(parts: seq<Name>)
    requires |parts| >= 1
    requires forall k :: 0 <= k < |parts| ==> SPACE !in parts[k]
    ensures Split(Join(parts)) == parts
  {
    SplitFromJoin([], parts);
    assert [] + Join(parts) == Join(parts);
  }

  /** There is one component more than there are spaces from `p` on. */
  lemma {:induction false} SplitFromCount(s: Name, p: nat)
    requires p <= |s|
    ensures |SplitFrom(s, p)| == Count(s[p..], SPACE) + 1
    decreases |s| - p
  {
    var q := Find(s, SPACE, p);
    FindFirst(s, SPACE, p);
    if q == |s| {
      NoneCounted(s, SPACE, p, q);
    } else {
      SplitFromCount(s, q + 1);
      CountPast(s, SPACE, p, q);
    }
  }

  /** A suffix free of `x` counts none. */
  lemma NoneCounted<T>(s: seq<T>, x: T, p: nat, q: nat)
    requires p <= q == |s|
    requires forall k :: p <= k < q ==> s[k] != x
    ensures Count(s[p..], x) == 0
  {
    assert x !in s[p..];
  }

  /** Stepping over a stretch free of `x` and then one `x` counts one. */
  lemma CountPast<T>(s: seq<T>, x: T, p: nat, q: nat)
    requires p <= q < |s| && s[q] == x
    requires forall k :: p <= k < q ==> s[k] != x
    ensures Count(s[p..], x) == Count(s[q + 1..], x) + 1
  {
    assert s[p..] == s[p..q] + ([s[q]] + s[q + 1..]);
    assert x !in s[p..q];
    CountConcat(s[p..q], [s[q]] + s[q + 1..], x);
    CountConcat([s[q]], s[q + 1..], x);
  }

  /** There is one component more than there are spaces. */
  lemma SplitCount(s: Name)
    ensures |Split(s)| == Count(s, SPACE) + 1
  {
    SplitFromCount(s, 0);
    assert s[0..] == s;
  }

  lemma {:induction false} CountConcat<T>(a: seq<T>, b: seq<T>, x: T)
    ensures Count(a + b, x) == Count(a, x) + Count(b, x)
    decreases |a|
  {
    if a != [] {
      assert (a + b)[1..] == a[1..] + b;
      CountConcat(a[1..], b, x);
    } else {
      assert a + b == b;
    }
  }

  /** No component from `p` on holds a space. */
  lemma {:induction false} SplitFromSpaceFree(s: Name, p: nat)
    requires p <= |s|
    ensures forall i :: 0 <= i < |SplitFrom(s, p)| ==> SPACE !in SplitFrom(s, p)[i]
    decreases |s| - p
  {
    var q := Find(s, SPACE, p);
    FindFirst(s, SPACE, p);
    var parts := SplitFrom(s, p);
    assert SPACE !in parts[0];
    if q < |s| {
      SplitFromSpaceFree(s, q + 1);
      forall i | 1 <= i < |parts| ensures SPACE !in parts[i] {
        assert parts[i] == SplitFrom(s, q + 1)[i - 1];
      }
    }
  }

  /** No component holds a space. */
  lemma SplitSpaceFree(s: Name)
    ensures forall i :: 0 <= i < |Split(s)| ==> SPACE !in Split(s)[i]
  {
    SplitFromSpaceFree(s, 0);
  }

  /** `split_string`: a scan with `find`, pushing each component. */
  method SplitString(s: Name) returns (components: seq<Name>)
    ensures components == Split(s)
  {
    components := [];
    var p := 0;
    while true
      invariant p <= |s|
      invariant components + SplitFrom(s, p) == SplitFrom(s, 0)
      decreases |s| - p
    {
      var q := Find(s, SPACE, p);
      var part := s[p..q];
      if q == |s| {
        components := components + [part];
        return;
      }
      ConcatAssoc3(components, [part], SplitFrom(s, q + 1));
      components := components + [part];
      p := q + 1;
    }
  }

  lemma ConcatAssoc3<T>(a: seq<T>, b: seq<T>, c: seq<T>)
    ensures a + (b + c) == (a + b) + c
  {
  }

  // ---------------------------------------------------------------------
  // encode_split: one component against the previous one

  /**
   * The difference coding of `c` against `p` (equal lengths) from index `j`
   * on, with `cnt` matching bytes pending: a byte that differs is stored as
   * itself, a run of equal bytes as markers of at most MAX_RUN each.
   */
  function DiffFrom(p: Name, c: Name, j: nat, cnt: nat): (e: Name)
    requires |p| == |c| && j <= |c| && cnt <= MAX_RUN
    ensures |e| <= 2 * (|c| - j) + 1
    decreases |c| - j
  {
    if j == |c| then
      (if cnt > 0 then [Marker(cnt)] else [])
    else if p[j] == c[j] then
      (if cnt == MAX_RUN then [Marker(MAX_RUN)] + DiffFrom(p, c, j + 1, 1)
       else DiffFrom(p, c, j + 1, cnt + 1))
    else
      (if cnt > 0 then [Marker(cnt)] else []) + [c[j]] + DiffFrom(p, c, j + 1, 0)
  }

  /** Every byte of a difference coding is a marker or a byte of the component. */
  lemma {:induction false} DiffFromBytes(p: Name, c: Name, j: nat, cnt: nat)
    requires |p| == |c| && j <= |c| && cnt <= MAX_RUN
    ensures forall k :: 0 <= k < |DiffFrom(p, c, j, cnt)| ==> 0x9C <= DiffFrom(p, c, j, cnt)[k] || DiffFrom(p, c, j, cnt)[k] in c
    decreases |c| - j
  {
    var e := DiffFrom(p, c, j, cnt);
    if j < |c| {
      if p[j] == c[j] {
        if cnt == MAX_RUN {
          DiffFromBytes(p, c, j + 1, 1);
          assert e == [Marker(MAX_RUN)] + DiffFrom(p, c, j + 1, 1);
        } else {
          DiffFromBytes(p, c, j + 1, cnt + 1);
        }
      } else {
        DiffFromBytes(p, c, j + 1, 0);
        var head: Name := if cnt > 0 then [Marker(cnt)] else [];
        var rest := DiffFrom(p, c, j + 1, 0);
        assert e == head + [c[j]] + rest;
        forall k | 0 <= k < |e| ensures 0x9C <= e[k] || e[k] in c {
          if k < |head| {
            assert e[k] == head[k];
          } else if k == |head| {
            assert e[k] == c[j];
          } else {
            assert e[k] == rest[k - |head| - 1];
          }
        }
      }
    }
  }

  /** How one component is stored. */
  function EncodeComponent(p: Name, c: Name): (e: Name)
    ensures p == c ==> e == [SAME]
    ensures p != c && |p| != |c| ==> e == c
  {
    if p == c then [SAME]
    else if |p| != |c| then c
    else DiffFrom(p, c, 0, 0)
  }

  /** Encoded components, one per component of the current name. */
  function EncodeComponents(prev: seq<Name>, curr: seq<Name>): (es: seq<Name>)
    requires |prev| == |curr|
    ensures |es| == |curr|
    ensures forall i :: 0 <= i < |curr| ==> es[i] == EncodeComponent(prev[i], curr[i])
  {
    if curr == [] then []
    else [EncodeComponent(prev[0], curr[0])] + EncodeComponents(prev[1..], curr[1..])
  }

  /** `encode_split`: the encoded components joined with spaces. */
  function EncodeSplit(prev: seq<Name>, curr: seq<Name>): (e: Name)
    requires |prev| == |curr| >= 1
  {
    Join(EncodeComponents(prev, curr))
  }

  // ---------------------------------------------------------------------
  // decode_split

  function Prepend(a: Name, r: Option<Name>): (r': Option<Name>)
    ensures r.None? <==> r'.None?
    ensures r.Some? ==> r'.value == a + r.value
  {
    if r.None? then None else Some(a + r.value)
  }

  /**
   * Decoding of component bytes `e` against `p`, `ptr` bytes of `p`
   * consumed so far: a non-negative char is copied, a negative one copies
   * that many bytes of `p`. None when a run reaches past the end of `p`.
   */
  function DecodeDiff(p: Name, e: Name, ptr: nat): (r: Option<Name>)
    decreases |e|
  {
    if e == [] then Some([])
    else if e[0] < 0x80 then Prepend([e[0]], DecodeDiff(p, e[1..], ptr + 1))
    else
      var n := 256 - e[0];
      if ptr + n > |p| then None
      else Prepend(p[ptr..ptr + n], DecodeDiff(p, e[1..], ptr + n))
  }

  /** One stored component decoded against the previous one. */
  function DecodeComponent(p: Name, e: Name): (r: Option<Name>)
    ensures e == [SAME] ==> r == Some(p)
  {
    if e == [SAME] then Some(p) else DecodeDiff(p, e, 0)
  }

  /** Decoded components of the stored name `curr` (already split). */
  function DecodeComponents(prev: seq<Name>, curr: seq<Name>): (r: Option<seq<Name>>)
    requires |prev| >= |curr|
    ensures r.Some? ==> |r.value| == |curr|
  {
    if curr == [] then Some([])
    else
      match DecodeComponent(prev[0], curr[0])
      case None => None
      case Some(c) =>
        match DecodeComponents(prev[1..], curr[1..])
        case None => None
        case Some(cs) => Some([c] + cs)
  }

  /** `decode_split`: the decoded name, and the decoded components that become the next `prev`. */
  function DecodeSplit(prev: seq<Name>, curr: seq<Name>): (r: Option<(Name, seq<Name>)>)
    requires |prev| >= |curr| >= 1
    ensures r.Some? ==> |r.value.1| == |curr| && r.value.0 == Join(r.value.1)
  {
    match DecodeComponents(prev, curr)
    case None => None
    case Some(cs) => Some((Join(cs), cs))
  }

  // ---------------------------------------------------------------------
  // Round trip

  /** Bytes below 0x80 decode to themselves. */
  lemma {:induction false} DecodeAscii(p: Name, e: Name, ptr: nat)
    requires Ascii(e)
    ensures DecodeDiff(p, e, ptr) == Some(e)
    decreases |e|
  {
    if e != [] {
      DecodeAscii(p, e[1..], ptr + 1);
      assert [e[0]] + e[1..] == e;
    }
  }

  /** A marker for `n` pending bytes copies them from `p`. */
  lemma MarkerStep(p: Name, n: nat, rest: Name, ptr: nat)
    requires 1 <= n <= MAX_RUN && ptr + n <= |p|
    ensures DecodeDiff(p, [Marker(n)] + rest, ptr) == Prepend(p[ptr..ptr + n], DecodeDiff(p, rest, ptr + n))
  {
    assert ([Marker(n)] + rest)[1..] == rest;
  }

  /** A 7-bit byte is copied as itself. */
  lemma LiteralStep(p: Name, b: Byte, rest: Name, ptr: nat)
    requires b < 0x80
    ensures DecodeDiff(p, [b] + rest, ptr) == Prepend([b], DecodeDiff(p, rest, ptr + 1))
  {
    assert ([b] + rest)[1..] == rest;
  }

  /** Decoding from the start of a pending run restores the rest of `c`. */
  lemma {:induction false} DiffRoundTrip(p: Name, c: Name, j: nat, cnt: nat)
    requires |p| == |c| && j <= |c| && cnt <= MAX_RUN && cnt <= j
    requires Ascii(c)
    requires forall k :: j - cnt <= k < j ==> p[k] == c[k]
    ensures DecodeDiff(p, DiffFrom(p, c, j, cnt), j - cnt) == Some(c[j - cnt..])
    decreases |c| - j, 1
  {
    if j == |c| {
      if cnt > 0 {
        MarkerStep(p, cnt, [], j - cnt);
        assert DiffFrom(p, c, j, cnt) == [Marker(cnt)] + [];
        assert p[j - cnt..j] == c[j - cnt..];
        assert p[j - cnt..j] + [] == p[j - cnt..j];
      }
    } else if p[j] == c[j] {
      if cnt == MAX_RUN {
        FullRunRoundTrip(p, c, j, cnt);
      } else {
        DiffRoundTrip(p, c, j + 1, cnt + 1);
      }
    } else {
      MismatchRoundTrip(p, c, j, cnt);
    }
  }

  lemma {:induction false} FullRunRoundTrip(p: Name, c: Name, j: nat, cnt: nat)
    requires |p| == |c| && j < |c| && cnt == MAX_RUN && cnt <= j
    requires Ascii(c) && p[j] == c[j]
    requires forall k :: j - cnt <= k < j ==> p[k] == c[k]
    ensures DecodeDiff(p, DiffFrom(p, c, j, cnt), j - cnt) == Some(c[j - cnt..])
    decreases |c| - j, 0
  {
    DiffRoundTrip(p, c, j + 1, 1);
    MarkerThen(p, c, j, cnt, DiffFrom(p, c, j + 1, 1));
  }

  lemma {:induction false} MismatchRoundTrip(p: Name, c: Name, j: nat, cnt: nat)
    requires |p| == |c| && j < |c| && cnt <= MAX_RUN && cnt <= j
    requires Ascii(c) && p[j] != c[j]
    requires forall k :: j - cnt <= k < j ==> p[k] == c[k]
    ensures DecodeDiff(p, DiffFrom(p, c, j, cnt), j - cnt) == Some(c[j - cnt..])
    decreases |c| - j, 0
  {
    var rest := DiffFrom(p, c, j + 1, 0);
    DiffRoundTrip(p, c, j + 1, 0);
    LiteralThen(p, c, j, rest);
    DiffFromMismatch(p, c, j, cnt);
    if cnt > 0 {
      MarkerThen(p, c, j, cnt, [c[j]] + rest);
    }
  }

  /** The coding at a byte that differs: the pending run's marker, then the byte itself. */
  lemma DiffFromMismatch(p: Name, c: Name, j: nat, cnt: nat)
    requires |p| == |c| && j < |c| && cnt <= MAX_RUN && p[j] != c[j]
    ensures cnt > 0 ==> DiffFrom(p, c, j, cnt) == [Marker(cnt)] + ([c[j]] + DiffFrom(p, c, j + 1, 0))
    ensures cnt == 0 ==> DiffFrom(p, c, j, cnt) == [c[j]] + DiffFrom(p, c, j + 1, 0)
  {
    var rest := DiffFrom(p, c, j + 1, 0);
    if cnt > 0 {
      assert [Marker(cnt)] + [c[j]] + rest == [Marker(cnt)] + ([c[j]] + rest);
    } else {
      assert [] + [c[j]] + rest == [c[j]] + rest;
    }
  }

  /** A 7-bit byte of `c` in front of the coding of the rest of `c` restores `c` from there. */
  lemma LiteralThen(p: Name, c: Name, j: nat, rest: Name)
    requires j < |c| && Ascii(c)
    requires DecodeDiff(p, rest, j + 1) == Some(c[j + 1..])
    ensures DecodeDiff(p, [c[j]] + rest, j) == Some(c[j..])
  {
    assert c[j] < 0x80;
    LiteralStep(p, c[j], rest, j);
    assert [c[j]] + c[j + 1..] == c[j..];
  }

  /** A marker for a run of `cnt` equal bytes in front of the coding of `c[j..]` restores `c` from the run's start. */
  lemma MarkerThen(p: Name, c: Name, j: nat, cnt: nat, tail: Name)
    requires |p| == |c| && 1 <= cnt <= MAX_RUN && cnt <= j <= |c|
    requires forall k :: j - cnt <= k < j ==> p[k] == c[k]
    requires DecodeDiff(p, tail, j) == Some(c[j..])
    ensures DecodeDiff(p, [Marker(cnt)] + tail, j - cnt) == Some(c[j - cnt..])
  {
    MarkerStep(p, cnt, tail, j - cnt);
    RunThenRest(p, c, j, cnt);
  }

  /** The `cnt` pending bytes of `p` followed by the rest of `c` are the rest of `c` from the run's start. */
  lemma RunThenRest(p: Name, c: Name, j: nat, cnt: nat)
    requires |p| == |c| && cnt <= j <= |c|
    requires forall k :: j - cnt <= k < j ==> p[k] == c[k]
    ensures p[j - cnt..j] + c[j..] == c[j - cnt..]
  {
    assert p[j - cnt..j] == c[j - cnt..j];
  }

  /** A component whose bytes are 7-bit is restored. */
  lemma ComponentRoundTrip(p: Name, c: Name)
    requires Ascii(c)
    ensures DecodeComponent(p, EncodeComponent(p, c)) == Some(c)
  {
    if p == c {
    } else if |p| != |c| {
      assert |c| >= 1 ==> c[0] != SAME;
      DecodeAscii(p, c, 0);
    } else {
      var e := DiffFrom(p, c, 0, 0);
      DiffFromBytes(p, c, 0, 0);
      assert |e| >= 1 ==> e[0] != SAME by {
        if |e| >= 1 {
          assert 0x9C <= e[0] || e[0] in c;
        }
      }
      DiffRoundTrip(p, c, 0, 0);
    }
  }

  lemma {:induction false} ComponentsRoundTrip(prev: seq<Name>, curr: seq<Name>)
    requires |prev| == |curr|
    requires forall i :: 0 <= i < |curr| ==> Ascii(curr[i])
    ensures DecodeComponents(prev, EncodeComponents(prev, curr)) == Some(curr)
    decreases |curr|
  {
    if curr != [] {
      var es := EncodeComponents(prev, curr);
      ComponentRoundTrip(prev[0], curr[0]);
      ComponentsRoundTrip(prev[1..], curr[1..]);
      assert es[1..] == EncodeComponents(prev[1..], curr[1..]);
      assert [curr[0]] + curr[1..] == curr;
    }
  }

  /** Encoded components hold no space when the components hold none. */
  lemma EncodedSpaceFree(prev: seq<Name>, curr: seq<Name>)
    requires |prev| == |curr|
    requires forall i :: 0 <= i < |curr| ==> SPACE !in curr[i]
    ensures forall i :: 0 <= i < |curr| ==> SPACE !in EncodeComponents(prev, curr)[i]
  {
    var es := EncodeComponents(prev, curr);
    forall i | 0 <= i < |curr| ensures SPACE !in es[i] {
      if prev[i] != curr[i] && |prev[i]| == |curr[i]| {
        var e := DiffFrom(prev[i], curr[i], 0, 0);
        DiffFromBytes(prev[i], curr[i], 0, 0);
        forall k | 0 <= k < |e| ensures e[k] != SPACE {
          assert 0x9C <= e[k] || e[k] in curr[i];
        }
      }
    }
  }

  /**
   * decode_split(prev, split_string(encode_split(prev, curr))) is the
   * current name joined again, and its components are `curr`.
   */
  lemma SplitRoundTrip(prev: seq<Name>, curr: seq<Name>)
    requires |prev| == |curr| >= 1
    requires forall i :: 0 <= i < |curr| ==> SPACE !in curr[i] && Ascii(curr[i])
    ensures |Split(EncodeSplit(prev, curr))| == |curr|
    ensures DecodeSplit(prev, Split(EncodeSplit(prev, curr))) == Some((Join(curr), curr))
  {
    EncodedSpaceFree(prev, curr);
    SplitJoin(EncodeComponents(prev, curr));
    ComponentsRoundTrip(prev, curr);
  }

  /** Every byte at or above 0x80 in a difference coding is a marker for 1 to MAX_RUN bytes. */
  lemma MarkersBounded(p: Name, c: Name)
    requires |p| == |c| && Ascii(c)
    ensures var e := DiffFrom(p, c, 0, 0);
      forall k :: 0 <= k < |e| && e[k] >= 0x80 ==> 1 <= 256 - e[k] <= MAX_RUN
  {
    var e := DiffFrom(p, c, 0, 0);
    DiffFromBytes(p, c, 0, 0);
    forall k | 0 <= k < |e| && e[k] >= 0x80 ensures 1 <= 256 - e[k] <= MAX_RUN {
      assert e[k] !in c;
    }
  }

  // ---------------------------------------------------------------------
  // The contig names of one sample

  /**
   * How the contig names of a sample are stored: a name with a different
   * number of components than the previous one verbatim, otherwise its
   * `encode_split` against the previous components.
   */
  function EncodeNames(names: seq<Name>, prevSplit: seq<Name>): (encs: seq<Name>)
    ensures |encs| == |names|
    decreases |names|
  {
    if names == [] then []
    else
      var curr := Split(names[0]);
      [if |curr| != |prevSplit| then names[0] else EncodeSplit(prevSplit, curr)]
        + EncodeNames(names[1..], curr)
  }

  function PrependName(n: Name, r: Option<seq<Name>>): (r': Option<seq<Name>>)
    ensures r.None? <==> r'.None?
    ensures r.Some? ==> r'.value == [n] + r.value
  {
    if r.None? then None else Some([n] + r.value)
  }

  /** The names read back: the decoder takes the same branch on the component count of the stored form. */
  function DecodeNames(encs: seq<Name>, prevSplit: seq<Name>): (r: Option<seq<Name>>)
    ensures r.Some? ==> |r.value| == |encs|
    decreases |encs|
  {
    if encs == [] then Some([])
    else
      var curr := Split(encs[0]);
      if |curr| != |prevSplit| then PrependName(encs[0], DecodeNames(encs[1..], curr))
      else
        match DecodeSplit(prevSplit, curr)
        case None => None
        case Some(d) => PrependName(d.0, DecodeNames(encs[1..], d.1))
  }

  /** The components from `p` on of a 7-bit name are 7-bit. */
  lemma {:induction false} SplitFromAscii(s: Name, p: nat)
    requires p <= |s| && Ascii(s)
    ensures forall i :: 0 <= i < |SplitFrom(s, p)| ==> Ascii(SplitFrom(s, p)[i])
    decreases |s| - p
  {
    var q := Find(s, SPACE, p);
    var parts := SplitFrom(s, p);
    assert Ascii(parts[0]) by {
      forall k | 0 <= k < q - p ensures s[p..q][k] < 0x80 {
        assert s[p..q][k] == s[p + k];
      }
    }
    if q < |s| {
      SplitFromAscii(s, q + 1);
      forall i | 1 <= i < |parts| ensures Ascii(parts[i]) {
        assert parts[i] == SplitFrom(s, q + 1)[i - 1];
      }
    }
  }

  /** The components of a 7-bit name are 7-bit. */
  lemma SplitAscii(s: Name)
    requires Ascii(s)
    ensures forall i :: 0 <= i < |Split(s)| ==> Ascii(Split(s)[i])
  {
    SplitFromAscii(s, 0);
  }

  /** Every 7-bit list of contig names is read back as written. */
  lemma {:induction false} NamesRoundTrip(names: seq<Name>, prevSplit: seq<Name>)
    requires forall i :: 0 <= i < |names| ==> Ascii(names[i])
    ensures DecodeNames(EncodeNames(names, prevSplit), prevSplit) == Some(names)
    decreases |names|
  {
    if names != [] {
      var name := names[0];
      var curr := Split(name);
      var encs := EncodeNames(names, prevSplit);
      assert encs[1..] == EncodeNames(names[1..], curr);
      NamesRoundTrip(names[1..], curr);
      if |curr| == |prevSplit| {
        SplitAscii(name);
        SplitSpaceFree(name);
        SplitRoundTrip(prevSplit, curr);
        JoinSplit(name);
      }
      assert [name] + names[1..] == names;
    }
  }

  // ---------------------------------------------------------------------
  // The loops of encode_split and decode_split

  /** Components each followed by a space: what the loop has built before the final `pop_back`. */
  function Terminated(es: seq<Name>): (s: Name)
  {
    if es == [] then [] else Terminated(es[..|es| - 1]) + es[|es| - 1] + [SPACE]
  }

  lemma {:induction false} JoinSnoc(es: seq<Name>, e: Name)
    requires |es| >= 1
    ensures Join(es + [e]) == Join(es) + [SPACE] + e
    decreases |es|
  {
    if |es| == 1 {
      assert (es + [e])[1..] == [e];
    } else {
      assert (es + [e])[1..] == es[1..] + [e];
      JoinSnoc(es[1..], e);
    }
  }

  /** Dropping the last space of the terminated form gives the joined form. */
  lemma {:induction false} TerminatedJoin(es: seq<Name>)
    requires |es| >= 1
    ensures Terminated(es) == Join(es) + [SPACE]
    decreases |es|
  {
    var init := es[..|es| - 1];
    if |es| > 1 {
      TerminatedJoin(init);
      JoinSnoc(init, es[|es| - 1]);
      assert init + [es[|es| - 1]] == es;
    } else {
      assert Terminated(init) == [];
    }
  }

  /** The inner loop of `encode_split` for one component of equal length. */
  method EncodeDiff(p: Name, c: Name) returns (e: Name)
    requires |p| == |c|
    ensures e == DiffFrom(p, c, 0, 0)
  {
    e := [];
    var cnt := 0;
    for j := 0 to |c|
      invariant cnt <= MAX_RUN && cnt <= j
      invariant e + DiffFrom(p, c, j, cnt) == DiffFrom(p, c, 0, 0)
    {
      if p[j] == c[j] {
        DiffFromEqual(p, c, j, cnt);
        if cnt == MAX_RUN {
          ConcatAssoc3(e, [Marker(cnt)], DiffFrom(p, c, j + 1, 1));
          e := e + [Marker(cnt)];
          cnt := 1;
        } else {
          cnt := cnt + 1;
        }
      } else {
        DiffFromMismatch(p, c, j, cnt);
        if cnt > 0 {
          ConcatAssoc3(e, [Marker(cnt)], [c[j]] + DiffFrom(p, c, j + 1, 0));
          e := e + [Marker(cnt)];
          cnt := 0;
        }
        ConcatAssoc3(e, [c[j]], DiffFrom(p, c, j + 1, 0));
        e := e + [c[j]];
      }
    }
    DiffFromEnd(p, c, cnt);
    if cnt > 0 {
      e := e + [Marker(cnt)];
    } else {
      assert e + [] == e;
    }
  }

  /** The coding at a byte equal to the previous component's: the run grows, or a full run is flushed. */
  lemma DiffFromEqual(p: Name, c: Name, j: nat, cnt: nat)
    requires |p| == |c| && j < |c| && cnt <= MAX_RUN && p[j] == c[j]
    ensures cnt == MAX_RUN ==> DiffFrom(p, c, j, cnt) == [Marker(MAX_RUN)] + DiffFrom(p, c, j + 1, 1)
    ensures cnt < MAX_RUN ==> DiffFrom(p, c, j, cnt) == DiffFrom(p, c, j + 1, cnt + 1)
  {
  }

  /** The coding at the end: the marker of the pending run, if any. */
  lemma DiffFromEnd(p: Name, c: Name, cnt: nat)
    requires |p| == |c| && cnt <= MAX_RUN
    ensures cnt > 0 ==> DiffFrom(p, c, |c|, cnt) == [Marker(cnt)]
    ensures cnt == 0 ==> DiffFrom(p, c, |c|, cnt) == []
  {
  }

  /** `encode_split`: the loop over components, a space after each, then the last space removed. */
  method EncodeSplitString(prev: seq<Name>, curr: seq<Name>) returns (enc: Name)
    requires |prev| == |curr| >= 1
    ensures enc == EncodeSplit(prev, curr)
  {
    ghost var es := EncodeComponents(prev, curr);
    enc := [];
    for i := 0 to |curr|
      invariant enc == Terminated(es[..i])
    {
      var e;
      if prev[i] == curr[i] {
        e := [SAME];
      } else if |prev[i]| != |curr[i]| {
        e := curr[i];
      } else {
        e := EncodeDiff(prev[i], curr[i]);
      }
      assert es[..i + 1][..i] == es[..i];
      enc := enc + e + [SPACE];
    }
    assert es[..|curr|] == es;
    TerminatedJoin(es);
    enc := enc[..|enc| - 1];
    assert enc == Join(es);
  }

  /** The inner loop of `decode_split` for one stored component. */
  method DecodeDiffString(p: Name, e: Name) returns (cmp: Name)
    requires DecodeDiff(p, e, 0).Some?
    ensures cmp == DecodeDiff(p, e, 0).value
  {
    cmp := [];
    var ptr: nat := 0;
    for i := 0 to |e|
      invariant DecodeDiff(p, e[i..], ptr).Some?
      invariant cmp + DecodeDiff(p, e[i..], ptr).value == DecodeDiff(p, e, 0).value
    {
      assert e[i..][1..] == e[i + 1..];
      if e[i] < 0x80 {
        cmp := cmp + [e[i]];
        ptr := ptr + 1;
      } else {
        var n: nat := 256 - e[i];
        cmp := cmp + p[ptr..ptr + n];
        ptr := ptr + n;
      }
    }
  }

  /** One component: the same-component marker, or the difference loop. */
  method DecodeComponentString(p: Name, e: Name) returns (cmp: Name)
    requires DecodeComponent(p, e).Some?
    ensures cmp == DecodeComponent(p, e).value
  {
    if e == [SAME] {
      cmp := p;
    } else {
      cmp := DecodeDiffString(p, e);
    }
  }

  lemma TerminatedSnoc(es: seq<Name>, e: Name)
    ensures Terminated(es + [e]) == Terminated(es) + e + [SPACE]
  {
    assert (es + [e])[..|es|] == es;
  }

  lemma DecodeComponentsStep(prev: seq<Name>, curr: seq<Name>, i: nat)
    requires i < |curr| <= |prev|
    requires DecodeComponents(prev[i..], curr[i..]).Some?
    ensures DecodeComponent(prev[i], curr[i]).Some?
    ensures DecodeComponents(prev[i + 1..], curr[i + 1..]).Some?
    ensures DecodeComponents(prev[i..], curr[i..]).value
            == [DecodeComponent(prev[i], curr[i]).value] + DecodeComponents(prev[i + 1..], curr[i + 1..]).value
  {
    assert prev[i..][1..] == prev[i + 1..] && curr[i..][1..] == curr[i + 1..];
  }

  /** `decode_split`: the decoded name and the decoded components, which replace `curr`. */
  method DecodeSplitString(prev: seq<Name>, curr: seq<Name>) returns (dec: Name, comps: seq<Name>)
    requires |prev| >= |curr| >= 1
    requires DecodeSplit(prev, curr).Some?
    ensures (dec, comps) == DecodeSplit(prev, curr).value
  {
    ghost var all := DecodeComponents(prev, curr).value;
    dec := [];
    comps := [];
    for i := 0 to |curr|
      invariant DecodeComponents(prev[i..], curr[i..]).Some?
      invariant comps + DecodeComponents(prev[i..], curr[i..]).value == all
      invariant dec == Terminated(comps) && |comps| == i
    {
      DecodeComponentsStep(prev, curr, i);
      ghost var rest := DecodeComponents(prev[i + 1..], curr[i + 1..]).value;
      var cmp := DecodeComponentString(prev[i], curr[i]);
      assert comps + ([cmp] + rest) == (comps + [cmp]) + rest;
      TerminatedSnoc(comps, cmp);
      comps := comps + [cmp];
      dec := dec + cmp + [SPACE];
    }
    assert curr[|curr|..] == [];
    assert DecodeComponents(prev[|curr|..], curr[|curr|..]).value == [];
    assert comps == all;
    TerminatedJoin(comps);
    dec := dec[..|dec| - 1];
    assert dec == Join(all);
  }
}
