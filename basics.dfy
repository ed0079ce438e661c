/** Shared value types: bytes, fixed-width bounds and the Option/Result wrappers. */
module Basics {

  /** One unsigned byte (uint8_t, or a char of a std::string). */
  type Byte = x: int | 0 <= x < 256

  const TWO_32: nat := 0x1_0000_0000
  const TWO_64: nat := 0x1_0000_0000_0000_0000

  /** A uint32_t value. */
  type U32 = x: int | 0 <= x < TWO_32

  /** A uint64_t value. */
  type U64 = x: int | 0 <= x < TWO_64

  datatype Option<T> = None | Some(value: T)

  /** Everything in `s` is below `bound`. */
  predicate AllBelow(s: seq<int>, bound: int)
  {
    forall i :: 0 <= i < |s| ==> s[i] < bound
  }

  /** Number of occurrences of `x` in `s`. */
  function Count<T(==)>(s: seq<T>, x: T): (n: nat)
    ensures n <= |s|
    ensures n == 0 <==> x !in s
  {
    if s == [] then 0 else (if s[0] == x then 1 else 0) + Count(s[1..], x)
  }

  /** `t` occurs in `s` at position `p`. */
  predicate At(s: seq<Byte>, p: nat, t: seq<Byte>)
  {
    p + |t| <= |s| && s[p..p + |t|] == t
  }

  lemma AtSplit(s: seq<Byte>, p: nat, a: seq<Byte>, b: seq<Byte>)
    requires At(s, p, a + b)
    ensures At(s, p, a) && At(s, p + |a|, b)
  {
    forall k | 0 <= k < |a| ensures s[p + k] == a[k] { assert (a + b)[k] == a[k]; }
    forall k | 0 <= k < |b| ensures s[p + |a| + k] == b[k] { assert (a + b)[|a| + k] == b[k]; }
  }

  /** One byte of a sequence found at `p`. */
  lemma AtIndex(s: seq<Byte>, p: nat, t: seq<Byte>, k: nat)
    requires At(s, p, t) && k < |t|
    ensures p + k < |s| && s[p + k] == t[k]
  {
  }

  /** A suffix that is a concatenation: its first part sits at `p`, the rest follows it. */
  lemma SuffixSplit(s: seq<Byte>, p: nat, a: seq<Byte>, b: seq<Byte>)
    requires p <= |s| && s[p..] == a + b
    ensures At(s, p, a) && p + |a| <= |s| && s[p + |a|..] == b
  {
    forall k | 0 <= k < |a| ensures s[p + k] == a[k] {
      assert s[p..][k] == (a + b)[k];
    }
    assert s[p + |a|..] == s[p..][|a|..];
  }

  /** `AtSplit` for a sequence known to be the concatenation. */
  lemma AtConcat(s: seq<Byte>, p: nat, whole: seq<Byte>, a: seq<Byte>, b: seq<Byte>)
    requires At(s, p, whole) && whole == a + b
    ensures At(s, p, a) && At(s, p + |a|, b)
  {
    AtSplit(s, p, a, b);
  }

  /** `AtSplit` twice over, for a sequence of four pieces. */
  lemma AtFour(s: seq<Byte>, p: nat, a: seq<Byte>, b: seq<Byte>, c: seq<Byte>, d: seq<Byte>)
    requires At(s, p, a + b + c + d)
    ensures At(s, p, a) && At(s, p + |a|, b) && At(s, p + |a| + |b|, c) && At(s, p + |a| + |b| + |c|, d)
  {
    AtSplit(s, p, a + b + c, d);
    AtSplit(s, p, a + b, c);
    AtSplit(s, p, a, b);
  }

  lemma AtOne(s: seq<Byte>, q: nat, c: Byte)
    requires At(s, q, [c])
    ensures q < |s| && s[q] == c
  {
    assert s[q + 0] == [c][0];
  }

  /** A non-empty sequence is its head followed by its tail. */
  lemma HeadTail<T>(s: seq<T>)
    requires |s| >= 1
    ensures s == [s[0]] + s[1..]
  {
  }

  /** Moving one element across a concatenation. */
  lemma SnocAssoc<T>(a: seq<T>, x: T, b: seq<T>)
    ensures a + ([x] + b) == (a + [x]) + b
  {
  }

  lemma ConcatAssoc<T>(a: seq<T>, b: seq<T>, c: seq<T>)
    ensures (a + b) + c == a + (b + c)
  {
  }

  /** A prefix is a shorter prefix followed by the slice between them. */
  lemma PrefixSplit<T>(s: seq<T>, i: nat, j: nat)
    requires i <= j <= |s|
    ensures s[..j] == s[..i] + s[i..j]
  {
  }

  /** A suffix is a slice followed by a shorter suffix. */
  lemma SuffixSplitAt<T>(s: seq<T>, i: nat, j: nat)
    requires i <= j <= |s|
    ensures s[i..] == s[i..j] + s[j..]
  {
  }

  lemma TakeDrop<T>(s: seq<T>, n: nat)
    requires n <= |s|
    ensures s == s[..n] + s[n..]
  {
  }

  /** A non-empty sequence is its front followed by its last element. */
  lemma FrontLast<T>(s: seq<T>)
    requires |s| >= 1
    ensures s == s[..|s| - 1] + [s[|s| - 1]]
  {
  }

  /** A slice is its first element followed by the rest of the slice. */
  lemma SliceCons<T>(s: seq<T>, a: nat, b: nat)
    requires a < b <= |s|
    ensures s[a..b] == [s[a]] + s[a + 1..b]
  {
  }
}
