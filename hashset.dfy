/**
 * `hash_set_lp` (src/core/hs.h): an open-addressing hash set of 64-bit keys
 * with linear probing. A reserved `empty_key` marks free slots, the table
 * size is a power of two, and the table is rebuilt at twice the size once the
 * number of keys reaches `size_when_restruct`.
 *
 * The table contents are described by a set of keys and three facts: every
 * key sits in exactly one slot, no key repeats, and no free slot lies on the
 * probe path between a key's home slot and the slot holding it.
 */
module HashSetLp {
  import opened Basics
  import opened Bits

  /** The slot `d` steps after slot `h`, wrapping around a table of `n` slots. */
  function Slot(h: nat, d: nat, n: nat): (i: nat)
    requires h < n && d < n
    ensures i < n
  {
    if h + d < n then h + d else h + d - n
  }

  /** The number of steps from slot `h` forward to slot `i`. */
  function Dist(h: nat, i: nat, n: nat): (d: nat)
    requires h < n && i < n
    ensures d < n && Slot(h, d, n) == i
  {
    if h <= i then i - h else i + n - h
  }

  lemma SlotDist(h: nat, d: nat, n: nat)
    requires h < n && d < n
    ensures Dist(h, Slot(h, d, n), n) == d
  {
  }

  /** `hash(x) & allocated_mask`, the slot where probing for `x` starts. */
  function Home(hash: U64 -> U64, x: U64, n: nat): (h: nat)
    requires n >= 1
    ensures h < n
  {
    And(hash(x), n - 1)
  }

  /** No free slot lies between the home of `s[i]` and `i`. */
  ghost predicate Probed(s: seq<U64>, e: U64, hash: U64 -> U64, i: nat)
    requires |s| >= 1 && i < |s|
  {
    var h := Home(hash, s[i], |s|);
    forall d :: 0 <= d < Dist(h, i, |s|) ==> s[Slot(h, d, |s|)] != e
  }

  /** The first `n` slots probed from `home` are neither free nor hold `x`. */
  ghost predicate Passed(s: seq<U64>, e: U64, x: U64, home: nat, n: nat)
    requires home < |s| && n <= |s|
  {
    forall d :: 0 <= d < n ==> s[Slot(home, d, |s|)] != e && s[Slot(home, d, |s|)] != x
  }

  /** Slot `i` is free, or holds a member of `keys` reachable by probing from its home. */
  ghost predicate Slotted(s: seq<U64>, e: U64, hash: U64 -> U64, keys: set<U64>, i: nat)
    requires i < |s|
  {
    s[i] != e ==> s[i] in keys && Probed(s, e, hash, i)
  }

  /** Slots `i` and `j` do not hold the same key. */
  ghost predicate Apart(s: seq<U64>, e: U64, i: nat, j: nat)
    requires i < |s| && j < |s|
  {
    s[i] != e ==> s[i] != s[j]
  }

  /** `s` is a probe table holding exactly `keys`, with `e` marking free slots. */
  ghost predicate Table(s: seq<U64>, e: U64, hash: U64 -> U64, keys: set<U64>)
  {
    IsPow2(|s|) && e !in keys
    && (forall i :: 0 <= i < |s| ==> Slotted(s, e, hash, keys, i))
    && (forall k :: k in keys ==> k in s)
    && (forall i, j :: 0 <= i < j < |s| ==> Apart(s, e, i, j))
  }

  /** Distinct members of `keys` fill no more than `|keys|` slots. */
  lemma {:induction false} DistinctCard<T>(s: seq<T>, keys: set<T>)
    requires forall i :: 0 <= i < |s| ==> s[i] in keys
    requires forall i, j :: 0 <= i < j < |s| ==> s[i] != s[j]
    ensures |keys| >= |s|
    decreases |s|
  {
    if s != [] {
      var last := s[|s| - 1];
      var t := s[..|s| - 1];
      forall i | 0 <= i < |t| ensures t[i] in keys - {last} {
        assert t[i] == s[i];
      }
      DistinctCard(t, keys - {last});
    }
  }

  /** A table holding fewer keys than slots has a free slot. */
  lemma FreeSlot(s: seq<U64>, e: U64, hash: U64 -> U64, keys: set<U64>)
    requires Table(s, e, hash, keys) && |keys| < |s|
    ensures e in s
  {
    if e !in s {
      forall i | 0 <= i < |s| ensures s[i] in keys {
        assert Slotted(s, e, hash, keys, i);
      }
      forall i, j | 0 <= i < j < |s| ensures s[i] != s[j] {
        assert Apart(s, e, i, j);
      }
      DistinctCard(s, keys);
    }
  }

  /** Probing every slot from `h` without meeting a free one means there is none. */
  lemma FullCycle(s: seq<U64>, e: U64, h: nat)
    requires h < |s|
    requires forall d :: 0 <= d < |s| ==> s[Slot(h, d, |s|)] != e
    ensures e !in s
  {
    forall i | 0 <= i < |s| ensures s[i] != e {
      assert s[Slot(h, Dist(h, i, |s|), |s|)] != e;
    }
  }

  /** A probe from the home of `x` that meets a free slot before `x` proves `x` absent. */
  lemma Miss(s: seq<U64>, e: U64, hash: U64 -> U64, keys: set<U64>, x: U64, d: nat)
    requires Table(s, e, hash, keys) && d < |s|
    requires Passed(s, e, x, Home(hash, x, |s|), d)
    requires s[Slot(Home(hash, x, |s|), d, |s|)] == e
    ensures x !in keys
  {
    if x != e {
      forall i | 0 <= i < |s| ensures s[i] != x {
        assert Slotted(s, e, hash, keys, i);
        var h := Home(hash, s[i], |s|);
        var di := Dist(h, i, |s|);
        if di < d {
          assert s[Slot(h, di, |s|)] == s[i];
        } else if di > d {
          assert s[Slot(h, d, |s|)] != e || s[i] == e;
        }
      }
    }
  }

  /** Writing a new key into the free slot its probe reached keeps the table well formed. */
  lemma TableInsert(s: seq<U64>, e: U64, hash: U64 -> U64, keys: set<U64>, x: U64, p: nat)
    requires Table(s, e, hash, keys) && x !in keys && x != e
    requires p < |s| && s[p] == e
    requires Passed(s, e, x, Home(hash, x, |s|), Dist(Home(hash, x, |s|), p, |s|))
    ensures Table(s[p := x], e, hash, keys + {x})
  {
    var s' := s[p := x];
    forall i | 0 <= i < |s'| ensures Slotted(s', e, hash, keys + {x}, i) {
      if i != p {
        assert Slotted(s, e, hash, keys, i);
      }
    }
    forall i, j | 0 <= i < j < |s'| ensures Apart(s', e, i, j) {
      assert Apart(s, e, i, j);
      assert Slotted(s, e, hash, keys, i);
      assert Slotted(s, e, hash, keys, j);
    }
    forall k | k in keys + {x} ensures k in s' {
      if k != x {
        var j :| 0 <= j < |s| && s[j] == k;
        assert s'[j] == k;
      } else {
        assert s'[p] == x;
      }
    }
  }

  /** One probe step `(h + 1) & allocated_mask` moves to the next slot around the table. */
  lemma NextSlot(home: nat, d: nat, n: nat)
    requires IsPow2(n) && home < n && d + 1 < n
    ensures And(Slot(home, d, n) + 1, n - 1) == Slot(home, d + 1, n)
  {
    var h := Slot(home, d, n);
    if h + 1 < n {
      AndMaskBelow(h + 1, n);
    } else {
      AndMaskWrap(n);
    }
  }

  /** The keys held by the first slots of a table. */
  function Occupied(s: seq<U64>, e: U64): (keys: set<U64>)
    ensures e !in keys
    ensures forall i :: 0 <= i < |s| && s[i] != e ==> s[i] in keys
  {
    if s == [] then {}
    else Occupied(s[..|s| - 1], e) + (if s[|s| - 1] != e then {s[|s| - 1]} else {})
  }

  lemma OccupiedStep(s: seq<U64>, e: U64, i: nat)
    requires i < |s|
    ensures Occupied(s[..i + 1], e) == Occupied(s[..i], e) + (if s[i] != e then {s[i]} else {})
  {
    assert s[..i + 1][..i] == s[..i];
  }

  lemma {:induction false} OccupiedOnly(s: seq<U64>, e: U64, k: U64)
    requires k in Occupied(s, e)
    ensures k in s
    decreases |s|
  {
    if k !in Occupied(s[..|s| - 1], e) {
      assert s[|s| - 1] == k;
    } else {
      OccupiedOnly(s[..|s| - 1], e, k);
    }
  }

  /** A table's occupied slots hold exactly its keys. */
  lemma OccupiedKeys(s: seq<U64>, e: U64, hash: U64 -> U64, keys: set<U64>)
    requires Table(s, e, hash, keys)
    ensures Occupied(s, e) == keys
  {
    forall k | k in Occupied(s, e) ensures k in keys {
      OccupiedOnly(s, e, k);
      var i :| 0 <= i < |s| && s[i] == k;
      assert Slotted(s, e, hash, keys, i);
    }
    forall k | k in keys ensures k in Occupied(s, e) {
      var i :| 0 <= i < |s| && s[i] == k;
    }
  }

  lemma {:induction false} SubsetCard(a: set<U64>, b: set<U64>)
    requires a <= b
    ensures |a| <= |b|
    decreases |a|
  {
    if a != {} {
      var y :| y in a;
      SubsetCard(a - {y}, b - {y});
    }
  }

  lemma SubsetSmaller(a: set<U64>, b: set<U64>, x: U64)
    requires a <= b && x in b && x !in a
    ensures |a| < |b|
  {
    SubsetCard(a, b - {x});
  }

  /** `max_fill_factor`, here a whole percentage, after the constructor's clamping. */
  function ClampFill(percent: nat): (p: nat)
    ensures 1 <= p <= 99
    ensures 1 <= percent <= 99 ==> p == percent
  {
    if percent > 99 then 99 else if percent < 1 then 10 else percent
  }

  /** `slots * percent`, by repeated addition. */
  function Scale(slots: nat, percent: nat): (r: nat)
    decreases percent
  {
    if percent == 0 then 0 else slots + Scale(slots, percent - 1)
  }

  lemma {:induction false} ScaleMul(slots: nat, percent: nat)
    ensures Scale(slots, percent) == slots * percent
    decreases percent
  {
    if percent > 0 {
      ScaleMul(slots, percent - 1);
    }
  }

  /** `size_when_restruct`: the key count at which the table is rebuilt. */
  function Threshold(slots: nat, percent: nat): nat
    requires slots >= 1
  {
    var t := Scale(slots, percent) / 100;
    if t == slots then t - 1 else t
  }

  lemma DivMono(x: nat, y: nat)
    requires x <= y
    ensures x / 100 <= y / 100
  {
  }

  lemma DivDouble(x: nat)
    ensures 2 * (x / 100) <= (2 * x) / 100
  {
  }

  lemma MulBelow(a: nat, b: nat, percent: nat)
    requires percent <= 99 && 1 <= a <= b
    ensures a * percent < a * 100 && a * percent <= b * percent
    ensures (2 * a) * percent == 2 * (a * percent)
  {
  }

  /** The threshold stays below the table size, grows with it and at least doubles with it. */
  lemma ThresholdFacts(a: nat, b: nat, percent: nat)
    requires 1 <= percent <= 99 && 1 <= a <= b
    ensures Threshold(a, percent) == a * percent / 100 < a
    ensures Threshold(a, percent) <= Threshold(b, percent)
    ensures 2 * Threshold(a, percent) <= Threshold(2 * a, percent)
  {
    ScaleMul(a, percent);
    ScaleMul(b, percent);
    ScaleMul(2 * a, percent);
    MulBelow(a, b, percent);
    MulBelow(b, b, percent);
    MulBelow(2 * a, 2 * a, percent);
    DivMono(a * percent, a * 100);
    DivMono(a * percent, b * percent);
    DivDouble(a * percent);
  }

  /** The largest table the model builds: `allocated * 2` must not wrap in 64 bits. */
  const MAX_SLOTS: nat := TWO_64 / 2

  /** The table size `_reserve` picks: the least power of two at least `requested` and 8. */
  function Capacity(requested: nat): (n: nat)
  {
    var m := if requested < 8 then 8 else requested;
    if IsPow2(m) then m else Pow2(BitLength(m))
  }

  /** `Capacity` is the least power of two that is at least `requested` and 8. */
  lemma CapacityFacts(requested: nat)
    ensures IsPow2(Capacity(requested)) && Capacity(requested) >= 8
    ensures Capacity(requested) >= requested
    ensures Capacity(requested) < 2 * requested || Capacity(requested) == 8
  {
    var m := if requested < 8 then 8 else requested;
    BitLengthBounds(m);
    Pow2IsPow2(BitLength(m));
    if !IsPow2(m) {
      var j := BitLength(m) - 1;
      assert Pow2(BitLength(m)) == 2 * Pow2(j);
      Pow2IsPow2(j);
      assert Pow2(j) != m;
    }
  }

  class HashSet {
    const emptyKey: U64
    const hash: U64 -> U64
    /** `max_fill_factor`, as a whole percentage. */
    const maxFill: nat
    var data: array<U64>
    var noElements: nat
    var allocSlots: nat
    var sizeWhenRestruct: nat
    var allocatedMask: nat
    /** The keys the table holds. */
    ghost var keys: set<U64>

    ghost predicate Valid()
      reads this, data
    {
      1 <= maxFill <= 99
      && data.Length == allocSlots && allocSlots >= 8 && allocatedMask == allocSlots - 1
      && Table(data[..], emptyKey, hash, keys)
      && sizeWhenRestruct == Threshold(allocSlots, maxFill)
      && 1 <= sizeWhenRestruct
      && noElements == |keys| <= sizeWhenRestruct
    }

    /**
     * `hash_set_lp(empty_key, init_reserved, max_fill_factor)`. The model
     * needs the first table to rebuild only after at least one key.
     */
    constructor (emptyKey: U64, initReserved: nat, maxFillPercent: nat, hash: U64 -> U64)
      requires initReserved <= MAX_SLOTS
      requires Threshold(Capacity(initReserved), ClampFill(maxFillPercent)) >= 1
      ensures Valid() && fresh(data)
      ensures keys == {} && allocSlots == Capacity(initReserved)
      ensures this.emptyKey == emptyKey && this.hash == hash && maxFill == ClampFill(maxFillPercent)
    {
      this.emptyKey := emptyKey;
      this.hash := hash;
      maxFill := ClampFill(maxFillPercent);
      data := new U64[0];
      noElements, allocSlots, sizeWhenRestruct, allocatedMask := 0, 0, 0, 0;
      keys := {};
      new;
      Reserve(initReserved);
    }

    /** `_reserve`: a fresh table of `Capacity(requested)` free slots. */
    method Reserve(requested: nat)
      requires 1 <= maxFill <= 99 && requested <= MAX_SLOTS
      modifies this
      ensures fresh(data) && data.Length == allocSlots == Capacity(requested)
      ensures allocSlots >= 8 && IsPow2(allocSlots)
      ensures forall i :: 0 <= i < data.Length ==> data[i] == emptyKey
      ensures Table(data[..], emptyKey, hash, {})
      ensures allocatedMask == allocSlots - 1 && sizeWhenRestruct == Threshold(allocSlots, maxFill)
      ensures noElements == 0 && keys == {}
    {
      var a: U64 := if requested < 8 then 8 else requested;
      ghost var m := a;
      CapacityFacts(requested);
      AndPrev(m);
      LowBitPow2(m);
      if And(a, a - 1) != 0 {
        var top := KeepHighestBit(a);
        a := top * 2;
        assert a == Pow2(BitLength(m));
      }
      allocSlots := a;
      allocatedMask := a - 1;
      sizeWhenRestruct := Threshold(a, maxFill);
      data := new U64[a](_ => emptyKey);
      noElements := 0;
      keys := {};
    }

    /**
     * The probe loop of `insert`/`insert_fast`: from the home slot of `x`,
     * step to the next slot until meeting `x` or a free slot.
     */
    method Probe(x: U64) returns (h: nat, found: bool)
      requires Valid() && x != emptyKey && noElements < allocSlots
      ensures h < data.Length && (found <==> x in keys)
      ensures found ==> data[h] == x
      ensures !found ==> data[h] == emptyKey
      ensures !found ==> Passed(data[..], emptyKey, x, Home(hash, x, allocSlots), Dist(Home(hash, x, allocSlots), h, allocSlots))
    {
      ghost var s := data[..];
      ghost var home := Home(hash, x, allocSlots);
      h := And(hash(x), allocatedMask);
      ghost var d := 0;
      if data[h] != emptyKey {
        if data[h] == x {
          assert Slotted(s, emptyKey, hash, keys, h);
          return h, true;
        }
        FreeSlot(s, emptyKey, hash, keys);
        while true
          invariant d < allocSlots && h == Slot(home, d, allocSlots)
          invariant Passed(s, emptyKey, x, home, d + 1)
          decreases allocSlots - d
        {
          if d + 1 == allocSlots {
            FullCycle(s, emptyKey, home);
            assert false;
          }
          NextSlot(home, d, allocSlots);
          h := And(h + 1, allocatedMask);
          d := d + 1;
          if data[h] == x {
            assert Slotted(s, emptyKey, hash, keys, h);
            return h, true;
          }
          if data[h] == emptyKey {
            break;
          }
        }
      }
      SlotDist(home, d, allocSlots);
      Miss(s, emptyKey, hash, keys, x, d);
      found := false;
    }

    /** Stores `x` in the slot `Probe` reached, unless `x` is already there. */
    method Place(x: U64) returns (pos: nat, inserted: bool)
      requires Valid() && x != emptyKey
      requires x !in keys ==> noElements < sizeWhenRestruct
      modifies this, data
      ensures Valid() && data == old(data) && allocSlots == old(allocSlots)
      ensures keys == old(keys) + {x} && inserted == (x !in old(keys))
      ensures pos < data.Length && data[pos] == x
      ensures data[..] == if inserted then old(data[..])[pos := x] else old(data[..])
      ensures noElements == old(noElements) + (if inserted then 1 else 0)
    {
      ThresholdFacts(allocSlots, allocSlots, maxFill);
      var h, found := Probe(x);
      if found {
        return h, false;
      }
      TableInsert(data[..], emptyKey, hash, keys, x, h);
      noElements := noElements + 1;
      data[h] := x;
      keys := keys + {x};
      return h, true;
    }

    /**
     * `insert`: rebuilds the table at twice the size when it has reached its
     * threshold, then places `x`; reports the slot and whether `x` was new.
     */
    method Insert(x: U64) returns (pos: nat, inserted: bool)
      requires Valid() && x != emptyKey && 2 * allocSlots <= MAX_SLOTS
      modifies this, data
      ensures Valid() && keys == old(keys) + {x} && inserted == (x !in old(keys))
      ensures pos < data.Length && data[pos] == x
      ensures noElements == old(noElements) + (if inserted then 1 else 0)
      ensures allocSlots == if old(noElements) >= old(sizeWhenRestruct) then 2 * old(allocSlots) else old(allocSlots)
    {
      if noElements >= sizeWhenRestruct {
        ThresholdFacts(allocSlots, 2 * allocSlots, maxFill);
        Restruct(allocSlots * 2);
      }
      pos, inserted := Place(x);
    }

    /** `insert_fast`: `insert` reporting only whether `x` was new. */
    method InsertFast(x: U64) returns (inserted: bool)
      requires Valid() && x != emptyKey && 2 * allocSlots <= MAX_SLOTS
      modifies this, data
      ensures Valid() && keys == old(keys) + {x} && inserted == (x !in old(keys))
      ensures noElements == old(noElements) + (if inserted then 1 else 0)
    {
      var _, b := Insert(x);
      inserted := b;
    }

    /** `restruct`: moves every key of the old table into a fresh one of `Capacity(newAllocated)` slots. */
    method Restruct(newAllocated: nat)
      requires Valid() && allocSlots <= newAllocated <= MAX_SLOTS
      modifies this
      ensures Valid() && fresh(data) && keys == old(keys) && noElements == old(noElements)
      ensures allocSlots == Capacity(newAllocated)
    {
      var oldData := data;
      var oldAllocated := allocSlots;
      ghost var oldKeys := keys;
      OccupiedKeys(oldData[..], emptyKey, hash, keys);
      Reserve(newAllocated);
      CapacityFacts(newAllocated);
      ThresholdFacts(oldAllocated, allocSlots, maxFill);
      var i := 0;
      while i < oldAllocated
        invariant i <= oldAllocated == oldData.Length
        invariant Valid() && fresh(data) && allocSlots == Capacity(newAllocated)
        invariant Threshold(oldAllocated, maxFill) <= sizeWhenRestruct
        invariant keys == Occupied(oldData[..i], emptyKey) && keys <= oldKeys
      {
        OccupiedStep(oldData[..], emptyKey, i);
        assert oldData[..][..i] == oldData[..i] && oldData[..][..i + 1] == oldData[..i + 1];
        if oldData[i] != emptyKey {
          if oldData[i] !in keys {
            SubsetSmaller(keys, oldKeys, oldData[i]);
          }
          var _, _ := Place(oldData[i]);
        }
        i := i + 1;
      }
      assert oldData[..i] == oldData[..];
    }

    /** `reserve`: rebuilds the table when `requested` is not below the current size. */
    method ReserveAtLeast(requested: nat) returns (r: nat)
      requires Valid() && requested <= MAX_SLOTS
      modifies this
      ensures Valid() && keys == old(keys) && r == allocSlots
      ensures requested < old(allocSlots) ==> allocSlots == old(allocSlots) && data == old(data)
      ensures requested >= old(allocSlots) ==> allocSlots == Capacity(requested)
    {
      if requested < allocSlots {
        return allocSlots;
      }
      Restruct(requested);
      r := allocSlots;
    }

    /**
     * `_find`: scans from the home slot of `key` to the end of the table and
     * then from the start, stopping at a free slot or at `key`.
     */
    method FindSlot(key: U64) returns (pos: nat)
      requires Valid()
      ensures pos < data.Length && (data[pos] == emptyKey || data[pos] == key)
      ensures key != emptyKey ==> (data[pos] == key <==> key in keys)
    {
      ghost var s := data[..];
      ghost var home := Home(hash, key, allocSlots);
      pos := And(hash(key), allocatedMask);
      if data[pos] == emptyKey || data[pos] == key {
        if data[pos] == emptyKey {
          Miss(s, emptyKey, hash, keys, key, 0);
        }
        assert Slotted(s, emptyKey, hash, keys, pos);
        return;
      }
      pos := pos + 1;
      while pos < allocSlots
        invariant home < pos <= allocSlots
        invariant forall q :: home <= q < pos ==> s[q] != emptyKey && s[q] != key
      {
        if data[pos] == emptyKey || data[pos] == key {
          if data[pos] == emptyKey {
            forall d' | 0 <= d' < pos - home ensures s[Slot(home, d', allocSlots)] != emptyKey && s[Slot(home, d', allocSlots)] != key {
              assert Slot(home, d', allocSlots) == home + d';
            }
            Miss(s, emptyKey, hash, keys, key, pos - home);
          }
          assert Slotted(s, emptyKey, hash, keys, pos);
          return;
        }
        pos := pos + 1;
      }
      pos := 0;
      while pos < allocSlots
        invariant pos <= allocSlots
        invariant forall q :: home <= q < allocSlots ==> s[q] != emptyKey && s[q] != key
        invariant forall q :: 0 <= q < pos ==> s[q] != emptyKey && s[q] != key
      {
        if data[pos] == emptyKey || data[pos] == key {
          if data[pos] == emptyKey {
            assert pos < home;
            forall d' | 0 <= d' < pos + allocSlots - home ensures s[Slot(home, d', allocSlots)] != emptyKey && s[Slot(home, d', allocSlots)] != key {
            }
            Miss(s, emptyKey, hash, keys, key, pos + allocSlots - home);
          }
          assert Slotted(s, emptyKey, hash, keys, pos);
          return;
        }
        pos := pos + 1;
      }
      ThresholdFacts(allocSlots, allocSlots, maxFill);
      FreeSlot(s, emptyKey, hash, keys);
      assert false;
    }

    /** `find`: the slot holding `key`, if any. */
    method Find(key: U64) returns (r: Option<nat>)
      requires Valid()
      ensures r.Some? ==> r.value < data.Length && data[r.value] == key
      ensures key != emptyKey ==> (r.Some? <==> key in keys)
      ensures key == emptyKey ==> r.Some?
    {
      var pos := FindSlot(key);
      if data[pos] == key {
        r := Some(pos);
      } else {
        r := None;
      }
    }

    /** `check`: `key` is in the set; a free slot ends the search with `false`. */
    method Check(key: U64) returns (r: bool)
      requires Valid()
      ensures r <==> key in keys
    {
      var pos := FindSlot(key);
      r := data[pos] != emptyKey && data[pos] == key;
    }

    /** `clear`: every slot free again, the table size kept. */
    method Clear()
      requires Valid()
      modifies this, data
      ensures Valid() && keys == {} && data == old(data) && allocSlots == old(allocSlots)
      ensures forall i :: 0 <= i < data.Length ==> data[i] == emptyKey
    {
      forall i | 0 <= i < data.Length {
        data[i] := emptyKey;
      }
      noElements := 0;
      keys := {};
    }

    /** `size`: the number of keys. */
    function Size(): (n: nat)
      reads this, data
      requires Valid()
      ensures n == |keys|
    {
      noElements
    }

    /** `empty`. */
    function Empty(): (b: bool)
      reads this, data
      requires Valid()
      ensures b <==> keys == {}
    {
      noElements == 0
    }
  }
}
