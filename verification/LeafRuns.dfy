/** Runs of insertions into one leaf: as long as everything fits, the order does not matter. */
module LeafRuns {
  import opened ByteOrder
  import opened Slots
  import opened NodeSpec

  /** The leaf after inserting the entries one by one, or the first failure. */
  function RunLeaf<N>(entries: seq<Slot<N>>): InsertResult<N> {
    if entries == [] then Inserted(0, [])
    else
      var n := |entries| - 1;
      match RunLeaf(entries[..n])
      case Inserted(bytes, slots) => LeafInsert(bytes, slots, entries[n])
      case failure => failure
  }

  ghost predicate Distinct<N>(entries: seq<Slot<N>>) {
    forall i, j :: 0 <= i < j < |entries| ==> entries[i].key != entries[j].key
  }

  /** Distinct keys, no entry over a quarter of the leaf, all together within it. */
  ghost predicate Fitting<N>(entries: seq<Slot<N>>) {
    Distinct(entries) && SmallSlots(entries) && Total(entries) <= CAPACITY
  }

  /** Entries that fit are all stored, sorted, each exactly once, and counted exactly. */
  lemma {:induction false} RunLeafStores<N>(entries: seq<Slot<N>>)
    requires Fitting(entries)
    ensures var r := RunLeaf(entries);
            && r.Inserted? && r.bytes == Total(r.slots) == Total(entries)
            && Sorted(Keys(r.slots)) && multiset(r.slots) == multiset(entries)
  {
    if entries != [] {
      var n := |entries| - 1;
      FittingPrefix(entries);
      RunLeafStores(entries[..n]);
      var r := RunLeaf(entries[..n]);
      hide RunLeaf, LeafInsert, LowerBound, Keys, Total;
      FreshKey(entries, r.slots);
      OneMore(r.bytes, r.slots, entries[n]);
      SplicedLast(entries, r.slots, LowerBound(Keys(r.slots), entries[n].key));
      RunLeafStep(entries);
    }
  }

  lemma RunLeafStep<N>(entries: seq<Slot<N>>)
    requires entries != [] && RunLeaf(entries[..|entries| - 1]).Inserted?
    ensures var r := RunLeaf(entries[..|entries| - 1]);
            RunLeaf(entries) == LeafInsert(r.bytes, r.slots, entries[|entries| - 1])
  {
  }

  lemma FittingPrefix<N>(entries: seq<Slot<N>>)
    requires entries != [] && Fitting(entries)
    ensures var n := |entries| - 1;
            Fitting(entries[..n]) && Total(entries) == Total(entries[..n]) + entries[n].Size()
  {
    hide Total;
    var n := |entries| - 1;
    assert entries == entries[..n] + [entries[n]];
    TotalConcat(entries[..n], [entries[n]]);
    TotalOne(entries[n]);
  }

  lemma FreshKey<N>(entries: seq<Slot<N>>, slots: seq<Slot<N>>)
    requires entries != [] && Distinct(entries) && multiset(slots) == multiset(entries[..|entries| - 1])
    ensures forall i :: 0 <= i < |slots| ==> slots[i].key != entries[|entries| - 1].key
  {
    var n := |entries| - 1;
    forall i | 0 <= i < |slots| ensures slots[i].key != entries[n].key {
      var j := IndexOf(slots, entries[..n], i);
      assert entries[j].key != entries[n].key;
    }
  }

  lemma MultisetSpliced<T>(s: seq<T>, p: nat, e: T)
    requires p <= |s|
    ensures multiset(Spliced(s, p, e)) == multiset(s) + multiset{e}
  {
    assert s == s[..p] + s[p..];
  }

  lemma SplicedLast<T>(entries: seq<T>, slots: seq<T>, p: nat)
    requires entries != [] && multiset(slots) == multiset(entries[..|entries| - 1]) && p <= |slots|
    ensures multiset(Spliced(slots, p, entries[|entries| - 1])) == multiset(entries)
  {
    MultisetSpliced(slots, p, entries[|entries| - 1]);
    assert entries == entries[..|entries| - 1] + [entries[|entries| - 1]];
  }

  ghost function Removed<T>(s: seq<T>, i: nat): (r: seq<T>)
    requires i < |s|
    ensures |r| == |s| - 1 && forall k :: 0 <= k < |r| ==> r[k] == s[if k < i then k else k + 1]
  {
    s[..i] + s[i + 1..]
  }

  lemma MultisetRemoved<T>(s: seq<T>, i: nat)
    requires i < |s|
    ensures multiset(Removed(s, i)) == multiset(s) - multiset{s[i]}
  {
    assert s == Spliced(Removed(s, i), i, s[i]);
    MultisetSpliced(Removed(s, i), i, s[i]);
  }

  lemma IndexOf<T>(s: seq<T>, t: seq<T>, i: nat) returns (j: nat)
    requires multiset(s) == multiset(t) && i < |s|
    ensures j < |t| && t[j] == s[i]
  {
    assert s[i] in multiset(t);
    j :| j < |t| && t[j] == s[i];
  }

  lemma OneMore<N>(bytes: nat, slots: seq<Slot<N>>, e: Slot<N>)
    requires bytes == Total(slots) && Sorted(Keys(slots))
    requires e.Size() <= MAX_ENTRY && bytes + e.Size() <= CAPACITY
    requires forall i :: 0 <= i < |slots| ==> slots[i].key != e.key
    ensures var r := LeafInsert(bytes, slots, e);
            && r.Inserted? && r.bytes == Total(r.slots) == bytes + e.Size()
            && Sorted(Keys(r.slots)) && r.slots == Spliced(slots, LowerBound(Keys(slots), e.key), e)
  {
    hide Total, LowerBound, Available;
    var p := LowerBound(Keys(slots), e.key);
    assert e.key !in Keys(slots);
    LowerBoundSorted(Keys(slots), e.key);
    AvailableExact(bytes);
    SortedSpliced(Keys(slots), e.key);
    KeysSpliced(slots, p, e);
    TotalSpliced(slots, p, e);
  }

  /** Strictly sorted entries are determined by their multiset. */
  lemma {:induction false} SortedIsUnique<N>(a: seq<Slot<N>>, b: seq<Slot<N>>)
    requires Sorted(Keys(a)) && Sorted(Keys(b)) && multiset(a) == multiset(b)
    ensures a == b
  {
    SameLength(a, b);
    if a != [] {
      SortedHead(a, b);
      SortedTail(a);
      SortedTail(b);
      MultisetRemoved(a, 0);
      MultisetRemoved(b, 0);
      assert Removed(a, 0) == a[1..] && Removed(b, 0) == b[1..];
      SortedIsUnique(a[1..], b[1..]);
    }
  }

  lemma SameLength<T>(a: seq<T>, b: seq<T>)
    requires multiset(a) == multiset(b)
    ensures |a| == |b|
  {
    assert |multiset(a)| == |a| && |multiset(b)| == |b|;
  }

  lemma SortedHead<N>(a: seq<Slot<N>>, b: seq<Slot<N>>)
    requires Sorted(Keys(a)) && Sorted(Keys(b)) && multiset(a) == multiset(b) && a != [] && b != []
    ensures a[0] == b[0]
  {
    var i := IndexOf(a, b, 0);
    var j := IndexOf(b, a, 0);
    if i > 0 && j > 0 {
      assert Less(Keys(b)[0], Keys(b)[i]) && Less(Keys(a)[0], Keys(a)[j]);
      LessAsymmetric(a[0].key, b[0].key);
      assert false;
    }
  }

  lemma SortedTail<N>(a: seq<Slot<N>>)
    requires a != [] && Sorted(Keys(a))
    ensures Sorted(Keys(a[1..]))
  {
  }

  /** Fitting is a matter of the entries, not of their order. */
  lemma {:induction false} FittingPermuted<N>(a: seq<Slot<N>>, b: seq<Slot<N>>)
    requires multiset(a) == multiset(b) && Distinct(a) && SmallSlots(a)
    ensures Distinct(b) && SmallSlots(b) && Total(a) == Total(b)
  {
    SameLength(a, b);
    if a != [] {
      var i := IndexOf(a, b, 0);
      var rest := Removed(b, i);
      MultisetRemoved(a, 0);
      MultisetRemoved(b, i);
      assert Removed(a, 0) == a[1..];
      FittingPermuted(a[1..], rest);
      TotalRemoved(b, i);
      hide *;
      PutBack(a, b, i);
      TotalRemoved(a, 0);
    }
  }

  lemma TotalRemoved<N>(s: seq<Slot<N>>, i: nat)
    requires i < |s|
    ensures Total(Removed(s, i)) == Total(s) - s[i].Size()
  {
    hide *;
    RemovedParts(s, i);
    TotalAround(s[..i], s[i], s[i + 1..]);
  }

  lemma RemovedParts<T>(s: seq<T>, i: nat)
    requires i < |s|
    ensures Removed(s, i) == s[..i] + s[i + 1..] && s == s[..i] + [s[i]] + s[i + 1..]
  {
  }

  lemma TotalAround<N>(a: seq<Slot<N>>, e: Slot<N>, b: seq<Slot<N>>)
    ensures Total(a + b) == Total(a + [e] + b) - e.Size()
  {
    TotalOne(e);
    hide Total;
    TotalConcat(a, b);
    TotalThree(a, [e], b);
  }

  lemma PutBack<N>(a: seq<Slot<N>>, b: seq<Slot<N>>, i: nat)
    requires a != [] && i < |b| && b[i] == a[0] && multiset(a[1..]) == multiset(Removed(b, i))
    requires Distinct(a) && SmallSlots(a) && Distinct(Removed(b, i)) && SmallSlots(Removed(b, i))
    ensures Distinct(b) && SmallSlots(b)
  {
    hide SmallSlots, Removed;
    var rest := Removed(b, i);
    forall k | 0 <= k < |rest| ensures rest[k].key != b[i].key {
      var j := IndexOf(rest, a[1..], k);
      assert a[0].key != a[j + 1].key;
    }
    hide Distinct;
    DistinctPutBack(b, i);
    SmallPutBack(a, b, i);
  }

  lemma DistinctPutBack<N>(b: seq<Slot<N>>, i: nat)
    requires i < |b| && Distinct(Removed(b, i))
    requires forall k :: 0 <= k < |Removed(b, i)| ==> Removed(b, i)[k].key != b[i].key
    ensures Distinct(b)
  {
    hide Removed;
    var rest := Removed(b, i);
    forall k | 0 <= k < |b| && k != i ensures b[k] == rest[if k < i then k else k - 1] {}
    forall p, q | 0 <= p < q < |b| ensures b[p].key != b[q].key {
      if p != i && q != i {
        assert rest[if p < i then p else p - 1].key != rest[if q < i then q else q - 1].key;
      }
    }
  }

  lemma SmallPutBack<N>(a: seq<Slot<N>>, b: seq<Slot<N>>, i: nat)
    requires a != [] && i < |b| && b[i] == a[0] && SmallSlots(a) && SmallSlots(Removed(b, i))
    ensures SmallSlots(b)
  {
    hide Removed;
    var rest := Removed(b, i);
    forall k | 0 <= k < |b| && k != i ensures b[k] == rest[if k < i then k else k - 1] {}
  }

  /** Whatever the order in which fitting entries come, the leaf ends up the same. */
  lemma {:induction false} OrderIndependent<N>(a: seq<Slot<N>>, b: seq<Slot<N>>)
    requires Fitting(a) && multiset(a) == multiset(b)
    ensures RunLeaf(a).Inserted? && RunLeaf(a) == RunLeaf(b)
  {
    FittingPermuted(a, b);
    RunLeafStores(a);
    RunLeafStores(b);
    SortedIsUnique(RunLeaf(a).slots, RunLeaf(b).slots);
  }
}
