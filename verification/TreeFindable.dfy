/** Whether an insertion as written can be found again: exactly if it was clean. */
module TreeFindable {
  import opened ByteOrder
  import opened Slots
  import opened NodeSpec
  import opened TreeForecast
  import opened TreeSpec
  import opened TreeInsert
  import opened TreeAsWritten
  import opened TreeConserves
  import opened TreeRuns

  /** A search in the node, or in that one of its halves which the split key selects. */
  function SearchAfter(o: Outcome, key: Bytes): Option<Bytes>
    requires o.Stored? && Shaped(o.node) && (o.split.Some? ==> Shaped(o.split.value.sibling))
  {
    if o.split.None? then Lookup(o.node, key)
    else
      var s := o.split.value;
      if Less(key, s.key) <==> s.direction.LEFT? then Lookup(s.sibling, key) else Lookup(o.node, key)
  }

  // ---- What a node does not find ---------------------------------------------------------------

  ghost predicate Absent(key: Bytes, contents: seq<Slot<Tree>>) {
    forall i :: 0 <= i < |contents| ==> contents[i].key != key
  }

  lemma ChildContents(slots: seq<Slot<Tree>>, j: nat)
    requires j < |slots| && slots[j].payload.Child?
    ensures RunContents(slots) == RunContents(slots[..j]) + Contents(slots[j].payload.node) + RunContents(slots[j + 1..])
  {
    assert slots == slots[..j] + [slots[j]] + slots[j + 1..];
    ContentsConcat(slots[..j] + [slots[j]], slots[j + 1..]);
    ContentsConcat(slots[..j], [slots[j]]);
    OneContents(slots[j]);
  }

  lemma AbsentInChild(key: Bytes, slots: seq<Slot<Tree>>, j: nat)
    requires j < |slots| && slots[j].payload.Child? && Absent(key, RunContents(slots))
    ensures Absent(key, Contents(slots[j].payload.node))
  {
    ChildContents(slots, j);
    var before, all := RunContents(slots[..j]), RunContents(slots);
    forall i | 0 <= i < |Contents(slots[j].payload.node)| ensures Contents(slots[j].payload.node)[i].key != key {
      assert all[|before| + i] == Contents(slots[j].payload.node)[i];
    }
  }

  /** In no tree does a search find what is not stored. */
  lemma {:induction false} AbsentNotFound(t: Tree, key: Bytes)
    requires Shaped(t) && Absent(key, Contents(t))
    ensures Lookup(t, key).None?
    decreases t
  {
    if !t.leaf {
      var j := FindChild(Keys(t.slots), key);
      AbsentInChild(key, t.slots, j);
      AbsentNotFound(t.slots[j].payload.node, key);
    }
  }

  /** None of these subtrees finds the key. */
  ghost predicate Blind(slots: seq<Slot<Tree>>, key: Bytes) {
    forall i :: 0 <= i < |slots| ==>
      slots[i].payload.Child? && Shaped(slots[i].payload.node) && Lookup(slots[i].payload.node, key).None?
  }

  lemma FreshIsAbsent(t: Tree, h: nat, lo: Bytes, hi: Bound, key: Bytes)
    requires Routed(t, h, lo, hi) && Shaped(t) && Inside(lo, key, hi) && Lookup(t, key).None?
    ensures Absent(key, Contents(t))
  {
    LookupFinds(t, h, lo, hi, key);
  }

  lemma FreshIsBlind(t: Tree, h: nat, lo: Bytes, hi: Bound, key: Bytes)
    requires h > 0 && Routed(t, h, lo, hi) && Shaped(t) && Inside(lo, key, hi) && Lookup(t, key).None?
    ensures Blind(t.slots, key)
  {
    FreshIsAbsent(t, h, lo, hi, key);
    InnerNode(t, h, lo, hi);
    ContentsOf(t);
    forall i | 0 <= i < |t.slots|
      ensures t.slots[i].payload.Child? && Shaped(t.slots[i].payload.node) && Lookup(t.slots[i].payload.node, key).None?
    {
      AbsentInChild(key, t.slots, i);
      AbsentNotFound(t.slots[i].payload.node, key);
    }
  }

  /** A search does not go to entry i, or does not find the key there. */
  ghost predicate Skips(slots: seq<Slot<Tree>>, i: nat, key: Bytes)
    requires i < |slots| && slots[i].payload.Child? && Shaped(slots[i].payload.node)
  {
    || Lookup(slots[i].payload.node, key).None?
    || (i > 0 && Less(key, slots[i].key))
    || (i + 1 < |slots| && slots[i + 1].key == [])
  }

  ghost predicate Veiled(slots: seq<Slot<Tree>>, key: Bytes) {
    forall i :: 0 <= i < |slots| ==>
      slots[i].payload.Child? && Shaped(slots[i].payload.node) && Skips(slots, i, key)
  }

  /** Descent never goes to an entry above the key, nor to one before a sentinel. */
  lemma VeiledNotFound(t: Tree, key: Bytes)
    requires !t.leaf && t.slots != [] && Veiled(t.slots, key)
    ensures Shaped(t) && Lookup(t, key).None?
  {
    var j := FindChild(Keys(t.slots), key);
    assert Skips(t.slots, j, key);
    assert j + 1 < |t.slots| ==> Less(key, Keys(t.slots)[j + 1]);
  }

  lemma BlindIsVeiled(slots: seq<Slot<Tree>>, key: Bytes)
    requires Blind(slots, key)
    ensures Veiled(slots, key)
  {
    hide Lookup, Shaped;
  }

  // ---- One insertion ---------------------------------------------------------------------------

  /**
   * The new entry always goes to the sibling. If the insertion is not clean, a search does not get there,
   * or if it would by the entry's key, then the split key sends it to the other half.
   */
  ghost predicate Mislaid(o: Outcome, t: Tree, key: Bytes, value: Bytes)
    requires Shaped(t)
  {
    && o.Stored? && Shaped(o.node) && (o.split.Some? ==> Shaped(o.split.value.sibling))
    && (o.split.None? && !Clean(t, key, value) ==> Lookup(o.node, key).None?)
    && (o.split.Some? ==>
          var s := o.split.value;
          && Lookup(o.node, key).None?
          && (s.direction.LEFT? ==> Less(key, s.key))
          && (!Clean(t, key, value) ==> (Less(key, s.key) && s.direction.RIGHT?) || Lookup(s.sibling, key).None?))
  }

  lemma MislaidIsNotFound(o: Outcome, t: Tree, key: Bytes, value: Bytes)
    requires Shaped(t) && Mislaid(o, t, key, value) && !Clean(t, key, value)
    ensures SearchAfter(o, key).None?
  {
  }

  lemma {:induction false} UncleanIsMislaid(t: Tree, h: nat, lo: Bytes, hi: Bound, key: Bytes, value: Bytes)
    requires Routed(t, h, lo, hi) && Shaped(t) && Accounted(t, MAX_ENTRY) && Inside(lo, key, hi)
    requires Lookup(t, key).None? && |key| + |value| <= MAX_ENTRY && Promotable(t, key, value)
    ensures Mislaid(Insert(AsWritten, t, key, value), t, key, value)
    decreases h, 1
  {
    if h == 0 {
      LeafMislays(t, lo, hi, key, value);
    } else {
      InnerMislays(t, h, lo, hi, key, value);
    }
  }

  /** What is known before one looks at the halves: the insertion is stored, and its halves are proper trees. */
  lemma StoredShapes(reading: Reading, t: Tree, h: nat, lo: Bytes, hi: Bound, key: Bytes, value: Bytes)
    requires Routed(t, h, lo, hi) && Shaped(t) && Accounted(t, MAX_ENTRY) && Inside(lo, key, hi)
    requires Lookup(t, key).None? && |key| + |value| <= MAX_ENTRY && Promotable(t, key, value)
    ensures var o := Insert(reading, t, key, value);
            && o.Stored? && Shaped(o.node) && (o.split.Some? ==> Shaped(o.split.value.sibling))
            && AsForecast(reading, o.split, t, key, value)
  {
    hide Insert, Routed, Level, Accounted, Promotable, Lookup, Shaped, AsForecast;
    if reading.Documented? {
      InsertIsCorrect(t, h, lo, hi, key, value, MAX_ENTRY);
    } else {
      AsWrittenSettles(t, h, lo, hi, key, value);
    }
    RoutedLevel(t, h, lo, hi);
    StoredIsKept(reading, t, h, false, key, value);
    ForecastIsRight(reading, t, key, value);
    var o := Insert(reading, t, key, value);
    LevelIsShaped(o.node, h, false);
    if o.split.Some? {
      LevelIsShaped(o.split.value.sibling, h, false);
    }
  }

  lemma LeafMislays(t: Tree, lo: Bytes, hi: Bound, key: Bytes, value: Bytes)
    requires Routed(t, 0, lo, hi) && Shaped(t) && Accounted(t, MAX_ENTRY) && Inside(lo, key, hi)
    requires Lookup(t, key).None? && |key| + |value| <= MAX_ENTRY
    ensures Mislaid(Insert(AsWritten, t, key, value), t, key, value)
  {
    hide Insert, UpKey, Demanded, LowerBound, Total, Routed, Accounted, Lookup, Shaped, Finish, InsertAt, Promotable, Contents, Duplicate;
    hide Sorted, Less, LessEq, Clean;
    LeafIsSorted(t, lo, hi);
    LeafUnfolds(t, key, value);
    StoredShapes(AsWritten, t, 0, lo, hi, key, value);
    FreshIsAbsent(t, 0, lo, hi, key);
    InsertOf(AsWritten, t, key, value);
    DemandOf(t, key, value);
    CleanOf(t, key, value);
    ContentsOf(t);
    var o, p := Insert(AsWritten, t, key, value), LowerBound(Keys(t.slots), key);
    LeafOriginal(t.bytes, t.slots, p, Slot(key, Data(value)));
    if o.split.Some? {
      AbsentPart(t.slots, SplitPoint(|t.slots|), o.node.slots, key);
      ContentsOf(o.node);
      AbsentNotFound(o.node, key);
      if p <= SplitPoint(|t.slots|) {
        FreshBelow(t.slots, key, SplitPoint(|t.slots|));
      }
    }
  }

  lemma LeafIsSorted(t: Tree, lo: Bytes, hi: Bound)
    requires Routed(t, 0, lo, hi)
    ensures t.leaf && Sorted(Keys(t.slots))
  {
  }

  /** What a leaf keeps when it splits. */
  lemma LeafOriginal(bytes: nat, slots: seq<Slot<Tree>>, p: nat, e: Slot<Tree>)
    requires p == LowerBound(Keys(slots), e.key)
    ensures var o, m := Finish(AsWritten, true, bytes, slots, e, InsertAt(bytes, slots, p, e)), SplitPoint(|slots|);
            o.Stored? && o.split.Some? ==>
              && m < |slots| && o.node.leaf && (o.node.slots == slots[m..] || o.node.slots == slots[..m])
              && o.split.value.key == slots[m].key && (o.split.value.direction.LEFT? <==> p < m)
  {
    hide LowerBound, Total;
  }

  lemma AbsentPart(slots: seq<Slot<Tree>>, c: nat, part: seq<Slot<Tree>>, key: Bytes)
    requires Absent(key, slots) && c <= |slots| && (part == slots[..c] || part == slots[c..])
    ensures Absent(key, part)
  {
  }

  lemma FreshBelow(slots: seq<Slot<Tree>>, key: Bytes, m: nat)
    requires Sorted(Keys(slots)) && LowerBound(Keys(slots), key) <= m < |slots| && Absent(key, slots)
    ensures Less(key, slots[m].key)
  {
    LowerBoundSorted(Keys(slots), key);
    assert key !in Keys(slots);
    assert Less(key, Keys(slots)[m]);
  }

  lemma {:induction false} InnerMislays(t: Tree, h: nat, lo: Bytes, hi: Bound, key: Bytes, value: Bytes)
    requires h > 0 && Routed(t, h, lo, hi) && Shaped(t) && Accounted(t, MAX_ENTRY) && Inside(lo, key, hi)
    requires Lookup(t, key).None? && |key| + |value| <= MAX_ENTRY && Promotable(t, key, value)
    ensures Mislaid(Insert(AsWritten, t, key, value), t, key, value)
    decreases h, 0
  {
    hide Insert, Repair, Lookup, Promotable, UpKey, RoutedRun, Accounted, FindChild, Clean, Plausible;
    var run := Sealed(t.slots, lo);
    var j := FindChild(Keys(t.slots), key);
    DescentInside(t, h - 1, lo, hi, key);
    ChildOf(t, j, MAX_ENTRY);
    var child := t.slots[j].payload.node;
    InnerUnfolds(t, key, value);
    UncleanIsMislaid(child, h - 1, run[j].key, NextKey(run, j, hi), key, value);
    RoutedOnlyIfClean(child, h - 1, run[j].key, NextKey(run, j, hi), key, value);
    FreshIsBlind(t, h, lo, hi, key);
    StoredShapes(AsWritten, t, h, lo, hi, key, value);
    ForecastIsRight(AsWritten, child, key, value);
    InsertOf(AsWritten, t, key, value);
    var o := Insert(AsWritten, child, key, value);
    if o.split.None? {
      PlainMislays(t, key, value, o);
    } else {
      SplitMislays(t, h, lo, hi, key, value, o);
    }
  }

  /** Without a split of the child the search goes on to it as before. */
  lemma PlainMislays(t: Tree, key: Bytes, value: Bytes, o: Outcome)
    requires Shaped(t) && !t.leaf && Mislaid(o, ChildFor(t, key), key, value)
    requires o.split.None? && AsForecast(AsWritten, o.split, ChildFor(t, key), key, value)
    requires Shaped(Repair(AsWritten, t.bytes, t.slots, FindChild(Keys(t.slots), key), o.node, None).node)
    ensures Mislaid(Repair(AsWritten, t.bytes, t.slots, FindChild(Keys(t.slots), key), o.node, None), t, key, value)
  {
    CleanOf(t, key, value);
    DemandOf(t, key, value);
    var j := FindChild(Keys(t.slots), key);
    var r := Repair(AsWritten, t.bytes, t.slots, j, o.node, None);
    assert r == Stored(Tree(false, t.bytes, WithChild(t.slots, j, o.node)), None);
    assert Keys(r.node.slots) == Keys(t.slots);
    hide Clean, UpKey, Demanded, FindChild, Repair;
    InnerLookup(r.node, key);
  }

  lemma SplitMislays(t: Tree, h: nat, lo: Bytes, hi: Bound, key: Bytes, value: Bytes, o: Outcome)
    requires h > 0 && Routed(t, h, lo, hi) && Shaped(t) && Accounted(t, MAX_ENTRY) && Promotable(t, key, value)
    requires Blind(t.slots, key)
    requires !t.leaf && Mislaid(o, ChildFor(t, key), key, value) && o.split.Some?
    requires AsForecast(AsWritten, o.split, ChildFor(t, key), key, value)
    requires var run, j := Sealed(t.slots, lo), FindChild(Keys(t.slots), key);
             Plausible(o, run[j].key, NextKey(run, j, hi))
    requires var r := Repair(AsWritten, t.bytes, t.slots, FindChild(Keys(t.slots), key), o.node, o.split);
             && r.Stored? && Shaped(r.node) && (r.split.Some? ==> Shaped(r.split.value.sibling))
             && AsForecast(AsWritten, r.split, t, key, value)
    ensures Mislaid(Repair(AsWritten, t.bytes, t.slots, FindChild(Keys(t.slots), key), o.node, o.split), t, key, value)
  {
    hide Repair, RepairPlace, Routed, Accounted, Clean, UpKey, Demanded, LowerBound, Duplicate, Blind, Plausible, WithChild;
    hide Promotable, Lookup, Shaped, BytesTrue, SmallSlots, Total, Less, FindChild, Sealed, NextKey;
    var j, s := FindChild(Keys(t.slots), key), o.split.value;
    var r := Repair(AsWritten, t.bytes, t.slots, j, o.node, o.split);
    InnerUnfolds(t, key, value);
    ChildOf(t, j, MAX_ENTRY);
    RepairSetup(t, h, lo, hi, j, o);
    SplitFacts(t, key, value, o);
    PlaceOfAsWritten(t.slots, j, o.node, s);
    SentinelStays(t, h, lo, hi, j, o.node);
    StillBlind(t.slots, j, o.node, key);
    var slots, p, up := WithChild(t.slots, j, o.node), if s.direction.RIGHT? then j + 1 else j, Slot(s.key, Child(s.sibling));
    if up.Size() <= Available(t.bytes) {
      if Less(key, s.key) || Lookup(s.sibling, key).None? {
        EnteredNotFound(t.bytes + up.Size(), slots, p, up, key);
      } else {
        assert Clean(t, key, value);
      }
    } else {
      SplitNotFound(t.bytes, slots, p, j + 1, up, key);
    }
  }

  lemma SentinelStays(t: Tree, h: nat, lo: Bytes, hi: Bound, j: nat, next: Tree)
    requires h > 0 && Routed(t, h, lo, hi) && j < |t.slots|
    ensures var slots := WithChild(t.slots, j, next);
            && slots != [] && slots[0].key == [] && |slots| == |t.slots|
            && forall i :: 0 <= i < |slots| ==> slots[i].key == t.slots[i].key
  {
  }

  lemma PlaceOfAsWritten(slots: seq<Slot<Tree>>, j: nat, next: Tree, s: Split<Tree>)
    requires j < |slots|
    ensures RepairPlace(AsWritten, slots, j, next, s) ==
            (WithChild(slots, j, next), if s.direction.RIGHT? then j + 1 else j, Slot(s.key, Child(s.sibling)))
  {
  }

  lemma StillBlind(slots: seq<Slot<Tree>>, j: nat, next: Tree, key: Bytes)
    requires j < |slots| && Blind(slots, key) && Shaped(next) && Lookup(next, key).None?
    ensures Blind(WithChild(slots, j, next), key)
  {
    hide Lookup, Shaped;
  }

  /** How the parent's forecast follows from the child's split. */
  lemma SplitFacts(t: Tree, key: Bytes, value: Bytes, o: Outcome)
    requires Shaped(t) && !t.leaf && Mislaid(o, ChildFor(t, key), key, value) && o.split.Some?
    requires AsForecast(AsWritten, o.split, ChildFor(t, key), key, value)
    requires LowerBound(Keys(t.slots), o.split.value.key) == FindChild(Keys(t.slots), key) + 1
    ensures var s, j, m := o.split.value, FindChild(Keys(t.slots), key), SplitPoint(|t.slots|);
            && (UpKey(t, key, value).Some? <==> |s.key| + 8 > Available(t.bytes) && 3 <= |t.slots|)
            && (!Clean(t, key, value) ==>
                  || (UpKey(t, key, value).Some? && j + 1 == m)
                  || Less(key, s.key) || Lookup(s.sibling, key).None?)
            && (forall i :: j < i < |t.slots| ==> Less(key, t.slots[i].key))
  {
    CleanOf(t, key, value);
    DemandOf(t, key, value);
    hide Clean, UpKey, Demanded, Lookup, Shaped, LowerBound;
    var keys := Keys(t.slots);
    forall i | FindChild(keys, key) < i < |t.slots| ensures Less(key, t.slots[i].key) {
      assert keys[i] == t.slots[i].key;
    }
  }

  /** The sibling that was entered is not found, nor is anything else. */
  lemma EnteredNotFound(bytes: nat, slots: seq<Slot<Tree>>, p: nat, up: Slot<Tree>, key: Bytes)
    requires p <= |slots| && slots != [] && slots[0].key == [] && Blind(slots, key)
    requires up.payload.Child? && Shaped(up.payload.node)
    requires Less(key, up.key) || (Lookup(up.payload.node, key).None?)
    ensures var t := Tree(false, bytes, Spliced(slots, p, up)); Shaped(t) && Lookup(t, key).None?
  {
    var all := Spliced(slots, p, up);
    forall i | 0 <= i < |all| ensures all[i].payload.Child? && Shaped(all[i].payload.node) && Skips(all, i, key) {
      if i != p {
        assert all[i] == slots[if i < p then i else i - 1];
      } else if p == 0 {
        assert all[1] == slots[0];
      }
    }
    hide Lookup, Shaped;
    VeiledNotFound(Tree(false, bytes, all), key);
  }

  /** Of a node split as written the original never finds the key, and the sibling not unless it does so by way of the entry. */
  lemma SplitNotFound(bytes: nat, slots: seq<Slot<Tree>>, p: nat, q: nat, up: Slot<Tree>, key: Bytes)
    requires p <= |slots| && 3 <= |slots| && Blind(slots, key) && q == LowerBound(Keys(slots), up.key) && q > 0
    requires up.payload.Child? && Shaped(up.payload.node) && up.Size() > Available(bytes)
    requires var o := Finish(AsWritten, false, bytes, slots, up, InsertAt(bytes, slots, p, up)); o.Stored?
    ensures var o, m := Finish(AsWritten, false, bytes, slots, up, InsertAt(bytes, slots, p, up)), SplitPoint(|slots|);
            && o.split.Some? && o.split.value.key == slots[m].key && (o.split.value.direction.LEFT? <==> q < m)
            && Shaped(o.node) && Lookup(o.node, key).None?
            && (q != m && (Less(key, up.key) || Lookup(up.payload.node, key).None?) ==>
                  Shaped(o.split.value.sibling) && Lookup(o.split.value.sibling, key).None?)
  {
    hide SplitSlots, Lookup, Shaped, Total, LowerBound, Blind, Finish, InsertAt;
    var o, m := Finish(AsWritten, false, bytes, slots, up, InsertAt(bytes, slots, p, up)), SplitPoint(|slots|);
    FinishBySplit(bytes, slots, p, q, up);
    var kept := slots[m := slots[m].(key := [])];
    var (begin, end) := if q < m then (0, m) else (m, |slots|);
    MovesAreSplit(AsWritten, false, slots, kept, q, up, if q < m then LEFT else RIGHT, begin, end);
    KeptBlind(slots, kept, m, key);
    var r := SplitSlots(AsWritten, false, slots, q, up);
    BlindParts(kept, begin, q, end, key);
    SplitHalvesNonempty(AsWritten, false, slots, q, up);
    BlindIsVeiled(r.original, key);
    VeiledNotFound(o.node, key);
    if q != m && (Less(key, up.key) || Lookup(up.payload.node, key).None?) {
      SiblingVeiled(kept[begin..q], up, kept[q..end], key);
      VeiledNotFound(o.split.value.sibling, key);
    }
  }

  lemma FinishBySplit(bytes: nat, slots: seq<Slot<Tree>>, p: nat, q: nat, up: Slot<Tree>)
    requires p <= |slots| && 3 <= |slots| && q == LowerBound(Keys(slots), up.key) && up.Size() > Available(bytes)
    requires Finish(AsWritten, false, bytes, slots, up, InsertAt(bytes, slots, p, up)).Stored?
    ensures var r := SplitSlots(AsWritten, false, slots, q, up);
            Finish(AsWritten, false, bytes, slots, up, InsertAt(bytes, slots, p, up)) ==
            Stored(Tree(false, Total(r.original), r.original),
                   Some(Split(r.direction, r.key, Tree(false, Total(r.sibling), r.sibling))))
  {
    hide SplitSlots, Total, LowerBound;
  }

  lemma KeptBlind(slots: seq<Slot<Tree>>, kept: seq<Slot<Tree>>, m: nat, key: Bytes)
    requires m < |slots| && Blind(slots, key) && kept == slots[m := slots[m].(key := [])]
    ensures Blind(kept, key)
  {
    hide Lookup, Shaped;
  }

  lemma BlindParts(slots: seq<Slot<Tree>>, begin: nat, q: nat, end: nat, key: Bytes)
    requires begin <= q <= end <= |slots| && Blind(slots, key)
    ensures Blind(slots[..begin] + slots[end..], key) && Blind(slots[begin..q], key) && Blind(slots[q..end], key)
  {
    hide Lookup, Shaped;
  }

  lemma SiblingVeiled(a: seq<Slot<Tree>>, up: Slot<Tree>, b: seq<Slot<Tree>>, key: Bytes)
    requires a != [] && Blind(a, key) && Blind(b, key)
    requires up.payload.Child? && Shaped(up.payload.node) && (Less(key, up.key) || Lookup(up.payload.node, key).None?)
    ensures Veiled(a + [up] + b, key)
  {
    hide Lookup, Shaped;
    var all := a + [up] + b;
    forall i | 0 <= i < |all| ensures all[i].payload.Child? && Shaped(all[i].payload.node) && Skips(all, i, key) {
      if i < |a| {
        assert all[i] == a[i];
      } else if i > |a| {
        assert all[i] == b[i - |a| - 1];
      }
    }
  }

  // ---- The theorem -----------------------------------------------------------------------------

  /** A correct insertion is found. */
  lemma CorrectIsFound(o: Outcome, t: Tree, h: nat, lo: Bytes, hi: Bound, key: Bytes, value: Bytes)
    requires Shaped(t) && Correct(o, t, h, lo, hi, key, value, MAX_ENTRY) && Inside(lo, key, hi)
    requires o.Stored? && Shaped(o.node) && (o.split.Some? ==> Shaped(o.split.value.sibling))
    ensures SearchAfter(o, key) == Some(value)
  {
    hide Promotable, Lookup, Contents, RoutedRun, OutcomeContents, Halves, SearchAfter, AddsOne;
    AddedIsIn(t, o, key, value);
    RowIsSearched(o, h, lo, hi, key, value);
  }

  lemma AddedIsIn(t: Tree, o: Outcome, key: Bytes, value: Bytes)
    requires o.Stored? && AddsOne(Contents(t), OutcomeContents(o), Slot(key, Data(value)))
    ensures Slot(key, Data(value)) in OutcomeContents(o)
  {
    var q: nat :| q <= |Contents(t)| && OutcomeContents(o) == Spliced(Contents(t), q, Slot(key, Data(value)));
    assert OutcomeContents(o)[q] == Slot(key, Data(value));
  }

  /** In a routed row search by the split key finds what is stored. */
  lemma RowIsSearched(o: Outcome, h: nat, lo: Bytes, hi: Bound, key: Bytes, value: Bytes)
    requires o.Stored? && Shaped(o.node) && (o.split.Some? ==> Shaped(o.split.value.sibling))
    requires RoutedRun(Halves(o, lo), h, hi) && Inside(lo, key, hi) && Slot(key, Data(value)) in OutcomeContents(o)
    ensures SearchAfter(o, key) == Some(value)
  {
    hide Lookup, Routed, RoutedRun, Contents, Shaped;
    var e: Slot<Tree> := Slot(key, Data(value));
    if o.split.None? {
      RowOfOne(lo, o.node, h, hi);
      StoredIsFound(o.node, h, lo, hi, key, value);
    } else {
      var s, lower, upper := o.split.value, LowerNode(o), UpperNode(o);
      RowOfTwo(lo, lower, s.key, upper, h, hi);
      if Less(key, s.key) {
        OutsideInterval(upper, h, s.key, hi, key, value);
        StoredIsFound(lower, h, lo, Before(s.key), key, value);
      } else {
        OutsideInterval(lower, h, lo, Before(s.key), key, value);
        StoredIsFound(upper, h, s.key, hi, key, value);
      }
    }
  }

  lemma StoredIsFound(t: Tree, h: nat, lo: Bytes, hi: Bound, key: Bytes, value: Bytes)
    requires Routed(t, h, lo, hi) && Shaped(t) && Inside(lo, key, hi) && Slot(key, Data(value)) in Contents(t)
    ensures Lookup(t, key) == Some(value)
  {
    LookupFinds(t, h, lo, hi, key);
    var i :| 0 <= i < |Contents(t)| && Contents(t)[i] == Slot(key, Data(value));
  }

  lemma OutsideInterval(t: Tree, h: nat, lo: Bytes, hi: Bound, key: Bytes, value: Bytes)
    requires Routed(t, h, lo, hi) && (Less(key, lo) || !hi.Admits(key))
    ensures Slot(key, Data(value)) !in Contents(t)
  {
    RoutedContents(t, h, lo, hi);
    forall i | 0 <= i < |Contents(t)| ensures Contents(t)[i] != Slot(key, Data(value)) {
      assert LessEq(lo, Contents(t)[i].key) && hi.Admits(Contents(t)[i].key);
    }
  }

  /** The entry was stored, and this is what a search for its key finds. */
  ghost predicate Finds(o: Outcome, key: Bytes, found: Option<Bytes>) {
    && o.Stored? && Shaped(o.node) && (o.split.Some? ==> Shaped(o.split.value.sibling))
    && SearchAfter(o, key) == found
  }

  /**
   * Inserting a fresh entry that fits, every split key being small enough to go up, is reported as stored.
   * Read as documented the entry is found afterwards; by the code it is found exactly if the insertion was
   * clean. Every other insertion hides its own entry.
   */
  lemma {:induction false} FoundIffClean(reading: Reading, t: Tree, h: nat, lo: Bytes, hi: Bound, key: Bytes, value: Bytes)
    requires Routed(t, h, lo, hi) && Shaped(t) && Accounted(t, MAX_ENTRY) && Inside(lo, key, hi)
    requires Lookup(t, key).None? && |key| + |value| <= MAX_ENTRY && Promotable(t, key, value)
    ensures Finds(Insert(reading, t, key, value), key,
                  if reading.Documented? || Clean(t, key, value) then Some(value) else None)
  {
    hide Insert, Routed, Accounted, Promotable, Clean, Lookup, Shaped, SearchAfter;
    StoredShapes(reading, t, h, lo, hi, key, value);
    var o := Insert(reading, t, key, value);
    if reading.Documented? {
      InsertIsCorrect(t, h, lo, hi, key, value, MAX_ENTRY);
      CorrectIsFound(o, t, h, lo, hi, key, value);
    } else if Clean(t, key, value) {
      CleanIsCorrect(t, h, lo, hi, key, value, MAX_ENTRY);
      CorrectIsFound(o, t, h, lo, hi, key, value);
    } else {
      UncleanIsMislaid(t, h, lo, hi, key, value);
      MislaidIsNotFound(o, t, key, value);
    }
  }
}
