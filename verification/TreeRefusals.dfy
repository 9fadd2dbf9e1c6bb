/** What an insertion loses that is refused after a child has split. */
module TreeRefusals {
  import opened ByteOrder
  import opened Slots
  import opened NodeSpec
  import opened TreeForecast
  import opened TreeSpec
  import opened TreeInsert
  import opened TreeAsWritten
  import opened TreeConserves
  import opened TreeRuns
  import opened TreeFindable

  /** Some entries, two at least, are no longer linked; the others are where they were. */
  ghost predicate Orphans(o: Outcome, t: Tree, h: nat, e: Slot<Tree>, lost: seq<Slot<Tree>>) {
    && o.Threw? && o.error == EntryTooBig
    && Level(o.node, h, true) && Accounted(o.node, MAX_ENTRY)
    && multiset(Contents(o.node)) + multiset(lost) == multiset(Contents(t)) + multiset{e}
    && 2 <= |lost|
  }

  /** With no leaf empty there is an entry for each child. */
  lemma {:induction false} FullContents(t: Tree, h: nat)
    requires Level(t, h, true)
    ensures |t.slots| <= |Contents(t)| && 0 < |t.slots|
    decreases h, 1, 0
  {
    if h > 0 {
      FullRunContents(t.slots, h - 1);
    }
  }

  lemma {:induction false} FullRunContents(run: seq<Slot<Tree>>, h: nat)
    requires AllLevel(run, h, true)
    ensures |run| <= |RunContents(run)|
    decreases h, 2, |run|
  {
    if run != [] {
      FullContents(run[0].payload.node, h);
      FullRunContents(run[1..], h);
    }
  }

  /** A node with one child exchanged for another of the same height. */
  lemma Exchanged(t: Tree, h: nat, j: nat, next: Tree)
    requires h > 0 && Level(t, h, true) && Accounted(t, MAX_ENTRY) && j < |t.slots| && t.slots[j].payload.Child?
    requires Level(next, h - 1, true) && Accounted(next, MAX_ENTRY)
    ensures var t' := Tree(false, t.bytes, WithChild(t.slots, j, next));
            && Level(t', h, true) && Accounted(t', MAX_ENTRY)
            && multiset(Contents(t')) + multiset(Contents(t.slots[j].payload.node)) == multiset(Contents(t)) + multiset(Contents(next))
  {
    var t' := Tree(false, t.bytes, WithChild(t.slots, j, next));
    ExchangedParts(t, h, true, j, next);
    ExchangedContents(t.slots, j, next);
    LevelOf(t', h, true);
    ContentsOf(t);
    ContentsOf(t');
  }

  lemma LongSplitRefused(reading: Reading, t: Tree, j: nat, o: Outcome)
    requires j < |t.slots| && o.Stored? && o.split.Some? && |o.split.value.key| + 8 > MAX_ENTRY
    ensures Repair(reading, t.bytes, t.slots, j, o.node, o.split) ==
            Threw(EntryTooBig, Tree(false, t.bytes, RepairPlace(reading, t.slots, j, o.node, o.split.value).0))
  {
  }

  /** The refusal comes when the child is one of its halves already: the other half is lost. */
  lemma LongSplitOrphans(reading: Reading, t: Tree, h: nat, j: nat, o: Outcome, e: Slot<Tree>) returns (lost: seq<Slot<Tree>>)
    requires h > 0 && Level(t, h, true) && Accounted(t, MAX_ENTRY) && j < |t.slots| && t.slots[j].payload.Child?
    requires Kept(o, t.slots[j].payload.node, h - 1, true, e) && Shrinks(o, t.slots[j].payload.node)
    requires o.split.Some? && |o.split.value.key| + 8 > MAX_ENTRY
    ensures Orphans(Repair(reading, t.bytes, t.slots, j, o.node, o.split), t, h, e, lost)
  {
    hide Repair, RepairPlace, WithChild, Level, Accounted, Contents, OutcomeContents;
    var s, child := o.split.value, t.slots[j].payload.node;
    var stays, enters := PlaceOf(reading, t.slots, j, o.node, s);
    var r := Repair(reading, t.bytes, t.slots, j, o.node, o.split);
    LongSplitRefused(reading, t, j, o);
    lost := Contents(enters);
    Exchanged(t, h, j, stays);
    HalvesAddUp(o, stays, enters);
    FullContents(enters, h - 1);
    CancelTwo(multiset(Contents(r.node)), multiset(Contents(child)), multiset(Contents(t)), multiset{e},
              multiset(Contents(stays)), multiset(lost));
  }

  /** Whatever the reading, an insertion refused on the way up orphans some entries. */
  lemma {:induction false} RefusalOrphans(reading: Reading, t: Tree, h: nat, lo: Bytes, hi: Bound, key: Bytes, value: Bytes)
    returns (lost: seq<Slot<Tree>>)
    requires Routed(t, h, lo, hi) && Shaped(t) && Accounted(t, MAX_ENTRY) && Inside(lo, key, hi) && Level(t, h, true)
    requires Lookup(t, key).None? && |key| + |value| <= MAX_ENTRY && !Promotable(t, key, value)
    ensures Orphans(Insert(reading, t, key, value), t, h, Slot(key, Data(value)), lost)
    decreases h
  {
    hide Insert, Repair, Lookup, Promotable, UpKey, RoutedRun, Accounted, FindChild, Level, Contents, OutcomeContents;
    if h == 0 {
      LeafUnfolds(t, key, value);
      assert false;
    } else {
      var run, j, e: Slot<Tree> := Sealed(t.slots, lo), FindChild(Keys(t.slots), key), Slot(key, Data(value));
      DescentInside(t, h - 1, lo, hi, key);
      ChildOf(t, j, MAX_ENTRY);
      var child := t.slots[j].payload.node;
      ChildLevel(t, h, j);
      InnerUnfolds(t, key, value);
      InsertOf(reading, t, key, value);
      var o := Insert(reading, child, key, value);
      if Promotable(child, key, value) {
        StoredAndShrinks(reading, child, h - 1, run[j].key, NextKey(run, j, hi), key, value);
        StoredIsKept(reading, child, h - 1, true, key, value);
        ForecastIsRight(reading, child, key, value);
        lost := LongSplitOrphans(reading, t, h, j, o, e);
      } else {
        lost := RefusalOrphans(reading, child, h - 1, run[j].key, NextKey(run, j, hi), key, value);
        Exchanged(t, h, j, o.node);
        var t' := Tree(false, t.bytes, WithChild(t.slots, j, o.node));
        CancelTwo(multiset(Contents(t')), multiset(Contents(child)), multiset(Contents(t)), multiset{e},
                  multiset(Contents(o.node)), multiset(lost));
      }
    }
  }

  lemma ChildLevel(t: Tree, h: nat, j: nat)
    requires h > 0 && Level(t, h, true) && j < |t.slots|
    ensures t.slots[j].payload.Child? && Level(t.slots[j].payload.node, h - 1, true)
  {
  }

  lemma StoredAndShrinks(reading: Reading, t: Tree, h: nat, lo: Bytes, hi: Bound, key: Bytes, value: Bytes)
    requires Routed(t, h, lo, hi) && Shaped(t) && Accounted(t, MAX_ENTRY) && Inside(lo, key, hi)
    requires Lookup(t, key).None? && |key| + |value| <= MAX_ENTRY && Promotable(t, key, value)
    ensures var o := Insert(reading, t, key, value); o.Stored? && Shrinks(o, t)
  {
    hide Insert, Routed, Accounted, Lookup, Promotable;
    if reading.Documented? {
      InsertIsCorrect(t, h, lo, hi, key, value, MAX_ENTRY);
    } else {
      AsWrittenSettles(t, h, lo, hi, key, value);
    }
  }

  // ---- A key that was found is not found any more ----------------------------------------------

  ghost predicate DistinctKeys(s: seq<Slot<Tree>>) {
    forall i, j :: 0 <= i < j < |s| ==> s[i].key != s[j].key
  }

  lemma SortedIsDistinct(s: seq<Slot<Tree>>)
    requires Sorted(Keys(s))
    ensures DistinctKeys(s)
  {
    forall i, j | 0 <= i < j < |s| ensures s[i].key != s[j].key {
      LessAsymmetric(Keys(s)[i], Keys(s)[j]);
    }
  }

  lemma {:induction false} DistinctOnce(s: seq<Slot<Tree>>, i: nat)
    requires DistinctKeys(s) && i < |s|
    ensures multiset(s)[s[i]] == 1
  {
    assert s == s[..i] + [s[i]] + s[i + 1..];
    assert multiset(s) == multiset(s[..i]) + multiset{s[i]} + multiset(s[i + 1..]);
    assert s[i] !in s[..i] && s[i] !in s[i + 1..];
  }

  /** Of two entries that are lost one is old, and no entry that stays has its key. */
  lemma LostKey(before: seq<Slot<Tree>>, after: seq<Slot<Tree>>, lost: seq<Slot<Tree>>, e: Slot<Tree>) returns (i: nat)
    requires DistinctKeys(before) && Absent(e.key, before) && 2 <= |lost|
    requires multiset(after) + multiset(lost) == multiset(before) + multiset{e}
    ensures i < |before| && Absent(before[i].key, after)
  {
    var x := OldAmong(before, after, lost, e);
    assert (multiset(before) + multiset{e})[x] > 0;
    assert x in before;
    i :| 0 <= i < |before| && before[i] == x;
    DistinctOnce(before, i);
    forall k | 0 <= k < |after| ensures after[k].key != x.key {
      StaysUnique(before, after, lost, e, i, k);
    }
  }

  lemma OldAmong(before: seq<Slot<Tree>>, after: seq<Slot<Tree>>, lost: seq<Slot<Tree>>, e: Slot<Tree>) returns (x: Slot<Tree>)
    requires Absent(e.key, before) && 2 <= |lost|
    requires multiset(after) + multiset(lost) == multiset(before) + multiset{e}
    ensures x in lost && x != e && x in multiset(before)
  {
    assert e !in before;
    assert (multiset(before) + multiset{e})[e] == 1;
    TwiceThere(lost, e);
    assert (multiset(after) + multiset(lost))[e] >= multiset(lost)[e];
    x := if lost[0] == e then lost[1] else lost[0];
    assert x in lost;
    assert (multiset(after) + multiset(lost))[x] > 0;
  }

  lemma TwiceThere(s: seq<Slot<Tree>>, e: Slot<Tree>)
    ensures 2 <= |s| && s[0] == s[1] == e ==> 2 <= multiset(s)[e]
  {
    if 2 <= |s| && s[0] == s[1] == e {
      assert s == [e] + [e] + s[2..];
    }
  }

  lemma StaysUnique(before: seq<Slot<Tree>>, after: seq<Slot<Tree>>, lost: seq<Slot<Tree>>, e: Slot<Tree>, i: nat, k: nat)
    requires DistinctKeys(before) && Absent(e.key, before) && i < |before| && k < |after|
    requires before[i] in lost && multiset(before)[before[i]] == 1
    requires multiset(after) + multiset(lost) == multiset(before) + multiset{e}
    ensures after[k].key != before[i].key
  {
    var x, y := before[i], after[k];
    assert x.key != e.key;
    assert y in after;
    assert (multiset(after) + multiset(lost))[y] > 0;
    assert (multiset(before) + multiset{e})[x] == 1;
    assert (multiset(after) + multiset(lost))[x] == multiset(after)[x] + multiset(lost)[x];
    if y != x && y != e {
      assert y in multiset(before);
      var l :| 0 <= l < |before| && before[l] == y;
    }
  }

  /**
   * Whenever an insertion is refused because a split key cannot go up, in a tree with no empty leaf, some
   * key that was found before is not found any more.
   */
  lemma RefusalLosesKey(reading: Reading, t: Tree, h: nat, lo: Bytes, hi: Bound, key: Bytes, value: Bytes) returns (k: Bytes)
    requires Routed(t, h, lo, hi) && Shaped(t) && Accounted(t, MAX_ENTRY) && Inside(lo, key, hi) && Level(t, h, true)
    requires Lookup(t, key).None? && |key| + |value| <= MAX_ENTRY && !Promotable(t, key, value)
    ensures var o := Insert(reading, t, key, value);
            && o.Threw? && o.error == EntryTooBig && Shaped(o.node)
            && Lookup(t, k).Some? && Lookup(o.node, k).None?
  {
    hide Insert, Routed, Accounted, Promotable, Lookup, Shaped, Level, Contents, DistinctKeys;
    var lost := RefusalOrphans(reading, t, h, lo, hi, key, value);
    var o := Insert(reading, t, key, value);
    FreshIsAbsent(t, h, lo, hi, key);
    RoutedContents(t, h, lo, hi);
    SortedIsDistinct(Contents(t));
    var i := LostKey(Contents(t), Contents(o.node), lost, Slot(key, Data(value)));
    k := Contents(t)[i].key;
    LevelIsShaped(o.node, h, true);
    AbsentNotFound(o.node, k);
    LookupFinds(t, h, lo, hi, k);
  }
}
