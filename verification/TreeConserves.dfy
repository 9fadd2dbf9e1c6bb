/** What the insertion as written keeps even where it spoils the routing: every entry, the counts and the depth. */
module TreeConserves {
  import opened ByteOrder
  import opened Slots
  import opened NodeSpec
  import opened TreeForecast
  import opened TreeSpec
  import opened TreeInsert
  import opened TreeAsWritten

  // ---- Depth -----------------------------------------------------------------------------------

  /** All leaves are h levels down and hold values; if `full`, none is empty. */
  ghost predicate Level(t: Tree, h: nat, full: bool)
    decreases h, 0
  {
    && (t.leaf <==> h == 0)
    && if h == 0 then AllData(t.slots) && (full ==> t.slots != [])
       else t.slots != [] && AllLevel(t.slots, h - 1, full)
  }

  ghost predicate AllLevel(slots: seq<Slot<Tree>>, h: nat, full: bool)
    decreases h, 1
  {
    forall i :: 0 <= i < |slots| ==> slots[i].payload.Child? && Level(slots[i].payload.node, h, full)
  }

  lemma {:induction false} RoutedLevel(t: Tree, h: nat, lo: Bytes, hi: Bound)
    requires Routed(t, h, lo, hi)
    ensures Level(t, h, false)
    decreases h
  {
    if h > 0 {
      var run := Sealed(t.slots, lo);
      forall i | 0 <= i < |t.slots| ensures t.slots[i].payload.Child? && Level(t.slots[i].payload.node, h - 1, false) {
        assert RoutedSlot(run, i, h - 1, hi);
        RoutedLevel(run[i].payload.node, h - 1, run[i].key, NextKey(run, i, hi));
      }
    }
  }

  lemma {:induction false} LevelIsShaped(t: Tree, h: nat, full: bool)
    requires Level(t, h, full)
    ensures Shaped(t)
    decreases h
  {
    if h > 0 {
      forall i | 0 <= i < |t.slots| ensures t.slots[i].payload.Child? && Shaped(t.slots[i].payload.node) {
        LevelIsShaped(t.slots[i].payload.node, h - 1, full);
      }
    }
  }

  lemma AllLevelConcat(a: seq<Slot<Tree>>, b: seq<Slot<Tree>>, all: seq<Slot<Tree>>, h: nat, full: bool)
    requires Payloads(a) + Payloads(b) == Payloads(all) && AllLevel(all, h, full)
    ensures AllLevel(a, h, full) && AllLevel(b, h, full)
  {
    hide Level, Payloads;
    PayloadsOfParts(a, b, all);
  }

  // ---- One node --------------------------------------------------------------------------------

  ghost function NodeContents(leaf: bool, slots: seq<Slot<Tree>>): seq<Slot<Tree>> {
    if leaf then slots else RunContents(slots)
  }

  lemma SplicedContents(leaf: bool, slots: seq<Slot<Tree>>, p: nat, e: Slot<Tree>)
    requires p <= |slots|
    ensures multiset(NodeContents(leaf, Spliced(slots, p, e)))
         == multiset(NodeContents(leaf, slots)) + multiset(NodeContents(leaf, [e]))
  {
    var a, b := slots[..p], slots[p..];
    assert slots == a + b;
    if !leaf {
      ContentsConcat(a + [e], b);
      ContentsConcat(a, [e]);
      ContentsConcat(a, b);
    }
  }

  lemma PartsContents(leaf: bool, a: seq<Slot<Tree>>, b: seq<Slot<Tree>>, all: seq<Slot<Tree>>)
    requires if leaf then a + b == all else Payloads(a) + Payloads(b) == Payloads(all)
    ensures NodeContents(leaf, a) + NodeContents(leaf, b) == NodeContents(leaf, all)
  {
    if !leaf {
      ContentsConcat(a, b);
      assert Payloads(a + b) == Payloads(a) + Payloads(b);
      ContentsIgnoreKeys(a + b, all);
    }
  }

  /** The outcome is the node with the new entry at q, or that node's payloads in two parts. */
  ghost predicate MadeAt(o: Outcome, leaf: bool, slots: seq<Slot<Tree>>, q: nat, e: Slot<Tree>)
    requires o.Stored? && q <= |slots|
  {
    if o.split.None? then o.node.leaf == leaf && o.node.slots == Spliced(slots, q, e)
    else
      && LowerNode(o).leaf == UpperNode(o).leaf == leaf && LowerNode(o).slots != [] && UpperNode(o).slots != []
      && if leaf then LowerNode(o).slots + UpperNode(o).slots == Spliced(slots, q, e)
         else Payloads(LowerNode(o).slots) + Payloads(UpperNode(o).slots) == Payloads(Spliced(slots, q, e))
  }

  ghost predicate MadeOf(o: Outcome, leaf: bool, slots: seq<Slot<Tree>>, e: Slot<Tree>) {
    o.Stored? && exists q: nat :: q <= |slots| && MadeAt(o, leaf, slots, q, e)
  }

  lemma FinishIsMadeOf(reading: Reading, leaf: bool, bytes: nat, slots: seq<Slot<Tree>>, p: nat, e: Slot<Tree>)
    requires p <= |slots|
    ensures var o := Finish(reading, leaf, bytes, slots, e, InsertAt(bytes, slots, p, e));
            o.Stored? ==> MadeOf(o, leaf, slots, e)
  {
    hide SplitSlots, LowerBound, Total, Spliced;
    var o := Finish(reading, leaf, bytes, slots, e, InsertAt(bytes, slots, p, e));
    if o.Stored? && o.split.Some? {
      var q := LowerBound(Keys(slots), e.key);
      SplitHalvesNonempty(reading, leaf, slots, q, e);
      if leaf {
        LeafSplitConserves(reading, slots, q, e);
      } else {
        InternalSplitKeepsChildren(reading, slots, q, e);
      }
      assert MadeAt(o, leaf, slots, q, e);
    } else if o.Stored? {
      assert MadeAt(o, leaf, slots, p, e);
    }
  }

  lemma SplitHalvesNonempty<N>(reading: Reading, leaf: bool, slots: seq<Slot<N>>, q: nat, e: Slot<N>)
    requires q <= |slots| && 3 <= |slots|
    ensures var r := SplitSlots(reading, leaf, slots, q, e); r.original != [] && r.sibling != []
  {
  }

  lemma MadeOfContents(o: Outcome, leaf: bool, slots: seq<Slot<Tree>>, e: Slot<Tree>)
    requires MadeOf(o, leaf, slots, e)
    ensures multiset(OutcomeContents(o)) == multiset(NodeContents(leaf, slots)) + multiset(NodeContents(leaf, [e]))
  {
    var q: nat :| q <= |slots| && MadeAt(o, leaf, slots, q, e);
    SplicedContents(leaf, slots, q, e);
    if o.split.Some? {
      PartsContents(leaf, LowerNode(o).slots, UpperNode(o).slots, Spliced(slots, q, e));
    }
  }

  lemma MadeOfLevel(o: Outcome, leaf: bool, slots: seq<Slot<Tree>>, e: Slot<Tree>, h: nat, full: bool)
    requires MadeOf(o, leaf, slots, e) && (leaf <==> h == 0)
    requires if h == 0 then AllData(slots) && e.payload.Data? else AllLevel(slots, h - 1, full) && AllLevel([e], h - 1, full)
    ensures Level(o.node, h, full) && (o.split.Some? ==> Level(o.split.value.sibling, h, full))
  {
    hide Level, AllLevel, Spliced, AllData;
    var q: nat :| q <= |slots| && MadeAt(o, leaf, slots, q, e);
    if h > 0 {
      SplicedLevel(slots, q, e, h - 1, full);
      if o.split.Some? {
        AllLevelConcat(LowerNode(o).slots, UpperNode(o).slots, Spliced(slots, q, e), h - 1, full);
      }
    } else {
      SplicedData(slots, q, e);
      if o.split.Some? {
        AllDataParts(LowerNode(o).slots, UpperNode(o).slots);
      }
    }
    LevelOf(o.node, h, full);
    if o.split.Some? {
      LevelOf(o.split.value.sibling, h, full);
    }
  }

  lemma LevelOf(t: Tree, h: nat, full: bool)
    ensures Level(t, h, full) <==>
            && (t.leaf <==> h == 0)
            && if h == 0 then AllData(t.slots) && (full ==> t.slots != [])
               else t.slots != [] && AllLevel(t.slots, h - 1, full)
  {
  }

  lemma SplicedLevel(slots: seq<Slot<Tree>>, q: nat, e: Slot<Tree>, h: nat, full: bool)
    requires q <= |slots| && AllLevel(slots, h, full) && AllLevel([e], h, full)
    ensures AllLevel(Spliced(slots, q, e), h, full)
  {
    hide Level;
    assert [e][0] == e;
  }

  // ---- Sizes and counts ------------------------------------------------------------------------

  ghost predicate AllAccounted(slots: seq<Slot<Tree>>, limit: nat) {
    forall i :: 0 <= i < |slots| ==> AccountedSlot(slots[i], limit)
  }

  lemma HeadedAccounted(leaf: bool, slots: seq<Slot<Tree>>, limit: nat)
    requires slots != [] && AllAccounted(slots, limit)
    ensures AllAccounted(Headed(leaf, slots), limit)
  {
    hide Accounted;
    assert AccountedSlot(slots[0], limit);
  }

  lemma SlicesAccounted(slots: seq<Slot<Tree>>, c: nat, limit: nat)
    requires c <= |slots| && AllAccounted(slots, limit)
    ensures AllAccounted(slots[..c], limit) && AllAccounted(slots[c..], limit)
  {
    hide AccountedSlot;
  }

  lemma SplicedAccounted(slots: seq<Slot<Tree>>, q: nat, e: Slot<Tree>, limit: nat)
    requires q <= |slots| && AllAccounted(slots, limit) && AccountedSlot(e, limit)
    ensures AllAccounted(Spliced(slots, q, e), limit)
  {
    hide AccountedSlot;
  }

  /** Both parts of a split, wherever the new entry goes, have small entries and short keys. */
  lemma SplitAccounted(reading: Reading, leaf: bool, slots: seq<Slot<Tree>>, q: nat, e: Slot<Tree>, limit: nat)
    requires q <= |slots| && 3 <= |slots| && AllAccounted(slots, limit) && AccountedSlot(e, limit)
    ensures var r := SplitSlots(reading, leaf, slots, q, e);
            AllAccounted(r.original, limit) && AllAccounted(r.sibling, limit) && |r.key| <= limit
  {
    var r, m := SplitSlots(reading, leaf, slots, q, e), SplitPoint(|slots|);
    SplitKeyOf(reading, leaf, slots, q, e);
    assert AccountedSlot(slots[m], limit);
    hide SplitSlots, AccountedSlot, Spliced, Headed;
    if reading.Documented? || q != m {
      var all, c := Spliced(slots, q, e), CutPoint(reading, q, m);
      SplitIsCut(reading, leaf, slots, q, e);
      SplicedAccounted(slots, q, e, limit);
      SlicesAccounted(all, c, limit);
      HeadedAccounted(leaf, all[c..], limit);
    } else {
      SplitAtBoundary(leaf, slots, e);
      SlicesAccounted(slots, m, limit);
      HeadedAccounted(leaf, slots[m..], limit);
      assert AllAccounted([e] + Headed(leaf, slots[m..]), limit);
    }
  }

  lemma SplitKeyOf(reading: Reading, leaf: bool, slots: seq<Slot<Tree>>, q: nat, e: Slot<Tree>)
    requires q <= |slots| && 3 <= |slots|
    ensures SplitSlots(reading, leaf, slots, q, e).key == slots[SplitPoint(|slots|)].key
  {
  }

  lemma FinishAccounted(reading: Reading, leaf: bool, bytes: nat, slots: seq<Slot<Tree>>, p: nat, e: Slot<Tree>, limit: nat)
    requires p <= |slots| && BytesTrue(leaf, bytes, slots) && AllAccounted(slots, limit) && AccountedSlot(e, limit)
    ensures var o := Finish(reading, leaf, bytes, slots, e, InsertAt(bytes, slots, p, e));
            o.Stored? ==> AccountedOutcome(o, limit)
  {
    hide SplitSlots, LowerBound, Total, AccountedSlot, Spliced, Keys, Duplicate;
    var o := Finish(reading, leaf, bytes, slots, e, InsertAt(bytes, slots, p, e));
    if o.Stored? {
      if o.split.Some? {
        SplitAccounted(reading, leaf, slots, LowerBound(Keys(slots), e.key), e, limit);
      } else {
        SplicedAccounted(slots, p, e, limit);
        TotalSpliced(slots, p, e);
      }
    }
  }

  // ---- What is kept in any tree ----------------------------------------------------------------

  /** Every entry and the new one, in the node and its sibling, at the old depth, counted truly. */
  ghost predicate Kept(o: Outcome, t: Tree, h: nat, full: bool, e: Slot<Tree>) {
    && o.Stored?
    && AccountedOutcome(o, MAX_ENTRY)
    && Level(o.node, h, full) && (o.split.Some? ==> Level(o.split.value.sibling, h, full))
    && multiset(OutcomeContents(o)) == multiset(Contents(t)) + multiset{e}
  }

  /**
   * In any tree whose leaves are equally deep and whose counts are true, routed or not, and in both
   * readings, an insertion that stores its entry keeps every other one, the depth and the counts.
   */
  lemma {:induction false} StoredIsKept(reading: Reading, t: Tree, h: nat, full: bool, key: Bytes, value: Bytes)
    requires Shaped(t) && Level(t, h, full) && Accounted(t, MAX_ENTRY)
    ensures var o := Insert(reading, t, key, value); o.Stored? ==> Kept(o, t, h, full, Slot(key, Data(value)))
    decreases h
  {
    hide Insert, Accounted, AccountedOutcome, OutcomeContents, FindChild, Level, Repair, Shaped;
    InsertOf(reading, t, key, value);
    LevelOf(t, h, full);
    var o := Insert(reading, t, key, value);
    if h == 0 {
      if o.Stored? {
        LeafIsKept(reading, t, full, key, value);
      }
    } else {
      var j := FindChild(Keys(t.slots), key);
      ChildOf(t, j, MAX_ENTRY);
      var child := t.slots[j].payload.node;
      StoredIsKept(reading, child, h - 1, full, key, value);
      var below := Insert(reading, child, key, value);
      if o.Stored? {
        if below.split.None? {
          PlainIsKept(reading, t, h, full, j, below, Slot(key, Data(value)));
        } else {
          RepairIsKept(reading, t, h, full, j, below, Slot(key, Data(value)));
        }
      }
    }
  }

  lemma LeafIsKept(reading: Reading, t: Tree, full: bool, key: Bytes, value: Bytes)
    requires Shaped(t) && Level(t, 0, full) && Accounted(t, MAX_ENTRY) && Insert(reading, t, key, value).Stored?
    ensures Kept(Insert(reading, t, key, value), t, 0, full, Slot(key, Data(value)))
  {
    InsertOf(reading, t, key, value);
    ContentsOf(t);
    assert AllAccounted(t.slots, MAX_ENTRY) && BytesTrue(true, t.bytes, t.slots) && AllData(t.slots) && t.leaf;
    hide Insert, Finish, InsertAt, Duplicate, LowerBound, Total, BytesTrue, Level, MadeOf, Contents;
    hide AccountedSlot, AccountedOutcome, OutcomeContents, AllAccounted, AllData;
    var e: Slot<Tree> := Slot(key, Data(value));
    var p, o := LowerBound(Keys(t.slots), key), Insert(reading, t, key, value);
    StoredIsSmall(reading, true, t.bytes, t.slots, p, e);
    SmallEntry(e);
    FinishIsMadeOf(reading, true, t.bytes, t.slots, p, e);
    FinishAccounted(reading, true, t.bytes, t.slots, p, e, MAX_ENTRY);
    MadeOfContents(o, true, t.slots, e);
    MadeOfLevel(o, true, t.slots, e, 0, full);
  }

  lemma StoredIsSmall(reading: Reading, leaf: bool, bytes: nat, slots: seq<Slot<Tree>>, p: nat, e: Slot<Tree>)
    requires p <= |slots| && Finish(reading, leaf, bytes, slots, e, InsertAt(bytes, slots, p, e)).Stored?
    ensures e.Size() <= MAX_ENTRY
  {
  }

  lemma SmallEntry(e: Slot<Tree>)
    requires e.payload.Data? && e.Size() <= MAX_ENTRY
    ensures AccountedSlot(e, MAX_ENTRY)
  {
  }

  lemma ContentsOf(t: Tree)
    ensures Contents(t) == NodeContents(t.leaf, t.slots)
  {
  }

  /** The parent's entries with one child exchanged: what that does to the contents. */
  lemma ExchangedContents(slots: seq<Slot<Tree>>, j: nat, next: Tree)
    requires j < |slots| && slots[j].payload.Child?
    ensures multiset(RunContents(WithChild(slots, j, next))) + multiset(Contents(slots[j].payload.node))
         == multiset(RunContents(slots)) + multiset(Contents(next))
  {
    var left, right := slots[..j], slots[j + 1..];
    var mid: Slot<Tree> := Slot(slots[j].key, Child(next));
    assert slots == left + [slots[j]] + right;
    assert WithChild(slots, j, next) == left + [mid] + right;
    ContentsConcat(left + [slots[j]], right);
    ContentsConcat(left, [slots[j]]);
    ContentsConcat(left + [mid], right);
    ContentsConcat(left, [mid]);
    OneContents(slots[j]);
    OneContents(mid);
  }

  lemma OneContents(s: Slot<Tree>)
    requires s.payload.Child?
    ensures RunContents([s]) == Contents(s.payload.node)
  {
    assert [s][1..] == [];
  }

  /** With a child exchanged for another of the same height the node's entries are as good as before. */
  lemma ExchangedParts(t: Tree, h: nat, full: bool, j: nat, next: Tree)
    requires h > 0 && Level(t, h, full) && Accounted(t, MAX_ENTRY) && j < |t.slots| && t.slots[j].payload.Child?
    requires Level(next, h - 1, full) && Accounted(next, MAX_ENTRY)
    ensures var slots := WithChild(t.slots, j, next);
            && !t.leaf && slots != [] && AllLevel(slots, h - 1, full)
            && AllAccounted(slots, MAX_ENTRY) && BytesTrue(false, t.bytes, slots)
  {
    var slots := WithChild(t.slots, j, next);
    LevelOf(t, h, full);
    hide Level, Total;
    SlotsStaySmall(t, slots, j, MAX_ENTRY);
    forall i | 0 <= i < |slots| ensures AccountedSlot(slots[i], MAX_ENTRY) {
      assert AccountedSlot(t.slots[i], MAX_ENTRY);
    }
  }

  lemma Cancel<T>(a: multiset<T>, b: multiset<T>, c: multiset<T>, d: multiset<T>)
    requires a + b == c + (b + d)
    ensures a == c + d
  {
    forall x ensures a[x] == (c + d)[x] {
      assert (a + b)[x] == (c + (b + d))[x];
    }
  }

  lemma CancelTwo<T>(a: multiset<T>, b: multiset<T>, c: multiset<T>, d: multiset<T>, n: multiset<T>, m: multiset<T>)
    requires a + b == c + n && n + m == b + d
    ensures a + m == c + d
  {
    forall x ensures (a + m)[x] == (c + d)[x] {
      assert (a + b)[x] == (c + n)[x] && (n + m)[x] == (b + d)[x];
    }
  }

  /** A child that did not split is exchanged for what it has become. */
  lemma PlainIsKept(reading: Reading, t: Tree, h: nat, full: bool, j: nat, o: Outcome, e: Slot<Tree>)
    requires h > 0 && Level(t, h, full) && Accounted(t, MAX_ENTRY) && j < |t.slots| && t.slots[j].payload.Child?
    requires Kept(o, t.slots[j].payload.node, h - 1, full, e) && o.split.None?
    ensures Kept(Repair(reading, t.bytes, t.slots, j, o.node, None), t, h, full, e)
  {
    ExchangedParts(t, h, full, j, o.node);
    ExchangedContents(t.slots, j, o.node);
    var child, slots := t.slots[j].payload.node, WithChild(t.slots, j, o.node);
    var r := Repair(reading, t.bytes, t.slots, j, o.node, None);
    assert r == Stored(Tree(false, t.bytes, slots), None);
    LevelOf(r.node, h, full);
    hide AllLevel, RunContents, AccountedSlot, Total, Repair;
    Cancel(multiset(RunContents(slots)), multiset(Contents(child)), multiset(RunContents(t.slots)), multiset{e});
  }

  /** Which of a split child's halves the repair leaves in its place, and which it enters. */
  lemma PlaceOf(reading: Reading, slots: seq<Slot<Tree>>, j: nat, next: Tree, s: Split<Tree>) returns (stays: Tree, enters: Tree)
    requires j < |slots|
    ensures var (slots', p, up) := RepairPlace(reading, slots, j, next, s);
            && slots' == WithChild(slots, j, stays) && up == Slot(s.key, Child(enters))
            && (if s.direction.LEFT? && reading.Documented? then stays == s.sibling && enters == next
                else stays == next && enters == s.sibling)
  {
    stays, enters := next, s.sibling;
    if s.direction.LEFT? && reading.Documented? {
      stays, enters := s.sibling, next;
    }
  }

  lemma RepairIsKept(reading: Reading, t: Tree, h: nat, full: bool, j: nat, o: Outcome, e: Slot<Tree>)
    requires h > 0 && Level(t, h, full) && Accounted(t, MAX_ENTRY) && j < |t.slots| && t.slots[j].payload.Child?
    requires Kept(o, t.slots[j].payload.node, h - 1, full, e) && o.split.Some?
    requires Repair(reading, t.bytes, t.slots, j, o.node, o.split).Stored?
    ensures Kept(Repair(reading, t.bytes, t.slots, j, o.node, o.split), t, h, full, e)
  {
    var s := o.split.value;
    var stays, enters := PlaceOf(reading, t.slots, j, o.node, s);
    var slots, p, up := WithChild(t.slots, j, stays), RepairPlace(reading, t.slots, j, o.node, s).1, Slot(s.key, Child(enters));
    var r := Repair(reading, t.bytes, t.slots, j, o.node, o.split);
    assert r == Finish(reading, false, t.bytes, slots, up, InsertAt(t.bytes, slots, p, up));
    ExchangedParts(t, h, full, j, stays);
    ExchangedContents(t.slots, j, stays);
    HalvesAddUp(o, stays, enters);
    ContentsOf(t);
    hide Repair, RepairPlace, WithChild;
    EnteringIsKept(reading, t.bytes, slots, p, up, h, full);
    var child := t.slots[j].payload.node;
    CancelTwo(multiset(RunContents(slots)), multiset(Contents(child)), multiset(RunContents(t.slots)), multiset{e},
              multiset(Contents(stays)), multiset(Contents(enters)));
  }

  lemma HalvesAddUp(o: Outcome, a: Tree, b: Tree)
    requires o.Stored? && o.split.Some?
    requires (a, b) == (o.node, o.split.value.sibling) || (b, a) == (o.node, o.split.value.sibling)
    ensures multiset(OutcomeContents(o)) == multiset(Contents(a)) + multiset(Contents(b))
  {
    assert multiset(OutcomeContents(o)) == multiset(Contents(LowerNode(o))) + multiset(Contents(UpperNode(o)));
  }

  lemma EnteringIsKept(reading: Reading, bytes: nat, slots: seq<Slot<Tree>>, p: nat, up: Slot<Tree>, h: nat, full: bool)
    requires h > 0 && p <= |slots| && up.payload.Child?
    requires AllLevel(slots, h - 1, full) && AllAccounted(slots, MAX_ENTRY) && BytesTrue(false, bytes, slots)
    requires Level(up.payload.node, h - 1, full) && Accounted(up.payload.node, MAX_ENTRY)
    ensures var r := Finish(reading, false, bytes, slots, up, InsertAt(bytes, slots, p, up));
            r.Stored? ==>
              && AccountedOutcome(r, MAX_ENTRY)
              && Level(r.node, h, full) && (r.split.Some? ==> Level(r.split.value.sibling, h, full))
              && multiset(OutcomeContents(r)) == multiset(RunContents(slots)) + multiset(Contents(up.payload.node))
  {
    var r := Finish(reading, false, bytes, slots, up, InsertAt(bytes, slots, p, up));
    if r.Stored? {
      StoredIsSmall(reading, false, bytes, slots, p, up);
      assert AccountedSlot(up, MAX_ENTRY) && AllLevel([up], h - 1, full);
      OneContents(up);
      hide Finish, InsertAt, Total, BytesTrue, AllLevel, Level, AllAccounted, AccountedSlot, AccountedOutcome, Accounted;
      hide RunContents, MadeOf, Keys, OutcomeContents;
      FinishIsMadeOf(reading, false, bytes, slots, p, up);
      FinishAccounted(reading, false, bytes, slots, p, up, MAX_ENTRY);
      MadeOfContents(r, false, slots, up);
      MadeOfLevel(r, false, slots, up, h, full);
    }
  }

  // ---- Exactly what happens to a routed tree ---------------------------------------------------

  /** What becomes of an insertion as written, clean or not: it fails as the documented one does, and otherwise keeps all. */
  ghost predicate Conserved(o: Outcome, t: Tree, h: nat, key: Bytes, value: Bytes)
    requires Shaped(t)
  {
    if Lookup(t, key).Some? then o == Threw(DuplicateKey, t)
    else if |key| + |value| > MAX_ENTRY then o == Threw(EntryTooBig, t)
    else if !Promotable(t, key, value) then o.Threw? && o.error == EntryTooBig && o.node != t
    else Kept(o, t, h, false, Slot(key, Data(value))) && Shrinks(o, t)
  }

  lemma AsWrittenConserves(t: Tree, h: nat, lo: Bytes, hi: Bound, key: Bytes, value: Bytes)
    requires Routed(t, h, lo, hi) && Shaped(t) && Accounted(t, MAX_ENTRY) && Inside(lo, key, hi)
    ensures Conserved(Insert(AsWritten, t, key, value), t, h, key, value)
  {
    hide Insert, Routed, Accounted, Promotable, Lookup, Kept, Shrinks;
    AsWrittenSettles(t, h, lo, hi, key, value);
    RoutedLevel(t, h, lo, hi);
    StoredIsKept(AsWritten, t, h, false, key, value);
  }

  /** Whether an insertion as written is stored, and how it fails. */
  ghost predicate Settled(o: Outcome, t: Tree, key: Bytes, value: Bytes)
    requires Shaped(t)
  {
    if Lookup(t, key).Some? then o == Threw(DuplicateKey, t)
    else if |key| + |value| > MAX_ENTRY then o == Threw(EntryTooBig, t)
    else if !Promotable(t, key, value) then o.Threw? && o.error == EntryTooBig && o.node != t
    else o.Stored? && Shrinks(o, t)
  }

  lemma {:induction false} AsWrittenSettles(t: Tree, h: nat, lo: Bytes, hi: Bound, key: Bytes, value: Bytes)
    requires Routed(t, h, lo, hi) && Shaped(t) && Accounted(t, MAX_ENTRY) && Inside(lo, key, hi)
    ensures Settled(Insert(AsWritten, t, key, value), t, key, value)
    decreases h, 1
  {
    if h == 0 {
      LeafSettles(t, lo, hi, key, value);
    } else {
      InnerSettles(t, h, lo, hi, key, value);
    }
  }

  lemma LeafSettles(t: Tree, lo: Bytes, hi: Bound, key: Bytes, value: Bytes)
    requires Routed(t, 0, lo, hi) && Shaped(t) && Accounted(t, MAX_ENTRY)
    ensures Settled(Insert(AsWritten, t, key, value), t, key, value)
  {
    LeafUnfolds(t, key, value);
    InsertOf(AsWritten, t, key, value);
    LeafIsSmall(t, lo, hi, MAX_ENTRY);
    hide Insert, Routed, Finish, InsertAt, Duplicate, LowerBound, BytesTrue, SmallSlots, Promotable, Lookup;
    var e: Slot<Tree> := Slot(key, Data(value));
    var p := LowerBound(Keys(t.slots), key);
    if !Duplicate(t.slots, key) {
      if e.Size() > MAX_ENTRY {
        TooBigThrows(AsWritten, true, t.bytes, t.slots, p, e);
      } else {
        FinishShrinks(AsWritten, true, t.bytes, t.slots, p, e, t);
      }
    }
  }

  lemma TooBigThrows(reading: Reading, leaf: bool, bytes: nat, slots: seq<Slot<Tree>>, p: nat, e: Slot<Tree>)
    requires p <= |slots| && e.Size() > MAX_ENTRY
    ensures Finish(reading, leaf, bytes, slots, e, InsertAt(bytes, slots, p, e)) == Threw(EntryTooBig, Tree(leaf, bytes, slots))
  {
  }

  lemma {:induction false} InnerSettles(t: Tree, h: nat, lo: Bytes, hi: Bound, key: Bytes, value: Bytes)
    requires h > 0 && Routed(t, h, lo, hi) && Shaped(t) && Accounted(t, MAX_ENTRY) && Inside(lo, key, hi)
    ensures Settled(Insert(AsWritten, t, key, value), t, key, value)
    decreases h, 0
  {
    hide Insert, Repair, Lookup, Promotable, UpKey, RoutedRun, Accounted, FindChild;
    var run := Sealed(t.slots, lo);
    var j := FindChild(Keys(t.slots), key);
    DescentInside(t, h - 1, lo, hi, key);
    ChildOf(t, j, MAX_ENTRY);
    var child := t.slots[j].payload.node;
    AsWrittenSettles(child, h - 1, run[j].key, NextKey(run, j, hi), key, value);
    InnerUnfolds(t, key, value);
    InsertOf(AsWritten, t, key, value);
    var o := Insert(AsWritten, child, key, value);
    SameChild(t, j, o.node);
    if o.Stored? {
      ForecastIsRight(AsWritten, child, key, value);
      RoutedOnlyIfClean(child, h - 1, run[j].key, NextKey(run, j, hi), key, value);
      if o.split.Some? && |o.split.value.key| + 8 > MAX_ENTRY {
        LongSplitKeyThrows(AsWritten, t, j, o);
      } else if o.split.Some? {
        EnteredShrinks(t, h, lo, hi, j, o);
      } else {
        RepairOfNone(AsWritten, t.bytes, t.slots, j, o.node);
      }
    }
  }

  lemma EnteredShrinks(t: Tree, h: nat, lo: Bytes, hi: Bound, j: nat, o: Outcome)
    requires h > 0 && Routed(t, h, lo, hi) && Accounted(t, MAX_ENTRY) && j < |t.slots| && t.slots[j].payload.Child?
    requires var run := Sealed(t.slots, lo); o.Stored? && Plausible(o, run[j].key, NextKey(run, j, hi))
    requires o.split.Some? && |o.split.value.key| + 8 <= MAX_ENTRY
    ensures var r := Repair(AsWritten, t.bytes, t.slots, j, o.node, o.split); r.Stored? && Shrinks(r, t)
  {
    RepairSetup(t, h, lo, hi, j, o);
    var (slots, p, up) := RepairPlace(AsWritten, t.slots, j, o.node, o.split.value);
    hide Repair, RepairPlace, Finish, InsertAt, Routed, Accounted, BytesTrue, SmallSlots, Duplicate, LowerBound, Total;
    assert |slots| == |Keys(slots)| == |t.slots|;
    FinishShrinks(AsWritten, false, t.bytes, slots, p, up, t);
  }
}
