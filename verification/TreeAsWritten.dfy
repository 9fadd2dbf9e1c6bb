/** Exactly when the insertion as written leaves a routed tree. */
module TreeAsWritten {
  import opened ByteOrder
  import opened Slots
  import opened NodeSpec
  import opened TreeForecast
  import opened TreeSpec
  import opened TreeInsert

  /** What the repair of a child's split owes to a routed result: a right split, and no insertion at the split position. */
  predicate CleanRepair(t: Tree, split: Option<Split<Tree>>) {
    split.Some? ==>
      && split.value.direction.RIGHT?
      && (|split.value.key| + 8 > Available(t.bytes) && 3 <= |t.slots| ==>
            LowerBound(Keys(t.slots), split.value.key) != SplitPoint(|t.slots|))
  }

  lemma FinishAgrees(leaf: bool, bytes: nat, slots: seq<Slot<Tree>>, e: Slot<Tree>, attempt: InsertResult<Tree>)
    requires attempt.NoSpace? && 3 <= |slots| ==> LowerBound(Keys(slots), e.key) != SplitPoint(|slots|)
    ensures Finish(AsWritten, leaf, bytes, slots, e, attempt) == Finish(Documented, leaf, bytes, slots, e, attempt)
  {
  }

  lemma RepairAgrees(t: Tree, j: nat, next: Tree, split: Option<Split<Tree>>)
    requires j < |t.slots| && CleanRepair(t, split)
    ensures Repair(AsWritten, t.bytes, t.slots, j, next, split) == Repair(Documented, t.bytes, t.slots, j, next, split)
  {
    if split.Some? {
      var (slots', p, e) := RepairPlace(AsWritten, t.slots, j, next, split.value);
      assert Keys(slots') == Keys(t.slots);
      FinishAgrees(false, t.bytes, slots', e, InsertAt(t.bytes, slots', p, e));
    }
  }

  /** A forecast without a fault is a clean repair of the child's split, and conversely. */
  lemma CleanForecast(t: Tree, key: Bytes, value: Bytes, split: Option<Split<Tree>>)
    requires Shaped(t) && !t.leaf && AsForecast(AsWritten, split, ChildFor(t, key), key, value)
    requires !SplitsAtBoundary(ChildFor(t, key), key, value)
    ensures CleanRepair(t, split) <==>
            !SplitsAtBoundary(t, key, value) && !SplitsLeft(AsWritten, ChildFor(t, key), key, value)
  {
    hide UpKey, Demanded, LowerBound, Shaped;
    DemandOf(t, key, value);
  }

  /** A clean insertion does what the documentation says. */
  lemma {:induction false} CleanAgrees(t: Tree, key: Bytes, value: Bytes)
    requires Shaped(t) && Clean(t, key, value)
    ensures Insert(AsWritten, t, key, value) == Insert(Documented, t, key, value)
    decreases t
  {
    if t.leaf {
      var e := Slot(key, Data(value));
      DemandOf(t, key, value);
      FinishAgrees(true, t.bytes, t.slots, e, LeafInsert(t.bytes, t.slots, e));
    } else {
      var j, child := FindChild(Keys(t.slots), key), ChildFor(t, key);
      CleanAgrees(child, key, value);
      var o := Insert(AsWritten, child, key, value);
      if o.Stored? {
        ForecastIsRight(AsWritten, child, key, value);
        CleanForecast(t, key, value, o.split);
        RepairAgrees(t, j, o.node, o.split);
      }
    }
  }

  // ---- What every outcome satisfies, clean or not ----------------------------------------------

  /** The split key comes from inside the node, and a left split leaves a higher key in the old node. */
  ghost predicate Plausible(o: Outcome, lo: Bytes, hi: Bound) {
    o.Stored? && o.split.Some? ==>
      var s := o.split.value;
      && Less(lo, s.key) && hi.Admits(s.key)
      && (s.direction.LEFT? ==> HoldsAbove(o.node, s.key))
  }

  ghost predicate HoldsAbove(t: Tree, key: Bytes) {
    exists i :: 0 <= i < |t.slots| && (t.leaf || i > 0) && LessEq(key, t.slots[i].key)
  }

  lemma HoldsAboveNotBelow(t: Tree, h: nat, lo: Bytes, key: Bytes)
    requires HoldsAbove(t, key)
    ensures !Routed(t, h, lo, Before(key))
  {
    if Routed(t, h, lo, Before(key)) {
      var i :| 0 <= i < |t.slots| && (t.leaf || i > 0) && LessEq(key, t.slots[i].key);
      if h > 0 {
        RunSorted(Sealed(t.slots, lo), h - 1, Before(key), i, i);
      }
      assert false;
    }
  }

  /** A key stored past the first place lies strictly inside the node's interval, and the next one above it. */
  lemma InnerKey(t: Tree, h: nat, lo: Bytes, hi: Bound, m: nat)
    requires Routed(t, h, lo, hi) && 0 < m && m + 1 < |t.slots|
    ensures Less(lo, t.slots[m].key) && hi.Admits(t.slots[m].key)
    ensures LessEq(t.slots[m].key, t.slots[m + 1].key)
  {
    if h > 0 {
      var run := Sealed(t.slots, lo);
      RunSorted(run, h - 1, hi, 0, m);
      RunSorted(run, h - 1, hi, m, m + 1);
    } else {
      LessEqLess(lo, t.slots[m - 1].key, Keys(t.slots)[m]);
      assert Less(Keys(t.slots)[m], Keys(t.slots)[m + 1]);
    }
    LessAsymmetric(t.slots[m].key, t.slots[m + 1].key);
  }

  /** As written, the split key is the old one at the split position; a left split keeps the old next key too. */
  lemma SplitKeyIsOld(leaf: bool, bytes: nat, slots: seq<Slot<Tree>>, p: nat, e: Slot<Tree>)
    requires p <= |slots| && e.Size() <= MAX_ENTRY && !Duplicate(slots, e.key)
    requires BytesTrue(leaf, bytes, slots) && SmallSlots(slots)
    ensures var o, m := Finish(AsWritten, leaf, bytes, slots, e, InsertAt(bytes, slots, p, e)), SplitPoint(|slots|);
            o.Stored? && o.split.Some? ==>
              && 0 < m && m + 1 < |slots| && o.split.value.key == slots[m].key
              && (o.split.value.direction.LEFT? ==>
                    1 < |o.node.slots| && o.node.slots[1].key == slots[m + 1].key)
  {
    hide LowerBound, Total, Duplicate;
    if InsertAt(bytes, slots, p, e).NoSpace? {
      NoSpaceThenSplit(AsWritten, leaf, bytes, slots, p, e);
    }
  }

  /** Splitting a routed node, with any of its payloads exchanged, has a plausible outcome. */
  lemma FinishPlausible(t: Tree, h: nat, lo: Bytes, hi: Bound, slots: seq<Slot<Tree>>, p: nat, e: Slot<Tree>)
    requires Routed(t, h, lo, hi) && Accounted(t, MAX_ENTRY)
    requires Keys(slots) == Keys(t.slots) && Total(slots) == Total(t.slots) && SmallSlots(slots)
    requires p <= |slots| && e.Size() <= MAX_ENTRY && !Duplicate(slots, e.key)
    ensures Plausible(Finish(AsWritten, t.leaf, t.bytes, slots, e, InsertAt(t.bytes, slots, p, e)), lo, hi)
  {
    assert BytesTrue(t.leaf, t.bytes, slots);
    hide Finish, InsertAt, Routed, Accounted, Total, Duplicate, SmallSlots, LowerBound;
    SplitKeyIsOld(t.leaf, t.bytes, slots, p, e);
    var o, m := Finish(AsWritten, t.leaf, t.bytes, slots, e, InsertAt(t.bytes, slots, p, e)), SplitPoint(|slots|);
    if o.Stored? && o.split.Some? {
      assert |slots| == |Keys(t.slots)| == |t.slots|;
      InnerKey(t, h, lo, hi, m);
      assert Keys(slots)[m] == t.slots[m].key && Keys(slots)[m + 1] == t.slots[m + 1].key;
      if o.split.value.direction.LEFT? {
        assert LessEq(o.split.value.key, o.node.slots[1].key);
      }
    }
  }

  // ---- Faults show -----------------------------------------------------------------------------

  /** An insertion at the split position, as written, leaves halves that are not routed. */
  lemma BoundaryShows(leaf: bool, bytes: nat, slots: seq<Slot<Tree>>, e: Slot<Tree>, h: nat, lo: Bytes, hi: Bound)
    requires var p := LowerBound(Keys(slots), e.key);
             && p == SplitPoint(|slots|)
             && InsertAt(bytes, slots, p, e).NoSpace?
    requires BytesTrue(leaf, bytes, slots) && SmallSlots(slots) && !Duplicate(slots, e.key)
    requires leaf ==> Sorted(Keys(slots))
    requires !leaf ==> e.key != []
    ensures var o := Finish(AsWritten, leaf, bytes, slots, e, InsertAt(bytes, slots, LowerBound(Keys(slots), e.key), e));
            o.Stored? && o.split.Some? && !RoutedRun(Halves(o, lo), h, hi)
  {
    var p := LowerBound(Keys(slots), e.key);
    var o := Finish(AsWritten, leaf, bytes, slots, e, InsertAt(bytes, slots, p, e));
    NoSpaceThenSplit(AsWritten, leaf, bytes, slots, p, e);
    SplitAtBoundary(leaf, slots, e);
    var upper := UpperNode(o);
    assert upper.leaf == leaf && upper.slots[0] == e && o.split.value.key == slots[p].key;
    RowOfTwo(lo, LowerNode(o), slots[p].key, upper, h, hi);
    if leaf {
      LowerBoundSorted(Keys(slots), e.key);
      assert Less(e.key, Keys(slots)[p]);
    }
  }

  /** If the two parts of a cut internal node are routed, so is the node. */
  lemma PartsRouted(t: Tree, c: nat, lower: Tree, upper: Tree, h: nat, lo: Bytes, hi: Bound)
    requires h > 0 && !t.leaf && 0 < c < |t.slots| && t.slots[0].key == []
    requires lower.slots == t.slots[..c] && upper.slots == Headed(false, t.slots[c..])
    requires Routed(lower, h, lo, Before(t.slots[c].key)) && Routed(upper, h, t.slots[c].key, hi)
    ensures Routed(t, h, lo, hi)
  {
    var run := Sealed(t.slots, lo);
    assert Sealed(lower.slots, lo) == run[..c];
    assert Sealed(upper.slots, t.slots[c].key) == run[c..];
    RunCut(run[..c], run[c..], h - 1, hi);
    assert run == run[..c] + run[c..];
  }

  lemma CutRoutedOnlyIf(o: Outcome, t: Tree, h: nat, lo: Bytes, hi: Bound)
    requires CutOf(o, t) && h > 0 && !t.leaf && t.slots != [] && t.slots[0].key == []
    requires RoutedRun(Halves(o, lo), h, hi)
    ensures Routed(t, h, lo, hi)
  {
    if o.split.None? {
      RowOfOne(lo, o.node, h, hi);
    } else {
      var lower, upper := LowerNode(o), UpperNode(o);
      RowOfTwo(lo, lower, o.split.value.key, upper, h, hi);
      var c: nat :| && 0 < c < |t.slots|
                    && lower == Tree(t.leaf, Total(t.slots[..c]), t.slots[..c])
                    && upper == Tree(t.leaf, Total(Headed(t.leaf, t.slots[c..])), Headed(t.leaf, t.slots[c..]))
                    && o.split.value.key == t.slots[c].key;
      PartsRouted(t, c, lower, upper, h, lo, hi);
    }
  }

  /** If the patched parent is routed, the child's row is. */
  lemma PatchedRoutedOnlyIf(t: Tree, h: nat, lo: Bytes, hi: Bound, j: nat, o: Outcome, patched: Tree)
    requires t.slots != [] && j < |t.slots| && o.Stored?
    requires !patched.leaf && patched.slots == Patched(t.slots, j, o)
    requires Routed(patched, h + 1, lo, hi)
    ensures var run := Sealed(t.slots, lo);
            RoutedRun(Halves(o, run[j].key), h, NextKey(run, j, hi))
  {
    var run := Sealed(t.slots, lo);
    var mid := Halves(o, run[j].key);
    var left, right := run[..j], run[j + 1..];
    assert Sealed(patched.slots, lo) == left + mid + right == left + (mid + right);
    if left != [] {
      RunCut(left, mid + right, h, hi);
    } else {
      assert left + (mid + right) == mid + right;
    }
    if right != [] {
      RunCut(mid, right, h, hi);
    } else {
      assert mid + right == mid;
    }
  }

  /** The parent of a split child that is given the sibling where the old node belongs. */
  lemma LeftRepairShows(t: Tree, h: nat, lo: Bytes, hi: Bound, j: nat, o: Outcome, roomy: Tree)
    requires h > 0 && j < |t.slots| && o.Stored? && o.split.Some? && o.split.value.direction.LEFT?
    requires HoldsAbove(o.node, o.split.value.key)
    requires var slots' := t.slots[j := Slot(t.slots[j].key, Child(o.node))];
             roomy.slots == Spliced(slots', j + 1, Slot(o.split.value.key, Child(o.split.value.sibling)))
    ensures !Routed(roomy, h, lo, hi)
  {
    if Routed(roomy, h, lo, hi) {
      var run := Sealed(roomy.slots, lo);
      RoutedChild(roomy, h, lo, hi, j);
      HoldsAboveNotBelow(o.node, h - 1, run[j].key, o.split.value.key);
      assert false;
    }
  }

  lemma LeftInsertShows(t: Tree, h: nat, lo: Bytes, hi: Bound, j: nat, e: Slot<Tree>, node: Tree)
    requires h > 0 && j < |t.slots| && Less(Sealed(t.slots, lo)[j].key, e.key)
    requires |node.slots| == |t.slots| + 1 && node.slots[j] == e && node.slots[j + 1].key == t.slots[j].key
    ensures !Routed(node, h, lo, hi)
  {
    if Routed(node, h, lo, hi) {
      RoutedChild(node, h, lo, hi, j);
      if j > 0 {
        LessAsymmetric(t.slots[j].key, e.key);
      }
      assert false;
    }
  }

  // ---- The parent ------------------------------------------------------------------------------

  /** One level: if the result is routed, the child's row was and the repair was clean. */
  ghost predicate RoutedOnlyIfRepairClean(t: Tree, h: nat, lo: Bytes, hi: Bound, j: nat, o: Outcome)
    requires h > 0 && t.slots != [] && j < |t.slots| && o.Stored?
  {
    var r := Repair(AsWritten, t.bytes, t.slots, j, o.node, o.split);
    var run := Sealed(t.slots, lo);
    r.Stored? && RoutedRun(Halves(r, lo), h, hi) ==>
      RoutedRun(Halves(o, run[j].key), h - 1, NextKey(run, j, hi)) && CleanRepair(t, o.split)
  }

  lemma RepairAsWritten(t: Tree, h: nat, lo: Bytes, hi: Bound, j: nat, o: Outcome)
    requires h > 0 && Routed(t, h, lo, hi) && Accounted(t, MAX_ENTRY) && j < |t.slots| && t.slots[j].payload.Child?
    requires var run := Sealed(t.slots, lo); o.Stored? && Plausible(o, run[j].key, NextKey(run, j, hi))
    ensures Plausible(Repair(AsWritten, t.bytes, t.slots, j, o.node, o.split), lo, hi)
    ensures RoutedOnlyIfRepairClean(t, h, lo, hi, j, o)
  {
    var r := Repair(AsWritten, t.bytes, t.slots, j, o.node, o.split);
    if o.split.None? {
      assert r.node.slots == Patched(t.slots, j, o);
      RowOfOne(lo, r.node, h, hi);
      if RoutedRun(Halves(r, lo), h, hi) {
        PatchedRoutedOnlyIf(t, h - 1, lo, hi, j, o, r.node);
      }
    } else if |o.split.value.key| + 8 <= MAX_ENTRY {
      SplitRepairAsWritten(t, h, lo, hi, j, o);
    }
  }

  /** What the parent of a split child finds before it inserts the split key. */
  lemma RepairSetup(t: Tree, h: nat, lo: Bytes, hi: Bound, j: nat, o: Outcome)
    requires h > 0 && Routed(t, h, lo, hi) && Accounted(t, MAX_ENTRY) && j < |t.slots| && t.slots[j].payload.Child?
    requires var run := Sealed(t.slots, lo); o.Stored? && Plausible(o, run[j].key, NextKey(run, j, hi))
    requires o.split.Some? && |o.split.value.key| + 8 <= MAX_ENTRY
    ensures var (slots', p, e) := RepairPlace(AsWritten, t.slots, j, o.node, o.split.value);
            && Repair(AsWritten, t.bytes, t.slots, j, o.node, o.split)
               == Finish(AsWritten, false, t.bytes, slots', e, InsertAt(t.bytes, slots', p, e))
            && !t.leaf && Keys(slots') == Keys(t.slots) && Total(slots') == Total(t.slots)
            && BytesTrue(false, t.bytes, slots') && SmallSlots(slots')
            && e.key == o.split.value.key && e.Size() == |e.key| + 8 && e.key != []
            && LowerBound(Keys(slots'), e.key) == j + 1 && !Duplicate(slots', e.key)
  {
    hide Routed, Accounted, Repair, RepairPlace, Finish, InsertAt, Total, LowerBound, SmallSlots, BytesTrue, Duplicate;
    RepairSteps(AsWritten, t, h - 1, lo, hi, j, o, MAX_ENTRY);
  }

  lemma SplitRepairAsWritten(t: Tree, h: nat, lo: Bytes, hi: Bound, j: nat, o: Outcome)
    requires h > 0 && Routed(t, h, lo, hi) && Accounted(t, MAX_ENTRY) && j < |t.slots| && t.slots[j].payload.Child?
    requires var run := Sealed(t.slots, lo); o.Stored? && Plausible(o, run[j].key, NextKey(run, j, hi))
    requires o.split.Some? && |o.split.value.key| + 8 <= MAX_ENTRY
    ensures Plausible(Repair(AsWritten, t.bytes, t.slots, j, o.node, o.split), lo, hi)
    ensures RoutedOnlyIfRepairClean(t, h, lo, hi, j, o)
  {
    RepairSetup(t, h, lo, hi, j, o);
    hide Routed, RoutedRun, Accounted, Repair, RepairPlace, Finish, Total, LowerBound, Duplicate, Halves, Plausible;
    var r := Repair(AsWritten, t.bytes, t.slots, j, o.node, o.split);
    var (slots', p, e) := RepairPlace(AsWritten, t.slots, j, o.node, o.split.value);
    FinishPlausible(t, h, lo, hi, slots', p, e);
    if r.Stored? && RoutedRun(Halves(r, lo), h, hi) {
      if InsertAt(t.bytes, slots', p, e).NoSpace? && j + 1 == SplitPoint(|t.slots|) {
        InsertedAnywhere(t.bytes, slots', p, LowerBound(Keys(slots'), e.key), e);
        BoundaryShows(false, t.bytes, slots', e, h, lo, hi);
        assert false;
      } else if o.split.value.direction.RIGHT? {
        RightRepairAsWritten(t, h, lo, hi, j, o);
      } else {
        LeftRepairAsWritten(t, h, lo, hi, j, o);
        assert false;
      }
    }
  }

  /** Whether there is space does not depend on the position, nor what then happens when there is none. */
  lemma InsertedAnywhere(bytes: nat, slots: seq<Slot<Tree>>, p: nat, q: nat, e: Slot<Tree>)
    requires p <= |slots| && q <= |slots| && InsertAt(bytes, slots, p, e).NoSpace?
    ensures InsertAt(bytes, slots, q, e) == NoSpace
  {
  }

  lemma RightRepairAsWritten(t: Tree, h: nat, lo: Bytes, hi: Bound, j: nat, o: Outcome)
    requires h > 0 && Routed(t, h, lo, hi) && Accounted(t, MAX_ENTRY) && j < |t.slots| && t.slots[j].payload.Child?
    requires var run := Sealed(t.slots, lo); o.Stored? && Plausible(o, run[j].key, NextKey(run, j, hi))
    requires o.split.Some? && |o.split.value.key| + 8 <= MAX_ENTRY && o.split.value.direction.RIGHT?
    requires |o.split.value.key| + 8 > Available(t.bytes) ==> j + 1 != SplitPoint(|t.slots|)
    requires var r := Repair(AsWritten, t.bytes, t.slots, j, o.node, o.split);
             r.Stored? && RoutedRun(Halves(r, lo), h, hi)
    ensures var run := Sealed(t.slots, lo);
            RoutedRun(Halves(o, run[j].key), h - 1, NextKey(run, j, hi))
  {
    RepairIsCut(AsWritten, t, h - 1, lo, hi, j, o, MAX_ENTRY);
    var patched := Tree(false, t.bytes + |o.split.value.key| + 8, Patched(t.slots, j, o));
    CutRoutedOnlyIf(Repair(AsWritten, t.bytes, t.slots, j, o.node, o.split), patched, h, lo, hi);
    PatchedRoutedOnlyIf(t, h - 1, lo, hi, j, o, patched);
  }

  /** The repair of a left split, as written, never leaves a routed parent. */
  lemma LeftRepairAsWritten(t: Tree, h: nat, lo: Bytes, hi: Bound, j: nat, o: Outcome)
    requires h > 0 && Routed(t, h, lo, hi) && Accounted(t, MAX_ENTRY) && j < |t.slots| && t.slots[j].payload.Child?
    requires var run := Sealed(t.slots, lo); o.Stored? && Plausible(o, run[j].key, NextKey(run, j, hi))
    requires o.split.Some? && |o.split.value.key| + 8 <= MAX_ENTRY && o.split.value.direction.LEFT?
    requires |o.split.value.key| + 8 > Available(t.bytes) ==> j + 1 != SplitPoint(|t.slots|)
    ensures var r := Repair(AsWritten, t.bytes, t.slots, j, o.node, o.split);
            r.Stored? && !RoutedRun(Halves(r, lo), h, hi)
  {
    RepairSetup(t, h, lo, hi, j, o);
    hide Routed, RoutedRun, Accounted, Repair, Total, LowerBound, Duplicate, SmallSlots, BytesTrue, SplitAndInsert, CutOf, HoldsAbove;
    var r := Repair(AsWritten, t.bytes, t.slots, j, o.node, o.split);
    var (slots', p, e) := RepairPlace(AsWritten, t.slots, j, o.node, o.split.value);
    if InsertAt(t.bytes, slots', p, e).NoSpace? {
      FinishIsCut(AsWritten, false, t.bytes, slots', j + 1, e);
      var roomy := Roomy(false, t.bytes, slots', j + 1, e);
      LeftRepairShows(t, h, lo, hi, j, o, roomy);
      if RoutedRun(Halves(r, lo), h, hi) {
        CutRoutedOnlyIf(r, roomy, h, lo, hi);
      }
    } else {
      RowOfOne(lo, r.node, h, hi);
      LeftInsertShows(t, h, lo, hi, j, e, r.node);
    }
  }

  // ---- The theorem -----------------------------------------------------------------------------

  /** A routed result means that the insertion was clean. */
  lemma {:induction false} RoutedOnlyIfClean(t: Tree, h: nat, lo: Bytes, hi: Bound, key: Bytes, value: Bytes)
    requires Routed(t, h, lo, hi) && Shaped(t) && Accounted(t, MAX_ENTRY) && Inside(lo, key, hi)
    requires Lookup(t, key).None? && |key| + |value| <= MAX_ENTRY
    ensures var o := Insert(AsWritten, t, key, value);
            Plausible(o, lo, hi) && (o.Stored? && RoutedRun(Halves(o, lo), h, hi) ==> Clean(t, key, value))
    decreases h, 1
  {
    if h == 0 {
      LeafOnlyIfClean(t, lo, hi, key, value);
    } else {
      InnerOnlyIfClean(t, h, lo, hi, key, value);
    }
  }

  lemma LeafOnlyIfClean(t: Tree, lo: Bytes, hi: Bound, key: Bytes, value: Bytes)
    requires Routed(t, 0, lo, hi) && Shaped(t) && Accounted(t, MAX_ENTRY)
    requires Lookup(t, key).None? && |key| + |value| <= MAX_ENTRY
    ensures var o := Insert(AsWritten, t, key, value);
            Plausible(o, lo, hi) && (o.Stored? && RoutedRun(Halves(o, lo), 0, hi) ==> Clean(t, key, value))
  {
    var e: Slot<Tree> := Slot(key, Data(value));
    var p := LowerBound(Keys(t.slots), key);
    forall i | 0 <= i < |t.slots| ensures t.slots[i].Size() <= MAX_ENTRY {
      assert AccountedSlot(t.slots[i], MAX_ENTRY);
    }
    FinishPlausible(t, 0, lo, hi, t.slots, p, e);
    if !Clean(t, key, value) {
      BoundaryShows(true, t.bytes, t.slots, e, 0, lo, hi);
    }
  }

  lemma {:induction false} InnerOnlyIfClean(t: Tree, h: nat, lo: Bytes, hi: Bound, key: Bytes, value: Bytes)
    requires h > 0 && Routed(t, h, lo, hi) && Shaped(t) && Accounted(t, MAX_ENTRY) && Inside(lo, key, hi)
    requires Lookup(t, key).None? && |key| + |value| <= MAX_ENTRY
    ensures var o := Insert(AsWritten, t, key, value);
            Plausible(o, lo, hi) && (o.Stored? && RoutedRun(Halves(o, lo), h, hi) ==> Clean(t, key, value))
    decreases h, 0
  {
    var run := Sealed(t.slots, lo);
    var j := FindChild(Keys(t.slots), key);
    DescentInside(t, h - 1, lo, hi, key);
    ChildOf(t, j, MAX_ENTRY);
    var child := t.slots[j].payload.node;
    RoutedOnlyIfClean(child, h - 1, run[j].key, NextKey(run, j, hi), key, value);
    var o := Insert(AsWritten, child, key, value);
    if o.Stored? {
      RepairAsWritten(t, h, lo, hi, j, o);
      ForecastIsRight(AsWritten, child, key, value);
      if Clean(child, key, value) {
        CleanForecast(t, key, value, o.split);
      }
    }
  }

  ghost predicate StoredRouted(o: Outcome, h: nat, lo: Bytes, hi: Bound) {
    o.Stored? && RoutedRun(Halves(o, lo), h, hi)
  }

  /** A clean insertion does all that the documented one does, on the same terms. */
  lemma {:induction false} CleanIsCorrect(t: Tree, h: nat, lo: Bytes, hi: Bound, key: Bytes, value: Bytes, limit: nat)
    requires Routed(t, h, lo, hi) && Shaped(t) && Accounted(t, limit) && Clean(t, key, value)
    requires Inside(lo, key, hi) && (|key| + |value| <= MAX_ENTRY ==> |key| <= limit)
    ensures Correct(Insert(AsWritten, t, key, value), t, h, lo, hi, key, value, limit)
  {
    CleanAgrees(t, key, value);
    InsertIsCorrect(t, h, lo, hi, key, value, limit);
  }

  /**
   * The insertion as written stores a new entry in a routed tree exactly when it was clean and every
   * split key could go up.
   */
  lemma {:induction false} AsWrittenRoutedIffClean(t: Tree, h: nat, lo: Bytes, hi: Bound, key: Bytes, value: Bytes)
    requires Routed(t, h, lo, hi) && Shaped(t) && Accounted(t, MAX_ENTRY) && Inside(lo, key, hi)
    requires Lookup(t, key).None? && |key| + |value| <= MAX_ENTRY
    ensures StoredRouted(Insert(AsWritten, t, key, value), h, lo, hi) <==>
            Clean(t, key, value) && Promotable(t, key, value)
  {
    RoutedOnlyIfClean(t, h, lo, hi, key, value);
    if Clean(t, key, value) {
      CleanIsCorrect(t, h, lo, hi, key, value, MAX_ENTRY);
    }
  }
}
