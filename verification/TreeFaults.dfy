/** Sound trees on which the insertion as written loses a key. */
module TreeFaults {
  import opened ByteOrder
  import opened Slots
  import opened NodeSpec
  import opened TreeForecast
  import opened TreeSpec
  import opened TreeInsert
  import opened TreeConserves
  import opened TreeFindable

  // ---- A key behind a left split ----------------------------------------------------------------

  function FullLeaf(): Tree {
    Tree(true, CAPACITY, FullEntries())
  }

  function FullTree(): Tree {
    Tree(false, 0, [Slot([], Child(FullLeaf()))])
  }

  lemma FullTreeValid()
    ensures Shaped(FullTree()) && Routed(FullTree(), 1, [], Top) && Accounted(FullTree(), MAX_ENTRY)
  {
    FullEntriesFill<Tree>();
    FullLeafRouted();
    OneLeafTree(FullLeaf());
  }

  lemma FullLeafRouted()
    ensures Routed(FullLeaf(), 0, [], Top)
  {
    var keys := Keys(FullLeaf().slots);
    forall i, j | 0 <= i < j < 4 ensures Less(keys[i], keys[j]) {
      assert keys[i] == [(i + 2) as byte] && keys[j] == [(j + 2) as byte];
    }
  }

  /** A root over one sound leaf is a sound tree. */
  lemma OneLeafTree(leaf: Tree)
    requires Routed(leaf, 0, [], Top) && leaf.bytes == Total(leaf.slots) && SmallSlots(leaf.slots)
    ensures var t := Tree(false, 0, [Slot([], Child(leaf))]);
            Shaped(t) && Routed(t, 1, [], Top) && Accounted(t, MAX_ENTRY)
  {
    var t := Tree(false, 0, [Slot([], Child(leaf))]);
    RowOfOne([], leaf, 0, Top);
    assert Sealed(t.slots, []) == [Slot([], Child(leaf))];
    assert t.slots[1..] == [];
    assert Total(t.slots) == t.slots[0].Size() + Total(t.slots[1..]);
    forall i | 0 <= i < |leaf.slots| ensures AccountedSlot(leaf.slots[i], MAX_ENTRY) {}
    assert AccountedSlot(t.slots[0], MAX_ENTRY);
  }

  lemma FullLeafSplitsLeft()
    ensures Shaped(FullLeaf()) && Lookup(FullLeaf(), [2]).Some?
    ensures var o := Insert(AsWritten, FullLeaf(), [1], []);
            && o.Stored? && o.split.Some? && o.split.value.direction.LEFT?
            && |o.split.value.key| == 1 && o.node.slots == FullLeaf().slots[2..]
            && o.node.leaf && o.split.value.sibling.leaf && Shaped(o.node) && Shaped(o.split.value.sibling)
  {
    var leaf := FullLeaf();
    FullTreeValid();
    hide Total;
    assert Keys(leaf.slots)[0] == [2] && !Less([2], [2]) && !Less([2], [1]);
    LowerBoundUnique(Keys(leaf.slots), [2], 0);
    LowerBoundUnique(Keys(leaf.slots), [1], 0);
    var o := Insert(AsWritten, leaf, [1], []);
    assert o.split.value.sibling.slots == [] + [Slot([1], Data([]))] + leaf.slots[..2];
  }

  /** Inserting [1] into the full leaf splits it left, and the repair as written hides the key [2]. */
  lemma LeftRepairLosesKey()
    ensures var t := FullTree();
            && Shaped(t) && Lookup(t, [2]).Some?
            && var o := Insert(AsWritten, t, [1], []);
               o.Stored? && o.split.None? && Shaped(o.node) && Lookup(o.node, [2]).None?
  {
    FullTreeValid();
    FullLeafSplitsLeft();
    hide FullLeaf, SplitAndInsert, LeafInsert, Total;
    var leaf, t := FullLeaf(), FullTree();
    assert FindChild(Keys(t.slots), [1]) == 0 == FindChild(Keys(t.slots), [2]);
    var split := Insert(AsWritten, leaf, [1], []);
    var o := Insert(AsWritten, t, [1], []);
    assert o == Repair(AsWritten, 0, t.slots, 0, split.node, split.split);
    assert o.node.slots[1] == Slot([], Child(split.node));
    HigherLeaf(split.node);
    assert FindChild(Keys(o.node.slots), [2]) == 1;
  }

  /** The half that stays holds nothing below [4]. */
  lemma HigherLeaf(t: Tree)
    requires t.leaf && Shaped(t) && t.slots == FullLeaf().slots[2..]
    ensures Lookup(t, [2]).None?
  {
  }

  // ---- A key on the wrong side of its split key ------------------------------------------------

  /** The forecast for [3, 0]: the leaf splits right at the boundary, and the root has room for what goes up. */
  lemma BoundaryForecast()
    ensures var t := FullTree();
            && Shaped(t) && Lookup(t, [3, 0]).None? && UpKey(t, [3, 0], []).None?
            && Promotable(t, [3, 0], []) && !Clean(t, [3, 0], [])
  {
    FullTreeValid();
    BoundaryKey<Tree>();
    hide FullEntries, LowerBound, Total;
    var leaf, t, key: Bytes := FullLeaf(), FullTree(), [3, 0];
    assert FindChild(Keys(t.slots), key) == 0;
    assert ChildFor(t, key) == leaf;
    DemandOf(leaf, key, []);
    DemandOf(t, key, []);
    hide UpKey, Demanded, FullLeaf;
    CleanOf(leaf, key, []);
    CleanOf(t, key, []);
  }

  /** Inserting [3, 0] into the full leaf is reported to have been stored, and the key is not found. */
  lemma BoundarySplitLosesKey()
    ensures var o := Insert(AsWritten, FullTree(), [3, 0], []);
            Shaped(FullTree()) && o.Stored? && o.split.None? && Shaped(o.node) && Lookup(o.node, [3, 0]).None?
  {
    hide Insert, FullTree, Routed, Accounted, Lookup, Clean, Promotable, UpKey;
    FullTreeValid();
    BoundaryForecast();
    assert Inside([], [3, 0], Top);
    FoundIffClean(AsWritten, FullTree(), 1, [], Top, [3, 0], []);
    ForecastIsRight(AsWritten, FullTree(), [3, 0], []);
  }

  // ---- A key too long to be handed up ----------------------------------------------------------

  /** A key of the greatest size that a leaf takes. */
  function LongKey(first: byte): (key: Bytes)
    ensures |key| == MAX_ENTRY && key[0] == first
  {
    [first] + seq(MAX_ENTRY - 1, k => 0)
  }

  function LongKeyLeaf(): Tree {
    Tree(true, CAPACITY, seq(4, i requires 0 <= i < 4 => Slot(LongKey((i + 2) as byte), Data([]))))
  }

  function LongKeyTree(): Tree {
    Tree(false, 0, [Slot([], Child(LongKeyLeaf()))])
  }

  lemma LongKeyTreeValid()
    ensures Shaped(LongKeyTree()) && Routed(LongKeyTree(), 1, [], Top) && Accounted(LongKeyTree(), MAX_ENTRY)
  {
    hide LongKey, Total;
    var leaf := LongKeyLeaf();
    TotalOfEqual(leaf.slots, MAX_ENTRY);
    var keys := Keys(leaf.slots);
    forall i, j | 0 <= i < j < 4 ensures Less(keys[i], keys[j]) {
      assert keys[i][0] < keys[j][0];
    }
    OneLeafTree(leaf);
  }

  lemma LongKeysOrdered(i: nat)
    requires i < 4
    ensures var keys := Keys(LongKeyLeaf().slots);
            Less([1], keys[i]) && !Less(keys[i], keys[0]) && (i > 0 ==> keys[i] != keys[0])
  {
    var keys := Keys(LongKeyLeaf().slots);
    assert keys[i][0] == (i + 2) as byte && keys[0][0] == 2 && [1][0] == 1 as byte;
    LessIrreflexive(keys[0]);
  }

  lemma LongKeyLeafSplits()
    ensures var leaf := LongKeyLeaf();
            var o := Insert(AsWritten, leaf, [1], []);
            && Shaped(leaf) && o.Stored? && o.split.Some? && o.split.value.direction.LEFT?
            && |o.split.value.key| == MAX_ENTRY
            && o.node.leaf && o.node.slots == leaf.slots[2..] && Shaped(o.node)
            && Lookup(leaf, LongKey(2)).Some? && Lookup(o.node, LongKey(2)).None?
  {
    hide Total, LongKey;
    var leaf := LongKeyLeaf();
    var keys := Keys(leaf.slots);
    LongKeysOrdered(0);
    LongKeysOrdered(2);
    LessAsymmetric([1], keys[0]);
    LowerBoundUnique(keys, [1], 0);
    LowerBoundUnique(keys, LongKey(2), 0);
    var o := Insert(AsWritten, leaf, [1], []);
    assert o.node.slots == leaf.slots[2..];
    assert Keys(o.node.slots)[0] == keys[2];
    LowerBoundUnique(Keys(o.node.slots), LongKey(2), 0);
  }

  /**
   * Inserting the small key [1] is refused only after the leaf has split, because the parent does not
   * take the split key; the key LongKey(2), which has moved to the sibling, is then out of reach.
   */
  lemma LongKeyLosesKeys()
    ensures var t := LongKeyTree();
            && Shaped(t) && Lookup(t, LongKey(2)).Some?
            && var o := Insert(AsWritten, t, [1], []);
               o.Threw? && o.error == EntryTooBig && Shaped(o.node) && Lookup(o.node, LongKey(2)).None?
  {
    LongKeyLeafSplits();
    hide LongKeyLeaf, LongKey, SplitAndInsert, LeafInsert, Total;
    var leaf, t := LongKeyLeaf(), LongKeyTree();
    assert FindChild(Keys(t.slots), [1]) == 0 == FindChild(Keys(t.slots), LongKey(2));
    var split := Insert(AsWritten, leaf, [1], []);
    var o := Insert(AsWritten, t, [1], []);
    assert o == Repair(AsWritten, 0, t.slots, 0, split.node, split.split);
    assert o.node.slots[0] == Slot([], Child(split.node));
  }

  // ---- A split that is repaired again ----------------------------------------------------------

  /**
   * Recorded splits are never cleared, so the next insertion below a child that has split repairs the
   * parent again, which holds the split key already. With space, the positional insertion enters the
   * sibling a second time, and every entry below it is there twice; without, the split that is attempted
   * finds the duplicate and throws.
   */
  lemma StaleSplitIsRepairedAgain(t: Tree, j: nat, next: Tree, s: Split<Tree>)
    requires j < |t.slots| && Duplicate(t.slots, s.key) && |s.key| + 8 <= MAX_ENTRY
    ensures var r := Repair(AsWritten, t.bytes, t.slots, j, next, Some(s));
            var slots, p := WithChild(t.slots, j, next), if s.direction.RIGHT? then j + 1 else j;
            if |s.key| + 8 <= Available(t.bytes) then
              && r == Stored(Tree(false, t.bytes + |s.key| + 8, Spliced(slots, p, Slot(s.key, Child(s.sibling)))), None)
              && multiset(Contents(r.node)) == multiset(RunContents(slots)) + multiset(Contents(s.sibling))
            else
              r == Threw(if |t.slots| < 3 then SplitNotRequired else DuplicateKey, Tree(false, t.bytes, slots))
  {
    hide LowerBound, RepairPlace, Contents, RunContents, Spliced, SplitSlots, Total;
    var up: Slot<Tree> := Slot(s.key, Child(s.sibling));
    var slots, p := WithChild(t.slots, j, next), if s.direction.RIGHT? then j + 1 else j;
    PlaceOfAsWritten(t.slots, j, next, s);
    assert Keys(slots) == Keys(t.slots);
    DuplicateByKeys(t.slots, slots, s.key);
    SplicedContents(false, slots, p, up);
    OneContents(up);
    ContentsOf(Tree(false, t.bytes + |s.key| + 8, Spliced(slots, p, up)));
  }

  /** In a sound parent that a right split has already been repaired in, it is so, and the result with space is unsound. */
  lemma RepairedTwiceIsUnsound(t: Tree, h: nat, lo: Bytes, hi: Bound, j: nat, next: Tree, s: Split<Tree>, lo': Bytes, hi': Bound)
    requires h > 0 && Routed(t, h, lo, hi) && j + 1 < |t.slots| && t.slots[j + 1] == Slot(s.key, Child(s.sibling))
    requires s.direction.RIGHT? && |s.key| + 8 <= MAX_ENTRY
    ensures Duplicate(t.slots, s.key)
    ensures var r := Repair(AsWritten, t.bytes, t.slots, j, next, Some(s));
            |s.key| + 8 <= Available(t.bytes) ==>
              && r.Stored? && r.node.slots[j + 1] == r.node.slots[j + 2] == Slot(s.key, Child(s.sibling))
              && !Routed(r.node, h, lo', hi')
  {
    RepairedKeyIsThere(t, h, lo, hi, j);
    StaleSplitIsRepairedAgain(t, j, next, s);
    var r := Repair(AsWritten, t.bytes, t.slots, j, next, Some(s));
    if |s.key| + 8 <= Available(t.bytes) {
      hide Repair, Routed, Contents, RunContents;
      TwinsAreNotRouted(r.node, h, lo', hi', j + 1);
    }
  }

  lemma RepairedKeyIsThere(t: Tree, h: nat, lo: Bytes, hi: Bound, j: nat)
    requires h > 0 && Routed(t, h, lo, hi) && j + 1 < |t.slots|
    ensures Duplicate(t.slots, t.slots[j + 1].key)
  {
    var run, key := Sealed(t.slots, lo), t.slots[j + 1].key;
    RunSorted(run, h - 1, hi, 0, j + 1);
    forall i | 0 <= i <= j ensures Less(Keys(t.slots)[i], key) {
      RunSorted(run, h - 1, hi, i, j + 1);
    }
    LessIrreflexive(key);
    LowerBoundUnique(Keys(t.slots), key, j + 1);
  }

  lemma TwinsAreNotRouted(t: Tree, h: nat, lo: Bytes, hi: Bound, i: nat)
    requires h > 0 && 0 < i && i + 1 < |t.slots| && t.slots[i].key == t.slots[i + 1].key
    ensures !Routed(t, h, lo, hi)
  {
    if Routed(t, h, lo, hi) {
      RunSorted(Sealed(t.slots, lo), h - 1, hi, i, i + 1);
      LessIrreflexive(t.slots[i].key);
      assert false;
    }
  }
}
