/** One insertion, read as documented, keeps the tree routed and adds exactly the new entry. */
module TreeInsert {
  import opened ByteOrder
  import opened Slots
  import opened NodeSpec
  import opened TreeForecast
  import opened TreeSpec

  // ---- The result of an insertion as a row of one or two subtrees ------------------------------

  ghost function LowerNode(o: Outcome): Tree
    requires o.Stored? && o.split.Some?
  {
    if o.split.value.direction.LEFT? then o.split.value.sibling else o.node
  }

  ghost function UpperNode(o: Outcome): Tree
    requires o.Stored? && o.split.Some?
  {
    if o.split.value.direction.LEFT? then o.node else o.split.value.sibling
  }

  /** The node and its sibling, if any, side by side in the order of their keys. */
  ghost function Halves(o: Outcome, lo: Bytes): (run: seq<Slot<Tree>>)
    requires o.Stored?
    ensures run != [] && run[0].key == lo
  {
    if o.split.None? then [Slot(lo, Child(o.node))]
    else [Slot(lo, Child(LowerNode(o))), Slot(o.split.value.key, Child(UpperNode(o)))]
  }

  ghost function OutcomeContents(o: Outcome): seq<Slot<Tree>>
    requires o.Stored?
  {
    if o.split.None? then Contents(o.node) else Contents(LowerNode(o)) + Contents(UpperNode(o))
  }

  /** Byte counts are true, entries within a quarter of the capacity, and keys no longer than the limit. */
  ghost predicate Accounted(t: Tree, limit: nat)
    decreases t
  {
    && BytesTrue(t.leaf, t.bytes, t.slots)
    && forall i :: 0 <= i < |t.slots| ==> AccountedSlot(t.slots[i], limit)
  }

  ghost predicate AccountedSlot(s: Slot<Tree>, limit: nat)
    decreases s
  {
    && s.Size() <= MAX_ENTRY
    && |s.key| <= limit
    && (s.payload.Child? ==> Accounted(s.payload.node, limit))
  }

  ghost predicate AccountedOutcome(o: Outcome, limit: nat)
    requires o.Stored?
  {
    && Accounted(o.node, limit)
    && (o.split.Some? ==> Accounted(o.split.value.sibling, limit) && |o.split.value.key| <= limit)
  }

  ghost predicate Inside(lo: Bytes, key: Bytes, hi: Bound) {
    LessEq(lo, key) && hi.Admits(key)
  }

  /** Exactly one entry was added, and nothing else moved. */
  ghost predicate AddsOne(before: seq<Slot<Tree>>, after: seq<Slot<Tree>>, e: Slot<Tree>) {
    exists q: nat :: q <= |before| && after == Spliced(before, q, e)
  }

  lemma AddsOneWithin(a: seq<Slot<Tree>>, before: seq<Slot<Tree>>, after: seq<Slot<Tree>>, b: seq<Slot<Tree>>, e: Slot<Tree>)
    requires AddsOne(before, after, e)
    ensures AddsOne(a + before + b, a + after + b, e)
  {
    var q: nat :| q <= |before| && after == Spliced(before, q, e);
    assert a + after + b == Spliced(a + before + b, |a| + q, e);
  }

  // ---- Cutting one node in two -----------------------------------------------------------------

  /** A routed node may be cut anywhere: both parts are routed in their part of its interval. */
  lemma CutRouted(t: Tree, c: nat, lower: Tree, upper: Tree, h: nat, lo: Bytes, hi: Bound)
    requires Routed(t, h, lo, hi) && 0 < c < |t.slots|
    requires lower.leaf == upper.leaf == t.leaf
    requires lower.slots == t.slots[..c] && upper.slots == Headed(t.leaf, t.slots[c..])
    ensures var key := t.slots[c].key;
            && Less(lo, key) && hi.Admits(key)
            && Routed(lower, h, lo, Before(key)) && Routed(upper, h, key, hi)
  {
    var key := t.slots[c].key;
    if h == 0 {
      SortedCutSeparates(t.slots, c);
      LessEqLess(lo, t.slots[c - 1].key, Keys(t.slots)[c]);
      forall i, j | 0 <= i < j < |upper.slots| ensures Less(Keys(upper.slots)[i], Keys(upper.slots)[j]) {
        assert Less(Keys(t.slots)[c + i], Keys(t.slots)[c + j]);
      }
      forall i, j | 0 <= i < j < c ensures Less(Keys(lower.slots)[i], Keys(lower.slots)[j]) {
        assert Less(Keys(t.slots)[i], Keys(t.slots)[j]);
      }
    } else {
      var run := Sealed(t.slots, lo);
      RunSorted(run, h - 1, hi, 0, c);
      assert run == run[..c] + run[c..];
      RunCut(run[..c], run[c..], h - 1, hi);
      assert Sealed(lower.slots, lo) == run[..c];
      assert Sealed(upper.slots, key) == run[c..];
    }
  }

  lemma CutContents(t: Tree, c: nat, lower: Tree, upper: Tree)
    requires 0 < c < |t.slots|
    requires lower.leaf == upper.leaf == t.leaf
    requires lower.slots == t.slots[..c] && upper.slots == Headed(t.leaf, t.slots[c..])
    ensures Contents(lower) + Contents(upper) == Contents(t)
  {
    assert t.slots == t.slots[..c] + t.slots[c..];
    if !t.leaf {
      ContentsConcat(t.slots[..c], t.slots[c..]);
      assert Payloads(upper.slots) == Payloads(t.slots[c..]);
      ContentsIgnoreKeys(upper.slots, t.slots[c..]);
    }
  }

  lemma CutAccounted(t: Tree, c: nat, lower: Tree, upper: Tree, limit: nat)
    requires 0 < c < |t.slots| && Accounted(t, limit)
    requires lower.leaf == upper.leaf == t.leaf
    requires lower.slots == t.slots[..c] && upper.slots == Headed(t.leaf, t.slots[c..])
    requires lower.bytes == Total(lower.slots) && upper.bytes == Total(upper.slots)
    ensures Accounted(lower, limit) && Accounted(upper, limit)
  {
  }

  /** The node with the new entry spliced in, as if there were always space. */
  ghost function Roomy(leaf: bool, bytes: nat, slots: seq<Slot<Tree>>, p: nat, e: Slot<Tree>): Tree
    requires p <= |slots|
  {
    Tree(leaf, bytes + e.Size(), Spliced(slots, p, e))
  }

  /** The outcome is the roomy node itself, or that node cut in two at the split key. */
  ghost predicate CutOf(o: Outcome, t: Tree) {
    && o.Stored?
    && if o.split.None? then o.node == t
       else exists c: nat ::
         && 0 < c < |t.slots|
         && LowerNode(o) == Tree(t.leaf, Total(t.slots[..c]), t.slots[..c])
         && UpperNode(o) == Tree(t.leaf, Total(Headed(t.leaf, t.slots[c..])), Headed(t.leaf, t.slots[c..]))
         && o.split.value.key == t.slots[c].key
  }

  lemma FinishIsCut(reading: Reading, leaf: bool, bytes: nat, slots: seq<Slot<Tree>>, p: nat, e: Slot<Tree>)
    requires p == LowerBound(Keys(slots), e.key) && !Duplicate(slots, e.key)
    requires e.Size() <= MAX_ENTRY && BytesTrue(leaf, bytes, slots) && SmallSlots(slots)
    requires reading.Documented? || p != SplitPoint(|slots|) || !InsertAt(bytes, slots, p, e).NoSpace?
    ensures CutOf(Finish(reading, leaf, bytes, slots, e, InsertAt(bytes, slots, p, e)), Roomy(leaf, bytes, slots, p, e))
  {
    hide SplitSlots, SplitAndInsert, Total, LowerBound, Duplicate, SmallSlots, BytesTrue, Spliced, Keys;
    var o := Finish(reading, leaf, bytes, slots, e, InsertAt(bytes, slots, p, e));
    if InsertAt(bytes, slots, p, e).NoSpace? {
      NoSpaceThenSplit(reading, leaf, bytes, slots, p, e);
      SplitIsCut(reading, leaf, slots, p, e);
      var c := CutPoint(reading, p, SplitPoint(|slots|));
      var t := Roomy(leaf, bytes, slots, p, e);
      assert LowerNode(o) == Tree(t.leaf, Total(t.slots[..c]), t.slots[..c]);
    }
  }

  /** A split leaves both halves with two entries at least, and fewer than the node had. */
  ghost predicate Shrinks(o: Outcome, t: Tree)
    requires o.Stored?
  {
    o.split.Some? ==> 2 <= |o.node.slots| < |t.slots| && 2 <= |o.split.value.sibling.slots| < |t.slots|
  }

  lemma FinishShrinks(reading: Reading, leaf: bool, bytes: nat, slots: seq<Slot<Tree>>, p: nat, e: Slot<Tree>, t: Tree)
    requires p <= |slots| == |t.slots| && !Duplicate(slots, e.key)
    requires e.Size() <= MAX_ENTRY && BytesTrue(leaf, bytes, slots) && SmallSlots(slots)
    ensures var o := Finish(reading, leaf, bytes, slots, e, InsertAt(bytes, slots, p, e));
            o.Stored? && Shrinks(o, t)
  {
    hide SplitSlots, SplitAndInsert, Total, LowerBound, Duplicate, SmallSlots, BytesTrue;
    if InsertAt(bytes, slots, p, e).NoSpace? {
      NoSpaceThenSplit(reading, leaf, bytes, slots, p, e);
    }
  }

  lemma RowOfOne(lo: Bytes, t: Tree, h: nat, hi: Bound)
    ensures var run := [Slot(lo, Child(t))];
            && (RoutedRun(run, h, hi) <==> hi.Admits(lo) && Routed(t, h, lo, hi))
            && RunContents(run) == Contents(t)
  {
    var run := [Slot(lo, Child(t))];
    assert RoutedSlot(run, 0, h, hi) <==> hi.Admits(lo) && Routed(t, h, lo, hi);
    assert RunContents(run) == Contents(t) + RunContents([]);
  }

  lemma RowOfTwo(lo: Bytes, lower: Tree, key: Bytes, upper: Tree, h: nat, hi: Bound)
    ensures var run := [Slot(lo, Child(lower)), Slot(key, Child(upper))];
            && (RoutedRun(run, h, hi) <==>
                  && Less(lo, key) && hi.Admits(key)
                  && Routed(lower, h, lo, Before(key)) && Routed(upper, h, key, hi))
            && RunContents(run) == Contents(lower) + Contents(upper)
  {
    var a, b := [Slot(lo, Child(lower))], [Slot(key, Child(upper))];
    assert [Slot(lo, Child(lower)), Slot(key, Child(upper))] == a + b;
    RowOfOne(lo, lower, h, Before(key));
    RowOfOne(key, upper, h, hi);
    RunCut(a, b, h, hi);
    ContentsConcat(a, b);
  }

  /** What holds of the roomy node holds of the row of its one or two parts. */
  lemma CutSound(o: Outcome, t: Tree, h: nat, lo: Bytes, hi: Bound, limit: nat)
    requires CutOf(o, t) && Routed(t, h, lo, hi) && Accounted(t, limit) && hi.Admits(lo)
    ensures o.Stored?
    ensures RoutedRun(Halves(o, lo), h, hi)
    ensures OutcomeContents(o) == Contents(t)
    ensures AccountedOutcome(o, limit)
  {
    if o.split.None? {
      RowOfOne(lo, o.node, h, hi);
    } else {
      var lower, upper := LowerNode(o), UpperNode(o);
      var c: nat :| && 0 < c < |t.slots|
                    && lower == Tree(t.leaf, Total(t.slots[..c]), t.slots[..c])
                    && upper == Tree(t.leaf, Total(Headed(t.leaf, t.slots[c..])), Headed(t.leaf, t.slots[c..]))
                    && o.split.value.key == t.slots[c].key;
      CutRouted(t, c, lower, upper, h, lo, hi);
      CutContents(t, c, lower, upper);
      CutAccounted(t, c, lower, upper, limit);
      RowOfTwo(lo, lower, t.slots[c].key, upper, h, hi);
    }
  }

  // ---- The leaf --------------------------------------------------------------------------------

  lemma LeafRoomyRouted(t: Tree, lo: Bytes, hi: Bound, key: Bytes, value: Bytes)
    requires Routed(t, 0, lo, hi) && Inside(lo, key, hi) && !Duplicate(t.slots, key)
    ensures Routed(Roomy(true, t.bytes, t.slots, LowerBound(Keys(t.slots), key), Slot(key, Data(value))), 0, lo, hi)
  {
    var p := LowerBound(Keys(t.slots), key);
    LowerBoundSorted(Keys(t.slots), key);
    SortedSpliced(Keys(t.slots), key);
    KeysSpliced(t.slots, p, Slot(key, Data(value)));
  }

  lemma LeafRoomyAccounted(t: Tree, p: nat, key: Bytes, value: Bytes, limit: nat)
    requires t.leaf && Accounted(t, limit) && p <= |t.slots|
    requires |key| <= limit && |key| + |value| <= MAX_ENTRY
    ensures Accounted(Roomy(true, t.bytes, t.slots, p, Slot(key, Data(value))), limit)
    ensures AddsOne(t.slots, Spliced(t.slots, p, Slot(key, Data(value))), Slot(key, Data(value)))
  {
    var e: Slot<Tree> := Slot(key, Data(value));
    TotalSpliced(t.slots, p, e);
    var roomy := Roomy(true, t.bytes, t.slots, p, e);
    forall i | 0 <= i < |roomy.slots| ensures AccountedSlot(roomy.slots[i], limit) {
      if i != p {
        assert AccountedSlot(t.slots[if i < p then i else i - 1], limit);
      }
    }
  }

  // ---- The parent ------------------------------------------------------------------------------

  /** The descent picks the child whose interval contains the key. */
  lemma DescentInside(t: Tree, h: nat, lo: Bytes, hi: Bound, key: Bytes)
    requires Routed(t, h + 1, lo, hi) && Inside(lo, key, hi)
    ensures var run := Sealed(t.slots, lo);
            var j := FindChild(Keys(t.slots), key);
            && t.slots[j].payload.Child?
            && Routed(t.slots[j].payload.node, h, run[j].key, NextKey(run, j, hi))
            && Inside(run[j].key, key, NextKey(run, j, hi))
  {
    var j := FindChild(Keys(t.slots), key);
    assert RoutedSlot(Sealed(t.slots, lo), j, h, hi);
  }

  lemma AdmitsLower(lo: Bytes, key: Bytes, hi: Bound)
    requires Inside(lo, key, hi)
    ensures hi.Admits(lo)
  {
    if hi.Before? {
      LessEqLess(lo, key, hi.key);
    }
  }

  /** The parent's entries with the child's entry replaced by the row the child became. */
  ghost function Patched(slots: seq<Slot<Tree>>, j: nat, o: Outcome): seq<Slot<Tree>>
    requires j < |slots| && o.Stored?
  {
    slots[..j] + Halves(o, slots[j].key) + slots[j + 1..]
  }

  lemma PatchedRouted(t: Tree, h: nat, lo: Bytes, hi: Bound, j: nat, o: Outcome, patched: Tree)
    requires Routed(t, h + 1, lo, hi) && j < |t.slots| && o.Stored?
    requires var run := Sealed(t.slots, lo); RoutedRun(Halves(o, run[j].key), h, NextKey(run, j, hi))
    requires !patched.leaf && patched.slots == Patched(t.slots, j, o)
    ensures Routed(patched, h + 1, lo, hi)
  {
    var run := Sealed(t.slots, lo);
    RunReplace(run, j, Halves(o, run[j].key), h, hi);
    assert Sealed(patched.slots, lo) == run[..j] + Halves(o, run[j].key) + run[j + 1..];
  }

  lemma HalvesContents(o: Outcome, lo: Bytes)
    requires o.Stored?
    ensures RunContents(Halves(o, lo)) == OutcomeContents(o)
  {
    if o.split.None? {
      RowOfOne(lo, o.node, 0, Top);
    } else {
      RowOfTwo(lo, LowerNode(o), o.split.value.key, UpperNode(o), 0, Top);
    }
  }

  lemma PatchedContents(t: Tree, j: nat, o: Outcome, patched: Tree, e: Slot<Tree>)
    requires !t.leaf && j < |t.slots| && t.slots[j].payload.Child? && o.Stored?
    requires AddsOne(Contents(t.slots[j].payload.node), OutcomeContents(o), e)
    requires !patched.leaf && patched.slots == Patched(t.slots, j, o)
    ensures AddsOne(Contents(t), Contents(patched), e)
  {
    var left, right := t.slots[..j], t.slots[j + 1..];
    var mid := Halves(o, t.slots[j].key);
    assert t.slots == left + [t.slots[j]] + right;
    ContentsConcat(left + [t.slots[j]], right);
    ContentsConcat(left, [t.slots[j]]);
    RowOfOne(t.slots[j].key, t.slots[j].payload.node, 0, Top);
    HalvesContents(o, t.slots[j].key);
    ContentsConcat(left + mid, right);
    ContentsConcat(left, mid);
    AddsOneWithin(RunContents(left), Contents(t.slots[j].payload.node), RunContents(mid), RunContents(right), e);
  }

  /** The documented repair puts the split child's two parts, in order, where the child was. */
  lemma RepairIsPatched(slots: seq<Slot<Tree>>, j: nat, o: Outcome)
    requires j < |slots| && o.Stored? && o.split.Some?
    ensures var (slots', p, e) := RepairPlace(Documented, slots, j, o.node, o.split.value);
            && p == j + 1 && Spliced(slots', p, e) == Patched(slots, j, o)
            && Keys(slots') == Keys(slots)
  {
  }

  /** In the parent's keys the split key belongs right after the child's key. */
  lemma SplitKeyPlace(t: Tree, h: nat, lo: Bytes, hi: Bound, j: nat, key: Bytes)
    requires Routed(t, h + 1, lo, hi) && j < |t.slots|
    requires var run := Sealed(t.slots, lo); Less(run[j].key, key) && NextKey(run, j, hi).Admits(key)
    ensures LowerBound(Keys(t.slots), key) == j + 1 && !Duplicate(t.slots, key)
  {
    var run := Sealed(t.slots, lo);
    forall i | 0 <= i <= j ensures Less(Keys(t.slots)[i], key) {
      if i == 0 {
        assert key != [];
      } else {
        RunSorted(run, h, hi, i, j);
        if i < j {
          LessTransitive(run[i].key, run[j].key, key);
        }
      }
    }
    if j + 1 < |t.slots| {
      LessAsymmetric(key, t.slots[j + 1].key);
    }
    LowerBoundUnique(Keys(t.slots), key, j + 1);
  }

  lemma PatchedAccounted(t: Tree, j: nat, o: Outcome, bytes: nat, patched: Tree, limit: nat)
    requires !t.leaf && Accounted(t, limit) && j < |t.slots| && t.slots[j].payload.Child?
    requires o.Stored? && AccountedOutcome(o, limit) && (o.split.Some? ==> |o.split.value.key| + 8 <= MAX_ENTRY)
    requires bytes == t.bytes + if o.split.None? then 0 else |o.split.value.key| + 8
    requires patched == Tree(false, bytes, Patched(t.slots, j, o))
    ensures Accounted(patched, limit)
  {
    var mid := Halves(o, t.slots[j].key);
    HalvesTotal(o, t.slots[j].key);
    TotalReplace(t.slots, j, mid);
    forall i | 0 <= i < |patched.slots| ensures AccountedSlot(patched.slots[i], limit) {
      if j <= i < j + |mid| {
        assert patched.slots[i] == mid[i - j];
        assert AccountedSlot(t.slots[j], limit);
      } else {
        assert patched.slots[i] == t.slots[if i < j then i else i - |mid| + 1];
        assert AccountedSlot(t.slots[if i < j then i else i - |mid| + 1], limit);
      }
    }
  }

  lemma HalvesTotal(o: Outcome, key: Bytes)
    requires o.Stored?
    ensures Total(Halves(o, key)) == |key| + 8 + if o.split.None? then 0 else |o.split.value.key| + 8
  {
    var mid := Halves(o, key);
    if o.split.Some? {
      assert mid[1..] == [mid[1]];
      assert mid[1..][1..] == [];
      assert Total(mid[1..]) == mid[1].Size();
    } else {
      assert mid[1..] == [];
    }
    assert Total(mid) == mid[0].Size() + Total(mid[1..]);
  }

  // ---- The theorem -----------------------------------------------------------------------------

  /** All that an insertion of (key, value) below a node owes to the node's parent. */
  ghost predicate Correct(o: Outcome, t: Tree, h: nat, lo: Bytes, hi: Bound, key: Bytes, value: Bytes, limit: nat)
    requires Shaped(t)
  {
    if Lookup(t, key).Some? then o == Threw(DuplicateKey, t)
    else if |key| + |value| > MAX_ENTRY then o == Threw(EntryTooBig, t)
    else if !Promotable(t, key, value) then o.Threw? && o.error == EntryTooBig && o.node != t
    else
      && o.Stored? && Shrinks(o, t)
      && RoutedRun(Halves(o, lo), h, hi)
      && AccountedOutcome(o, limit)
      && AddsOne(Contents(t), OutcomeContents(o), Slot(key, Data(value)))
  }

  /**
   * Inserting a key into a routed tree throws exactly for a key that is there, an entry that is too
   * big, or a split key that is too big for its parent; the tree is then what it was, except in the
   * last case, in which it no longer is. Otherwise the node, side by side with the sibling it may
   * have split off, is routed, of the same depth, and holds the old entries and the new one.
   */
  lemma {:induction false} InsertIsCorrect(t: Tree, h: nat, lo: Bytes, hi: Bound, key: Bytes, value: Bytes, limit: nat)
    requires Routed(t, h, lo, hi) && Shaped(t) && Accounted(t, limit)
    requires Inside(lo, key, hi) && (|key| + |value| <= MAX_ENTRY ==> |key| <= limit)
    ensures Correct(Insert(Documented, t, key, value), t, h, lo, hi, key, value, limit)
    decreases h, 1
  {
    if h == 0 {
      LeafInsertIsCorrect(t, lo, hi, key, value, limit);
    } else {
      InnerInsertIsCorrect(t, h, lo, hi, key, value, limit);
    }
  }

  lemma ChildOf(t: Tree, j: nat, limit: nat)
    requires Shaped(t) && Accounted(t, limit) && !t.leaf && j < |t.slots|
    ensures t.slots[j].payload.Child? && Shaped(t.slots[j].payload.node) && Accounted(t.slots[j].payload.node, limit)
  {
  }

  function WithChild(slots: seq<Slot<Tree>>, j: nat, child: Tree): seq<Slot<Tree>>
    requires j < |slots|
  {
    slots[j := Slot(slots[j].key, Child(child))]
  }

  /** A node stays the same just when the child that it has at j does. */
  lemma SameChild(t: Tree, j: nat, child: Tree)
    requires !t.leaf && j < |t.slots| && t.slots[j].payload.Child?
    ensures Tree(false, t.bytes, WithChild(t.slots, j, child)) == t <==> child == t.slots[j].payload.node
  {
  }

  /** A node with children does what its chosen child does, and then its own repair. */
  lemma InnerUnfolds(t: Tree, key: Bytes, value: Bytes)
    requires Shaped(t) && !t.leaf
    ensures var j := FindChild(Keys(t.slots), key);
            var child := t.slots[j].payload.node;
            var o := Insert(Documented, child, key, value);
            && Lookup(t, key) == Lookup(child, key)
            && Insert(Documented, t, key, value) ==
               (if o.Threw? then Threw(o.error, Tree(false, t.bytes, WithChild(t.slots, j, o.node)))
                else Repair(Documented, t.bytes, t.slots, j, o.node, o.split))
            && Promotable(t, key, value) ==
               (Promotable(child, key, value)
                && (UpKey(child, key, value).Some? ==> |UpKey(child, key, value).value| + 8 <= MAX_ENTRY))
  {
  }

  /** A split key that is too big for the parent comes when the child is already one of its halves. */
  lemma LongSplitKeyThrows(reading: Reading, t: Tree, j: nat, o: Outcome)
    requires !t.leaf && j < |t.slots| && t.slots[j].payload.Child?
    requires o.Stored? && o.split.Some? && |o.split.value.key| + 8 > MAX_ENTRY && Shrinks(o, t.slots[j].payload.node)
    ensures var r := Repair(reading, t.bytes, t.slots, j, o.node, o.split);
            r.Threw? && r.error == EntryTooBig && r.node != t
  {
  }

  lemma {:induction false} InnerInsertIsCorrect(t: Tree, h: nat, lo: Bytes, hi: Bound, key: Bytes, value: Bytes, limit: nat)
    requires h > 0 && Routed(t, h, lo, hi) && Shaped(t) && Accounted(t, limit)
    requires Inside(lo, key, hi) && (|key| + |value| <= MAX_ENTRY ==> |key| <= limit)
    ensures Correct(Insert(Documented, t, key, value), t, h, lo, hi, key, value, limit)
    decreases h, 0
  {
    hide Insert, Repair, Lookup, Promotable, UpKey, RoutedRun, Accounted, AccountedOutcome, AddsOne, Contents, OutcomeContents;
    hide Halves, FindChild;
    AdmitsLower(lo, key, hi);
    var run := Sealed(t.slots, lo);
    var j := FindChild(Keys(t.slots), key);
    DescentInside(t, h - 1, lo, hi, key);
    ChildOf(t, j, limit);
    var child := t.slots[j].payload.node;
    InsertIsCorrect(child, h - 1, run[j].key, NextKey(run, j, hi), key, value, limit);
    InnerUnfolds(t, key, value);
    var o := Insert(Documented, child, key, value);
    SameChild(t, j, o.node);
    if o.Stored? {
      ForecastIsRight(Documented, child, key, value);
      if o.split.Some? && |o.split.value.key| + 8 > MAX_ENTRY {
        LongSplitKeyThrows(Documented, t, j, o);
      } else {
        ParentInsertIsCorrect(t, h, lo, hi, j, o, key, value, limit);
      }
    }
  }

  /** What goes up is a key of the node itself. */
  lemma UpKeyIsStored(t: Tree, key: Bytes, value: Bytes, limit: nat)
    requires Shaped(t) && Accounted(t, limit) && UpKey(t, key, value).Some?
    ensures |UpKey(t, key, value).value| <= limit
  {
    assert AccountedSlot(t.slots[SplitPoint(|t.slots|)], limit);
  }

  /** Keys short enough to be handed up never make an insertion fail on the way. */
  lemma {:induction false} ShortKeysPromote(t: Tree, h: nat, lo: Bytes, hi: Bound, key: Bytes, value: Bytes, limit: nat)
    requires Routed(t, h, lo, hi) && Shaped(t) && Accounted(t, limit)
    requires Inside(lo, key, hi) && |key| <= limit && limit + 8 <= MAX_ENTRY
    ensures Promotable(t, key, value)
    decreases h
  {
    hide Insert, Lookup, RoutedRun, Accounted, FindChild, Promotable, UpKey;
    if h == 0 {
      LeafUnfolds(t, key, value);
    } else {
      var run := Sealed(t.slots, lo);
      var j := FindChild(Keys(t.slots), key);
      DescentInside(t, h - 1, lo, hi, key);
      ChildOf(t, j, limit);
      InnerUnfolds(t, key, value);
      if UpKey(t.slots[j].payload.node, key, value).Some? {
        UpKeyIsStored(t.slots[j].payload.node, key, value, limit);
      }
      ShortKeysPromote(t.slots[j].payload.node, h - 1, run[j].key, NextKey(run, j, hi), key, value, limit);
    }
  }

  lemma LeafUnfolds(t: Tree, key: Bytes, value: Bytes)
    requires t.leaf && Shaped(t)
    ensures var e: Slot<Tree> := Slot(key, Data(value));
            var o := Insert(Documented, t, key, value);
            && Promotable(t, key, value)
            && (Lookup(t, key).Some? <==> Duplicate(t.slots, key))
            && if Duplicate(t.slots, key) then o == Threw(DuplicateKey, t)
               else if |key| + |value| > MAX_ENTRY then o == Threw(EntryTooBig, t)
               else o == Finish(Documented, true, t.bytes, t.slots, e, InsertAt(t.bytes, t.slots, LowerBound(Keys(t.slots), key), e))
  {
  }

  lemma LeafInsertIsCorrect(t: Tree, lo: Bytes, hi: Bound, key: Bytes, value: Bytes, limit: nat)
    requires Routed(t, 0, lo, hi) && Shaped(t) && Accounted(t, limit)
    requires Inside(lo, key, hi) && (|key| + |value| <= MAX_ENTRY ==> |key| <= limit)
    ensures Correct(Insert(Documented, t, key, value), t, 0, lo, hi, key, value, limit)
  {
    LeafUnfolds(t, key, value);
    if !Duplicate(t.slots, key) && |key| + |value| <= MAX_ENTRY {
      LeafStoreIsCorrect(t, lo, hi, key, value, limit);
    }
  }

  lemma LeafStoreIsCorrect(t: Tree, lo: Bytes, hi: Bound, key: Bytes, value: Bytes, limit: nat)
    requires Routed(t, 0, lo, hi) && Accounted(t, limit)
    requires Inside(lo, key, hi) && |key| <= limit && |key| + |value| <= MAX_ENTRY && !Duplicate(t.slots, key)
    ensures var e: Slot<Tree> := Slot(key, Data(value));
            var o := Finish(Documented, true, t.bytes, t.slots, e, InsertAt(t.bytes, t.slots, LowerBound(Keys(t.slots), key), e));
            && o.Stored? && Shrinks(o, t)
            && RoutedRun(Halves(o, lo), 0, hi) && AccountedOutcome(o, limit)
            && AddsOne(Contents(t), OutcomeContents(o), e)
  {
    LeafIsSmall(t, lo, hi, limit);
    hide Routed, RoutedRun, Accounted, AccountedOutcome, AddsOne, OutcomeContents, CutOf, Halves, Finish, InsertAt;
    hide Duplicate, LowerBound, Total, BytesTrue, SmallSlots;
    AdmitsLower(lo, key, hi);
    var e: Slot<Tree> := Slot(key, Data(value));
    var p := LowerBound(Keys(t.slots), key);
    var roomy := Roomy(true, t.bytes, t.slots, p, e);
    LeafRoomyRouted(t, lo, hi, key, value);
    LeafRoomyAccounted(t, p, key, value, limit);
    FinishIsCut(Documented, true, t.bytes, t.slots, p, e);
    FinishShrinks(Documented, true, t.bytes, t.slots, p, e, t);
    CutSound(Finish(Documented, true, t.bytes, t.slots, e, InsertAt(t.bytes, t.slots, p, e)), roomy, 0, lo, hi, limit);
  }

  lemma LeafIsSmall(t: Tree, lo: Bytes, hi: Bound, limit: nat)
    requires Routed(t, 0, lo, hi) && Accounted(t, limit)
    ensures t.leaf && BytesTrue(true, t.bytes, t.slots) && SmallSlots(t.slots)
  {
  }

  lemma ParentInsertIsCorrect(t: Tree, h: nat, lo: Bytes, hi: Bound, j: nat, o: Outcome, key: Bytes, value: Bytes, limit: nat)
    requires h > 0 && Routed(t, h, lo, hi) && Accounted(t, limit) && hi.Admits(lo)
    requires j < |t.slots| && t.slots[j].payload.Child?
    requires o.Stored? && AccountedOutcome(o, limit) && (o.split.Some? ==> |o.split.value.key| + 8 <= MAX_ENTRY)
    requires var run := Sealed(t.slots, lo); RoutedRun(Halves(o, run[j].key), h - 1, NextKey(run, j, hi))
    requires AddsOne(Contents(t.slots[j].payload.node), OutcomeContents(o), Slot(key, Data(value)))
    ensures var r := Repair(Documented, t.bytes, t.slots, j, o.node, o.split);
            && r.Stored? && Shrinks(r, t)
            && RoutedRun(Halves(r, lo), h, hi)
            && AccountedOutcome(r, limit)
            && AddsOne(Contents(t), OutcomeContents(r), Slot(key, Data(value)))
  {
    hide Routed, RoutedRun, Accounted, AccountedOutcome, AddsOne, Contents, OutcomeContents, CutOf, Repair, Patched, Halves;
    var r := Repair(Documented, t.bytes, t.slots, j, o.node, o.split);
    var bytes := t.bytes + if o.split.None? then 0 else |o.split.value.key| + 8;
    var patched := Tree(false, bytes, Patched(t.slots, j, o));
    InnerNode(t, h, lo, hi);
    PatchedRouted(t, h - 1, lo, hi, j, o, patched);
    PatchedAccounted(t, j, o, bytes, patched, limit);
    PatchedContents(t, j, o, patched, Slot(key, Data(value)));
    if o.split.None? {
      PlainRepairIsCut(t, j, o);
    } else {
      var run := Sealed(t.slots, lo);
      HalvesRouted(o, run[j].key, h - 1, NextKey(run, j, hi));
      RepairIsCut(Documented, t, h - 1, lo, hi, j, o, limit);
      RepairShrinks(t, h - 1, lo, hi, j, o, limit);
    }
    CutSound(r, patched, h, lo, hi, limit);
  }

  lemma InnerNode(t: Tree, h: nat, lo: Bytes, hi: Bound)
    requires h > 0 && Routed(t, h, lo, hi)
    ensures !t.leaf
  {
  }

  /** A child that did not split is merely replaced. */
  lemma PlainRepairIsCut(t: Tree, j: nat, o: Outcome)
    requires j < |t.slots| && o.Stored? && o.split.None?
    ensures var r := Repair(Documented, t.bytes, t.slots, j, o.node, o.split);
            CutOf(r, Tree(false, t.bytes, Patched(t.slots, j, o))) && r.Stored? && Shrinks(r, t)
  {
  }

  lemma HalvesRouted(o: Outcome, lo: Bytes, h: nat, hi: Bound)
    requires o.Stored? && o.split.Some? && RoutedRun(Halves(o, lo), h, hi)
    ensures Less(lo, o.split.value.key) && hi.Admits(o.split.value.key)
  {
    RowOfTwo(lo, LowerNode(o), o.split.value.key, UpperNode(o), h, hi);
  }

  /** What a parent finds before it enters a split key, its child exchanged for one of the halves. */
  lemma RepairSteps(reading: Reading, t: Tree, h: nat, lo: Bytes, hi: Bound, j: nat, o: Outcome, limit: nat)
    requires Routed(t, h + 1, lo, hi) && Accounted(t, limit) && j < |t.slots| && t.slots[j].payload.Child?
    requires o.Stored? && o.split.Some?
    requires var run := Sealed(t.slots, lo);
             var key := o.split.value.key;
             Less(run[j].key, key) && NextKey(run, j, hi).Admits(key) && |key| + 8 <= MAX_ENTRY
    ensures var (slots', p, e) := RepairPlace(reading, t.slots, j, o.node, o.split.value);
            && Repair(reading, t.bytes, t.slots, j, o.node, o.split)
               == Finish(reading, false, t.bytes, slots', e, InsertAt(t.bytes, slots', p, e))
            && !t.leaf && Keys(slots') == Keys(t.slots) && Total(slots') == Total(t.slots)
            && BytesTrue(false, t.bytes, slots') && SmallSlots(slots')
            && e.key == o.split.value.key && e.Size() == |e.key| + 8 && e.key != []
            && LowerBound(Keys(slots'), e.key) == j + 1 && !Duplicate(slots', e.key)
  {
    InnerNode(t, h + 1, lo, hi);
    hide Routed, Accounted, Finish, InsertAt, Total, LowerBound, SmallSlots, BytesTrue, Duplicate;
    var (slots', p, e) := RepairPlace(reading, t.slots, j, o.node, o.split.value);
    SplitKeyPlace(t, h, lo, hi, j, e.key);
    SlotsStaySmall(t, slots', j, limit);
    DuplicateByKeys(t.slots, slots', e.key);
  }

  lemma RepairIsCut(reading: Reading, t: Tree, h: nat, lo: Bytes, hi: Bound, j: nat, o: Outcome, limit: nat)
    requires Routed(t, h + 1, lo, hi) && Accounted(t, limit) && j < |t.slots| && t.slots[j].payload.Child?
    requires o.Stored? && o.split.Some?
    requires var run := Sealed(t.slots, lo);
             var key := o.split.value.key;
             Less(run[j].key, key) && NextKey(run, j, hi).Admits(key) && |key| + 8 <= MAX_ENTRY
    requires reading.AsWritten? ==>
               && o.split.value.direction.RIGHT?
               && (|o.split.value.key| + 8 > Available(t.bytes) ==> j + 1 != SplitPoint(|t.slots|))
    ensures CutOf(Repair(reading, t.bytes, t.slots, j, o.node, o.split),
                  Tree(false, t.bytes + |o.split.value.key| + 8, Patched(t.slots, j, o)))
  {
    RepairSteps(reading, t, h, lo, hi, j, o, limit);
    SamePlace(reading, t.slots, j, o.node, o.split.value);
    hide Routed, Accounted, Repair, RepairPlace, Finish, Total, LowerBound, Halves, Patched, CutOf;
    hide SmallSlots, BytesTrue, Duplicate, Spliced;
    var (slots', p, e) := RepairPlace(reading, t.slots, j, o.node, o.split.value);
    RepairIsPatched(t.slots, j, o);
    FinishIsCut(reading, false, t.bytes, slots', p, e);
  }

  /** Except for a left split the two readings repair alike. */
  lemma SamePlace(reading: Reading, slots: seq<Slot<Tree>>, j: nat, next: Tree, s: Split<Tree>)
    requires j < |slots| && (reading.AsWritten? ==> s.direction.RIGHT?)
    ensures RepairPlace(reading, slots, j, next, s) == RepairPlace(Documented, slots, j, next, s)
  {
  }

  lemma RepairShrinks(t: Tree, h: nat, lo: Bytes, hi: Bound, j: nat, o: Outcome, limit: nat)
    requires Routed(t, h + 1, lo, hi) && Accounted(t, limit) && j < |t.slots| && t.slots[j].payload.Child?
    requires o.Stored? && o.split.Some?
    requires var run := Sealed(t.slots, lo);
             var key := o.split.value.key;
             Less(run[j].key, key) && NextKey(run, j, hi).Admits(key) && |key| + 8 <= MAX_ENTRY
    ensures var r := Repair(Documented, t.bytes, t.slots, j, o.node, o.split);
            r.Stored? && Shrinks(r, t)
  {
    RepairSteps(Documented, t, h, lo, hi, j, o, limit);
    var (slots', p, e) := RepairPlace(Documented, t.slots, j, o.node, o.split.value);
    assert p == j + 1;
    hide Routed, Accounted, Repair, RepairPlace, Finish, InsertAt, Total, LowerBound, SmallSlots, BytesTrue, Duplicate;
    FinishShrinks(Documented, false, t.bytes, slots', p, e, t);
  }

  lemma DuplicateByKeys(a: seq<Slot<Tree>>, b: seq<Slot<Tree>>, key: Bytes)
    requires Keys(a) == Keys(b)
    ensures Duplicate(a, key) == Duplicate(b, key)
  {
  }

  /** Exchanging a child for another changes no size. */
  lemma SlotsStaySmall(t: Tree, slots: seq<Slot<Tree>>, j: nat, limit: nat)
    requires Accounted(t, limit) && j < |t.slots| == |slots| && t.slots[j].payload.Child?
    requires slots[j].key == t.slots[j].key && slots[j].payload.Child? && slots == t.slots[j := slots[j]]
    ensures BytesTrue(t.leaf, t.bytes, slots) && SmallSlots(slots) && Total(slots) == Total(t.slots)
    ensures Keys(slots) == Keys(t.slots)
  {
    TotalUpdate(t.slots, j, slots[j]);
    forall i | 0 <= i < |slots| ensures slots[i].Size() <= MAX_ENTRY {
      assert AccountedSlot(t.slots[i], limit);
    }
  }
}
