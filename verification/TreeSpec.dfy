/** Recursive insertion as a function on tree values, and what it keeps: routing, depth, sizes and contents. */
module TreeSpec {
  import opened ByteOrder
  import opened Slots
  import opened NodeSpec

  datatype Tree = Tree(leaf: bool, bytes: nat, slots: seq<Slot<Tree>>)

  /** The node after the insertion, even one that threw, and the split it recorded, if any. */
  datatype Outcome = Threw(error: Error, node: Tree) | Stored(node: Tree, split: Option<Split<Tree>>)

  /** A leaf holds values only; an internal node holds at least one child and nothing else. */
  predicate Shaped(t: Tree) {
    if t.leaf then forall i :: 0 <= i < |t.slots| ==> t.slots[i].payload.Data?
    else t.slots != [] && forall i :: 0 <= i < |t.slots| ==> t.slots[i].payload.Child? && Shaped(t.slots[i].payload.node)
  }

  /** The child to descend to: the last entry whose key is not above the sought one. */
  function FindChild(keys: seq<Bytes>, key: Bytes): (j: nat)
    requires keys != []
    ensures j < |keys|
    ensures 0 < j ==> LessEq(keys[j], key)
    ensures forall i :: j < i < |keys| ==> Less(key, keys[i])
  {
    var last := |keys| - 1;
    if last == 0 || LessEq(keys[last], key) then last else FindChild(keys[..last], key)
  }

  function Insert(reading: Reading, t: Tree, key: Bytes, value: Bytes): Outcome
    requires Shaped(t)
    decreases t
  {
    if t.leaf then
      var e := Slot(key, Data(value));
      Finish(reading, true, t.bytes, t.slots, e, LeafInsert(t.bytes, t.slots, e))
    else
      var j := FindChild(Keys(t.slots), key);
      match Insert(reading, t.slots[j].payload.node, key, value)
      case Threw(error, next) => Threw(error, Tree(false, t.bytes, t.slots[j := Slot(t.slots[j].key, Child(next))]))
      case Stored(next, split) => Repair(reading, t.bytes, t.slots, j, next, split)
  }

  /** The node after an attempted insertion: where that failed for lack of space, the node is split. */
  function Finish(reading: Reading, leaf: bool, bytes: nat, slots: seq<Slot<Tree>>, e: Slot<Tree>,
                  attempt: InsertResult<Tree>): Outcome {
    match attempt
    case Thrown(error) => Threw(error, Tree(leaf, bytes, slots))
    case Inserted(bytes', slots') => Stored(Tree(leaf, bytes', slots'), None)
    case NoSpace =>
      match SplitAndInsert(reading, leaf, bytes, slots, e)
      case SplitThrown(error) => Threw(error, Tree(leaf, bytes, slots))
      case SplitDone(original, sibling, direction, splitKey) =>
        Stored(Tree(leaf, Total(original), original),
               Some(Split(direction, splitKey, Tree(leaf, Total(sibling), sibling))))
  }

  /** The parent's part: entry j's child has become `next`, which may have split. */
  function Repair(reading: Reading, bytes: nat, slots: seq<Slot<Tree>>, j: nat, next: Tree,
                  split: Option<Split<Tree>>): Outcome
    requires j < |slots|
  {
    if split.None? then
      Stored(Tree(false, bytes, slots[j := Slot(slots[j].key, Child(next))]), None)
    else
      var (slots', p, e) := RepairPlace(reading, slots, j, next, split.value);
      Finish(reading, false, bytes, slots', e, InsertAt(bytes, slots', p, e))
  }

  /** Search by routing, as the insertion descends. */
  function Lookup(t: Tree, key: Bytes): Option<Bytes>
    requires Shaped(t)
    decreases t
  {
    if t.leaf then
      var p := LowerBound(Keys(t.slots), key);
      if Duplicate(t.slots, key) then Some(t.slots[p].payload.value) else None
    else
      Lookup(t.slots[FindChild(Keys(t.slots), key)].payload.node, key)
  }

  // ---- Routing -------------------------------------------------------------------------------

  /** An upper bound on keys. */
  datatype Bound = Before(key: Bytes) | Top {
    predicate Admits(k: Bytes) {
      Before? ==> Less(k, key)
    }
  }

  /**
   * A tree of height h, all leaves equally deep, whose keys lie in [lo, hi): leaves are sorted,
   * internal nodes have the sentinel key first, and each child's keys lie between its own key
   * (the node's lower bound, for the sentinel) and the next.
   */
  ghost predicate Routed(t: Tree, h: nat, lo: Bytes, hi: Bound)
    decreases h, 0
  {
    && (t.leaf <==> h == 0)
    && if h == 0 then
         && Sorted(Keys(t.slots))
         && forall i :: 0 <= i < |t.slots| ==>
              t.slots[i].payload.Data? && LessEq(lo, t.slots[i].key) && hi.Admits(t.slots[i].key)
       else
         && t.slots != [] && t.slots[0].key == []
         && RoutedRun(Sealed(t.slots, lo), h - 1, hi)
  }

  /** The entries with the sentinel replaced by the lower bound it stands for. */
  ghost function Sealed<N>(slots: seq<Slot<N>>, lo: Bytes): (run: seq<Slot<N>>)
    requires slots != []
  {
    slots[0 := Slot(lo, slots[0].payload)]
  }

  ghost function NextKey<N>(run: seq<Slot<N>>, i: nat, hi: Bound): Bound {
    if i + 1 < |run| then Before(run[i + 1].key) else hi
  }

  ghost predicate RoutedSlot(run: seq<Slot<Tree>>, i: nat, h: nat, hi: Bound)
    requires i < |run|
    decreases h, 1
  {
    && run[i].payload.Child?
    && NextKey(run, i, hi).Admits(run[i].key)
    && Routed(run[i].payload.node, h, run[i].key, NextKey(run, i, hi))
  }

  /** A row of subtrees side by side, each between its key and the next. */
  ghost predicate RoutedRun(run: seq<Slot<Tree>>, h: nat, hi: Bound)
    decreases h, 2
  {
    run != [] && forall i :: 0 <= i < |run| ==> RoutedSlot(run, i, h, hi)
  }

  lemma RoutedChild(t: Tree, h: nat, lo: Bytes, hi: Bound, i: nat)
    requires h > 0 && Routed(t, h, lo, hi) && i < |t.slots|
    ensures RoutedSlot(Sealed(t.slots, lo), i, h - 1, hi)
  {
  }

  lemma SlotOfConcat(a: seq<Slot<Tree>>, b: seq<Slot<Tree>>, i: nat, h: nat, hi: Bound)
    requires b != [] && i < |a + b|
    ensures RoutedSlot(a + b, i, h, hi)
              == if i < |a| then RoutedSlot(a, i, h, Before(b[0].key)) else RoutedSlot(b, i - |a|, h, hi)
  {
  }

  /** A row is routed exactly when its two parts are, the first below the second's first key. */
  lemma RunCut(a: seq<Slot<Tree>>, b: seq<Slot<Tree>>, h: nat, hi: Bound)
    requires a != [] && b != []
    ensures RoutedRun(a + b, h, hi) <==> RoutedRun(a, h, Before(b[0].key)) && RoutedRun(b, h, hi)
  {
    var run := a + b;
    if RoutedRun(run, h, hi) {
      forall i | 0 <= i < |a| ensures RoutedSlot(a, i, h, Before(b[0].key)) {
        SlotOfConcat(a, b, i, h, hi);
        assert RoutedSlot(run, i, h, hi);
      }
      forall i | 0 <= i < |b| ensures RoutedSlot(b, i, h, hi) {
        SlotOfConcat(a, b, |a| + i, h, hi);
        assert RoutedSlot(run, |a| + i, h, hi);
      }
    }
    if RoutedRun(a, h, Before(b[0].key)) && RoutedRun(b, h, hi) {
      forall i | 0 <= i < |run| ensures RoutedSlot(run, i, h, hi) {
        SlotOfConcat(a, b, i, h, hi);
      }
    }
  }

  /** One subtree of a row may be replaced by any row that fills the same interval. */
  lemma RunReplace(run: seq<Slot<Tree>>, j: nat, mid: seq<Slot<Tree>>, h: nat, hi: Bound)
    requires j < |run| && RoutedRun(run, h, hi)
    requires mid != [] && mid[0].key == run[j].key && RoutedRun(mid, h, NextKey(run, j, hi))
    ensures RoutedRun(run[..j] + mid + run[j + 1..], h, hi)
  {
    var left, right := run[..j], run[j + 1..];
    assert run == left + run[j..] && run[j..] == [run[j]] + right;
    if right != [] {
      RunSuffix(run, j, h, hi);
      RunCut([run[j]], right, h, hi);
      RunCut(mid, right, h, hi);
    } else {
      assert mid + right == mid;
    }
    assert left + mid + right == left + (mid + right);
    if left != [] {
      RunCut(left, run[j..], h, hi);
      RunCut(left, mid + right, h, hi);
    } else {
      assert left + (mid + right) == mid + right;
    }
  }

  lemma RunSuffix(run: seq<Slot<Tree>>, j: nat, h: nat, hi: Bound)
    requires j < |run| && RoutedRun(run, h, hi)
    ensures RoutedRun(run[j..], h, hi)
  {
    assert run == run[..j] + run[j..];
    if j > 0 {
      RunCut(run[..j], run[j..], h, hi);
    } else {
      assert run[j..] == run;
    }
  }

  lemma {:induction false} RunSorted(run: seq<Slot<Tree>>, h: nat, hi: Bound, i: nat, j: nat)
    requires RoutedRun(run, h, hi) && i <= j < |run|
    ensures i < j ==> Less(run[i].key, run[j].key)
    ensures hi.Admits(run[j].key)
    decreases |run| - i, |run| - j
  {
    assert RoutedSlot(run, i, h, hi) && RoutedSlot(run, j, h, hi);
    if i + 1 < j {
      RunSorted(run, h, hi, i + 1, j);
      LessTransitive(run[i].key, run[i + 1].key, run[j].key);
    }
    if j + 1 < |run| {
      RunSorted(run, h, hi, j, |run| - 1);
      if hi.Before? {
        LessTransitive(run[j].key, run[|run| - 1].key, hi.key);
      }
    }
  }

  lemma {:induction false} RoutedIsShaped(t: Tree, h: nat, lo: Bytes, hi: Bound)
    requires Routed(t, h, lo, hi)
    ensures Shaped(t)
    decreases h
  {
    if h > 0 {
      var run := Sealed(t.slots, lo);
      forall i | 0 <= i < |t.slots| ensures t.slots[i].payload.Child? && Shaped(t.slots[i].payload.node) {
        assert RoutedSlot(run, i, h - 1, hi);
        RoutedIsShaped(run[i].payload.node, h - 1, run[i].key, NextKey(run, i, hi));
      }
    }
  }

  // ---- Contents ------------------------------------------------------------------------------

  /** The entries stored in a tree, leaves left to right. */
  ghost function Contents(t: Tree): seq<Slot<Tree>>
    decreases t
  {
    if t.leaf then t.slots else RunContents(t.slots)
  }

  ghost function RunContents(run: seq<Slot<Tree>>): seq<Slot<Tree>>
    decreases run
  {
    if run == [] then []
    else (if run[0].payload.Child? then Contents(run[0].payload.node) else []) + RunContents(run[1..])
  }

  lemma {:induction false} ContentsConcat(a: seq<Slot<Tree>>, b: seq<Slot<Tree>>)
    ensures RunContents(a + b) == RunContents(a) + RunContents(b)
  {
    if a == [] {
      assert a + b == b;
    } else {
      assert (a + b)[1..] == a[1..] + b;
      ContentsConcat(a[1..], b);
    }
  }

  /** The contents of a row depend on the children alone, not on the keys. */
  lemma {:induction false} ContentsIgnoreKeys(a: seq<Slot<Tree>>, b: seq<Slot<Tree>>)
    requires Payloads(a) == Payloads(b)
    ensures RunContents(a) == RunContents(b)
  {
    if a != [] {
      assert |Payloads(b)| == |a|;
      assert Payloads(a)[0] == Payloads(b)[0];
      assert Payloads(a[1..]) == Payloads(a)[1..] == Payloads(b)[1..] == Payloads(b[1..]);
      ContentsIgnoreKeys(a[1..], b[1..]);
    }
  }

  ghost predicate Within(s: seq<Slot<Tree>>, lo: Bytes, hi: Bound) {
    forall i :: 0 <= i < |s| ==> LessEq(lo, s[i].key) && hi.Admits(s[i].key)
  }

  /** A routed tree stores keys of its interval only, strictly sorted. */
  lemma {:induction false} RoutedContents(t: Tree, h: nat, lo: Bytes, hi: Bound)
    requires Routed(t, h, lo, hi)
    ensures Within(Contents(t), lo, hi) && Sorted(Keys(Contents(t)))
    decreases h, 1, 0
  {
    if h > 0 {
      var run := Sealed(t.slots, lo);
      RoutedRunContents(run, h - 1, hi);
      assert Payloads(run) == Payloads(t.slots);
      ContentsIgnoreKeys(run, t.slots);
    }
  }

  lemma {:induction false} RoutedRunContents(run: seq<Slot<Tree>>, h: nat, hi: Bound)
    requires RoutedRun(run, h, hi)
    ensures Within(RunContents(run), run[0].key, hi) && Sorted(Keys(RunContents(run)))
    decreases h, 2, |run|
  {
    assert RoutedSlot(run, 0, h, hi);
    var head, rest := Contents(run[0].payload.node), run[1..];
    RoutedContents(run[0].payload.node, h, run[0].key, NextKey(run, 0, hi));
    if rest == [] {
      assert RunContents(run) == head;
    } else {
      RunSuffix(run, 1, h, hi);
      RoutedRunContents(rest, h, hi);
      RunSorted(run, h, hi, 0, 1);
      RunSorted(run, h, hi, 1, 1);
      JoinContents(head, RunContents(rest), run[0].key, rest[0].key, hi);
    }
  }

  lemma JoinContents(a: seq<Slot<Tree>>, b: seq<Slot<Tree>>, lo: Bytes, mid: Bytes, hi: Bound)
    requires Within(a, lo, Before(mid)) && Within(b, mid, hi)
    requires Sorted(Keys(a)) && Sorted(Keys(b))
    requires Less(lo, mid) && hi.Admits(mid)
    ensures Within(a + b, lo, hi) && Sorted(Keys(a + b))
  {
    forall i | 0 <= i < |a| ensures hi.Admits(a[i].key) {
      if hi.Before? {
        LessTransitive(a[i].key, mid, hi.key);
      }
    }
    forall i | 0 <= i < |b| ensures LessEq(lo, b[i].key) {
      LessLessEq(lo, mid, b[i].key);
      LessAsymmetric(lo, b[i].key);
    }
    var keys := Keys(a + b);
    forall i, j | 0 <= i < j < |keys| ensures Less(keys[i], keys[j]) {
      if j < |a| {
        assert Less(Keys(a)[i], Keys(a)[j]);
      } else if i >= |a| {
        assert Less(Keys(b)[i - |a|], Keys(b)[j - |a|]);
      } else {
        LessLessEq(a[i].key, mid, b[j - |a|].key);
      }
    }
  }
}
