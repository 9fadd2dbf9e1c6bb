/** What an insertion will split, read off the nodes on the way down before anything is changed. */
module TreeForecast {
  import opened ByteOrder
  import opened Slots
  import opened NodeSpec
  import opened TreeSpec

  function ChildFor(t: Tree, key: Bytes): (child: Tree)
    requires Shaped(t) && !t.leaf
    ensures Shaped(child) && child < t
  {
    t.slots[FindChild(Keys(t.slots), key)].payload.node
  }

  /** What a node has to take in: a leaf the new entry, an inner node the key its child hands up. */
  datatype Demand = Demand(key: Bytes, size: nat)

  function Demanded(t: Tree, key: Bytes, value: Bytes): Option<Demand>
    requires Shaped(t)
    decreases t, 0
  {
    if t.leaf then Some(Demand(key, |key| + |value|))
    else
      match UpKey(ChildFor(t, key), key, value)
      case None => None
      case Some(up) => Some(Demand(up, |up| + 8))
  }

  /** The key a node hands up: the one at its split position, if what it has to take in does not fit. */
  function UpKey(t: Tree, key: Bytes, value: Bytes): Option<Bytes>
    requires Shaped(t)
    decreases t, 1
  {
    match Demanded(t, key, value)
    case None => None
    case Some(demand) =>
      if demand.size > Available(t.bytes) && 3 <= |t.slots| then Some(t.slots[SplitPoint(|t.slots|)].key) else None
  }

  /** Where a node that splits would insert what it has to take in. */
  function InsertPosition(t: Tree, key: Bytes, value: Bytes): nat
    requires Shaped(t) && UpKey(t, key, value).Some?
  {
    LowerBound(Keys(t.slots), Demanded(t, key, value).value.key)
  }

  predicate SplitsLeft(reading: Reading, t: Tree, key: Bytes, value: Bytes)
    requires Shaped(t)
  {
    UpKey(t, key, value).Some? && CleavesLeft(reading, InsertPosition(t, key, value), SplitPoint(|t.slots|))
  }

  predicate SplitsAtBoundary(t: Tree, key: Bytes, value: Bytes)
    requires Shaped(t)
  {
    UpKey(t, key, value).Some? && InsertPosition(t, key, value) == SplitPoint(|t.slots|)
  }

  /** The leaf that the key leads to reports that it has no space. */
  predicate LeafOverflows(t: Tree, key: Bytes, value: Bytes)
    requires Shaped(t)
    decreases t
  {
    if t.leaf then LeafInsert(t.bytes, t.slots, Slot(key, Data(value))).NoSpace?
    else LeafOverflows(ChildFor(t, key), key, value)
  }

  /** It does not for a key that is there, nor for an entry that is too big. */
  lemma {:induction false} RefusedBeforeOverflow(t: Tree, key: Bytes, value: Bytes)
    requires Shaped(t) && LeafOverflows(t, key, value)
    ensures Lookup(t, key).None? && |key| + |value| <= MAX_ENTRY
    decreases t
  {
    if !t.leaf {
      RefusedBeforeOverflow(ChildFor(t, key), key, value);
    }
  }

  /** No key that has to go up makes an entry too big for its parent. */
  predicate Promotable(t: Tree, key: Bytes, value: Bytes)
    requires Shaped(t)
    decreases t
  {
    || t.leaf
    || (&& Promotable(ChildFor(t, key), key, value)
        && (Demanded(t, key, value).Some? ==> Demanded(t, key, value).value.size <= MAX_ENTRY))
  }

  /**
   * No split on the way up meets either fault of the code: none inserts right at its split position,
   * and none that a parent has to repair is a left split.
   */
  predicate Clean(t: Tree, key: Bytes, value: Bytes)
    requires Shaped(t)
    decreases t
  {
    && !SplitsAtBoundary(t, key, value)
    && (t.leaf || (Clean(ChildFor(t, key), key, value) && !SplitsLeft(AsWritten, ChildFor(t, key), key, value)))
  }

  // ---- The forecast is right -------------------------------------------------------------------

  /** The recorded split is the one that was forecast. */
  ghost predicate AsForecast(reading: Reading, split: Option<Split<Tree>>, t: Tree, key: Bytes, value: Bytes)
    requires Shaped(t)
  {
    match split
    case None => UpKey(t, key, value).None?
    case Some(s) => UpKey(t, key, value) == Some(s.key) && (s.direction.LEFT? <==> SplitsLeft(reading, t, key, value))
  }

  lemma FinishSplits(reading: Reading, leaf: bool, bytes: nat, slots: seq<Slot<Tree>>, p: nat, e: Slot<Tree>)
    requires p <= |slots|
    ensures var o := Finish(reading, leaf, bytes, slots, e, InsertAt(bytes, slots, p, e));
            var m := SplitPoint(|slots|);
            o.Stored? ==>
              if e.Size() <= Available(bytes) then o.split.None?
              else
                && 3 <= |slots| && o.split.Some? && o.split.value.key == slots[m].key
                && (o.split.value.direction.LEFT? <==> CleavesLeft(reading, LowerBound(Keys(slots), e.key), m))
  {
    hide LowerBound, Total;
  }

  lemma RepairSplits(reading: Reading, bytes: nat, slots: seq<Slot<Tree>>, j: nat, next: Tree, s: Split<Tree>)
    requires j < |slots|
    ensures var o := Repair(reading, bytes, slots, j, next, Some(s));
            var m := SplitPoint(|slots|);
            o.Stored? ==>
              if |s.key| + 8 <= Available(bytes) then o.split.None?
              else
                && 3 <= |slots| && o.split.Some? && o.split.value.key == slots[m].key
                && (o.split.value.direction.LEFT? <==> CleavesLeft(reading, LowerBound(Keys(slots), s.key), m))
  {
    hide Finish, InsertAt;
    var (slots', p, e) := RepairPlace(reading, slots, j, next, s);
    assert Keys(slots') == Keys(slots);
    assert slots'[if 3 <= |slots| then SplitPoint(|slots|) else j].key == slots[if 3 <= |slots| then SplitPoint(|slots|) else j].key;
    FinishSplits(reading, false, bytes, slots', p, e);
  }

  /** One level of the forecast. */
  lemma DemandOf(t: Tree, key: Bytes, value: Bytes)
    requires Shaped(t)
    ensures Demanded(t, key, value) ==
            if t.leaf then Some(Demand(key, |key| + |value|))
            else if UpKey(ChildFor(t, key), key, value).None? then None
            else var up := UpKey(ChildFor(t, key), key, value).value; Some(Demand(up, |up| + 8))
    ensures UpKey(t, key, value) ==
            var demand := Demanded(t, key, value);
            if demand.Some? && demand.value.size > Available(t.bytes) && 3 <= |t.slots|
            then Some(t.slots[SplitPoint(|t.slots|)].key) else None
  {
  }

  lemma CleanOf(t: Tree, key: Bytes, value: Bytes)
    requires Shaped(t)
    ensures Clean(t, key, value) ==
            (&& !SplitsAtBoundary(t, key, value)
             && (t.leaf || (Clean(ChildFor(t, key), key, value) && !SplitsLeft(AsWritten, ChildFor(t, key), key, value))))
  {
  }

  lemma InsertOf(reading: Reading, t: Tree, key: Bytes, value: Bytes)
    requires Shaped(t)
    ensures Insert(reading, t, key, value) ==
            if t.leaf then
              var e := Slot(key, Data(value));
              if Duplicate(t.slots, key) then Threw(DuplicateKey, Tree(true, t.bytes, t.slots))
              else Finish(reading, true, t.bytes, t.slots, e, InsertAt(t.bytes, t.slots, LowerBound(Keys(t.slots), key), e))
            else
              var j := FindChild(Keys(t.slots), key);
              var o := Insert(reading, ChildFor(t, key), key, value);
              if o.Stored? then Repair(reading, t.bytes, t.slots, j, o.node, o.split)
              else Threw(o.error, Tree(false, t.bytes, t.slots[j := Slot(t.slots[j].key, Child(o.node))]))
  {
  }

  /** In every tree and both readings, an insertion that stores its entry splits just what was forecast. */
  lemma {:induction false} ForecastIsRight(reading: Reading, t: Tree, key: Bytes, value: Bytes)
    requires Shaped(t)
    ensures var o := Insert(reading, t, key, value); o.Stored? ==> AsForecast(reading, o.split, t, key, value)
    decreases t
  {
    hide Insert, UpKey, Demanded, Repair, Finish, InsertAt, Duplicate, LowerBound, FindChild, Shaped, Available;
    InsertOf(reading, t, key, value);
    DemandOf(t, key, value);
    if t.leaf {
      FinishSplits(reading, true, t.bytes, t.slots, LowerBound(Keys(t.slots), key), Slot(key, Data(value)));
    } else {
      var j, child := FindChild(Keys(t.slots), key), ChildFor(t, key);
      ForecastIsRight(reading, child, key, value);
      var o := Insert(reading, child, key, value);
      if o.Stored? {
        if o.split.Some? {
          RepairSplits(reading, t.bytes, t.slots, j, o.node, o.split.value);
        } else {
          RepairOfNone(reading, t.bytes, t.slots, j, o.node);
        }
      }
    }
  }

  lemma RepairOfNone(reading: Reading, bytes: nat, slots: seq<Slot<Tree>>, j: nat, next: Tree)
    requires j < |slots|
    ensures var o := Repair(reading, bytes, slots, j, next, None); o.Stored? && o.split.None?
  {
  }
}
