/**
 * What insertion and splitting do to one node's entries and byte count, as functions of the
 * entries. The same functions serve leaves and internal nodes, as the templates of `Node::Ops` do.
 */
module NodeSpec {
  import opened ByteOrder
  import opened Slots

  const CAPACITY: nat := 4096
  const MAX_ENTRY: nat := CAPACITY / 4
  const SIZE_T_RANGE: nat := 0x1_0000_0000_0000_0000

  datatype Direction = LEFT | RIGHT

  datatype Error = DuplicateKey | EntryTooBig | SplitNotRequired

  /**
   * AsWritten is the code. Documented differs in two places: an insertion right at the split
   * position cleaves the left side, and a left split is repaired by handing the old key to the
   * new node and the split key to the old one.
   */
  datatype Reading = AsWritten | Documented

  datatype InsertResult<+N> =
    | Thrown(error: Error)
    | NoSpace
    | Inserted(bytes: nat, slots: seq<Slot<N>>)

  datatype SplitResult<+N> =
    | SplitThrown(error: Error)
    | SplitDone(original: seq<Slot<N>>, sibling: seq<Slot<N>>, direction: Direction, key: Bytes)

  /** What a node that split records for its parent. */
  datatype Split<+N> = Split(direction: Direction, key: Bytes, sibling: N)

  /** `capacity - used` in unsigned arithmetic: it wraps on an overfull node. */
  function Available(used: nat): nat {
    (CAPACITY - used) % SIZE_T_RANGE
  }

  function InsertAt<N>(bytes: nat, slots: seq<Slot<N>>, p: nat, e: Slot<N>): InsertResult<N>
    requires p <= |slots|
  {
    if e.Size() > MAX_ENTRY then Thrown(EntryTooBig)
    else if e.Size() > Available(bytes) then NoSpace
    else Inserted(bytes + e.Size(), Spliced(slots, p, e))
  }

  predicate Duplicate<N>(slots: seq<Slot<N>>, key: Bytes) {
    var p := LowerBound(Keys(slots), key);
    p < |slots| && slots[p].key == key
  }

  function LeafInsert<N>(bytes: nat, slots: seq<Slot<N>>, e: Slot<N>): InsertResult<N> {
    if Duplicate(slots, e.key) then Thrown(DuplicateKey)
    else InsertAt(bytes, slots, LowerBound(Keys(slots), e.key), e)
  }

  /** Where a node of n entries is split; the rounding accounts for the entry about to be inserted. */
  function SplitPoint(n: nat): nat {
    (n + 1) / 2
  }

  predicate CleavesLeft(reading: Reading, p: nat, m: nat) {
    p < m || (reading.Documented? && p == m)
  }

  /** The moves of the split: entries go to the sibling with the new entry among them. */
  function SplitSlots<N>(reading: Reading, leaf: bool, slots: seq<Slot<N>>, p: nat, e: Slot<N>): (r: SplitResult<N>)
    requires p <= |slots| && 3 <= |slots|
    ensures r.SplitDone?
  {
    var m := SplitPoint(|slots|);
    var kept := if leaf then slots else slots[m := slots[m].(key := [])];
    if CleavesLeft(reading, p, m) then
      SplitDone(kept[m..], kept[..p] + [e] + kept[p..m], LEFT, slots[m].key)
    else
      SplitDone(kept[..m], kept[m..p] + [e] + kept[p..], RIGHT, slots[m].key)
  }

  function SplitAndInsert<N>(reading: Reading, leaf: bool, bytes: nat, slots: seq<Slot<N>>, e: Slot<N>): SplitResult<N> {
    if e.Size() > MAX_ENTRY then SplitThrown(EntryTooBig)
    else if e.Size() < Available(bytes) || |slots| < 3 then SplitThrown(SplitNotRequired)
    else if Duplicate(slots, e.key) then SplitThrown(DuplicateKey)
    else SplitSlots(reading, leaf, slots, LowerBound(Keys(slots), e.key), e)
  }

  /** The entries, position and new entry with which a child's split is repaired. */
  function RepairPlace<N>(reading: Reading, slots: seq<Slot<N>>, j: nat, next: N, s: Split<N>)
    : (place: (seq<Slot<N>>, nat, Slot<N>))
    requires j < |slots|
    ensures |place.0| == |slots| && place.1 <= |slots|
  {
    if s.direction.RIGHT? then
      (slots[j := Slot(slots[j].key, Child(next))], j + 1, Slot(s.key, Child(s.sibling)))
    else if reading.AsWritten? then
      (slots[j := Slot(slots[j].key, Child(next))], j, Slot(s.key, Child(s.sibling)))
    else
      (slots[j := Slot(slots[j].key, Child(s.sibling))], j + 1, Slot(s.key, Child(next)))
  }

  /** The split as the code moves it: one range of the entries leaves, the new entry within it. */
  lemma MovesAreSplit<N>(reading: Reading, leaf: bool, slots: seq<Slot<N>>, kept: seq<Slot<N>>, p: nat, e: Slot<N>,
                         direction: Direction, begin: nat, end: nat)
    requires p <= |slots| && 3 <= |slots|
    requires kept == if leaf then slots else slots[SplitPoint(|slots|) := slots[SplitPoint(|slots|)].(key := [])]
    requires (direction, begin, end) ==
             if CleavesLeft(reading, p, SplitPoint(|slots|)) then (LEFT, 0, SplitPoint(|slots|))
             else (RIGHT, SplitPoint(|slots|), |slots|)
    ensures SplitSlots(reading, leaf, slots, p, e) ==
            SplitDone(kept[..begin] + kept[end..], kept[begin..p] + [e] + kept[p..end], direction,
                      slots[SplitPoint(|slots|)].key)
  {
  }

  /**
   * The old entries are shared out evenly, an odd one going below the split key, and the sibling takes
   * the new entry too. The side that moves is the one in whose half that entry belongs.
   */
  lemma SplitHalves<N>(reading: Reading, leaf: bool, slots: seq<Slot<N>>, p: nat, e: Slot<N>)
    requires p <= |slots| && 3 <= |slots|
    ensures var n, r := |slots|, SplitSlots(reading, leaf, slots, p, e);
            && |r.original| == (if r.direction.LEFT? then n / 2 else n - n / 2)
            && |r.original| + |r.sibling| == n + 1
            && (r.direction.LEFT? <==> if reading.AsWritten? then 2 * p < n else 2 * p <= n + 1)
            && (Sorted(Keys(slots)) ==> exists b: nat :: Halving(slots, r.key, b))
  {
    if Sorted(Keys(slots)) {
      var keys, b := Keys(slots), SplitPoint(|slots|);
      forall i | 0 <= i < |slots| ensures Less(slots[i].key, slots[b].key) <==> i < b {
        LessIrreflexive(slots[b].key);
        if i < b {
          assert Less(keys[i], keys[b]);
        } else if b < i {
          assert Less(keys[b], keys[i]);
          LessAsymmetric(keys[b], keys[i]);
        }
      }
      assert Halving(slots, slots[b].key, b);
    }
  }

  /** It is one of the keys, and just half of the entries, rounded up, have lower ones. */
  ghost predicate Halving<N>(slots: seq<Slot<N>>, key: Bytes, b: nat) {
    && |slots| <= 2 * b <= |slots| + 1 && b < |slots| && slots[b].key == key
    && forall i :: 0 <= i < |slots| ==> (Less(slots[i].key, key) <==> i < b)
  }

  // ---- A split is a cut of the spliced sequence ----------------------------------------------

  ghost function Lower<N>(r: SplitResult<N>): seq<Slot<N>>
    requires r.SplitDone?
  {
    if r.direction.LEFT? then r.sibling else r.original
  }

  ghost function Upper<N>(r: SplitResult<N>): seq<Slot<N>>
    requires r.SplitDone?
  {
    if r.direction.LEFT? then r.original else r.sibling
  }

  ghost function CutPoint(reading: Reading, p: nat, m: nat): nat {
    if CleavesLeft(reading, p, m) then m + 1 else m
  }

  /** An internal node's upper half starts with the empty sentinel key. */
  ghost function Headed<N>(leaf: bool, slots: seq<Slot<N>>): seq<Slot<N>>
    requires slots != []
  {
    if leaf then slots else slots[0 := slots[0].(key := [])]
  }

  /**
   * Off the boundary (or with the boundary cleaved left) the two halves are the spliced entries
   * cut in two, the split key being the key at the cut.
   */
  lemma SplitIsCut<N>(reading: Reading, leaf: bool, slots: seq<Slot<N>>, p: nat, e: Slot<N>)
    requires p <= |slots| && 3 <= |slots|
    requires reading.Documented? || p != SplitPoint(|slots|)
    ensures var r := SplitSlots(reading, leaf, slots, p, e);
            var all := Spliced(slots, p, e);
            var c := CutPoint(reading, p, SplitPoint(|slots|));
            && 0 < c < |all|
            && Lower(r) == all[..c]
            && Upper(r) == Headed(leaf, all[c..])
            && r.key == all[c].key
            && |slots| <= 2 * (if p < c then c - 1 else c) <= |slots| + 1
  {
    hide SplitSlots, Spliced, Headed;
    if CleavesLeft(reading, p, SplitPoint(|slots|)) {
      LeftIsCut(reading, leaf, slots, p, e);
    } else {
      RightIsCut(reading, leaf, slots, p, e);
    }
  }

  lemma LeftIsCut<N>(reading: Reading, leaf: bool, slots: seq<Slot<N>>, p: nat, e: Slot<N>)
    requires p <= SplitPoint(|slots|) && 3 <= |slots| && CleavesLeft(reading, p, SplitPoint(|slots|))
    ensures var r := SplitSlots(reading, leaf, slots, p, e);
            var all, c := Spliced(slots, p, e), SplitPoint(|slots|) + 1;
            && 0 < c < |all| && r.direction.LEFT?
            && r.sibling == all[..c] && r.original == Headed(leaf, all[c..]) && r.key == all[c].key
  {
    hide Spliced, Headed;
    var m := SplitPoint(|slots|);
    var kept := if leaf then slots else slots[m := slots[m].(key := [])];
    CutBehind(slots, p, e, m);
    KeptBelow(slots, kept, p, m);
    KeptAbove(leaf, slots, kept, m);
  }

  lemma RightIsCut<N>(reading: Reading, leaf: bool, slots: seq<Slot<N>>, p: nat, e: Slot<N>)
    requires SplitPoint(|slots|) < p <= |slots| && 3 <= |slots|
    ensures var r := SplitSlots(reading, leaf, slots, p, e);
            var all, c := Spliced(slots, p, e), SplitPoint(|slots|);
            && 0 < c < |all| && r.direction.RIGHT?
            && r.original == all[..c] && r.sibling == Headed(leaf, all[c..]) && r.key == all[c].key
  {
    hide Spliced, Headed;
    var m := SplitPoint(|slots|);
    var kept := if leaf then slots else slots[m := slots[m].(key := [])];
    CutBefore(slots, p, e, m);
    KeptBelow(slots, kept, m, m);
    HeadedRange(leaf, slots, kept, m, p, e);
  }

  /** Cutting the spliced entries past the new one. */
  lemma CutBehind<T>(s: seq<T>, p: nat, e: T, m: nat)
    requires p <= m < |s|
    ensures var all := Spliced(s, p, e);
            all[..m + 1] == s[..p] + [e] + s[p..m] && all[m + 1..] == s[m..] && all[m + 1] == s[m]
  {
  }

  /** Cutting them before it. */
  lemma CutBefore<T>(s: seq<T>, p: nat, e: T, m: nat)
    requires m < p <= |s|
    ensures var all := Spliced(s, p, e);
            all[..m] == s[..m] && all[m..] == s[m..p] + [e] + s[p..] && all[m] == s[m]
  {
  }

  /** Clearing the key at m leaves the entries below as they are. */
  lemma KeptBelow<T>(s: seq<T>, kept: seq<T>, p: nat, m: nat)
    requires p <= m < |s| && |kept| == |s| && kept == s[m := kept[m]]
    ensures kept[..p] == s[..p] && kept[p..m] == s[p..m]
  {
  }

  lemma KeptAbove<N>(leaf: bool, s: seq<Slot<N>>, kept: seq<Slot<N>>, m: nat)
    requires m < |s| && kept == if leaf then s else s[m := s[m].(key := [])]
    ensures kept[m..] == Headed(leaf, s[m..])
  {
  }

  lemma HeadedRange<N>(leaf: bool, s: seq<Slot<N>>, kept: seq<Slot<N>>, m: nat, p: nat, e: Slot<N>)
    requires m < p <= |s| && kept == if leaf then s else s[m := s[m].(key := [])]
    ensures kept[m..p] + [e] + kept[p..] == Headed(leaf, s[m..p] + [e] + s[p..])
  {
  }

  /** At the boundary, as written, the upper half is headed by the new entry while the split key is the next one's. */
  lemma SplitAtBoundary<N>(leaf: bool, slots: seq<Slot<N>>, e: Slot<N>)
    requires 3 <= |slots|
    ensures var m := SplitPoint(|slots|);
            var r := SplitSlots(AsWritten, leaf, slots, m, e);
            && r.direction.RIGHT?
            && r.original == slots[..m]
            && r.sibling == [e] + Headed(leaf, slots[m..])
            && r.key == slots[m].key
  {
  }

  // ---- Leaf splits ---------------------------------------------------------------------------

  /** No entry is lost, doubled or reordered by a leaf split, at any insert position. */
  lemma LeafSplitConserves<N>(reading: Reading, slots: seq<Slot<N>>, p: nat, e: Slot<N>)
    requires p <= |slots| && 3 <= |slots|
    ensures var r := SplitSlots(reading, true, slots, p, e);
            Lower(r) + Upper(r) == Spliced(slots, p, e)
  {
  }

  lemma TwoParts<T>(s: seq<T>, c: nat, a: seq<T>, b: seq<T>)
    requires c <= |s| && a == s[..c] && b == s[c..]
    ensures a + b == s
  {
  }

  lemma ThreeParts<T>(a: seq<T>, b: seq<T>, c: seq<T>)
    ensures a + (b + c) == a + b + c
  {
  }

  /** Everything below the split key on one side, everything else on the other. */
  ghost predicate Separated<N>(lower: seq<Slot<N>>, key: Bytes, upper: seq<Slot<N>>) {
    && (forall i :: 0 <= i < |lower| ==> Less(lower[i].key, key))
    && (forall i :: 0 <= i < |upper| ==> LessEq(key, upper[i].key))
  }

  lemma SortedCutSeparates<N>(all: seq<Slot<N>>, c: nat)
    requires Sorted(Keys(all)) && c < |all|
    ensures Separated(all[..c], all[c].key, all[c..])
  {
    var keys := Keys(all);
    forall i | 0 <= i < c ensures Less(all[i].key, all[c].key) {
      assert Less(keys[i], keys[c]);
    }
    forall i | 0 <= i < |all| - c ensures LessEq(all[c].key, all[c..][i].key) {
      if i == 0 {
        LessIrreflexive(all[c].key);
      } else {
        assert Less(keys[c], keys[c + i]);
        LessAsymmetric(keys[c], keys[c + i]);
      }
    }
  }

  lemma KeysSpliced<N>(slots: seq<Slot<N>>, p: nat, e: Slot<N>)
    requires p <= |slots|
    ensures Keys(Spliced(slots, p, e)) == Spliced(Keys(slots), p, e.key)
  {
  }

  /** The code separates the halves exactly when the key is not inserted at the split position. */
  lemma LeafSplitSeparatesIff<N>(slots: seq<Slot<N>>, e: Slot<N>)
    requires 3 <= |slots| && Sorted(Keys(slots)) && e.key !in Keys(slots)
    ensures var p := LowerBound(Keys(slots), e.key);
            var r := SplitSlots(AsWritten, true, slots, p, e);
            Separated(Lower(r), r.key, Upper(r)) <==> p != SplitPoint(|slots|)
  {
    var p := LowerBound(Keys(slots), e.key);
    var r := SplitSlots(AsWritten, true, slots, p, e);
    if p == SplitPoint(|slots|) {
      SplitAtBoundary(true, slots, e);
      LowerBoundSorted(Keys(slots), e.key);
      assert Upper(r)[0] == e && Less(e.key, Keys(slots)[p]);
    } else {
      LeafSplitIsSeparated(AsWritten, slots, e);
    }
  }

  /** With the boundary cleaved left the halves are separated at every insert position. */
  lemma LeafSplitIsSeparated<N>(reading: Reading, slots: seq<Slot<N>>, e: Slot<N>)
    requires 3 <= |slots| && Sorted(Keys(slots)) && e.key !in Keys(slots)
    requires reading.Documented? || LowerBound(Keys(slots), e.key) != SplitPoint(|slots|)
    ensures var p := LowerBound(Keys(slots), e.key);
            var r := SplitSlots(reading, true, slots, p, e);
            Separated(Lower(r), r.key, Upper(r))
  {
    var p := LowerBound(Keys(slots), e.key);
    SplitIsCut(reading, true, slots, p, e);
    KeysSpliced(slots, p, e);
    SortedSpliced(Keys(slots), e.key);
    SortedCutSeparates(Spliced(slots, p, e), CutPoint(reading, p, SplitPoint(|slots|)));
  }

  // ---- Internal splits -----------------------------------------------------------------------

  /** An internal node's entries: strictly sorted keys, the empty sentinel key first (and so nowhere else). */
  ghost predicate SentinelSorted<N>(slots: seq<Slot<N>>) {
    slots != [] && slots[0].key == [] && Sorted(Keys(slots))
  }

  /** All pointers survive an internal split, the new one among them, at any insert position. */
  lemma InternalSplitKeepsChildren<N>(reading: Reading, slots: seq<Slot<N>>, p: nat, e: Slot<N>)
    requires p <= |slots| && 3 <= |slots|
    ensures var r := SplitSlots(reading, false, slots, p, e);
            Payloads(Lower(r)) + Payloads(Upper(r)) == Payloads(Spliced(slots, p, e))
  {
    hide SplitSlots;
    var r, m := SplitSlots(reading, false, slots, p, e), SplitPoint(|slots|);
    var all := Spliced(slots, p, e);
    if reading.Documented? || p != m {
      SplitIsCut(reading, false, slots, p, e);
      TwoParts(all, CutPoint(reading, p, m), Lower(r), all[CutPoint(reading, p, m)..]);
    } else {
      SplitAtBoundary(false, slots, e);
      ThreeParts(slots[..m], [e], slots[m..]);
    }
    PayloadsConcat(Lower(r), Upper(r), all);
  }

  lemma PayloadsConcat<N>(a: seq<Slot<N>>, b: seq<Slot<N>>, all: seq<Slot<N>>)
    requires |all| == |a| + |b|
    requires forall i :: 0 <= i < |all| ==> (a + b)[i].payload == all[i].payload
    ensures Payloads(a) + Payloads(b) == Payloads(all)
  {
  }

  /** What two parts have between them, entry by entry. */
  lemma PayloadsOfParts<N>(a: seq<Slot<N>>, b: seq<Slot<N>>, all: seq<Slot<N>>)
    requires Payloads(a) + Payloads(b) == Payloads(all)
    ensures |all| == |a| + |b|
    ensures forall i :: 0 <= i < |a| ==> a[i].payload == all[i].payload
    ensures forall i :: 0 <= i < |b| ==> b[i].payload == all[|a| + i].payload
  {
    var joined := Payloads(a) + Payloads(b);
    assert |all| == |joined| == |a| + |b|;
    forall i | 0 <= i < |a| ensures a[i].payload == all[i].payload {
      assert joined[i] == Payloads(a)[i];
    }
    forall i | 0 <= i < |b| ensures b[i].payload == all[|a| + i].payload {
      assert joined[|a| + i] == Payloads(b)[i];
    }
  }

  /** Off the boundary the split key alone leaves the keys, its place taken by a sentinel. */
  lemma InternalSplitMovesKeyUp<N>(reading: Reading, slots: seq<Slot<N>>, p: nat, e: Slot<N>)
    requires p <= |slots| && 3 <= |slots|
    requires reading.Documented? || p != SplitPoint(|slots|)
    ensures var r := SplitSlots(reading, false, slots, p, e);
            && Upper(r) != [] && Upper(r)[0].key == []
            && Keys(Lower(r)) + [r.key] + Keys(Upper(r))[1..] == Keys(Spliced(slots, p, e))
  {
    hide SplitSlots, Spliced, CutPoint;
    SplitIsCut(reading, false, slots, p, e);
    KeysAroundCut(Spliced(slots, p, e), CutPoint(reading, p, SplitPoint(|slots|)));
  }

  lemma KeysAroundCut<N>(all: seq<Slot<N>>, c: nat)
    requires c < |all|
    ensures var lower, upper := all[..c], Headed(false, all[c..]);
            && upper != [] && upper[0].key == []
            && Keys(lower) + [all[c].key] + Keys(upper)[1..] == Keys(all)
  {
    var upper := Headed(false, all[c..]);
    var above := Keys(upper)[1..];
    forall i | c < i < |all| ensures above[i - c - 1] == all[i].key {
      assert above[i - c - 1] == upper[i - c].key;
    }
  }

  lemma SplitHalvesAreSorted<N>(reading: Reading, slots: seq<Slot<N>>, e: Slot<N>)
    requires 3 <= |slots| && SentinelSorted(slots) && e.key !in Keys(slots)
    requires reading.Documented? || LowerBound(Keys(slots), e.key) != SplitPoint(|slots|)
    ensures var r := SplitSlots(reading, false, slots, LowerBound(Keys(slots), e.key), e);
            SentinelSorted(Lower(r)) && SentinelSorted(Upper(r))
  {
    hide SplitSlots, LowerBound;
    var p := LowerBound(Keys(slots), e.key);
    SplitIsCut(reading, false, slots, p, e);
    KeysSpliced(slots, p, e);
    SortedSpliced(Keys(slots), e.key);
    SentinelFirst(slots, e);
    CutIsSorted(Spliced(slots, p, e), CutPoint(reading, p, SplitPoint(|slots|)));
  }

  /** Both parts of sorted internal entries are sorted, each with a sentinel. */
  lemma CutIsSorted<N>(all: seq<Slot<N>>, c: nat)
    requires SentinelSorted(all) && 0 < c < |all|
    ensures SentinelSorted(all[..c]) && SentinelSorted(Headed(false, all[c..]))
  {
  }

  /** A new key never sorts before the sentinel. */
  lemma SentinelFirst<N>(slots: seq<Slot<N>>, e: Slot<N>)
    requires SentinelSorted(slots) && e.key !in Keys(slots)
    ensures 0 < LowerBound(Keys(slots), e.key)
  {
  }

  /** The code leaves two well-formed internal nodes exactly when the key is not inserted at the split position. */
  lemma InternalSplitSortedIff<N>(slots: seq<Slot<N>>, e: Slot<N>)
    requires 3 <= |slots| && SentinelSorted(slots) && e.key !in Keys(slots)
    ensures var p := LowerBound(Keys(slots), e.key);
            var r := SplitSlots(AsWritten, false, slots, p, e);
            (SentinelSorted(Lower(r)) && SentinelSorted(Upper(r))) <==> p != SplitPoint(|slots|)
  {
    var p := LowerBound(Keys(slots), e.key);
    if p == SplitPoint(|slots|) {
      SplitAtBoundary(false, slots, e);
      var r := SplitSlots(AsWritten, false, slots, p, e);
      SentinelFirst(slots, e);
      assert Upper(r)[0].key == e.key && Keys(slots)[0] == [];
    } else {
      SplitHalvesAreSorted(AsWritten, slots, e);
    }
  }

  // ---- Space ---------------------------------------------------------------------------------

  /** The byte count is the true sum, or (an internal node that never split) misses the sentinel's pointer. */
  ghost predicate BytesTrue<N>(leaf: bool, bytes: nat, slots: seq<Slot<N>>) {
    bytes == Total(slots) || (!leaf && bytes + 8 == Total(slots))
  }

  ghost predicate SmallSlots<N>(slots: seq<Slot<N>>) {
    forall i :: 0 <= i < |slots| ==> slots[i].Size() <= MAX_ENTRY
  }

  lemma AvailableExact(used: nat)
    requires used <= CAPACITY
    ensures Available(used) == CAPACITY - used
  {
  }

  lemma NoSpaceMeansFull(bytes: nat, size: nat)
    requires size <= MAX_ENTRY && size > Available(bytes)
    ensures bytes + size > CAPACITY
  {
  }

  lemma NoSpaceMeansManyEntries<N>(leaf: bool, bytes: nat, slots: seq<Slot<N>>, size: nat)
    requires size <= MAX_ENTRY && size > Available(bytes)
    requires BytesTrue(leaf, bytes, slots) && SmallSlots(slots)
    ensures 4 <= |slots|
  {
    NoSpaceMeansFull(bytes, size);
    TotalBound(slots, MAX_ENTRY);
  }

  /**
   * After FAILED_NO_SPACE the split goes through: the node has at least four entries, nothing is
   * thrown, and both halves get at least two entries, the original just half of the old ones.
   */
  lemma NoSpaceThenSplit<N>(reading: Reading, leaf: bool, bytes: nat, slots: seq<Slot<N>>, p: nat, e: Slot<N>)
    requires p <= |slots| && InsertAt(bytes, slots, p, e).NoSpace?
    requires BytesTrue(leaf, bytes, slots) && SmallSlots(slots) && !Duplicate(slots, e.key)
    ensures 4 <= |slots|
    ensures var r := SplitAndInsert(reading, leaf, bytes, slots, e);
            && r == SplitSlots(reading, leaf, slots, LowerBound(Keys(slots), e.key), e)
            && r.SplitDone?
            && 2 <= |slots| / 2 <= |r.original| && |slots| / 2 <= |r.sibling|
            && |r.original| == (if r.direction.LEFT? then |slots| / 2 else |slots| - |slots| / 2)
            && |r.original| + |r.sibling| == |slots| + 1
  {
    NoSpaceMeansManyEntries(leaf, bytes, slots, e.Size());
  }

  /**
   * When a split is refused: for an entry that is too big; otherwise if the node is overfull, as the
   * difference wraps, or the entry would leave a byte to spare, or there are less than three entries; and
   * otherwise for a key that is there. An entry that would fill the node to the last byte can be split
   * for, but also be inserted, and it is the only such.
   */
  lemma SplitRefusedIff<N>(reading: Reading, leaf: bool, bytes: nat, slots: seq<Slot<N>>, p: nat, e: Slot<N>)
    requires p <= |slots| && bytes < SIZE_T_RANGE
    ensures var r, size := SplitAndInsert(reading, leaf, bytes, slots, e), bytes + e.Size();
            && (r == SplitThrown(EntryTooBig) <==> e.Size() > MAX_ENTRY)
            && (r == SplitThrown(SplitNotRequired) <==>
                  e.Size() <= MAX_ENTRY && (bytes > CAPACITY || size < CAPACITY || |slots| < 3))
            && (r == SplitThrown(DuplicateKey) <==>
                  e.Size() <= MAX_ENTRY && bytes <= CAPACITY <= size && 3 <= |slots| && Duplicate(slots, e.key))
            && (r.SplitDone? && InsertAt(bytes, slots, p, e).Inserted? <==>
                  e.Size() <= MAX_ENTRY && size == CAPACITY && 3 <= |slots| && !Duplicate(slots, e.key))
  {
  }

  // ---- Byte accounting and capacity ----------------------------------------------------------

  lemma TotalHeaded<N>(leaf: bool, s: seq<Slot<N>>)
    requires s != []
    ensures Total(Headed(leaf, s)) == Total(s) - (if leaf then 0 else |s[0].key|)
  {
  }

  /** A split neither gains nor loses bytes, except the split key that an internal node hands up. */
  lemma SplitConservesBytes<N>(reading: Reading, leaf: bool, slots: seq<Slot<N>>, p: nat, e: Slot<N>)
    requires p <= |slots| && 3 <= |slots|
    ensures var r := SplitSlots(reading, leaf, slots, p, e);
            Total(r.original) + Total(r.sibling)
              == Total(slots) + e.Size() - (if leaf then 0 else |r.key|)
  {
    hide SplitSlots, Total;
    if reading.Documented? || p != SplitPoint(|slots|) {
      SplitIsCut(reading, leaf, slots, p, e);
      var all := Spliced(slots, p, e);
      var c := CutPoint(reading, p, SplitPoint(|slots|));
      TotalSpliced(slots, p, e);
      TotalCut(all, c);
      TotalHeaded(leaf, all[c..]);
    } else {
      SplitAtBoundary(leaf, slots, e);
      TotalOne(e);
      TotalCut(slots, p);
      TotalHeaded(leaf, slots[p..]);
      TotalConcat([e], Headed(leaf, slots[p..]));
    }
  }

  /** Insertion never overfills a leaf that was within capacity, and keeps the byte count true. */
  lemma LeafInsertWithinCapacity<N>(bytes: nat, slots: seq<Slot<N>>, e: Slot<N>)
    requires bytes == Total(slots) <= CAPACITY
    ensures var r := LeafInsert(bytes, slots, e);
            r.Inserted? ==> r.bytes == Total(r.slots) <= CAPACITY
  {
    if LeafInsert(bytes, slots, e).Inserted? {
      TotalSpliced(slots, LowerBound(Keys(slots), e.key), e);
    }
  }

  /** A node of a count within the range of its type has no space exactly if it is within capacity and the entry is not. */
  lemma NoSpaceIff<N>(bytes: nat, slots: seq<Slot<N>>, p: nat, e: Slot<N>)
    requires bytes < SIZE_T_RANGE && p <= |slots| && e.Size() <= MAX_ENTRY
    ensures InsertAt(bytes, slots, p, e).NoSpace? <==> bytes <= CAPACITY < bytes + e.Size()
  {
    if bytes > CAPACITY {
      OverfullAvailable(bytes);
    }
  }

  lemma OverfullAvailable(bytes: nat)
    requires CAPACITY < bytes < SIZE_T_RANGE
    ensures Available(bytes) > CAPACITY
  {
    assert CAPACITY - bytes + SIZE_T_RANGE == (CAPACITY - bytes) % SIZE_T_RANGE;
  }

  /** The capacity of an overfull node wraps: it takes every entry that is not too big and never splits again. */
  lemma OverfullTakesAll<N>(bytes: nat, slots: seq<Slot<N>>, p: nat, e: Slot<N>)
    requires CAPACITY < bytes < SIZE_T_RANGE && p <= |slots| && e.Size() <= MAX_ENTRY
    ensures InsertAt(bytes, slots, p, e) == Inserted(bytes + e.Size(), Spliced(slots, p, e))
  {
    OverfullAvailable(bytes);
  }

  /**
   * A leaf split by count keeps the original within capacity and the sibling within five quarters
   * of it; the sibling is within capacity exactly when the entries on the side that is cleaved off leave
   * room for the new one.
   */
  lemma {:induction false} LeafSplitCapacity<N>(reading: Reading, slots: seq<Slot<N>>, p: nat, e: Slot<N>)
    requires p <= |slots| && 3 <= |slots|
    requires Total(slots) <= CAPACITY && e.Size() <= MAX_ENTRY
    ensures var r, m := SplitSlots(reading, true, slots, p, e), SplitPoint(|slots|);
            var cleaved := if CleavesLeft(reading, p, m) then slots[..m] else slots[m..];
            && Total(r.original) <= CAPACITY
            && Total(r.sibling) <= CAPACITY + CAPACITY / 4
            && (Total(r.sibling) <= CAPACITY <==> Total(cleaved) + e.Size() <= CAPACITY)
  {
    SplitConservesBytes(reading, true, slots, p, e);
    TotalCut(slots, SplitPoint(|slots|));
  }

  // ---- Two leaves that go wrong ----------------------------------------------------------------

  /** Four entries with the keys [2] to [5] that fill a leaf. */
  function FullEntries<N>(): (slots: seq<Slot<N>>)
    ensures |slots| == 4
    ensures forall i :: 0 <= i < 4 ==> slots[i].key == [(i + 2) as byte] && slots[i].payload.Data? && slots[i].Size() == MAX_ENTRY
  {
    seq(4, i requires 0 <= i < 4 => Slot([(i + 2) as byte], Data(seq(MAX_ENTRY - 1, k => 0))))
  }

  lemma FullEntriesFill<N>()
    ensures var slots := FullEntries<N>(); Total(slots) == CAPACITY && SmallSlots(slots)
  {
    TotalOfEqual(FullEntries<N>(), MAX_ENTRY);
  }

  /** A new key between the second and the third of them belongs at the split position. */
  lemma BoundaryKey<N>()
    ensures var slots := FullEntries<N>();
            LowerBound(Keys(slots), [3, 0]) == SplitPoint(4) == 2 && !Duplicate(slots, [3, 0])
  {
    var keys := Keys(FullEntries<N>());
    assert keys[0] == [2] && keys[1] == [3] && keys[2] == [4];
    assert Less([2], [3, 0]) && Less([3], [3, 0]) && !Less([4], [3, 0]);
    LowerBoundUnique(keys, [3, 0], 2);
  }

  /** The code finds no space, splits right at [4], and puts [3, 0] to the right of it. */
  lemma LeafSplitCounterexample()
    ensures var slots, e: Slot<int> := FullEntries<int>(), Slot([3, 0], Data([]));
            var r := SplitAndInsert(AsWritten, true, Total(slots), slots, e);
            && LeafInsert(Total(slots), slots, e).NoSpace?
            && r.SplitDone? && r.direction.RIGHT? && r.key == [4]
            && r.sibling[0] == e && !Separated(Lower(r), r.key, Upper(r))
  {
    hide Total, LowerBound, FullEntries;
    var slots, e: Slot<int> := FullEntries<int>(), Slot([3, 0], Data([]));
    FullEntriesFill<int>();
    BoundaryKey<int>();
    SplitAtBoundary(true, slots, e);
    NoSpaceThenSplit(AsWritten, true, Total(slots), slots, 2, e);
    var r := SplitAndInsert(AsWritten, true, Total(slots), slots, e);
    assert Less([3, 0], [4]) && Upper(r)[0].key == [3, 0];
  }

  /** A sentinel and four long keys that fill an internal node, whose count misses the sentinel's pointer. */
  function FullChildren(): (slots: seq<Slot<int>>)
    ensures |slots| == 5 && slots[0] == Slot([], Child(0))
    ensures forall i :: 1 <= i < 5 ==>
      |slots[i].key| == MAX_ENTRY - 8 && slots[i].key[0] == i as byte && slots[i].key[1] == 0 && slots[i].payload == Child(i)
  {
    seq(5, i requires 0 <= i < 5 => Slot(if i == 0 then [] else [i as byte] + seq(MAX_ENTRY - 9, k => 0), Child(i)))
  }

  lemma FullChildrenFill()
    ensures var slots := FullChildren(); Total(slots) == CAPACITY + 8 && SmallSlots(slots) && SentinelSorted(slots)
  {
    hide FullChildren;
    var slots := FullChildren();
    assert forall i :: 1 <= i < 5 ==> slots[i].Size() == MAX_ENTRY;
    TotalOfEqual(slots[1..], MAX_ENTRY);
    FullChildrenSorted();
  }

  lemma FullChildrenSorted()
    ensures Sorted(Keys(FullChildren()))
  {
    hide FullChildren, Less;
    var keys := Keys(FullChildren());
    assert forall j :: 1 <= j < 5 ==> keys[j] != [];
    EmptyIsLeast();
    forall i, j | 0 <= i < j < 5 ensures Less(keys[i], keys[j]) {
      if i > 0 {
        LessByFirst(keys[i], keys[j]);
      }
    }
  }

  lemma EmptyIsLeast()
    ensures forall k: Bytes :: k != [] ==> Less([], k)
  {
  }

  lemma BoundaryChild()
    ensures var slots := FullChildren(); LowerBound(Keys(slots), [2, 1]) == SplitPoint(5) == 3 && !Duplicate(slots, [2, 1])
  {
    assert Less([], [2, 1]);
    hide FullChildren, LowerBound, Less;
    var keys := Keys(FullChildren());
    LessByFirst(keys[1], [2, 1]);
    LessBySecond(keys[2], [2, 1]);
    LessByFirst([2, 1], keys[3]);
    LowerBoundUnique(keys, [2, 1], 3);
    assert keys[3][0] != [2, 1][0];
  }

  /** The code finds no space for [2, 1], splits right, and leaves a node that does not begin with a sentinel. */
  lemma InternalSplitCounterexample()
    ensures var slots, e: Slot<int> := FullChildren(), Slot([2, 1], Child(5));
            var r := SplitAndInsert(AsWritten, false, CAPACITY, slots, e);
            && BytesTrue(false, CAPACITY, slots) && SentinelSorted(slots) && InsertAt(CAPACITY, slots, 3, e).NoSpace?
            && r.SplitDone? && r.direction.RIGHT? && r.sibling[0] == e && !SentinelSorted(r.sibling)
  {
    hide Total, LowerBound, FullChildren;
    var slots, e: Slot<int> := FullChildren(), Slot([2, 1], Child(5));
    FullChildrenFill();
    BoundaryChild();
    SplitAtBoundary(false, slots, e);
    NoSpaceThenSplit(AsWritten, false, CAPACITY, slots, 3, e);
  }

  /** Four big entries and three small ones, within capacity. */
  function TopHeavyEntries(): (slots: seq<Slot<int>>)
    ensures |slots| == 7 && forall i :: 0 <= i < 7 ==> slots[i].key == [(i + 1) as byte]
    ensures forall i :: 0 <= i < 7 ==> slots[i].Size() == if i < 4 then 1000 else 1
  {
    seq(7, i requires 0 <= i < 7 => Slot([(i + 1) as byte], if i < 4 then Data(seq(999, k => 0)) else Data([])))
  }

  lemma TopHeavyTotals()
    ensures var slots := TopHeavyEntries(); Total(slots) == 4003 && Total(slots[..4]) == 4000 && SmallSlots(slots)
  {
    var slots := TopHeavyEntries();
    TotalOfEqual(slots[..4], 1000);
    TotalOfEqual(slots[4..], 1);
    TotalCut(slots, 4);
  }

  /** A leaf within capacity whose split leaves the sibling overfull. */
  lemma OverfullSibling()
    ensures var slots, e: Slot<int> := TopHeavyEntries(), Slot([0], Data(seq(999, i => 0)));
            && LeafInsert(Total(slots), slots, e).NoSpace?
            && var r := SplitAndInsert(AsWritten, true, Total(slots), slots, e);
               r.SplitDone? && Total(r.sibling) > CAPACITY
  {
    hide Total, LowerBound, TopHeavyEntries;
    var slots, e: Slot<int> := TopHeavyEntries(), Slot([0], Data(seq(999, i => 0)));
    TopHeavyTotals();
    assert Keys(slots)[0] == [1] && !Less([1], [0]);
    LowerBoundUnique(Keys(slots), [0], 0);
    NoSpaceThenSplit(AsWritten, true, Total(slots), slots, 0, e);
    LeafSplitCapacity(AsWritten, slots, 0, e);
  }

  lemma {:induction false} TotalOfEqual<N>(slots: seq<Slot<N>>, size: nat)
    requires forall i :: 0 <= i < |slots| ==> slots[i].Size() == size
    ensures Total(slots) == |slots| * size
  {
    if slots != [] {
      TotalOfEqual(slots[1..], size);
    }
  }
}
