/** Search agrees with the contents, and whole runs of insertions with a growing root refine a map. */
module TreeRuns {
  import opened ByteOrder
  import opened Slots
  import opened NodeSpec
  import opened TreeForecast
  import opened TreeSpec
  import opened TreeInsert
  import opened TreeAsWritten
  import opened TreeConserves

  // ---- Search ----------------------------------------------------------------------------------

  /** The search result is what the contents say about the key. */
  ghost predicate FindsIn(found: Option<Bytes>, key: Bytes, contents: seq<Slot<Tree>>) {
    && (found.Some? ==> Slot(key, Data(found.value)) in contents)
    && (forall i :: 0 <= i < |contents| && contents[i].key == key ==>
          contents[i].payload.Data? && found == Some(contents[i].payload.value))
  }

  /** Routing finds exactly the stored entries. */
  lemma {:induction false} LookupFinds(t: Tree, h: nat, lo: Bytes, hi: Bound, key: Bytes)
    requires Routed(t, h, lo, hi) && Shaped(t) && Inside(lo, key, hi)
    ensures FindsIn(Lookup(t, key), key, Contents(t))
    decreases h
  {
    if h == 0 {
      LeafLookupFinds(t, key);
    } else {
      InnerLookup(t, key);
      hide Lookup, Contents, RunContents, FindsIn, FindChild, RoutedRun, Shaped;
      var run := Sealed(t.slots, lo);
      var j := FindChild(Keys(t.slots), key);
      DescentInside(t, h - 1, lo, hi, key);
      LookupFinds(t.slots[j].payload.node, h - 1, run[j].key, NextKey(run, j, hi), key);
      OutsideContents(run, h - 1, hi, j, key);
      assert Payloads(run) == Payloads(t.slots);
      ContentsIgnoreKeys(run, t.slots);
      FindsInMiddle(Lookup(t, key), key, RunContents(run[..j]), Contents(run[j].payload.node), RunContents(run[j + 1..]));
    }
  }

  lemma InnerLookup(t: Tree, key: Bytes)
    requires Shaped(t) && !t.leaf
    ensures Lookup(t, key) == Lookup(ChildFor(t, key), key) && Contents(t) == RunContents(t.slots)
  {
  }

  lemma LeafLookupFinds(t: Tree, key: Bytes)
    requires t.leaf && Shaped(t) && Sorted(Keys(t.slots))
    ensures FindsIn(Lookup(t, key), key, t.slots)
  {
    var p := LowerBound(Keys(t.slots), key);
    LowerBoundSorted(Keys(t.slots), key);
    forall i | 0 <= i < |t.slots| && t.slots[i].key == key ensures i == p {
      assert Keys(t.slots)[i] == key;
      LessIrreflexive(key);
    }
  }

  lemma FindsInMiddle(found: Option<Bytes>, key: Bytes, a: seq<Slot<Tree>>, mid: seq<Slot<Tree>>, b: seq<Slot<Tree>>)
    requires FindsIn(found, key, mid) && key !in Keys(a) && key !in Keys(b)
    ensures FindsIn(found, key, a + mid + b)
  {
  }

  /** Around the child a key routes to, no subtree stores that key. */
  lemma OutsideContents(run: seq<Slot<Tree>>, h: nat, hi: Bound, j: nat, key: Bytes)
    requires RoutedRun(run, h, hi) && j < |run| && run[j].payload.Child?
    requires Inside(run[j].key, key, NextKey(run, j, hi))
    ensures RunContents(run) == RunContents(run[..j]) + Contents(run[j].payload.node) + RunContents(run[j + 1..])
    ensures key !in Keys(RunContents(run[..j])) && key !in Keys(RunContents(run[j + 1..]))
  {
    var left, right := run[..j], run[j + 1..];
    assert run == left + run[j..] && run[j..] == [run[j]] + right;
    ContentsConcat(left, run[j..]);
    ContentsConcat([run[j]], right);
    RowOfOne(run[j].key, run[j].payload.node, h, hi);
    if left != [] {
      RunCut(left, run[j..], h, hi);
      RoutedRunContents(left, h, Before(run[j].key));
      KeyAbove(RunContents(left), left[0].key, run[j].key, key);
    }
    if right != [] {
      RunSuffix(run, j + 1, h, hi);
      RoutedRunContents(right, h, hi);
      KeyBelow(RunContents(right), right[0].key, hi, key);
    }
  }

  lemma KeyAbove(s: seq<Slot<Tree>>, lo: Bytes, mid: Bytes, key: Bytes)
    requires Within(s, lo, Before(mid)) && LessEq(mid, key)
    ensures key !in Keys(s)
  {
  }

  lemma KeyBelow(s: seq<Slot<Tree>>, mid: Bytes, hi: Bound, key: Bytes)
    requires Within(s, mid, hi) && Less(key, mid)
    ensures key !in Keys(s)
  {
  }

  /** After exactly one addition, search finds the new entry and otherwise what it found before. */
  lemma AddedLookup(before: seq<Slot<Tree>>, after: seq<Slot<Tree>>, key: Bytes, value: Bytes,
                    k: Bytes, found: Option<Bytes>, found': Option<Bytes>)
    requires AddsOne(before, after, Slot(key, Data(value)))
    requires FindsIn(found, k, before) && FindsIn(found', k, after)
    ensures found' == if k == key then Some(value) else found
  {
    var e: Slot<Tree> := Slot(key, Data(value));
    var q: nat :| q <= |before| && after == Spliced(before, q, e);
    if k == key {
      assert after[q] == e;
    } else {
      if found.Some? {
        FoundAt(before, k, found);
        SplicedKeeps(before, q, e, Slot(k, Data(found.value)));
      }
      if found'.Some? {
        FoundAt(after, k, found');
        SplicedKeeps(before, q, e, Slot(k, Data(found'.value)));
      }
    }
  }

  lemma FoundAt(s: seq<Slot<Tree>>, k: Bytes, found: Option<Bytes>)
    requires FindsIn(found, k, s)
    ensures forall v :: Slot(k, Data(v)) in s <==> found == Some(v)
  {
  }

  lemma SplicedKeeps<T>(s: seq<T>, q: nat, e: T, x: T)
    requires q <= |s| && x != e
    ensures x in Spliced(s, q, e) <==> x in s
  {
  }

  // ---- The root --------------------------------------------------------------------------------

  /** Height grows when the root overflows: a new root over the two halves (pvt/Tree.hpp). */
  function GrowRoot(o: Outcome): Tree
    requires o.Stored?
  {
    if o.split.None? then o.node
    else
      var s := o.split.value;
      var (lower, upper) := if s.direction.LEFT? then (s.sibling, o.node) else (o.node, s.sibling);
      Tree(false, |s.key| + 8, [Slot([], Child(lower)), Slot(s.key, Child(upper))])
  }

  ghost predicate ValidRoot(t: Tree, h: nat, limit: nat) {
    Routed(t, h, [], Top) && Accounted(t, limit)
  }

  function EmptyTree(): (t: Tree)
    ensures Shaped(t)
  {
    Tree(false, 0, [Slot([], Child(Tree(true, 0, [])))])
  }

  /** One insertion at the root, whatever state it leaves. */
  function Put(reading: Reading, t: Tree, key: Bytes, value: Bytes): Tree
    requires Shaped(t)
  {
    var o := Insert(reading, t, key, value);
    if o.Threw? then o.node else GrowRoot(o)
  }

  /** The reference: a map that refuses duplicates and entries over a quarter of a node. */
  function PutMap(m: map<Bytes, Bytes>, key: Bytes, value: Bytes): map<Bytes, Bytes> {
    if key in m || |key| + |value| > MAX_ENTRY then m else m[key := value]
  }

  ghost predicate Refines(t: Tree, m: map<Bytes, Bytes>)
    requires Shaped(t)
  {
    forall k: Bytes :: Lookup(t, k) == if k in m then Some(m[k]) else None
  }

  lemma GrowRootValid(o: Outcome, h: nat, limit: nat)
    requires o.Stored? && RoutedRun(Halves(o, []), h, Top) && AccountedOutcome(o, limit)
    requires o.split.Some? ==> |o.split.value.key| + 8 <= MAX_ENTRY
    ensures var h' := if o.split.None? then h else h + 1;
            ValidRoot(GrowRoot(o), h', limit) && Contents(GrowRoot(o)) == OutcomeContents(o)
  {
    HalvesContents(o, []);
    HalvesTotal(o, []);
    var t := GrowRoot(o);
    if o.split.None? {
      RowOfOne([], o.node, h, Top);
    } else {
      assert t.slots == Halves(o, []) == Sealed(t.slots, []);
      forall i | 0 <= i < 2 ensures AccountedSlot(t.slots[i], limit) {}
    }
  }

  /**
   * An insertion that is refused at the leaf, or whose split keys can all go up, the root's included.
   * The code has to be clean too.
   */
  predicate Sound(reading: Reading, t: Tree, key: Bytes, value: Bytes)
    requires Shaped(t)
  {
    || Lookup(t, key).Some?
    || |key| + |value| > MAX_ENTRY
    || (&& Promotable(t, key, value)
        && (UpKey(t, key, value).Some? ==> |UpKey(t, key, value).value| + 8 <= MAX_ENTRY)
        && (reading.AsWritten? ==> Clean(t, key, value)))
  }

  /** A sound insertion is correct in both readings. */
  lemma SoundIsCorrect(reading: Reading, t: Tree, h: nat, lo: Bytes, hi: Bound, key: Bytes, value: Bytes, limit: nat)
    requires Routed(t, h, lo, hi) && Shaped(t) && Accounted(t, limit) && limit <= MAX_ENTRY
    requires Inside(lo, key, hi) && (|key| + |value| <= MAX_ENTRY ==> |key| <= limit)
    requires Sound(reading, t, key, value)
    ensures var o := Insert(reading, t, key, value);
            && Correct(o, t, h, lo, hi, key, value, limit)
            && (o.Threw? ==> o.node == t)
            && (o.Stored? && o.split.Some? ==> |o.split.value.key| + 8 <= MAX_ENTRY)
  {
    hide Insert, Routed, RoutedRun, Accounted, Promotable, UpKey, Clean, Lookup;
    if reading.Documented? {
      InsertIsCorrect(t, h, lo, hi, key, value, limit);
    } else if Lookup(t, key).Some? || |key| + |value| > MAX_ENTRY {
      LongerLimit(t, h, lo, hi, limit, MAX_ENTRY);
      AsWrittenConserves(t, h, lo, hi, key, value);
    } else {
      CleanIsCorrect(t, h, lo, hi, key, value, limit);
    }
    ForecastIsRight(reading, t, key, value);
  }

  lemma {:induction false} LongerLimit(t: Tree, h: nat, lo: Bytes, hi: Bound, limit: nat, limit': nat)
    requires Routed(t, h, lo, hi) && Accounted(t, limit) && limit <= limit'
    ensures Accounted(t, limit')
    decreases h
  {
    forall i | 0 <= i < |t.slots| ensures AccountedSlot(t.slots[i], limit') {
      assert AccountedSlot(t.slots[i], limit);
      if h > 0 {
        var run := Sealed(t.slots, lo);
        assert RoutedSlot(run, i, h - 1, hi);
        LongerLimit(run[i].payload.node, h - 1, run[i].key, NextKey(run, i, hi), limit, limit');
      }
    }
  }

  /** One sound insertion at the root keeps it valid and refines one step of the map. */
  lemma PutRefines(reading: Reading, t: Tree, h: nat, m: map<Bytes, Bytes>, key: Bytes, value: Bytes, limit: nat)
    returns (h': nat)
    requires ValidRoot(t, h, limit) && Shaped(t) && Refines(t, m) && limit <= MAX_ENTRY
    requires Sound(reading, t, key, value) && (|key| + |value| <= MAX_ENTRY ==> |key| <= limit)
    ensures var t' := Put(reading, t, key, value);
            && h <= h' <= h + 1
            && ValidRoot(t', h', limit) && Shaped(t') && Refines(t', PutMap(m, key, value))
  {
    hide Routed, RoutedRun, Accounted, AccountedOutcome, AddsOne, Contents, OutcomeContents, Halves, Insert, FindsIn, Lookup, Sound;
    hide Promotable, UpKey;
    SoundIsCorrect(reading, t, h, [], Top, key, value, limit);
    var o := Insert(reading, t, key, value);
    var t' := Put(reading, t, key, value);
    assert Lookup(t, key) == if key in m then Some(m[key]) else None;
    if o.Threw? {
      h' := h;
    } else {
      h' := if o.split.None? then h else h + 1;
      GrowRootValid(o, h, limit);
      RoutedIsShaped(t', h', [], Top);
      forall k: Bytes
        ensures Lookup(t', k) == if k in PutMap(m, key, value) then Some(PutMap(m, key, value)[k]) else None
      {
        LookupFinds(t, h, [], Top, k);
        LookupFinds(t', h', [], Top, k);
        AddedLookup(Contents(t), Contents(t'), key, value, k, Lookup(t, k), Lookup(t', k));
        assert Lookup(t, k) == if k in m then Some(m[k]) else None;
      }
    }
  }

  // ---- Whole runs ------------------------------------------------------------------------------

  /** Keys up to this length can always be handed up. */
  const MAX_KEY: nat := MAX_ENTRY - 8

  ghost predicate KeysWithin(puts: seq<(Bytes, Bytes)>, limit: nat) {
    forall i :: 0 <= i < |puts| ==> |puts[i].0| + |puts[i].1| <= MAX_ENTRY ==> |puts[i].0| <= limit
  }

  function RunMap(puts: seq<(Bytes, Bytes)>): map<Bytes, Bytes> {
    if puts == [] then map[]
    else
      var last := puts[|puts| - 1];
      PutMap(RunMap(puts[..|puts| - 1]), last.0, last.1)
  }

  /** The tree after a run, None if some insertion met a malformed tree. */
  function RunTree(reading: Reading, puts: seq<(Bytes, Bytes)>): Option<Tree> {
    if puts == [] then Some(EmptyTree())
    else
      var before := RunTree(reading, puts[..|puts| - 1]);
      var last := puts[|puts| - 1];
      if before.Some? && Shaped(before.value) then Some(Put(reading, before.value, last.0, last.1)) else None
  }

  /** Every insertion of the run is sound in the tree that it meets. */
  predicate SoundRun(reading: Reading, puts: seq<(Bytes, Bytes)>) {
    puts == [] ||
    var n := |puts| - 1;
    var before := RunTree(reading, puts[..n]);
    SoundRun(reading, puts[..n]) && (before.Some? && Shaped(before.value) ==> Sound(reading, before.value, puts[n].0, puts[n].1))
  }

  lemma EmptyTreeRefines()
    ensures ValidRoot(EmptyTree(), 1, 0) && Refines(EmptyTree(), map[])
  {
  }

  /** After any run of sound insertions the tree is valid and search answers as the map does. */
  lemma {:induction false} SoundRunRefines(reading: Reading, puts: seq<(Bytes, Bytes)>, limit: nat) returns (h: nat)
    requires SoundRun(reading, puts) && KeysWithin(puts, limit) && limit <= MAX_ENTRY
    ensures var t := RunTree(reading, puts);
            t.Some? && ValidRoot(t.value, h, limit) && Shaped(t.value) && Refines(t.value, RunMap(puts))
  {
    if puts == [] {
      h := 1;
      EmptyTreeRefines();
      LongerLimit(EmptyTree(), 1, [], Top, 0, limit);
    } else {
      hide ValidRoot, Refines, Sound, Shaped, Put, PutMap;
      var n := |puts| - 1;
      var h0 := SoundRunRefines(reading, puts[..n], limit);
      h := PutRefines(reading, RunTree(reading, puts[..n]).value, h0, RunMap(puts[..n]), puts[n].0, puts[n].1, limit);
    }
  }

  /** Insertions of short keys, read as documented, are all sound. */
  lemma {:induction false} ShortKeysAreSound(puts: seq<(Bytes, Bytes)>)
    requires KeysWithin(puts, MAX_KEY)
    ensures SoundRun(Documented, puts)
  {
    if puts != [] {
      var n := |puts| - 1;
      ShortKeysAreSound(puts[..n]);
      var h := SoundRunRefines(Documented, puts[..n], MAX_KEY);
      var t := RunTree(Documented, puts[..n]).value;
      ShortKeyIsSound(t, h, puts[n].0, puts[n].1);
    }
  }

  lemma ShortKeyIsSound(t: Tree, h: nat, key: Bytes, value: Bytes)
    requires ValidRoot(t, h, MAX_KEY) && Shaped(t) && (|key| + |value| <= MAX_ENTRY ==> |key| <= MAX_KEY)
    ensures Sound(Documented, t, key, value)
  {
    hide Routed, Accounted, Promotable, UpKey, Lookup;
    if |key| + |value| <= MAX_ENTRY {
      ShortKeysPromote(t, h, [], Top, key, value, MAX_KEY);
      if UpKey(t, key, value).Some? {
        UpKeyIsStored(t, key, value, MAX_KEY);
      }
    }
  }

  /** After any run of insertions of keys that are not too long to be handed up, search answers as the map does. */
  lemma {:induction false} RunRefines(puts: seq<(Bytes, Bytes)>) returns (h: nat)
    requires KeysWithin(puts, MAX_KEY)
    ensures var t := RunTree(Documented, puts);
            t.Some? && ValidRoot(t.value, h, MAX_KEY) && Shaped(t.value) && Refines(t.value, RunMap(puts))
  {
    ShortKeysAreSound(puts);
    h := SoundRunRefines(Documented, puts, MAX_KEY);
  }

  // ---- Runs of any insertions ------------------------------------------------------------------

  lemma GrowRootKept(o: Outcome, t: Tree, h: nat, full: bool, e: Slot<Tree>)
    requires Kept(o, t, h, full, e) && (o.split.Some? ==> |o.split.value.key| + 8 <= MAX_ENTRY)
    ensures var t', h' := GrowRoot(o), if o.split.None? then h else h + 1;
            && Level(t', h', full) && Accounted(t', MAX_ENTRY)
            && multiset(Contents(t')) == multiset(Contents(t)) + multiset{e}
  {
    hide Level;
    var t' := GrowRoot(o);
    if o.split.Some? {
      HalvesContents(o, []);
      HalvesTotal(o, []);
      assert t'.slots == Halves(o, []);
      LevelOf(t', h + 1, full);
      forall i | 0 <= i < 2 ensures AccountedSlot(t'.slots[i], MAX_ENTRY) {}
    }
  }

  /** An insertion that is stored, its key for a new root being small enough, or that leaves the tree as it is. */
  predicate Settles(reading: Reading, t: Tree, key: Bytes, value: Bytes)
    requires Shaped(t)
  {
    var o := Insert(reading, t, key, value);
    if o.Stored? then UpKey(t, key, value).Some? ==> |UpKey(t, key, value).value| + 8 <= MAX_ENTRY
    else o.node == t
  }

  predicate SettledRun(reading: Reading, puts: seq<(Bytes, Bytes)>) {
    puts == [] ||
    var n := |puts| - 1;
    var before := RunTree(reading, puts[..n]);
    SettledRun(reading, puts[..n]) && (before.Some? && Shaped(before.value) ==> Settles(reading, before.value, puts[n].0, puts[n].1))
  }

  /** The entries that a run reported as stored. */
  ghost function Acknowledged(reading: Reading, puts: seq<(Bytes, Bytes)>): multiset<Slot<Tree>> {
    if puts == [] then multiset{}
    else
      var n := |puts| - 1;
      var before := RunTree(reading, puts[..n]);
      Acknowledged(reading, puts[..n]) +
      if before.Some? && Shaped(before.value) && Insert(reading, before.value, puts[n].0, puts[n].1).Stored?
      then multiset{Slot(puts[n].0, Data(puts[n].1))}
      else multiset{}
  }

  /** The first entry goes into the one leaf there is, which has room for it. */
  lemma FirstInsertFills(reading: Reading, key: Bytes, value: Bytes)
    ensures var o := Insert(reading, EmptyTree(), key, value);
            if o.Stored? then o.split.None? && Level(o.node, 1, true) else o.node == EmptyTree()
  {
    var t := EmptyTree();
    var leaf := t.slots[0].payload.node;
    assert FindChild(Keys(t.slots), key) == 0;
    InsertOf(reading, t, key, value);
    InsertOf(reading, leaf, key, value);
    assert WithChild(t.slots, 0, leaf) == t.slots;
  }

  lemma EmptyTreeLevel(h: nat)
    ensures Level(EmptyTree(), 1, false) && Accounted(EmptyTree(), MAX_ENTRY) && Contents(EmptyTree()) == []
    ensures !Level(EmptyTree(), h, true)
  {
    EmptyTreeRefines();
    LongerLimit(EmptyTree(), 1, [], Top, 0, MAX_ENTRY);
    var leaf := EmptyTree().slots[0].payload.node;
    OneContents(EmptyTree().slots[0]);
    assert Contents(leaf) == [];
    EmptyLeafShows(EmptyTree(), h);
  }

  lemma EmptyLeafShows(t: Tree, h: nat)
    requires t.slots != [] && t.slots[0].payload.Child? && !t.leaf
    requires t.slots[0].payload.node.leaf && t.slots[0].payload.node.slots == []
    ensures !Level(t, h, true)
  {
    if h > 0 && Level(t, h, true) {
      LevelOf(t.slots[0].payload.node, h - 1, true);
    }
  }

  /** One step of a run keeps the depth, the counts and every entry. */
  lemma PutKeeps(reading: Reading, t: Tree, h: nat, key: Bytes, value: Bytes) returns (h': nat)
    requires Shaped(t) && Level(t, h, t != EmptyTree()) && Accounted(t, MAX_ENTRY) && Settles(reading, t, key, value)
    ensures var t' := Put(reading, t, key, value);
            && h <= h' && Level(t', h', t' != EmptyTree()) && Accounted(t', MAX_ENTRY) && Shaped(t')
            && multiset(Contents(t')) == multiset(Contents(t)) +
               if Insert(reading, t, key, value).Stored? then multiset{Slot(key, Data(value))} else multiset{}
  {
    hide Insert, Level, Accounted, EmptyTree, Shaped, Contents, UpKey;
    var o, e: Slot<Tree> := Insert(reading, t, key, value), Slot(key, Data(value));
    h' := h;
    if o.Stored? {
      StoredIsKept(reading, t, h, t != EmptyTree(), key, value);
      ForecastIsRight(reading, t, key, value);
      h' := if o.split.None? then h else h + 1;
      GrowRootKept(o, t, h, t != EmptyTree(), e);
      FirstInsertFills(reading, key, value);
      EmptyTreeLevel(h');
      var t' := GrowRoot(o);
      if t == EmptyTree() {
        SameLevel(t', 1, h');
      }
      LevelIsShaped(t', h', t' != EmptyTree());
    }
  }

  lemma {:induction false} SameLevel(t: Tree, h: nat, h': nat)
    requires Level(t, h, true) && Level(t, h', false)
    ensures h == h' && Level(t, h', true)
    decreases h
  {
    if h > 0 {
      SameLevel(t.slots[0].payload.node, h - 1, h' - 1);
    }
  }

  /**
   * After any run, clean or not and in both readings, in which no insertion is refused on the way up, the
   * leaves hold just the entries that were reported as stored, all equally deep, none of them empty once
   * there is an entry, and all counts are true.
   */
  lemma {:induction false} RunConserves(reading: Reading, puts: seq<(Bytes, Bytes)>) returns (h: nat)
    requires SettledRun(reading, puts)
    ensures var t := RunTree(reading, puts);
            && t.Some? && Shaped(t.value) && Level(t.value, h, t.value != EmptyTree()) && Accounted(t.value, MAX_ENTRY)
            && multiset(Contents(t.value)) == Acknowledged(reading, puts)
  {
    if puts == [] {
      h := 1;
      EmptyTreeLevel(1);
    } else {
      hide Level, Accounted, Settles, Shaped, Put, Insert, Contents, EmptyTree;
      var n := |puts| - 1;
      var h0 := RunConserves(reading, puts[..n]);
      h := PutKeeps(reading, RunTree(reading, puts[..n]).value, h0, puts[n].0, puts[n].1);
    }
  }
}
