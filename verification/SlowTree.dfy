/** The nodes and the tree as objects updated in place, proved against the functions on tree values. */
module SlowTree {
  import opened ByteOrder
  import opened Sequences
  import opened Slots
  import opened NodeSpec
  import opened TreeForecast
  import opened TreeSpec
  import opened TreeInsert
  import opened TreeAsWritten
  import opened TreeConserves
  import opened TreeFindable
  import opened TreeRuns

  datatype Status = INSERTED | FAILED_NO_SPACE | THROWN(error: Error)

  /** LeafNode and InternalNode: the operations are one template over both. */
  class Node {
    const leaf: bool
    var bytes: nat
    var slots: seq<Slot<Node>>
    var split: Option<Split<Node>>

    ghost var Repr: set<Node>
    ghost var Model: Tree

    constructor (leaf: bool)
      ensures this.leaf == leaf && bytes == 0 && slots == [] && split.None?
    {
      this.leaf, bytes, slots, split := leaf, 0, [], None;
    }

    /** A proper tree of height h below this node, and the tree value it stands for. */
    ghost predicate Valid(h: nat)
      reads this, Repr
      decreases h
    {
      && this in Repr
      && (leaf <==> h == 0)
      && (if leaf then Repr == {this} && forall i :: 0 <= i < |slots| ==> slots[i].payload.Data?
          else
            && slots != []
            && (forall i :: 0 <= i < |slots| ==>
                  && slots[i].payload.Child?
                  && slots[i].payload.node in Repr
                  && slots[i].payload.node.Repr <= Repr
                  && this !in slots[i].payload.node.Repr
                  && slots[i].payload.node.Valid(h - 1))
            && (forall i, j :: 0 <= i < j < |slots| ==>
                  slots[i].payload.node.Repr !! slots[j].payload.node.Repr)
            && Repr == {this} + Under(slots))
      && Model == Tree(leaf, bytes, Lift(slots)) && Shaped(Model)
    }

    /** Ghost bookkeeping: an internal node takes the given disjoint subtrees as its children. */
    ghost method Adopt(h: nat, reach: set<Node>)
      requires h > 0 && !leaf && slots != [] && AllChildren(slots)
      requires Family(Children(slots), reach, h - 1) && this !in reach
      modifies this`Repr, this`Model
      ensures Valid(h) && Model == Tree(false, bytes, old(Lift(slots)))
      ensures Repr == {this} + reach
    {
      hide Valid, Family, Lift, LiftSlot, Children, NodesOf;
      ChildrenInside(slots, reach, h - 1);
      Repr := {this} + reach;
      Model := Tree(false, bytes, Lift(slots));
      AdoptedIsValid(h, reach);
    }

    lemma AdoptedIsValid(h: nat, reach: set<Node>)
      requires h > 0 && !leaf && slots != [] && AllChildren(slots)
      requires Family(Children(slots), reach, h - 1) && this !in reach
      requires Repr == {this} + reach && NodesOf(slots) <= reach && Model == Tree(false, bytes, Lift(slots))
      ensures Valid(h)
    {
      hide Under, Family, Reach, Children, NodesOf, Shaped, Lift;
      UnderFamily(slots, reach, h - 1);
      FamilyMembers(slots, reach, h - 1);
      ChildrenShaped(bytes, slots, h - 1);
    }

    /** Ghost bookkeeping for a leaf. */
    ghost method AdoptData()
      requires leaf && AllData(slots)
      modifies this`Repr, this`Model
      ensures Valid(0) && Model == Tree(true, bytes, Lift(slots)) && Repr == {this}
    {
      Repr := {this};
      Model := Tree(true, bytes, Lift(slots));
      forall i | 0 <= i < |slots| ensures Model.slots[i].payload.Data? {
        assert Model.slots[i] == LiftSlot(slots[i]);
      }
    }

    /** `recalculateBytesUsed` */
    method RecalculateBytesUsed()
      modifies this`bytes
      ensures bytes == Total(slots)
    {
      var total := 0;
      for i := 0 to |slots|
        invariant total == Total(slots[..i])
      {
        total := total + slots[i].Size();
        assert slots[..i + 1] == slots[..i] + [slots[i]];
        TotalConcat(slots[..i], [slots[i]]);
      }
      assert slots[..|slots|] == slots;
      bytes := total;
    }

    /** `Ops::insert` at a position */
    method InsertAt(p: nat, e: Slot<Node>) returns (r: Status)
      requires p <= |slots|
      modifies this`bytes, this`slots
      ensures match NodeSpec.InsertAt(old(bytes), old(slots), p, e)
              case Thrown(error) => r == THROWN(error) && bytes == old(bytes) && slots == old(slots)
              case NoSpace => r == FAILED_NO_SPACE && bytes == old(bytes) && slots == old(slots)
              case Inserted(bytes', slots') => r == INSERTED && bytes == bytes' && slots == slots'
    {
      if e.Size() > MAX_ENTRY {
        return THROWN(EntryTooBig);
      }
      var used := bytes;
      if e.Size() > Available(used) {
        return FAILED_NO_SPACE;
      }
      slots := slots[..p] + [e] + slots[p..];
      bytes := used + e.Size();
      return INSERTED;
    }

    /** `LeafNode::insert` */
    method LeafInsert(key: Bytes, value: Bytes) returns (r: Status)
      modifies this`bytes, this`slots
      ensures match NodeSpec.LeafInsert(old(bytes), old(slots), Slot(key, Data(value)))
              case Thrown(error) => r == THROWN(error) && bytes == old(bytes) && slots == old(slots)
              case NoSpace => r == FAILED_NO_SPACE && bytes == old(bytes) && slots == old(slots)
              case Inserted(bytes', slots') => r == INSERTED && bytes == bytes' && slots == slots'
    {
      var p := LowerBound(Keys(slots), key);
      if p < |slots| && slots[p].key == key {
        return THROWN(DuplicateKey);
      }
      r := InsertAt(p, Slot(key, Data(value)));
    }

    /** `Node::recordSplit` */
    method RecordSplit(sibling: Node, direction: Direction, key: Bytes)
      requires split.None?
      modifies this`split
      ensures split == Some(Split(direction, key, sibling))
    {
      split := Some(Split(direction, key, sibling));
    }

    /** The moves of a split: a range of entries goes to the sibling's end, with e inserted on the way. */
    method MoveEntries(sibling: Node, e: Slot<Node>, begin: nat, insertPos: nat, end: nat)
      requires sibling != this && begin <= insertPos <= end <= |slots|
      modifies this`slots, sibling`slots
      ensures sibling.slots == old(sibling.slots) + (old(slots)[begin..insertPos] + [e] + old(slots)[insertPos..end])
      ensures slots == old(slots)[..begin] + old(slots)[end..]
    {
      sibling.slots := sibling.slots + slots[begin..insertPos];
      sibling.slots := sibling.slots + [e];
      sibling.slots := sibling.slots + slots[insertPos..end];
      slots := slots[..begin] + slots[end..];
    }

    /** `Ops::splitAndInsert`; the sibling takes the moved entries after those it may hold already. */
    method SplitAndInsert(reading: Reading, e: Slot<Node>, sibling: Node) returns (r: Status)
      requires sibling != this && sibling.leaf == leaf && split.None?
      modifies this`bytes, this`slots, this`split, sibling`bytes, sibling`slots
      ensures match NodeSpec.SplitAndInsert(reading, leaf, old(bytes), old(slots), e)
              case SplitThrown(error) =>
                && r == THROWN(error)
                && bytes == old(bytes) && slots == old(slots) && split.None?
                && sibling.bytes == old(sibling.bytes) && sibling.slots == old(sibling.slots)
              case SplitDone(original, moved, direction, key) =>
                && r == INSERTED
                && slots == original && sibling.slots == old(sibling.slots) + moved
                && bytes == Total(slots) && sibling.bytes == Total(sibling.slots)
                && split == Some(Split(direction, key, sibling))
                && |slots| == (if direction.LEFT? then |old(slots)| / 2 else |old(slots)| - |old(slots)| / 2)
    {
      hide Total, Keys, LowerBound, SplitSlots;
      if e.Size() > MAX_ENTRY {
        return THROWN(EntryTooBig);
      }
      var available := Available(bytes);
      var size := |slots|;
      if e.Size() < available || size < 3 {
        return THROWN(SplitNotRequired);
      }
      var insertPos := LowerBound(Keys(slots), e.key);
      if insertPos < size && slots[insertPos].key == e.key {
        return THROWN(DuplicateKey);
      }
      var splitPos := (size + 1) / 2;
      var direction, moveBegin, moveEnd := RIGHT, splitPos, size;
      if insertPos < splitPos || (reading.Documented? && insertPos == splitPos) {
        direction, moveBegin, moveEnd := LEFT, 0, splitPos;
      }
      var splitKey := slots[splitPos].key;
      if !leaf {
        slots := slots[splitPos := slots[splitPos].(key := [])];
      }
      MovesAreSplit(reading, leaf, old(slots), slots, insertPos, e, direction, moveBegin, moveEnd);
      MoveEntries(sibling, e, moveBegin, insertPos, moveEnd);
      RecordSplit(sibling, direction, splitKey);
      RecalculateBytesUsed();
      sibling.RecalculateBytesUsed();
      return INSERTED;
    }
  }

  // ---- From pointers to tree values ------------------------------------------------------------

  ghost function NodesOf(slots: seq<Slot<Node>>): set<Node> {
    set i | 0 <= i < |slots| && slots[i].payload.Child? :: slots[i].payload.node
  }

  /** All objects of the subtrees. */
  ghost function Under(slots: seq<Slot<Node>>): set<Node>
    reads NodesOf(slots)
  {
    set i, o | 0 <= i < |slots| && slots[i].payload.Child? && o in slots[i].payload.node.Repr :: o
  }

  ghost function LiftSlot(s: Slot<Node>): Slot<Tree>
    reads NodesOf([s])
  {
    assert s.payload.Child? ==> [s][0].payload.node in NodesOf([s]);
    Slot(s.key, match s.payload case Data(v) => Data(v) case Child(n) => Child(n.Model))
  }

  ghost function SlotModel(slots: seq<Slot<Node>>, i: nat): Slot<Tree>
    requires i < |slots|
    reads NodesOf(slots)
  {
    assert forall n :: n in NodesOf([slots[i]]) ==> n in NodesOf(slots);
    LiftSlot(slots[i])
  }

  ghost function Lift(slots: seq<Slot<Node>>): (models: seq<Slot<Tree>>)
    reads NodesOf(slots)
    ensures |models| == |slots|
    ensures forall i :: 0 <= i < |slots| ==> models[i] == LiftSlot(slots[i])
  {
    seq(|slots|, i requires 0 <= i < |slots| reads NodesOf(slots) => SlotModel(slots, i))
  }

  lemma LiftEquals(slots: seq<Slot<Node>>, models: seq<Slot<Tree>>)
    requires |models| == |slots|
    requires forall i :: 0 <= i < |slots| ==> models[i] == LiftSlot(slots[i])
    ensures Lift(slots) == models
  {
  }

  lemma LiftKeys(slots: seq<Slot<Node>>)
    ensures Keys(Lift(slots)) == Keys(slots)
  {
  }

  lemma {:induction false} LiftTotal(slots: seq<Slot<Node>>)
    ensures Total(Lift(slots)) == Total(slots)
  {
    if slots != [] {
      var models := Lift(slots);
      LiftEquals(slots[1..], models[1..]);
      LiftTotal(slots[1..]);
    }
  }

  lemma LiftUpdate(slots: seq<Slot<Node>>, i: nat, e: Slot<Node>)
    requires i < |slots|
    ensures Lift(slots[i := e]) == Lift(slots)[i := LiftSlot(e)]
  {
  }

  lemma LiftMoved(slots: seq<Slot<Node>>, i: nat, p: nat, j: nat, e: Slot<Node>)
    requires i <= p <= j <= |slots|
    ensures Lift(slots[i..p] + [e] + slots[p..j]) == Lift(slots)[i..p] + [LiftSlot(e)] + Lift(slots)[p..j]
  {
  }

  /** Splitting the models is modelling the split. */
  lemma LiftSplit(reading: Reading, leaf: bool, slots: seq<Slot<Node>>, p: nat, e: Slot<Node>)
    requires p <= |slots| && 3 <= |slots|
    ensures var r := SplitSlots(reading, leaf, slots, p, e);
            SplitSlots(reading, leaf, Lift(slots), p, LiftSlot(e))
              == SplitDone(Lift(r.original), Lift(r.sibling), r.direction, r.key)
  {
    var m, n := SplitPoint(|slots|), |slots|;
    var kept := if leaf then slots else slots[m := slots[m].(key := [])];
    var models := if leaf then Lift(slots) else Lift(slots)[m := Lift(slots)[m].(key := [])];
    assert Lift(kept) == models by {
      LiftUpdate(slots, m, slots[m].(key := []));
    }
    var (direction, begin, end) := if CleavesLeft(reading, p, m) then (LEFT, 0, m) else (RIGHT, m, n);
    MovesAreSplit(reading, leaf, slots, kept, p, e, direction, begin, end);
    MovesAreSplit(reading, leaf, Lift(slots), models, p, LiftSlot(e), direction, begin, end);
    LiftMoved(kept, begin, p, end, e);
    LiftKeeps(kept, begin, end);
  }

  lemma LiftKeeps(slots: seq<Slot<Node>>, i: nat, j: nat)
    requires i <= j <= |slots|
    ensures Lift(slots[..i] + slots[j..]) == Lift(slots)[..i] + Lift(slots)[j..]
  {
  }

  lemma LiftInsertAt(bytes: nat, slots: seq<Slot<Node>>, p: nat, e: Slot<Node>)
    requires p <= |slots|
    ensures NodeSpec.InsertAt(bytes, Lift(slots), p, LiftSlot(e)) ==
            match NodeSpec.InsertAt(bytes, slots, p, e)
            case Thrown(error) => Thrown(error)
            case NoSpace => NoSpace
            case Inserted(bytes', slots') => Inserted(bytes', Lift(slots'))
  {
  }

  lemma LiftSplitAndInsert(reading: Reading, leaf: bool, bytes: nat, slots: seq<Slot<Node>>, e: Slot<Node>)
    ensures NodeSpec.SplitAndInsert(reading, leaf, bytes, Lift(slots), LiftSlot(e)) ==
            match NodeSpec.SplitAndInsert(reading, leaf, bytes, slots, e)
            case SplitThrown(error) => SplitThrown(error)
            case SplitDone(original, sibling, direction, key) => SplitDone(Lift(original), Lift(sibling), direction, key)
  {
    LiftKeys(slots);
    if 3 <= |slots| {
      LiftSplit(reading, leaf, slots, LowerBound(Keys(slots), e.key), e);
    }
  }

  // ---- Disjoint subtrees -----------------------------------------------------------------------

  ghost predicate AllChildren(slots: seq<Slot<Node>>) {
    forall i :: 0 <= i < |slots| ==> slots[i].payload.Child?
  }

  ghost function Children(slots: seq<Slot<Node>>): (kids: seq<Node>)
    requires AllChildren(slots)
    ensures |kids| == |slots|
    ensures forall i :: 0 <= i < |slots| ==> kids[i] == slots[i].payload.node
  {
    seq(|slots|, i requires 0 <= i < |slots| => slots[i].payload.node)
  }

  /** All nodes of a row of subtrees. */
  ghost function Reach(kids: seq<Node>): set<Node>
    reads set i | 0 <= i < |kids| :: kids[i]
  {
    set i, o | 0 <= i < |kids| && o in kids[i].Repr :: o
  }

  /** A row of disjoint subtrees of height h whose objects together are `reach`. */
  ghost predicate Family(kids: seq<Node>, reach: set<Node>, h: nat)
    reads set i | 0 <= i < |kids| :: kids[i]
    reads reach
  {
    && (forall i :: 0 <= i < |kids| ==> kids[i].Repr <= reach && kids[i].Valid(h))
    && (forall i, j :: 0 <= i < j < |kids| ==> kids[i].Repr !! kids[j].Repr)
    && reach == Reach(kids)
  }

  lemma ChildrenInside(slots: seq<Slot<Node>>, reach: set<Node>, h: nat)
    requires AllChildren(slots) && Family(Children(slots), reach, h)
    ensures NodesOf(slots) <= reach
    ensures forall i :: 0 <= i < |slots| ==> Children(slots)[i] in reach
  {
  }

  lemma UnderFamily(slots: seq<Slot<Node>>, reach: set<Node>, h: nat)
    requires AllChildren(slots) && Family(Children(slots), reach, h)
    ensures Under(slots) == Reach(Children(slots)) == reach
  {
    hide Node.Valid;
    UnderIsReach(slots);
  }

  lemma UnderIsReach(slots: seq<Slot<Node>>)
    requires AllChildren(slots)
    ensures Under(slots) == Reach(Children(slots))
  {
    var kids := Children(slots);
    forall o ensures o in Under(slots) <==> o in Reach(kids) {
      if o in Under(slots) {
        var i :| 0 <= i < |slots| && o in slots[i].payload.node.Repr;
        assert o in kids[i].Repr;
      }
      if o in Reach(kids) {
        var i :| 0 <= i < |kids| && o in kids[i].Repr;
        assert o in slots[i].payload.node.Repr;
      }
    }
  }

  /** The members of a family, each apart from the others. */
  lemma FamilyMembers(slots: seq<Slot<Node>>, reach: set<Node>, h: nat)
    requires AllChildren(slots) && Family(Children(slots), reach, h)
    ensures forall i :: 0 <= i < |slots| ==>
              && slots[i].payload.node in reach && slots[i].payload.node.Repr <= reach
              && slots[i].payload.node.Valid(h)
    ensures forall i, j :: 0 <= i < j < |slots| ==> slots[i].payload.node.Repr !! slots[j].payload.node.Repr
  {
    hide Node.Valid;
    var kids := Children(slots);
    FamilyInside(kids, reach, h);
    hide Reach;
    forall i, j | 0 <= i < j < |slots| ensures slots[i].payload.node.Repr !! slots[j].payload.node.Repr {
      assert kids[i].Repr !! kids[j].Repr;
    }
  }

  lemma ChildrenShaped(bytes: nat, slots: seq<Slot<Node>>, h: nat)
    requires slots != [] && AllChildren(slots) && forall i :: 0 <= i < |slots| ==> slots[i].payload.node.Valid(h)
    ensures Shaped(Tree(false, bytes, Lift(slots)))
  {
    hide Node.Valid;
    var models := Lift(slots);
    forall i | 0 <= i < |slots| ensures models[i].payload.Child? && Shaped(models[i].payload.node) {
      assert models[i] == LiftSlot(slots[i]);
      ModelIsShaped(slots[i].payload.node, h);
    }
  }

  lemma ValidIsInside(n: Node, h: nat)
    requires n.Valid(h)
    ensures n in n.Repr
  {
  }

  lemma FamilySplice(kids: seq<Node>, reach: set<Node>, h: nat, q: nat, y: Node)
    requires Family(kids, reach, h) && q <= |kids| && y.Valid(h) && y.Repr !! reach
    ensures Family(Spliced(kids, q, y), reach + y.Repr, h)
  {
    hide Node.Valid;
    var all := Spliced(kids, q, y);
    forall i | 0 <= i < |all| ensures all[i] == if i < q then kids[i] else if i == q then y else kids[i - 1] {}
    forall o | o in reach + y.Repr ensures o in Reach(all) {
      if o in reach {
        var i :| 0 <= i < |kids| && o in kids[i].Repr;
        assert o in all[if i < q then i else i + 1].Repr;
      } else {
        assert o in all[q].Repr;
      }
    }
  }

  lemma FamilyExchange(kids: seq<Node>, reach: set<Node>, h: nat, j: nat, x: Node)
    requires Family(kids, reach, h) && j < |kids| && x.Valid(h) && x.Repr !! reach
    ensures Family(kids[j := x], reach - kids[j].Repr + x.Repr, h)
  {
    hide Node.Valid;
    var kids' := kids[j := x];
    forall o | o in reach - kids[j].Repr + x.Repr ensures o in Reach(kids') {
      if o in x.Repr {
        assert o in kids'[j].Repr;
      } else {
        var i :| 0 <= i < |kids| && o in kids[i].Repr;
        assert o in kids'[i].Repr;
      }
    }
  }

  lemma FamilyCut(a: seq<Node>, b: seq<Node>, reach: set<Node>, h: nat)
    requires Family(a + b, reach, h)
    ensures Family(a, Reach(a), h) && Family(b, Reach(b), h)
    ensures Reach(a) !! Reach(b) && reach == Reach(a) + Reach(b)
  {
    hide Node.Valid;
    var all := a + b;
    forall i | 0 <= i < |a| ensures all[i] == a[i] {}
    forall i | 0 <= i < |b| ensures all[|a| + i] == b[i] {}
    forall o ensures o in reach <==> o in Reach(a) + Reach(b) {
      if o in Reach(a) {
        var i :| 0 <= i < |a| && o in a[i].Repr;
        assert o in all[i].Repr;
      }
      if o in Reach(b) {
        var i :| 0 <= i < |b| && o in b[i].Repr;
        assert o in all[|a| + i].Repr;
      }
    }
  }

  lemma FamilyInside(kids: seq<Node>, reach: set<Node>, h: nat)
    requires Family(kids, reach, h)
    ensures forall i :: 0 <= i < |kids| ==> kids[i] in reach && kids[i].Repr <= reach && kids[i].Valid(h)
  {
  }

  /** Without one of its members a family is a family. */
  lemma FamilyWithout(kids: seq<Node>, reach: set<Node>, h: nat, j: nat)
    requires Family(kids, reach, h) && j < |kids|
    ensures Family(kids[..j] + kids[j + 1..], reach - kids[j].Repr, h)
  {
    hide Node.Valid;
    var others := kids[..j] + kids[j + 1..];
    forall i | 0 <= i < |others| ensures others[i] == kids[if i < j then i else i + 1] {}
    forall o | o in reach - kids[j].Repr ensures o in Reach(others) {
      var i :| 0 <= i < |kids| && o in kids[i].Repr;
      assert o in others[if i < j then i else i - 1].Repr;
    }
  }

  /** One child's objects and the others' are apart. */
  lemma OthersApart(kids: seq<Node>, rest: set<Node>, h: nat, j: nat)
    requires j < |kids| && Family(kids, rest + kids[j].Repr, h) && rest !! kids[j].Repr
    ensures var others := kids[..j] + kids[j + 1..];
            && Family(others, rest, h) && Spliced(others, j, kids[j]) == kids
            && (forall i :: 0 <= i < |others| ==> others[i] in rest)
    ensures kids[j].Valid(h) && kids[j] in kids[j].Repr
    ensures forall i :: 0 <= i < |kids| && i != j ==> kids[i] in rest
  {
    hide Node.Valid, Family, Reach;
    var reach, others := rest + kids[j].Repr, kids[..j] + kids[j + 1..];
    FamilyWithout(kids, reach, h, j);
    assert reach - kids[j].Repr == rest;
    FamilyInside(others, rest, h);
    FamilyInside(kids, reach, h);
    ValidIsInside(kids[j], h);
    assert forall i :: 0 <= i < |kids| && i != j ==> kids[i] == others[if i < j then i else i - 1];
  }

  lemma HasChild(slots: seq<Slot<Node>>, i: nat)
    requires i < |slots| && slots[i].payload.Child?
    ensures slots[i].payload.node in NodesOf(slots)
  {
  }

  lemma SplicedChildren(slots: seq<Slot<Node>>, q: nat, e: Slot<Node>)
    requires AllChildren(slots) && e.payload.Child? && q <= |slots|
    ensures var all := Spliced(slots, q, e);
            && AllChildren(all) && Children(all) == Spliced(Children(slots), q, e.payload.node)
            && e.payload.node in NodesOf(all) && NodesOf(slots) <= NodesOf(all)
  {
    SplicedNodes(slots, q, e);
    HasChild(Spliced(slots, q, e), q);
  }

  /** Wherever the new entry of a repair goes, the children with the sibling among them are a family. */
  lemma PlaceFamily(reading: Reading, slots: seq<Slot<Node>>, j: nat, s: Split<Node>, reach: set<Node>, h: nat, q: nat)
    requires AllChildren(slots) && Family(Children(slots), reach, h) && j < |slots| && q <= |slots|
    requires s.sibling.Valid(h) && s.sibling.Repr !! reach
    ensures var (slots', p, e) := RepairPlace(reading, slots, j, slots[j].payload.node, s);
            var all := Spliced(slots', q, e);
            && AllChildren(slots') && e.payload.Child? && AllChildren(all)
            && Family(Children(all), reach + s.sibling.Repr, h)
            && s.sibling in NodesOf(all)
  {
    hide Node.Valid, Family, Reach, Spliced, NodesOf;
    var kids, next := Children(slots), slots[j].payload.node;
    var (slots', p, e) := RepairPlace(reading, slots, j, next, s);
    SplicedChildren(slots', q, e);
    if s.direction.RIGHT? || reading.AsWritten? {
      FamilySplice(kids, reach, h, q, s.sibling);
      assert Children(slots') == kids;
    } else {
      FamilyInside(kids, reach, h);
      FamilyExchange(kids, reach, h, j, s.sibling);
      FamilySplice(kids[j := s.sibling], reach - next.Repr + s.sibling.Repr, h, q, next);
      assert Children(slots') == kids[j := s.sibling];
      HasChild(slots', j);
      assert reach - next.Repr + s.sibling.Repr + next.Repr == reach + s.sibling.Repr;
    }
  }

  /** Before the new entry goes in, the children are a family too. */
  lemma PlaceStart(reading: Reading, slots: seq<Slot<Node>>, j: nat, s: Split<Node>, reach: set<Node>, h: nat)
    returns (kept: set<Node>)
    requires AllChildren(slots) && Family(Children(slots), reach, h) && j < |slots| && slots != []
    requires s.sibling.Valid(h) && s.sibling.Repr !! reach
    ensures var (slots', p, e) := RepairPlace(reading, slots, j, slots[j].payload.node, s);
            && slots' != [] && AllChildren(slots') && Family(Children(slots'), kept, h)
            && kept <= reach + s.sibling.Repr
  {
    hide Node.Valid, Family, Reach;
    var kids, next := Children(slots), slots[j].payload.node;
    var (slots', p, e) := RepairPlace(reading, slots, j, next, s);
    if s.direction.RIGHT? || reading.AsWritten? {
      kept := reach;
      assert Children(slots') == kids;
    } else {
      kept := reach - next.Repr + s.sibling.Repr;
      FamilyExchange(kids, reach, h, j, s.sibling);
      assert Children(slots') == kids[j := s.sibling];
    }
  }

  /** Repairing among the models is modelling the repair. */
  lemma LiftPlace(reading: Reading, slots: seq<Slot<Node>>, j: nat, s: Split<Node>)
    requires AllChildren(slots) && j < |slots|
    ensures var next := slots[j].payload.node;
            var (slots', p, e) := RepairPlace(reading, slots, j, next, s);
            RepairPlace(reading, Lift(slots), j, next.Model, LiftSplitRecord(s)) == (Lift(slots'), p, LiftSlot(e))
  {
    var next := slots[j].payload.node;
    LiftUpdate(slots, j, Slot(slots[j].key, Child(next)));
    LiftUpdate(slots, j, Slot(slots[j].key, Child(s.sibling)));
  }

  /** Repairing is entering the split key, and splitting if there is no space. */
  lemma RepairIsEntering(reading: Reading, bytes: nat, slots: seq<Slot<Node>>, j: nat, s: Split<Node>)
    requires AllChildren(slots) && j < |slots|
    ensures var next := slots[j].payload.node;
            var (slots', p, e) := RepairPlace(reading, slots, j, next, s);
            Repair(reading, bytes, Lift(slots), j, next.Model, Some(LiftSplitRecord(s))) == Entering(reading, bytes, slots', p, e)
  {
    LiftPlace(reading, slots, j, s);
  }

  ghost function Entering(reading: Reading, bytes: nat, slots: seq<Slot<Node>>, p: nat, e: Slot<Node>): Outcome
    requires p <= |slots|
    reads NodesOf(slots), NodesOf([e])
  {
    Finish(reading, false, bytes, Lift(slots), LiftSlot(e), NodeSpec.InsertAt(bytes, Lift(slots), p, LiftSlot(e)))
  }

  lemma EnteringOutcome(reading: Reading, bytes: nat, slots: seq<Slot<Node>>, p: nat, e: Slot<Node>)
    requires p <= |slots|
    ensures Entering(reading, bytes, slots, p, e) ==
            match NodeSpec.InsertAt(bytes, slots, p, e)
            case Thrown(error) => Threw(error, Tree(false, bytes, Lift(slots)))
            case Inserted(bytes', all) => Stored(Tree(false, bytes', Lift(all)), None)
            case NoSpace => Finish(reading, false, bytes, Lift(slots), LiftSlot(e), NoSpace)
  {
  }

  lemma FinishThrows(reading: Reading, leaf: bool, bytes: nat, slots: seq<Slot<Tree>>, e: Slot<Tree>)
    ensures var o := Finish(reading, leaf, bytes, slots, e, NoSpace);
            o.Threw? ==> o.node == Tree(leaf, bytes, slots)
  {
  }

  /** A child that did not split needs no repair. */
  lemma PlainRepair(reading: Reading, bytes: nat, slots: seq<Slot<Node>>, j: nat)
    requires AllChildren(slots) && j < |slots|
    ensures Repair(reading, bytes, Lift(slots), j, slots[j].payload.node.Model, None) == Stored(Tree(false, bytes, Lift(slots)), None)
  {
    assert Lift(slots)[j] == LiftSlot(slots[j]);
  }

  lemma SplicedNodes(slots: seq<Slot<Node>>, p: nat, e: Slot<Node>)
    requires p <= |slots|
    ensures NodesOf(slots) <= NodesOf(Spliced(slots, p, e)) && NodesOf([e]) <= NodesOf(Spliced(slots, p, e))
  {
    var all := Spliced(slots, p, e);
    forall n | n in NodesOf(slots) ensures n in NodesOf(all) {
      var i :| 0 <= i < |slots| && slots[i].payload.Child? && slots[i].payload.node == n;
      assert all[if i < p then i else i + 1] == slots[i];
    }
    assert all[p] == e;
  }

  /** The children of a split node are shared out between its two halves. */
  lemma SplitFamilies(reading: Reading, bytes: nat, slots: seq<Slot<Node>>, e: Slot<Node>, reach: set<Node>, h: nat)
    returns (kept: set<Node>, moved: set<Node>)
    requires AllChildren(slots) && e.payload.Child?
    requires var all := Spliced(slots, LowerBound(Keys(slots), e.key), e);
             AllChildren(all) && Family(Children(all), reach, h)
    ensures kept !! moved && kept + moved <= reach
    ensures match NodeSpec.SplitAndInsert(reading, false, bytes, slots, e)
            case SplitThrown(_) => true
            case SplitDone(original, sibling, _, _) =>
              && kept + moved == reach
              && NodesOf(original) + NodesOf(sibling) == NodesOf(Spliced(slots, LowerBound(Keys(slots), e.key), e))
              && original != [] && sibling != []
              && AllChildren(original) && Family(Children(original), kept, h)
              && AllChildren(sibling) && Family(Children(sibling), moved, h)
  {
    kept, moved := {}, {};
    var p := LowerBound(Keys(slots), e.key);
    if NodeSpec.SplitAndInsert(reading, false, bytes, slots, e).SplitDone? {
      kept, moved := CutFamilies(reading, slots, p, e, reach, h);
    }
  }

  lemma CutFamilies(reading: Reading, slots: seq<Slot<Node>>, p: nat, e: Slot<Node>, reach: set<Node>, h: nat)
    returns (kept: set<Node>, moved: set<Node>)
    requires p <= |slots| && 3 <= |slots|
    requires var all := Spliced(slots, p, e); AllChildren(all) && Family(Children(all), reach, h)
    ensures kept !! moved && kept + moved == reach
    ensures var r := SplitSlots(reading, false, slots, p, e);
            && NodesOf(r.original) + NodesOf(r.sibling) == NodesOf(Spliced(slots, p, e))
            && r.original != [] && r.sibling != []
            && AllChildren(r.original) && Family(Children(r.original), kept, h)
            && AllChildren(r.sibling) && Family(Children(r.sibling), moved, h)
  {
    var all, r := Spliced(slots, p, e), SplitSlots(reading, false, slots, p, e);
    assert r.original != [] && r.sibling != [];
    hide SplitSlots, Family, Reach, Node.Valid;
    InternalSplitKeepsChildren(reading, slots, p, e);
    ChildrenCut(Lower(r), Upper(r), all);
    FamilyCut(Children(Lower(r)), Children(Upper(r)), reach, h);
    kept, moved := Reach(Children(r.original)), Reach(Children(r.sibling));
    NodesOfConcat(Lower(r), Upper(r), all);
  }

  lemma NodesOfConcat(a: seq<Slot<Node>>, b: seq<Slot<Node>>, all: seq<Slot<Node>>)
    requires AllChildren(a) && AllChildren(b) && AllChildren(all) && Children(a) + Children(b) == Children(all)
    ensures NodesOf(a) + NodesOf(b) == NodesOf(all)
  {
    assert |all| == |a| + |b|;
    assert forall i :: 0 <= i < |a| ==> Children(all)[i] == Children(a)[i];
    assert forall i :: 0 <= i < |b| ==> Children(all)[|a| + i] == Children(b)[i];
    forall n | n in NodesOf(a) ensures n in NodesOf(all) {
      var i :| 0 <= i < |a| && a[i].payload.Child? && a[i].payload.node == n;
      assert all[i].payload.node == n;
    }
    forall n | n in NodesOf(b) ensures n in NodesOf(all) {
      var i :| 0 <= i < |b| && b[i].payload.Child? && b[i].payload.node == n;
      assert all[|a| + i].payload.node == n;
    }
    forall n | n in NodesOf(all) ensures n in NodesOf(a) + NodesOf(b) {
      var i :| 0 <= i < |all| && all[i].payload.Child? && all[i].payload.node == n;
      if i < |a| {
        assert a[i].payload.node == n;
      } else {
        assert b[i - |a|].payload.node == n;
      }
    }
  }

  lemma ChildrenCut(a: seq<Slot<Node>>, b: seq<Slot<Node>>, all: seq<Slot<Node>>)
    requires Payloads(a) + Payloads(b) == Payloads(all) && AllChildren(all)
    ensures AllChildren(a) && AllChildren(b) && Children(a) + Children(b) == Children(all)
  {
    hide Payloads;
    PayloadsOfParts(a, b, all);
    forall i | 0 <= i < |a| ensures a[i].payload == all[i].payload {}
    forall i | 0 <= i < |b| ensures b[i].payload == all[|a| + i].payload {}
  }

  // ---- What an insertion below a node leaves behind --------------------------------------------

  ghost function LiftSplitRecord(s: Split<Node>): Split<Tree>
    reads s.sibling
  {
    Split(s.direction, s.key, s.sibling.Model)
  }

  ghost function LiftSplitOption(s: Option<Split<Node>>): Option<Split<Tree>>
    reads if s.Some? then {s.value.sibling} else {}
  {
    if s.None? then None else Some(LiftSplitRecord(s.value))
  }

  ghost function Grown(s: Option<Split<Node>>, reach: set<Node>): set<Node>
    reads if s.Some? then {s.value.sibling} else {}
  {
    if s.None? then reach else reach + s.value.sibling.Repr
  }

  /** The node and the sibling it recorded stand for the outcome, on disjoint objects. */
  ghost predicate Shows(r: Status, node: Node, h: nat, o: Outcome)
    reads *
  {
    match o
    case Threw(error, model) => r == THROWN(error) && node.split.None? && node.Valid(h) && node.Model == model
    case Stored(model, split) =>
      && r == INSERTED && node.Valid(h) && node.Model == model
      && if node.split.None? then split.None?
         else
           var s := node.split.value;
           && split == Some(LiftSplitRecord(s))
           && s.sibling.Valid(h) && s.sibling.Repr !! node.Repr
  }

  /** The objects of the node and of its sibling. */
  ghost function Foot(node: Node): set<Node>
    reads *
  {
    node.Repr + if node.split.Some? then node.split.value.sibling.Repr else {}
  }

  /** The objects of a sibling that the node itself recorded and that its parent has yet to take in. */
  ghost function Pending(node: Node): set<Node>
    reads node
  {
    if node.split.Some? then {node.split.value.sibling} else {}
  }

  /** The levels below a node of a tree in which all leaves are equally deep. */
  ghost function Height(t: Tree): nat {
    if t.leaf || t.slots == [] || t.slots[0].payload.Data? then 0 else 1 + Height(t.slots[0].payload.node)
  }

  lemma ModelHeight(n: Node, h: nat)
    requires n.Valid(h)
    ensures Height(n.Model) == h
    decreases h
  {
    hide Node.Valid, Lift;
    FirstChild(n, h);
    if h > 0 {
      ModelHeight(n.slots[0].payload.node, h - 1);
    }
  }

  lemma FirstChild(n: Node, h: nat)
    requires n.Valid(h)
    ensures n.Model.leaf <==> h == 0
    ensures h > 0 ==>
              && n.slots != [] && n.slots[0].payload.Child? && n.slots[0].payload.node.Valid(h - 1)
              && n.Model.slots != [] && n.Model.slots[0].payload == Child(n.slots[0].payload.node.Model)
  {
    if h > 0 {
      assert n.Model.slots[0] == LiftSlot(n.slots[0]);
    }
  }

  /** Some node of height h has an entry for the child. */
  ghost predicate Linked(child: Node, foot: set<Node>, h: nat)
    reads foot
  {
    exists parent :: parent in foot && child in NodesOf(parent.slots) && Height(parent.Model) == h
  }

  /** Below the top node every node that split has its sibling entered in a node of the level above. */
  ghost predicate NoLooseSplits(top: Node, foot: set<Node>)
    reads foot
  {
    forall n :: n in foot && n != top && n.split.Some? ==> Linked(n.split.value.sibling, foot, Height(n.Model) + 1)
  }

  /** The sibling of a split that the node itself recorded, as a row. */
  ghost function Recorded(node: Node): (row: seq<Node>)
    reads node
    ensures (set n | n in row) == Pending(node)
  {
    if node.split.Some? then [node.split.value.sibling] else []
  }

  /** The nodes of two lists past the given lengths. */
  ghost function Past(leaves: seq<Node>, inner: seq<Node>, m: nat, n: nat): set<Node>
    requires m <= |leaves| && n <= |inner|
  {
    (set x | x in leaves[m..]) + (set x | x in inner[n..])
  }

  lemma PastNone(leaves: seq<Node>, inner: seq<Node>)
    ensures Past(leaves, inner, |leaves|, |inner|) == {}
  {
  }

  lemma PastLeaf(leaves: seq<Node>, inner: seq<Node>, node: Node)
    ensures Past(leaves + Recorded(node), inner, |leaves|, |inner|) == Pending(node)
  {
    assert (leaves + Recorded(node))[|leaves|..] == Recorded(node);
  }

  lemma PastInner(leaves: seq<Node>, inner: seq<Node>, m: nat, n: nat, node: Node)
    requires m <= |leaves| && n <= |inner|
    ensures Past(leaves, inner + Recorded(node), m, n) == Past(leaves, inner, m, n) + Pending(node)
  {
    assert (inner + Recorded(node))[n..] == inner[n..] + Recorded(node);
  }

  ghost predicate Among(leaves: seq<Node>, inner: seq<Node>, nodes: set<Node>) {
    forall n :: n in nodes ==> n in if n.leaf then leaves else inner
  }

  /** A node that was listed before is so with others that are listed now. */
  lemma AmongStill(leaves: seq<Node>, inner: seq<Node>, leaves': seq<Node>, inner': seq<Node>, node: Node, others: set<Node>,
                   nodes: set<Node>)
    requires Among(leaves, inner, {node}) && leaves <= leaves' && inner <= inner' && Among(leaves', inner', others)
    requires nodes <= {node} + others
    ensures Among(leaves', inner', nodes)
  {
    assert node in {node};
  }

  lemma AmongToo(leaves: seq<Node>, inner: seq<Node>, leaves': seq<Node>, inner': seq<Node>, nodes: set<Node>, others: set<Node>)
    requires Among(leaves, inner, nodes) && leaves <= leaves' && inner <= inner' && Among(leaves', inner', others)
    ensures Among(leaves', inner', nodes + others)
  {
  }

  lemma AmongPart(leaves: seq<Node>, inner: seq<Node>, nodes: set<Node>, part: set<Node>)
    requires Among(leaves, inner, nodes) && part <= nodes
    ensures Among(leaves, inner, part)
  {
  }

  /** Internal nodes of the heights 1, 2 and so on. */
  ghost predicate Rising(row: seq<Node>)
    reads row
  {
    forall k :: 0 <= k < |row| ==> Height(row[k].Model) == k + 1
  }

  lemma RisingMore(inner: seq<Node>, n: nat, node: Node, h: nat)
    requires n <= |inner| && Rising(inner[n..])
    requires node.split.Some? ==> |inner| == n + h - 1 && Height(node.split.value.sibling.Model) == h
    ensures n <= |inner + Recorded(node)| && Rising((inner + Recorded(node))[n..])
  {
    hide Height;
    assert (inner + Recorded(node))[n..] == inner[n..] + Recorded(node);
  }

  lemma PastInside(leaves: seq<Node>, inner: seq<Node>, m: nat, n: nat, all: set<Node>)
    requires m <= |leaves| && n <= |inner| && Past(leaves, inner, m, n) <= all
    ensures forall x :: x in inner[n..] ==> x in all
  {
  }

  lemma ModelOfEmpty(leaf: Node)
    requires leaf.Valid(0) && leaf.Repr == {leaf} && leaf.Model == Tree(true, 0, Lift([]))
    ensures var slots := [Slot([], Child(leaf))];
            && AllChildren(slots) && Family(Children(slots), {leaf}, 0)
            && Tree(false, 0, Lift(slots)) == EmptyTree()
  {
    var slots: seq<Slot<Node>> := [Slot([], Child(leaf))];
    assert Children(slots) == [leaf] && leaf in [leaf][0].Repr;
    assert Lift([]) == [];
    assert Lift(slots) == [LiftSlot(slots[0])];
  }

  class BTree {
    var root: Node
    var leafNodes: seq<Node>
    var internalNodes: seq<Node>

    /** Leaves in the one sequence, internal nodes in the other, each once. */
    ghost predicate Listed()
      reads this
    {
      && NoDuplicates(leafNodes) && NoDuplicates(internalNodes)
      && (forall n :: n in leafNodes ==> n.leaf) && (forall n :: n in internalNodes ==> !n.leaf)
    }

    /** The nodes are among those that the tree has allocated. */
    ghost predicate Owns(nodes: set<Node>)
      reads this
    {
      Listed() && Among(leafNodes, internalNodes, nodes)
    }

    /** With a node's recorded sibling listed, the tree owns that too. */
    lemma OwnsMore(nodes: set<Node>, before: set<Node>, inner: seq<Node>, node: Node)
      requires Listed() && Among(leafNodes, inner, before) && nodes <= before + Pending(node)
      requires inner <= internalNodes && (node.split.Some? ==> internalNodes == inner + Recorded(node))
      ensures Owns(nodes)
    {
      forall n | n in Pending(node) ensures n in internalNodes && !n.leaf {
        assert Recorded(node)[0] == n == internalNodes[|inner|];
      }
    }

    /** Nodes that were listed before are apart from those listed since. */
    lemma ListedSince(leaves: seq<Node>, inner: seq<Node>, nodes: set<Node>)
      requires Listed() && leaves <= leafNodes && inner <= internalNodes && Among(leaves, inner, nodes)
      ensures Past(leafNodes, internalNodes, |leaves|, |inner|) !! nodes
    {
      forall n | n in nodes ensures n !in leafNodes[|leaves|..] && n !in internalNodes[|inner|..] {
        if n.leaf {
          var i :| 0 <= i < |leaves| && leaves[i] == n == leafNodes[i];
        } else {
          var i :| 0 <= i < |inner| && inner[i] == n == internalNodes[i];
        }
      }
    }

    /** `Tree::Tree`: an internal root over one empty leaf */
    constructor ()
      ensures root.Valid(1) && fresh(root.Repr)
      ensures root.Model == EmptyTree() && ValidRoot(root.Model, 1, 0)
      ensures forall n :: n in root.Repr ==> n.split.None?
      ensures Owns(root.Repr) && Past(leafNodes, internalNodes, 0, 0) == root.Repr
      ensures |leafNodes| == 1 && leafNodes[0].slots == [] && leafNodes[0].bytes == 0
      ensures internalNodes == [root] && root.slots == [Slot([], Child(leafNodes[0]))] && root.bytes == 0
    {
      hide Node.Valid, Family, Lift, EmptyTree, ValidRoot;
      var leaf := new Node(true);
      var node := new Node(false);
      leaf.AdoptData();
      node.slots := [Slot([], Child(leaf))];
      ModelOfEmpty(leaf);
      node.Adopt(1, {leaf});
      EmptyTreeRefines();
      leafNodes, internalNodes, root := [leaf], [node], node;
    }

    method AllocateLeaf() returns (n: Node)
      requires Listed()
      modifies this`leafNodes
      ensures fresh(n) && n.leaf && n.slots == [] && n.split.None?
      ensures leafNodes == old(leafNodes) + [n] && Listed()
    {
      n := new Node(true);
      leafNodes := leafNodes + [n];
    }

    method AllocateInternal() returns (n: Node)
      requires Listed()
      modifies this`internalNodes
      ensures fresh(n) && !n.leaf && n.slots == [] && n.split.None?
      ensures internalNodes == old(internalNodes) + [n] && Listed()
    {
      n := new Node(false);
      internalNodes := internalNodes + [n];
    }

    /** A parent that has no space for the split key is split itself. */
    method SplitInner(reading: Reading, node: Node, ghost h: nat, e: Slot<Node>, ghost reach: set<Node>) returns (r: Status)
      requires h > 0 && !node.leaf && node.split.None? && AllChildren(node.slots) && e.payload.Child?
      requires var all := Spliced(node.slots, LowerBound(Keys(node.slots), e.key), e);
               AllChildren(all) && Family(Children(all), reach, h - 1) && node !in reach
      requires Listed()
      modifies this`internalNodes, node
      ensures var o := Finish(reading, false, old(node.bytes), old(Lift(node.slots)), old(LiftSlot(e)), NoSpace);
              if o.Stored? then Shows(r, node, h, o)
              else
                && r == THROWN(o.error)
                && node.bytes == old(node.bytes) && node.slots == old(node.slots) && node.split.None?
      ensures old(internalNodes) <= internalNodes && |internalNodes| == |old(internalNodes)| + 1 && Listed()
      ensures r == INSERTED ==> internalNodes == old(internalNodes) + Recorded(node)
      ensures r == INSERTED ==>
                var all := old(Spliced(node.slots, LowerBound(Keys(node.slots), e.key), e));
                && node.split.Some?
                && var sibling := node.split.value.sibling;
                && fresh(sibling) && sibling.split.None?
                && Foot(node) == {node, sibling} + reach
                && NodesOf(node.slots) + NodesOf(sibling.slots) == NodesOf(all)
    {
      hide Node.Valid, NodeSpec.SplitAndInsert, Finish, Total, Lift, LiftSlot, SplitSlots, Family, Listed;
      FinishSplit(reading, false, node.bytes, node.slots, e);
      ghost var kept, moved := SplitFamilies(reading, node.bytes, node.slots, e, reach, h - 1);
      ghost var split := NodeSpec.SplitAndInsert(reading, false, node.bytes, node.slots, e);
      if split.SplitDone? {
        ChildrenInside(split.original, kept, h - 1);
        ChildrenInside(split.sibling, moved, h - 1);
      }
      var sibling := AllocateInternal();
      r := SplitApart(reading, node, h, e, sibling, kept, moved);
    }

    method SplitApart(reading: Reading, node: Node, ghost h: nat, e: Slot<Node>, sibling: Node,
                      ghost kept: set<Node>, ghost moved: set<Node>) returns (r: Status)
      requires h > 0 && !node.leaf && node.split.None?
      requires sibling != node && !sibling.leaf && sibling.slots == []
      requires {node, sibling} !! kept + moved && kept !! moved
      requires match NodeSpec.SplitAndInsert(reading, false, node.bytes, node.slots, e)
               case SplitThrown(_) => true
               case SplitDone(original, slots, _, _) =>
                 && original != [] && AllChildren(original) && Family(Children(original), kept, h - 1)
                 && slots != [] && AllChildren(slots) && Family(Children(slots), moved, h - 1)
      modifies node, sibling
      ensures match old(NodeSpec.SplitAndInsert(reading, false, node.bytes, node.slots, e))
              case SplitThrown(error) =>
                && r == THROWN(error)
                && node.bytes == old(node.bytes) && node.slots == old(node.slots) && node.split.None?
              case SplitDone(original, slots, direction, key) =>
                && r == INSERTED && node.split == Some(Split(direction, key, sibling))
                && node.Valid(h) && node.Model == Tree(false, Total(original), old(Lift(original)))
                && sibling.Valid(h) && sibling.Model == Tree(false, Total(slots), old(Lift(slots)))
                && node.slots == original && sibling.slots == slots && sibling.split == old(sibling.split)
                && node.Repr == {node} + kept && sibling.Repr == {sibling} + moved
    {
      hide Node.Valid, NodeSpec.SplitAndInsert, Total, Lift, Family;
      ghost var split := NodeSpec.SplitAndInsert(reading, false, node.bytes, node.slots, e);
      if split.SplitDone? {
        ChildrenInside(split.original, kept, h - 1);
        ChildrenInside(split.sibling, moved, h - 1);
        assert [] + split.sibling == split.sibling;
      }
      r := node.SplitAndInsert(reading, e, sibling);
      if r == INSERTED {
        node.Adopt(h, kept);
        sibling.Adopt(h, moved);
      }
    }

    /**
     * `Tree::insert` into a tree in which no split is pending. Read as documented, the root with the
     * sibling it may have recorded is routed and holds exactly one entry more; as written, it holds one
     * entry more, and is routed, and finds that entry, for clean insertions and for no others. The nodes
     * that a stored entry adds to the tree are just those that were allocated for it.
     */
    method Insert(reading: Reading, ghost h: nat, key: Bytes, value: Bytes) returns (r: Status)
      requires root.Valid(h) && forall n :: n in root.Repr ==> n.split.None?
      requires ValidRoot(root.Model, h, MAX_ENTRY) && Owns(root.Repr)
      modifies this`leafNodes, this`internalNodes, root.Repr
      ensures Shows(r, root, h, TreeSpec.Insert(reading, old(root.Model), key, value))
      ensures reading.Documented? || Clean(old(root.Model), key, value) ==>
                Correct(TreeSpec.Insert(reading, old(root.Model), key, value),
                        old(root.Model), h, [], Top, key, value, MAX_ENTRY)
      ensures reading.AsWritten? ==>
                Conserved(TreeSpec.Insert(reading, old(root.Model), key, value), old(root.Model), h, key, value)
      ensures r == INSERTED <==>
                && Lookup(old(root.Model), key).None? && |key| + |value| <= MAX_ENTRY
                && Promotable(old(root.Model), key, value)
      ensures r == INSERTED ==>
                Finds(TreeSpec.Insert(reading, old(root.Model), key, value), key,
                      if reading.Documented? || Clean(old(root.Model), key, value) then Some(value) else None)
      ensures r != INSERTED ==>
                (root.Model == old(root.Model) <==>
                   Lookup(old(root.Model), key).Some? || |key| + |value| > MAX_ENTRY)
      ensures r == INSERTED ==> NoLooseSplits(root, Foot(root))
      ensures old(leafNodes) <= leafNodes && |leafNodes| <= |old(leafNodes)| + 1
      ensures old(internalNodes) <= internalNodes && |internalNodes| <= |old(internalNodes)| + h
      ensures Lookup(old(root.Model), key).Some? || |key| + |value| > MAX_ENTRY ==>
                leafNodes == old(leafNodes) && internalNodes == old(internalNodes)
      ensures Owns(Foot(root))
      ensures Past(leafNodes, internalNodes, old(|leafNodes|), old(|internalNodes|)) !! old(root.Repr)
      ensures r == INSERTED ==>
                && Foot(root) == old(root.Repr) + Past(leafNodes, internalNodes, old(|leafNodes|), old(|internalNodes|))
                && Rising(internalNodes[old(|internalNodes|)..])
    {
      hide Node.Valid, TreeSpec.Insert, Listed, Among, Past, Rising, NoLooseSplits, LeafOverflows;
      ModelIsShaped(root, h);
      InsertIsCorrect(root.Model, h, [], Top, key, value, MAX_ENTRY);
      AsWrittenConserves(root.Model, h, [], Top, key, value);
      if Lookup(root.Model, key).None? && |key| + |value| <= MAX_ENTRY && Promotable(root.Model, key, value) {
        FoundIffClean(reading, root.Model, h, [], Top, key, value);
      }
      if Clean(root.Model, key, value) {
        CleanAgrees(root.Model, key, value);
      }
      if LeafOverflows(root.Model, key, value) {
        RefusedBeforeOverflow(root.Model, key, value);
      }
      r := InsertRecursive(reading, root, h, key, value);
      ListedSince(old(leafNodes), old(internalNodes), old(root.Repr));
    }

    /** `Tree::insertRecursive`, from a subtree in which no split is pending */
    method InsertRecursive(reading: Reading, node: Node, ghost h: nat, key: Bytes, value: Bytes) returns (r: Status)
      requires node.Valid(h) && forall n :: n in node.Repr ==> n.split.None?
      requires Owns(node.Repr)
      modifies this`leafNodes, this`internalNodes, node.Repr
      ensures Shows(r, node, h, TreeSpec.Insert(reading, old(node.Model), key, value))
      ensures fresh(Foot(node) - old(node.Repr)) && (r == INSERTED ==> NoLooseSplits(node, Foot(node)))
      ensures var overflows := LeafOverflows(old(node.Model), key, value);
              && old(leafNodes) <= leafNodes && |leafNodes| == |old(leafNodes)| + (if overflows then 1 else 0)
              && old(internalNodes) <= internalNodes && |internalNodes| <= |old(internalNodes)| + (if overflows then h else 0)
      ensures Owns(Foot(node))
      ensures r == INSERTED ==>
                && Foot(node) == old(node.Repr) + Past(leafNodes, internalNodes, old(|leafNodes|), old(|internalNodes|))
                && Rising(internalNodes[old(|internalNodes|)..])
                && (node.split.Some? ==> |leafNodes| == |old(leafNodes)| + 1 && |internalNodes| == |old(internalNodes)| + h)
      decreases h
    {
      if node.leaf {
        r := InsertIntoLeaf(reading, node, key, value);
      } else {
        r := InsertBelow(reading, node, h, key, value);
      }
    }

    method InsertBelow(reading: Reading, node: Node, ghost h: nat, key: Bytes, value: Bytes) returns (r: Status)
      requires h > 0 && node.Valid(h) && forall n :: n in node.Repr ==> n.split.None?
      requires Owns(node.Repr)
      modifies this`leafNodes, this`internalNodes, node.Repr
      ensures Shows(r, node, h, TreeSpec.Insert(reading, old(node.Model), key, value))
      ensures fresh(Foot(node) - old(node.Repr)) && (r == INSERTED ==> NoLooseSplits(node, Foot(node)))
      ensures var overflows := LeafOverflows(old(node.Model), key, value);
              && old(leafNodes) <= leafNodes && |leafNodes| == |old(leafNodes)| + (if overflows then 1 else 0)
              && old(internalNodes) <= internalNodes && |internalNodes| <= |old(internalNodes)| + (if overflows then h else 0)
      ensures Owns(Foot(node))
      ensures r == INSERTED ==>
                && Foot(node) == old(node.Repr) + Past(leafNodes, internalNodes, old(|leafNodes|), old(|internalNodes|))
                && Rising(internalNodes[old(|internalNodes|)..])
                && (node.split.Some? ==> |leafNodes| == |old(leafNodes)| + 1 && |internalNodes| == |old(internalNodes)| + h)
      decreases h, 0
    {
      hide Node.Valid, Family, Reach, Lift, LiftSlot, TreeSpec.Insert, Repair, Shaped, NoLooseSplits, Linked, NodesOf, Children;
      hide Height, Listed, Among, Past, Rising, LeafOverflows, Keys, FindChild, Under;
      ghost var leaves, inner := leafNodes, internalNodes;
      InnerFacts(node, h);
      var j := FindChild(Keys(node.slots), key);
      ghost var rest := BesideChild(reading, node, h, j, key, value);
      AmongPart(leaves, inner, node.Repr, {node});
      AmongPart(leaves, inner, node.Repr, rest + node.slots[j].payload.node.Repr);
      r := Descend(reading, node, h, j, rest, key, value);
      var next := node.slots[j].payload.node;
      ghost var foot, listed := Foot(next), internalNodes;
      AmongStill(leaves, inner, leafNodes, listed, node, rest + foot, {node} + rest + foot);
      if r == INSERTED {
        r := RepairAbove(reading, node, h, j, rest, |leaves|, |inner|);
      } else {
        node.Adopt(h, rest + next.Repr);
        AmongPart(leafNodes, listed, {node} + rest + foot, Foot(node));
      }
    }

    /** The parent's part of `Tree::insertRecursive`; its child's part listed the nodes past `leaves` and `inner`. */
    method RepairAbove(reading: Reading, node: Node, ghost h: nat, j: nat, ghost rest: set<Node>, ghost leaves: nat, ghost inner: nat)
      returns (r: Status)
      requires h > 0 && !node.leaf && node.split.None? && AllChildren(node.slots) && j < |node.slots|
      requires var next := node.slots[j].payload.node;
               && Family(Children(node.slots), rest + next.Repr, h - 1) && node !in rest + next.Repr
               && Height(next.Model) == h - 1 && NoLooseSplits(next, Foot(next))
               && (next.split.Some? ==>
                     var sibling := next.split.value.sibling;
                     sibling.Valid(h - 1) && sibling.Repr !! rest + next.Repr + {node})
               && (next.split.Some? ==> |internalNodes| == inner + h - 1)
      requires forall n :: n in rest ==> n.split.None?
      requires leaves <= |leafNodes| && inner <= |internalNodes| && Rising(internalNodes[inner..])
      requires var foot := Foot(node.slots[j].payload.node);
               Owns({node} + rest + foot) && Past(leafNodes, internalNodes, leaves, inner) <= foot
      modifies this`internalNodes, node
      ensures Shows(r, node, h, old(
                var next := node.slots[j].payload.node;
                Repair(reading, node.bytes, Lift(node.slots), j, next.Model, LiftSplitOption(next.split))))
      ensures old(internalNodes) <= internalNodes && |internalNodes| <= |old(internalNodes)| + 1 && Owns(Foot(node))
      ensures old(node.slots[j].payload.node.split.None?) ==> internalNodes == old(internalNodes)
      ensures Foot(node) <= {node} + rest + old(Foot(node.slots[j].payload.node)) + Pending(node)
      ensures r == INSERTED ==>
                && fresh(Pending(node))
                && Foot(node) == {node} + rest + old(Foot(node.slots[j].payload.node)) + Pending(node)
                && NoLooseSplits(node, Foot(node))
                && Past(leafNodes, internalNodes, leaves, inner)
                   == old(Past(leafNodes, internalNodes, leaves, inner)) + Pending(node)
                && Rising(internalNodes[inner..])
                && (node.split.Some? ==>
                      && old(node.slots[j].payload.node.split.Some?)
                      && |internalNodes| == |old(internalNodes)| + 1)
    {
      hide Node.Valid, Family, Reach, Lift, LiftSlot, Repair, NoLooseSplits, Linked, NodesOf, Children;
      hide Height, Listed, Among, Past, Rising;
      var next := node.slots[j].payload.node;
      ghost var foot, listed := Foot(next), internalNodes;
      PastInside(leafNodes, listed, leaves, inner, foot);
      ChildrenInside(node.slots, rest + next.Repr, h - 1);
      r := RepairChild(reading, node, h, j, rest + next.Repr);
      OwnsMore(Foot(node), {node} + rest + foot, listed, node);
      if r == INSERTED {
        assert Foot(node) == {node} + rest + foot + Pending(node);
        LinkUp(node, next, h, rest, foot);
        PastInner(leafNodes, listed, leaves, inner, node);
        if node.split.Some? {
          ModelHeight(node.split.value.sibling, h);
        }
        RisingMore(listed, inner, node, h);
      }
    }

    /** The recursive call, and what it leaves of the parent's children */
    method Descend(reading: Reading, node: Node, ghost h: nat, j: nat, ghost rest: set<Node>, key: Bytes, value: Bytes)
      returns (r: Status)
      requires h > 0 && AllChildren(node.slots) && j < |node.slots|
      requires forall n :: n in node.slots[j].payload.node.Repr ==> n.split.None?
      requires var next := node.slots[j].payload.node;
               && Family(Children(node.slots), rest + next.Repr, h - 1) && rest !! next.Repr
               && node !in rest + next.Repr && Shaped(next.Model) && Owns(rest + next.Repr)
      modifies this`leafNodes, this`internalNodes, node.slots[j].payload.node.Repr
      ensures var next := node.slots[j].payload.node;
              var o := old(TreeSpec.Insert(reading, node.slots[j].payload.node.Model, key, value));
              && Family(Children(node.slots), rest + next.Repr, h - 1) && rest !! next.Repr
              && Lift(node.slots) == old(Lift(node.slots))[j := Slot(node.slots[j].key, Child(o.node))]
              && next.Model == o.node && Height(next.Model) == h - 1 && node !in next.Repr
              && fresh(next.Repr - old(node.slots[j].payload.node.Repr))
              && if o.Threw? then r == THROWN(o.error)
              else
                && r == INSERTED && LiftSplitOption(next.split) == o.split
                && (next.split.Some? ==>
                      var sibling := next.split.value.sibling;
                      && sibling.Valid(h - 1) && sibling.Repr !! rest + next.Repr + {node}
                      && fresh(sibling.Repr - old(node.slots[j].payload.node.Repr)))
                && NoLooseSplits(next, Foot(next))
      ensures var overflows := old(LeafOverflows(node.slots[j].payload.node.Model, key, value));
              && old(leafNodes) <= leafNodes && |leafNodes| == |old(leafNodes)| + (if overflows then 1 else 0)
              && old(internalNodes) <= internalNodes && |internalNodes| <= |old(internalNodes)| + (if overflows then h - 1 else 0)
      ensures var next := node.slots[j].payload.node;
              && Owns(rest + Foot(next))
              && (r == INSERTED ==>
                    && Foot(next) == old(node.slots[j].payload.node.Repr)
                                     + Past(leafNodes, internalNodes, old(|leafNodes|), old(|internalNodes|))
                    && Rising(internalNodes[old(|internalNodes|)..])
                    && (next.split.Some? ==>
                          |leafNodes| == |old(leafNodes)| + 1 && |internalNodes| == |old(internalNodes)| + h - 1))
      decreases h, 0, 0
    {
      hide Node.Valid, Family, Reach, Lift, LiftSlot, TreeSpec.Insert, Shaped, NoLooseSplits, NodesOf, Children;
      hide Height, Past, Rising, LeafOverflows, Listed, Under, Among;
      var next := node.slots[j].payload.node;
      ghost var kids := Children(node.slots);
      ghost var others := kids[..j] + kids[j + 1..];
      ghost var models := Lift(node.slots);
      ModelsOfChildren(node.slots);
      OthersApart(kids, rest, h - 1, j);
      ghost var leaves, inner := leafNodes, internalNodes;
      AmongPart(leaves, inner, rest + next.Repr, rest);
      AmongPart(leaves, inner, rest + next.Repr, next.Repr);
      r := InsertRecursive(reading, next, h - 1, key, value);
      AmongToo(leaves, inner, leafNodes, internalNodes, rest, Foot(next));
      FamilySplice(others, rest, h - 1, j, next);
      ModelHeight(next, h - 1);
      ModelsOfChildren(node.slots);
      assert Lift(node.slots) == models[j := Slot(node.slots[j].key, Child(next.Model))];
    }

    /** The parent's part of `Tree::insertRecursive`, once its child has taken the key */
    method RepairChild(reading: Reading, node: Node, ghost h: nat, j: nat, ghost reach: set<Node>) returns (r: Status)
      requires h > 0 && !node.leaf && node.split.None? && j < |node.slots|
      requires AllChildren(node.slots) && Family(Children(node.slots), reach, h - 1) && node !in reach
      requires var split := node.slots[j].payload.node.split;
               split.Some? ==>
                 && split.value.sibling.Valid(h - 1)
                 && split.value.sibling.Repr !! reach + {node}
      requires Listed()
      modifies this`internalNodes, node
      ensures Shows(r, node, h, old(
                var next := node.slots[j].payload.node;
                Repair(reading, node.bytes, Lift(node.slots), j, next.Model, LiftSplitOption(next.split))))
      ensures old(internalNodes) <= internalNodes && |internalNodes| <= |old(internalNodes)| + 1 && Listed()
      ensures r == INSERTED ==> internalNodes == old(internalNodes) + Recorded(node)
      ensures node.Repr <= {node} + old(Grown(node.slots[j].payload.node.split, reach)) + Pending(node)
      ensures var split := old(node.slots[j].payload.node.split);
              r == INSERTED ==>
                && Foot(node) == {node} + old(Grown(node.slots[j].payload.node.split, reach)) + Pending(node)
                && fresh(Pending(node)) && (forall n :: n in Pending(node) ==> n.split.None?)
                && (split.Some? ==> Linked(split.value.sibling, {node} + Pending(node), h))
      ensures old(node.slots[j].payload.node.split.None?) ==> internalNodes == old(internalNodes) && r == INSERTED && node.split.None?
    {
      hide Node.Valid, Family, Reach, Lift, LiftSlot, Children, NodesOf, Repair;
      PlainRepair(reading, node.bytes, node.slots, j);
      ChildrenInside(node.slots, reach, h - 1);
      var next := node.slots[j].payload.node;
      if next.split.None? {
        node.Adopt(h, reach);
        r := INSERTED;
      } else {
        r := RepairSplit(reading, node, h, j, next.split.value, reach);
      }
    }

    method RepairSplit(reading: Reading, node: Node, ghost h: nat, j: nat, s: Split<Node>, ghost reach: set<Node>)
      returns (r: Status)
      requires h > 0 && !node.leaf && node.split.None? && j < |node.slots|
      requires AllChildren(node.slots) && Family(Children(node.slots), reach, h - 1) && node !in reach
      requires s.sibling.Valid(h - 1) && s.sibling.Repr !! reach + {node}
      requires Listed()
      modifies this`internalNodes, node
      ensures Shows(r, node, h, old(
                Repair(reading, node.bytes, Lift(node.slots), j, node.slots[j].payload.node.Model, Some(LiftSplitRecord(s)))))
      ensures old(internalNodes) <= internalNodes && |internalNodes| <= |old(internalNodes)| + 1 && Listed()
      ensures r == INSERTED ==> internalNodes == old(internalNodes) + Recorded(node)
      ensures node.Repr <= {node} + reach + old(s.sibling.Repr) + Pending(node)
      ensures r == INSERTED ==>
                && Foot(node) == {node} + reach + old(s.sibling.Repr) + Pending(node)
                && fresh(Pending(node)) && (forall n :: n in Pending(node) ==> n.split.None?)
                && Linked(s.sibling, {node} + Pending(node), h)
    {
      hide Node.Valid, Family, Reach, Lift, LiftSlot, LowerBound, Keys, RepairPlace, Repair, Finish, Children, NodesOf, Entering;
      var (slots', p, e) := RepairPlace(reading, node.slots, j, node.slots[j].payload.node, s);
      RepairIsEntering(reading, node.bytes, node.slots, j, s);
      PlaceFamily(reading, node.slots, j, s, reach, h - 1, p);
      PlaceFamily(reading, node.slots, j, s, reach, h - 1, LowerBound(Keys(slots'), e.key));
      ghost var kept := PlaceStart(reading, node.slots, j, s, reach, h - 1);
      ghost var grown := reach + s.sibling.Repr;
      ChildrenInside(slots', kept, h - 1);
      ChildrenInside(Spliced(slots', p, e), grown, h - 1);
      ChildrenInside(Spliced(slots', LowerBound(Keys(slots'), e.key), e), grown, h - 1);
      SplicedNodes(slots', p, e);
      node.slots := slots';
      r := EnterSplitKey(reading, node, h, p, e, grown, kept, s.sibling);
    }

    /** Inserts a split key at its place, splitting the node if there is no space. */
    method EnterSplitKey(reading: Reading, node: Node, ghost h: nat, p: nat, e: Slot<Node>, ghost grown: set<Node>,
                         ghost kept: set<Node>, ghost child: Node) returns (r: Status)
      requires h > 0 && !node.leaf && node.split.None? && node !in grown && kept <= grown
      requires p <= |node.slots| && e.payload.Child?
      requires node.slots != [] && AllChildren(node.slots) && Family(Children(node.slots), kept, h - 1)
      requires var all := Spliced(node.slots, p, e);
               AllChildren(all) && Family(Children(all), grown, h - 1) && child in NodesOf(all)
      requires var all := Spliced(node.slots, LowerBound(Keys(node.slots), e.key), e);
               AllChildren(all) && Family(Children(all), grown, h - 1) && child in NodesOf(all)
      requires Listed()
      modifies this`internalNodes, node
      ensures Shows(r, node, h, old(Entering(reading, node.bytes, node.slots, p, e)))
      ensures old(internalNodes) <= internalNodes && |internalNodes| <= |old(internalNodes)| + 1 && Listed()
      ensures r == INSERTED ==> internalNodes == old(internalNodes) + Recorded(node)
      ensures node.Repr <= {node} + grown + Pending(node)
      ensures r == INSERTED ==>
                && Foot(node) == {node} + grown + Pending(node)
                && fresh(Pending(node)) && (forall n :: n in Pending(node) ==> n.split.None?)
                && Linked(child, {node} + Pending(node), h)
    {
      hide Node.Valid, Family, Reach, Lift, LiftSlot, LowerBound, Keys, Finish, Children, NodesOf, Entering;
      hide Height, Listed, Under, Spliced;
      EnteringOutcome(reading, node.bytes, node.slots, p, e);
      FinishThrows(reading, false, node.bytes, Lift(node.slots), LiftSlot(e));
      ChildrenInside(node.slots, kept, h - 1);
      ChildrenInside(Spliced(node.slots, p, e), grown, h - 1);
      SplicedNodes(node.slots, p, e);
      r := node.InsertAt(p, e);
      if r == FAILED_NO_SPACE {
        r := SplitInner(reading, node, h, e, grown);
      } else if r == INSERTED {
        node.Adopt(h, grown);
      }
      if r != INSERTED {
        node.Adopt(h, kept);
      }
      ModelHeight(node, h);
      if node.split.Some? {
        ModelHeight(node.split.value.sibling, h);
      }
    }

    /** The leaf's part of `Tree::insertRecursive` when there is no space */
    method SplitLeaf(reading: Reading, node: Node, e: Slot<Node>) returns (r: Status)
      requires node.leaf && AllData(node.slots) && e.payload.Data? && node.split.None? && Listed()
      modifies this`leafNodes, node
      ensures Shows(r, node, 0, Finish(reading, true, old(node.bytes), old(Lift(node.slots)), LiftSlot(e), NoSpace))
      ensures old(leafNodes) <= leafNodes && |leafNodes| == |old(leafNodes)| + 1 && Listed()
      ensures r == INSERTED ==> leafNodes == old(leafNodes) + Recorded(node)
      ensures Foot(node) == {node} + Pending(node)
      ensures fresh(Pending(node)) && forall n :: n in Pending(node) ==> n.split.None?
    {
      hide Node.Valid, NodeSpec.SplitAndInsert, Finish, Total, Lift, LiftSlot, AllData, NodesOf, Listed;
      ghost var bytes, slots := node.bytes, node.slots;
      LeafSplitKeepsData(reading, bytes, slots, e);
      var sibling := AllocateLeaf();
      ghost var split := NodeSpec.SplitAndInsert(reading, true, bytes, slots, e);
      r := node.SplitAndInsert(reading, e, sibling);
      if r == INSERTED {
        assert [] + split.sibling == split.sibling;
        node.AdoptData();
        sibling.AdoptData();
        NoNodes(split.original);
        NoNodes(split.sibling);
      } else {
        node.AdoptData();
      }
      NoNodes(slots);
      FinishSplit(reading, true, bytes, slots, e);
    }

    /** The leaf's part of `Tree::insertRecursive` */
    method InsertIntoLeaf(reading: Reading, node: Node, key: Bytes, value: Bytes) returns (r: Status)
      requires node.Valid(0) && node.split.None? && Listed()
      modifies this`leafNodes, node
      ensures Shows(r, node, 0, TreeSpec.Insert(reading, old(node.Model), key, value))
      ensures Listed() && old(leafNodes) <= leafNodes
      ensures |leafNodes| == |old(leafNodes)| + if LeafOverflows(old(node.Model), key, value) then 1 else 0
      ensures r == INSERTED ==>
                && leafNodes == old(leafNodes) + Recorded(node)
                && Foot(node) == old(node.Repr) + Pending(node)
      ensures fresh(Foot(node) - old(node.Repr)) && (r == INSERTED ==> NoLooseSplits(node, Foot(node)))
    {
      hide Node.Valid, NodeSpec.LeafInsert, TreeSpec.Insert, Shaped, Finish;
      ghost var bytes, slots, e := node.bytes, node.slots, Slot(key, Data(value));
      LeafFacts(node);
      LeafOutcome(reading, bytes, slots, e);
      LeafInsertKeepsData(bytes, slots, e);
      r := node.LeafInsert(key, value);
      if r == FAILED_NO_SPACE {
        r := SplitLeaf(reading, node, Slot(key, Data(value)));
      } else {
        node.AdoptData();
      }
      assert NodesOf(slots) == {};
    }
  }

  lemma NoNodes(slots: seq<Slot<Node>>)
    requires AllData(slots)
    ensures NodesOf(slots) == {}
  {
  }

  lemma LeafFacts(node: Node)
    requires node.Valid(0)
    ensures node.Repr == {node} && node.leaf && AllData(node.slots)
    ensures node.Model == Tree(true, node.bytes, Lift(node.slots)) && Shaped(node.Model)
  {
  }

  /** Links below a child stay, and the child's own split is linked from its parent's level. */
  lemma LinkUp(node: Node, next: Node, h: nat, rest: set<Node>, foot: set<Node>)
    requires h > 0 && Height(next.Model) == h - 1
    requires NoLooseSplits(next, foot)
    requires forall n :: n in rest + Pending(node) ==> n.split.None?
    requires next.split.Some? ==> Linked(next.split.value.sibling, {node} + Pending(node), h)
    ensures NoLooseSplits(node, {node} + rest + foot + Pending(node))
  {
    hide NodesOf, Height;
    var all := {node} + rest + foot + Pending(node);
    forall n | n in all && n != node && n.split.Some? ensures Linked(n.split.value.sibling, all, Height(n.Model) + 1) {
      var within := if n == next then {node} + Pending(node) else foot;
      var parent :| parent in within && n.split.value.sibling in NodesOf(parent.slots) && Height(parent.Model) == Height(n.Model) + 1;
      assert parent in all;
    }
  }

  lemma ModelIsShaped(node: Node, h: nat)
    requires node.Valid(h)
    ensures Shaped(node.Model)
  {
  }

  lemma InnerFacts(node: Node, h: nat)
    requires h > 0 && node.Valid(h)
    ensures node in node.Repr && !node.leaf && node.slots != [] && AllChildren(node.slots)
    ensures node.Model == Tree(false, node.bytes, Lift(node.slots)) && Shaped(node.Model)
    ensures var kids := Children(node.slots);
            Family(kids, Reach(kids), h - 1) && node !in Reach(kids) && node.Repr == {node} + Reach(kids)
  {
    hide Under;
    UnderIsReach(node.slots);
  }

  /** The objects below a node beside those of the child to which it descends, and one step of the recursion. */
  lemma BesideChild(reading: Reading, node: Node, h: nat, j: nat, key: Bytes, value: Bytes) returns (rest: set<Node>)
    requires h > 0 && node.Valid(h) && node.slots != [] && j == FindChild(Keys(node.slots), key)
    ensures AllChildren(node.slots)
    ensures var next := node.slots[j].payload.node;
            && node.Repr == {node} + rest + next.Repr && rest !! next.Repr && node !in rest + next.Repr
            && Family(Children(node.slots), rest + next.Repr, h - 1) && Shaped(node.Model) && Shaped(next.Model)
            && LeafOverflows(node.Model, key, value) == LeafOverflows(next.Model, key, value)
            && Insert(reading, node.Model, key, value) ==
               match Insert(reading, next.Model, key, value)
               case Threw(error, child) =>
                 Threw(error, Tree(false, node.bytes, Lift(node.slots)[j := Slot(node.slots[j].key, Child(child))]))
               case Stored(child, split) =>
                 Repair(reading, node.bytes, Lift(node.slots)[j := Slot(node.slots[j].key, Child(child))], j, child, split)
  {
    hide Node.Valid, Family, Reach, Lift, LiftSlot, TreeSpec.Insert, Repair, Shaped, Children, LeafOverflows;
    InnerFacts(node, h);
    var kids := Children(node.slots);
    rest := Reach(kids) - kids[j].Repr;
    InsertUnfold(reading, node.bytes, node.slots, j, key, value);
    FamilyInside(kids, Reach(kids), h - 1);
    assert rest + kids[j].Repr == Reach(kids);
  }

  /** One step of the recursion, its child's part taken from the child's outcome. */
  lemma InsertUnfold(reading: Reading, bytes: nat, slots: seq<Slot<Node>>, j: nat, key: Bytes, value: Bytes)
    requires slots != [] && j == FindChild(Keys(slots), key) && AllChildren(slots)
    requires Shaped(Tree(false, bytes, Lift(slots)))
    ensures Shaped(slots[j].payload.node.Model)
    ensures LeafOverflows(Tree(false, bytes, Lift(slots)), key, value) == LeafOverflows(slots[j].payload.node.Model, key, value)
    ensures Insert(reading, Tree(false, bytes, Lift(slots)), key, value) ==
            match Insert(reading, slots[j].payload.node.Model, key, value)
            case Threw(error, next) => Threw(error, Tree(false, bytes, Lift(slots)[j := Slot(slots[j].key, Child(next))]))
            case Stored(next, split) =>
              Repair(reading, bytes, Lift(slots)[j := Slot(slots[j].key, Child(next))], j, next, split)
  {
    hide Repair;
    LiftKeys(slots);
    var models := Lift(slots);
    assert models[j] == LiftSlot(slots[j]);
    var o := Insert(reading, slots[j].payload.node.Model, key, value);
    if o.Stored? {
      RepairOverwrites(reading, bytes, models, j, o.node, o.split);
    }
  }

  lemma RepairOverwrites(reading: Reading, bytes: nat, models: seq<Slot<Tree>>, j: nat, next: Tree, split: Option<Split<Tree>>)
    requires j < |models|
    ensures Repair(reading, bytes, models[j := Slot(models[j].key, Child(next))], j, next, split)
         == Repair(reading, bytes, models, j, next, split)
  {
    var models' := models[j := Slot(models[j].key, Child(next))];
    assert models'[j].key == models[j].key;
    assert models'[j := models'[j]] == models';
    if split.Some? {
      var x: Slot<Tree> := Slot(models[j].key, Child(split.value.sibling));
      assert models'[j := x] == models[j := x];
    }
  }

  lemma ModelsOfChildren(slots: seq<Slot<Node>>)
    requires AllChildren(slots)
    ensures |Lift(slots)| == |slots|
    ensures forall i :: 0 <= i < |slots| ==> Lift(slots)[i] == Slot(slots[i].key, Child(Children(slots)[i].Model))
  {
  }

  lemma LeafInsertKeepsData(bytes: nat, slots: seq<Slot<Node>>, e: Slot<Node>)
    requires AllData(slots) && e.payload.Data?
    ensures match NodeSpec.LeafInsert(bytes, slots, e)
            case Inserted(_, slots') => AllData(slots')
            case _ => true
  {
    hide Keys, LowerBound, Spliced, Duplicate, Available, AllData;
    SplicedData(slots, LowerBound(Keys(slots), e.key), e);
  }

  lemma LeafSplitKeepsData(reading: Reading, bytes: nat, slots: seq<Slot<Node>>, e: Slot<Node>)
    requires AllData(slots) && e.payload.Data?
    ensures match NodeSpec.SplitAndInsert(reading, true, bytes, slots, e)
            case SplitDone(original, sibling, _, _) => AllData(original) && AllData(sibling)
            case _ => true
  {
    hide Keys, LowerBound;
    var p := LowerBound(Keys(slots), e.key);
    if 3 <= |slots| {
      LeafSplitConserves(reading, slots, p, e);
      var r := SplitSlots(reading, true, slots, p, e);
      assert r.SplitDone?;
      hide SplitSlots;
      assert AllData(Spliced(slots, p, e));
      AllDataParts(Lower(r), Upper(r));
    }
  }

  /** A node that is split for lack of space, in terms of its pointers. */
  lemma FinishSplit(reading: Reading, leaf: bool, bytes: nat, slots: seq<Slot<Node>>, e: Slot<Node>)
    ensures Finish(reading, leaf, bytes, Lift(slots), LiftSlot(e), NoSpace) ==
            match NodeSpec.SplitAndInsert(reading, leaf, bytes, slots, e)
            case SplitThrown(error) => Threw(error, Tree(leaf, bytes, Lift(slots)))
            case SplitDone(original, sibling, direction, key) =>
              Stored(Tree(leaf, Total(original), Lift(original)),
                     Some(Split(direction, key, Tree(leaf, Total(sibling), Lift(sibling)))))
  {
    LiftSplitAndInsert(reading, leaf, bytes, slots, e);
    match NodeSpec.SplitAndInsert(reading, leaf, bytes, slots, e)
    case SplitThrown(_) =>
    case SplitDone(original, sibling, _, _) =>
      LiftTotal(original);
      LiftTotal(sibling);
  }

  lemma LeafOutcome(reading: Reading, bytes: nat, slots: seq<Slot<Node>>, e: Slot<Node>)
    requires AllData(slots) && e.payload.Data?
    requires Shaped(Tree(true, bytes, Lift(slots)))
    ensures Insert(reading, Tree(true, bytes, Lift(slots)), e.key, e.payload.value) ==
            match NodeSpec.LeafInsert(bytes, slots, e)
            case Thrown(error) => Threw(error, Tree(true, bytes, Lift(slots)))
            case Inserted(bytes', slots') => Stored(Tree(true, bytes', Lift(slots')), None)
            case NoSpace => Finish(reading, true, bytes, Lift(slots), LiftSlot(e), NoSpace)
    ensures LeafOverflows(Tree(true, bytes, Lift(slots)), e.key, e.payload.value) == NodeSpec.LeafInsert(bytes, slots, e).NoSpace?
  {
    LiftKeys(slots);
    LiftInsertAt(bytes, slots, LowerBound(Keys(slots), e.key), e);
  }
}
