/** Cursor frames bound to nodes: their relocation when a node splits, and the unwinding of a cursor's stack. */
module CursorFrames {
  import opened Sequences
  import opened Slots
  import opened NodeSpec

  class Node {
    var visitorFrames: seq<CursorFrame>
    var latched: bool
  }

  class CursorFrame {
    var node: Node
    var position: nat

    constructor (node: Node, position: nat)
      ensures this.node == node && this.position == position
    {
      this.node, this.position := node, position;
    }
  }

  class Cursor {
    var stackFrames: seq<CursorFrame>
  }

  // ---- Where a frame goes, and where its entry goes --------------------------------------------

  /** The position that `moveFrames` gives a frame. */
  function NewPosition(pos: nat, insertPos: nat, splitPos: nat): nat
    requires pos != insertPos
  {
    if pos >= splitPos then
      if pos < insertPos then pos - splitPos else pos - splitPos + 1
    else
      if pos < insertPos then pos else pos + 1
  }

  /** Whether `moveFrames` hands a frame over to the sibling. */
  predicate Moves(pos: nat, insertPos: nat, splitPos: nat) {
    if pos >= splitPos then insertPos > splitPos else insertPos <= splitPos
  }

  /** The same entry before and after a split, which may clear an internal entry's key. */
  ghost predicate SameEntry<N>(leaf: bool, a: Slot<N>, b: Slot<N>) {
    if leaf then a == b else a.payload == b.payload
  }

  ghost predicate AllDifferent<N>(leaf: bool, slots: seq<Slot<N>>, e: Slot<N>) {
    && (forall i, j :: 0 <= i < j < |slots| ==> !SameEntry(leaf, slots[i], slots[j]))
    && (forall i :: 0 <= i < |slots| ==> !SameEntry(leaf, slots[i], e))
  }

  /** The frame that was at pos still stands for the entry that was there. */
  ghost predicate Follows<N>(leaf: bool, slots: seq<Slot<N>>, r: SplitResult<N>, pos: nat, newPos: nat, moved: bool)
    requires r.SplitDone? && pos < |slots|
  {
    var target := if moved then r.sibling else r.original;
    newPos < |target| && SameEntry(leaf, target[newPos], slots[pos])
  }

  /** When `moveFrames` takes a frame along with its entry. */
  predicate Relocated(reading: Reading, pos: nat, insertPos: nat, splitPos: nat) {
    insertPos > splitPos || (pos < splitPos && (reading.Documented? || insertPos != splitPos))
  }

  /**
   * A split takes every frame, other than one at the insert position, along with its entry exactly when
   * the right side was cleaved past the split position, or the frame is one that moves off a cleaved left
   * side. Frames that stay when the left side was cleaved go wrong. At the boundary, as written, all do:
   * the split cleaves right and `moveFrames` hands over the frames of the left (`FrameMisses`).
   */
  lemma FrameFollowsIff<N>(reading: Reading, leaf: bool, slots: seq<Slot<N>>, insertPos: nat, e: Slot<N>, pos: nat)
    requires 3 <= |slots| && insertPos <= |slots| && pos < |slots| && pos != insertPos
    requires AllDifferent(leaf, slots, e)
    ensures var m := SplitPoint(|slots|);
            var r := SplitSlots(reading, leaf, slots, insertPos, e);
            Follows(leaf, slots, r, pos, NewPosition(pos, insertPos, m), Moves(pos, insertPos, m)) <==>
            Relocated(reading, pos, insertPos, m)
  {
    var m := SplitPoint(|slots|);
    var kept := if leaf then slots else slots[m := slots[m].(key := [])];
    KeptEntries(leaf, slots, kept, m, pos);
    if CleavesLeft(reading, insertPos, m) {
      LeftFollows(reading, leaf, slots, kept, insertPos, e, pos);
    } else {
      RightFollows(reading, leaf, slots, kept, insertPos, e, pos);
    }
  }

  /** The frame has been left in the node that was split, one place past the entry that was at pos. */
  ghost predicate OneTooFar<N>(leaf: bool, slots: seq<Slot<N>>, r: SplitResult<N>, pos: nat, newPos: nat, moved: bool)
    requires r.SplitDone? && pos < |slots|
  {
    && !moved && 0 < newPos <= |r.original|
    && SameEntry(leaf, r.original[newPos - 1], slots[pos])
  }

  /** The frame has the place of the entry that was at pos, but in the other of the two nodes. */
  ghost predicate InOtherNode<N>(leaf: bool, slots: seq<Slot<N>>, r: SplitResult<N>, pos: nat, newPos: nat, moved: bool)
    requires r.SplitDone? && pos < |slots|
  {
    Follows(leaf, slots, r, pos, newPos, !moved)
  }

  /**
   * Where the frames that do not follow their entries end up: one place past them when the left side was
   * cleaved; at their place in the other node, every one of them, at the boundary as written.
   */
  lemma FrameMisses<N>(reading: Reading, leaf: bool, slots: seq<Slot<N>>, insertPos: nat, e: Slot<N>, pos: nat)
    requires 3 <= |slots| && insertPos <= |slots| && pos < |slots| && pos != insertPos
    requires !Relocated(reading, pos, insertPos, SplitPoint(|slots|))
    ensures var m := SplitPoint(|slots|);
            var r := SplitSlots(reading, leaf, slots, insertPos, e);
            var newPos, moved := NewPosition(pos, insertPos, m), Moves(pos, insertPos, m);
            if r.direction.LEFT? then pos >= m && OneTooFar(leaf, slots, r, pos, newPos, moved)
            else insertPos == m && InOtherNode(leaf, slots, r, pos, newPos, moved)
  {
    FrameShouldGo(reading, leaf, slots, insertPos, e, pos);
    var m := SplitPoint(|slots|);
    assert SplitSlots(reading, leaf, slots, insertPos, e).direction.LEFT? <==> CleavesLeft(reading, insertPos, m);
    hide SplitSlots, SameEntry;
  }

  /** Among the entries with one key cleared, the one at pos is still the only one that is the same. */
  lemma KeptEntries<N>(leaf: bool, slots: seq<Slot<N>>, kept: seq<Slot<N>>, m: nat, pos: nat)
    requires m < |slots| && pos < |slots| && kept == if leaf then slots else slots[m := slots[m].(key := [])]
    requires forall i, j :: 0 <= i < j < |slots| ==> !SameEntry(leaf, slots[i], slots[j])
    ensures |kept| == |slots| && forall i :: 0 <= i < |slots| ==> (SameEntry(leaf, kept[i], slots[pos]) <==> i == pos)
  {
    forall i | 0 <= i < |slots| ensures SameEntry(leaf, kept[i], slots[pos]) <==> i == pos {
      assert SameEntry(leaf, kept[i], slots[pos]) == SameEntry(leaf, slots[i], slots[pos]);
      if i < pos {
        assert !SameEntry(leaf, slots[i], slots[pos]);
      } else if pos < i {
        assert !SameEntry(leaf, slots[pos], slots[i]);
      }
    }
  }

  lemma LeftFollows<N>(reading: Reading, leaf: bool, slots: seq<Slot<N>>, kept: seq<Slot<N>>, insertPos: nat, e: Slot<N>, pos: nat)
    requires 3 <= |slots| == |kept| && insertPos <= |slots| && pos < |slots| && pos != insertPos
    requires CleavesLeft(reading, insertPos, SplitPoint(|slots|))
    requires kept == if leaf then slots else slots[SplitPoint(|slots|) := slots[SplitPoint(|slots|)].(key := [])]
    requires forall i :: 0 <= i < |slots| ==> (SameEntry(leaf, kept[i], slots[pos]) <==> i == pos)
    ensures var m := SplitPoint(|slots|);
            var r := SplitSlots(reading, leaf, slots, insertPos, e);
            Follows(leaf, slots, r, pos, NewPosition(pos, insertPos, m), Moves(pos, insertPos, m)) <==> pos < m
  {
    hide SameEntry;
    var m := SplitPoint(|slots|);
    var original, sibling := kept[m..], kept[..insertPos] + [e] + kept[insertPos..m];
    if pos >= m {
      assert pos - m + 1 < |original| ==> original[pos - m + 1] == kept[pos + 1];
    } else {
      assert sibling[NewPosition(pos, insertPos, m)] == kept[pos];
    }
  }

  lemma RightFollows<N>(reading: Reading, leaf: bool, slots: seq<Slot<N>>, kept: seq<Slot<N>>, insertPos: nat, e: Slot<N>, pos: nat)
    requires 3 <= |slots| == |kept| && insertPos <= |slots| && pos < |slots| && pos != insertPos
    requires SplitPoint(|slots|) <= insertPos && !CleavesLeft(reading, insertPos, SplitPoint(|slots|))
    requires kept == if leaf then slots else slots[SplitPoint(|slots|) := slots[SplitPoint(|slots|)].(key := [])]
    requires forall i :: 0 <= i < |slots| ==> (SameEntry(leaf, kept[i], slots[pos]) <==> i == pos)
    requires !SameEntry(leaf, slots[pos], e)
    ensures var m := SplitPoint(|slots|);
            var r := SplitSlots(reading, leaf, slots, insertPos, e);
            Follows(leaf, slots, r, pos, NewPosition(pos, insertPos, m), Moves(pos, insertPos, m)) <==> insertPos > m
  {
    var m := SplitPoint(|slots|);
    var original, sibling := kept[..m], kept[m..insertPos] + [e] + kept[insertPos..];
    var newPos := NewPosition(pos, insertPos, m);
    if insertPos > m {
      assert pos < m ==> original[newPos] == kept[pos];
      assert pos >= m ==> sibling[newPos] == kept[pos];
    } else if pos < m {
      assert sibling[newPos] == if newPos == 0 then e else kept[m + newPos - 1];
    } else {
      assert newPos < |original| ==> original[newPos] == kept[newPos];
    }
  }

  /** Where a split puts the entry at pos: its new position, and whether it goes to the sibling. */
  function CorrectPlace(reading: Reading, pos: nat, insertPos: nat, splitPos: nat): (nat, bool) {
    if CleavesLeft(reading, insertPos, splitPos) then
      if pos >= splitPos then (pos - splitPos, false)
      else (if pos < insertPos then pos else pos + 1, true)
    else
      if pos < splitPos then (pos, false)
      else (if pos < insertPos then pos - splitPos else pos - splitPos + 1, true)
  }

  /** There it is, also for the frame at the insert position on which the code gives up. */
  lemma FrameShouldGo<N>(reading: Reading, leaf: bool, slots: seq<Slot<N>>, insertPos: nat, e: Slot<N>, pos: nat)
    requires 3 <= |slots| && insertPos <= |slots| && pos < |slots|
    ensures var place := CorrectPlace(reading, pos, insertPos, SplitPoint(|slots|));
            Follows(leaf, slots, SplitSlots(reading, leaf, slots, insertPos, e), pos, place.0, place.1)
  {
    hide SplitSlots, SameEntry, Follows;
    var m := SplitPoint(|slots|);
    var kept := if leaf then slots else slots[m := slots[m].(key := [])];
    KeptEntry(leaf, slots, kept, m, pos);
    if CleavesLeft(reading, insertPos, m) {
      MovesAreSplit(reading, leaf, slots, kept, insertPos, e, LEFT, 0, m);
      FoundAfterMoves(leaf, slots, kept, 0, insertPos, m, e, pos, SplitSlots(reading, leaf, slots, insertPos, e));
    } else {
      MovesAreSplit(reading, leaf, slots, kept, insertPos, e, RIGHT, m, |slots|);
      FoundAfterMoves(leaf, slots, kept, m, insertPos, |slots|, e, pos, SplitSlots(reading, leaf, slots, insertPos, e));
    }
  }

  /** The moves of a range take an entry inside it along and push the others together. */
  lemma FoundAfterMoves<N>(leaf: bool, slots: seq<Slot<N>>, kept: seq<Slot<N>>, begin: nat, q: nat, end: nat, e: Slot<N>,
                           pos: nat, r: SplitResult<N>)
    requires begin <= q <= end <= |kept| == |slots| && pos < |slots| && SameEntry(leaf, kept[pos], slots[pos])
    requires r.SplitDone? && r.original == kept[..begin] + kept[end..] && r.sibling == kept[begin..q] + [e] + kept[q..end]
    ensures var newPos := if pos < begin then pos else if pos >= end then pos - (end - begin)
                          else if pos < q then pos - begin else pos - begin + 1;
            Follows(leaf, slots, r, pos, newPos, begin <= pos < end)
  {
    hide SameEntry;
    if begin <= pos < end {
      EntryMoved(kept, begin, q, end, e, pos);
    } else {
      EntryLeft(kept, begin, end, pos);
    }
  }

  lemma KeptEntry<N>(leaf: bool, slots: seq<Slot<N>>, kept: seq<Slot<N>>, m: nat, pos: nat)
    requires m < |slots| && pos < |slots| && kept == if leaf then slots else slots[m := slots[m].(key := [])]
    ensures |kept| == |slots| && SameEntry(leaf, kept[pos], slots[pos])
  {
  }

  lemma EntryMoved<T>(s: seq<T>, begin: nat, q: nat, end: nat, e: T, i: nat)
    requires begin <= q <= end <= |s| && begin <= i < end
    ensures var moved := s[begin..q] + [e] + s[q..end];
            var k := if i < q then i - begin else i - begin + 1;
            k < |moved| && moved[k] == s[i]
  {
  }

  lemma EntryLeft<T>(s: seq<T>, begin: nat, end: nat, i: nat)
    requires begin <= end <= |s| && i < |s| && !(begin <= i < end)
    ensures var left := s[..begin] + s[end..];
            var k := if i < begin then i else i - (end - begin);
            k < |left| && left[k] == s[i]
  {
  }

  /**
   * `moveFrames` sends a frame there exactly when it is relocated; the others one place too far when the
   * left side was cleaved, and to the wrong node otherwise.
   */
  lemma GoesWhereItShouldIff(reading: Reading, pos: nat, insertPos: nat, splitPos: nat)
    requires pos != insertPos
    ensures var place := CorrectPlace(reading, pos, insertPos, splitPos);
            var newPos, moved := NewPosition(pos, insertPos, splitPos), Moves(pos, insertPos, splitPos);
            && ((newPos, moved) == place <==> Relocated(reading, pos, insertPos, splitPos))
            && (!Relocated(reading, pos, insertPos, splitPos) ==>
                  (newPos, moved) ==
                  if CleavesLeft(reading, insertPos, splitPos) then (place.0 + 1, place.1) else (place.0, !place.1))
  {
  }

  /** On a full leaf that is split left, the frame at the last entry stays and ends up past the end. */
  lemma FrameGoesWrong()
    ensures var slots, e: Slot<int> := FullEntries<int>(), Slot([1], Data([]));
            var r := SplitSlots(AsWritten, true, slots, 0, e);
            && SplitPoint(|slots|) == 2 && !Moves(3, 0, 2) && NewPosition(3, 0, 2) == 2 == |r.original|
            && !Follows(true, slots, r, 3, NewPosition(3, 0, 2), Moves(3, 0, 2))
  {
  }

  lemma BoundaryMoves(pos: nat, insertPos: nat, splitPos: nat)
    ensures insertPos == splitPos ==> (Moves(pos, insertPos, splitPos) <==> pos < splitPos)
  {
  }

  // ---- moveFrames ------------------------------------------------------------------------------

  ghost function Positions(frames: seq<CursorFrame>): (positions: seq<nat>)
    reads frames
    ensures |positions| == |frames|
    ensures forall i :: 0 <= i < |frames| ==> positions[i] == frames[i].position
  {
    seq(|frames|, i requires 0 <= i < |frames| reads frames => frames[i].position)
  }

  /** The first n frames that stay with the source, given the positions of all. */
  ghost function Staying(frames: seq<CursorFrame>, positions: seq<nat>, n: nat, insertPos: nat, splitPos: nat): seq<CursorFrame>
    requires n <= |frames| == |positions|
  {
    if n == 0 then []
    else
      Staying(frames, positions, n - 1, insertPos, splitPos) +
      if Moves(positions[n - 1], insertPos, splitPos) then [] else [frames[n - 1]]
  }

  /** The first n frames' part that goes over to the sibling. */
  ghost function Moving(frames: seq<CursorFrame>, positions: seq<nat>, n: nat, insertPos: nat, splitPos: nat): seq<CursorFrame>
    requires n <= |frames| == |positions|
  {
    if n == 0 then []
    else
      Moving(frames, positions, n - 1, insertPos, splitPos) +
      if Moves(positions[n - 1], insertPos, splitPos) then [frames[n - 1]] else []
  }

  /** No frame is lost or doubled. */
  lemma {:induction false} FramesConserved(frames: seq<CursorFrame>, positions: seq<nat>, n: nat, insertPos: nat, splitPos: nat)
    requires n <= |frames| == |positions|
    ensures multiset(Staying(frames, positions, n, insertPos, splitPos)) + multiset(Moving(frames, positions, n, insertPos, splitPos))
         == multiset(frames[..n])
  {
    if n > 0 {
      FramesConserved(frames, positions, n - 1, insertPos, splitPos);
      assert frames[..n] == frames[..n - 1] + [frames[n - 1]];
    } else {
      assert frames[..0] == [];
    }
  }

  /** Of two frames that go the same way the one that was first stays so. */
  lemma {:induction false} FramesInOrder(frames: seq<CursorFrame>, positions: seq<nat>, n: nat, i: nat, j: nat,
                                         insertPos: nat, splitPos: nat)
    requires i < j < n <= |frames| == |positions|
    ensures var moves := Moves(positions[i], insertPos, splitPos);
            moves == Moves(positions[j], insertPos, splitPos) ==>
              InOrder(if moves then Moving(frames, positions, n, insertPos, splitPos)
                      else Staying(frames, positions, n, insertPos, splitPos), frames[i], frames[j])
  {
    hide Moves, InOrder;
    var gone, kept := Moving(frames, positions, n - 1, insertPos, splitPos), Staying(frames, positions, n - 1, insertPos, splitPos);
    if j == n - 1 {
      FrameGoes(frames, positions, n - 1, i, insertPos, splitPos);
      InOrderLast(if Moves(positions[i], insertPos, splitPos) then gone else kept, frames[i], frames[j]);
    } else {
      FramesInOrder(frames, positions, n - 1, i, j, insertPos, splitPos);
      var x := frames[n - 1];
      InOrderMore(gone, x, frames[i], frames[j]);
      InOrderMore(kept, x, frames[i], frames[j]);
      assert gone + [] == gone && kept + [] == kept;
    }
  }

  ghost predicate InOrder<T>(s: seq<T>, a: T, b: T) {
    exists p, q :: 0 <= p < q < |s| && s[p] == a && s[q] == b
  }

  lemma InOrderLast<T>(s: seq<T>, a: T, b: T)
    requires a in s
    ensures InOrder(s + [b], a, b)
  {
    var p :| 0 <= p < |s| && s[p] == a;
    assert (s + [b])[p] == a && (s + [b])[|s|] == b;
  }

  lemma InOrderMore<T>(s: seq<T>, x: T, a: T, b: T)
    ensures InOrder(s, a, b) ==> InOrder(s + [x], a, b)
  {
    if InOrder(s, a, b) {
      var p, q :| 0 <= p < q < |s| && s[p] == a && s[q] == b;
      assert (s + [x])[p] == a && (s + [x])[q] == b;
    }
  }

  lemma {:induction false} FrameGoes(frames: seq<CursorFrame>, positions: seq<nat>, n: nat, k: nat, insertPos: nat, splitPos: nat)
    requires k < n <= |frames| == |positions|
    ensures frames[k] in if Moves(positions[k], insertPos, splitPos) then Moving(frames, positions, n, insertPos, splitPos)
                         else Staying(frames, positions, n, insertPos, splitPos)
  {
    if k < n - 1 {
      FrameGoes(frames, positions, n - 1, k, insertPos, splitPos);
    }
  }

  /** `ops::moveFrames`, the destination list read as the sibling's. */
  method MoveFrames(source: Node, sibling: Node, insertPos: nat, splitPos: nat)
    requires source != sibling && NoDuplicates(source.visitorFrames)
    requires forall f :: f in source.visitorFrames ==> f.position != insertPos
    modifies source`visitorFrames, sibling`visitorFrames, source.visitorFrames`position
    ensures var frames := old(source.visitorFrames);
            var positions := old(Positions(source.visitorFrames));
            && source.visitorFrames == Staying(frames, positions, |frames|, insertPos, splitPos)
            && sibling.visitorFrames == old(sibling.visitorFrames) + Moving(frames, positions, |frames|, insertPos, splitPos)
    ensures forall f :: f in old(source.visitorFrames) ==> f.position == NewPosition(old(f.position), insertPos, splitPos)
  {
    ghost var frames, positions, had := source.visitorFrames, Positions(source.visitorFrames), sibling.visitorFrames;
    ghost var done := 0;
    var i := 0;
    UnderwayAtStart(source, sibling, insertPos, splitPos);
    hide Underway, Positions, Staying, Moving, NewPosition;
    while i < |source.visitorFrames|
      invariant 0 <= i && 0 <= done <= |frames|
      invariant Underway(source, sibling, i, frames, positions, had, done, insertPos, splitPos)
      decreases |frames| - done
    {
      UnderwayInside(source, sibling, i, frames, positions, had, done, insertPos, splitPos);
      i := MoveNext(source, sibling, i, frames, positions, had, done, insertPos, splitPos);
      done := done + 1;
    }
    UnderwayInside(source, sibling, i, frames, positions, had, done, insertPos, splitPos);
    forall f | f in frames ensures f.position == NewPosition(old(f.position), insertPos, splitPos) {
      var k :| 0 <= k < |frames| && frames[k] == f;
      assert frames[k].position == NewPosition(positions[k], insertPos, splitPos);
    }
  }

  lemma UnderwayAtStart(source: Node, sibling: Node, insertPos: nat, splitPos: nat)
    requires NoDuplicates(source.visitorFrames)
    requires forall f :: f in source.visitorFrames ==> f.position != insertPos
    ensures var frames := source.visitorFrames;
            Underway(source, sibling, 0, frames, Positions(frames), sibling.visitorFrames, 0, insertPos, splitPos)
  {
  }

  /** While frames remain the position is inside; when none remain the work is done. */
  lemma UnderwayInside(source: Node, sibling: Node, i: int, frames: seq<CursorFrame>, positions: seq<nat>,
                       had: seq<CursorFrame>, n: nat, insertPos: nat, splitPos: nat)
    requires n <= |frames| == |positions|
    requires Underway(source, sibling, i, frames, positions, had, n, insertPos, splitPos)
    ensures i < |source.visitorFrames| <==> n < |frames|
    ensures n == |frames| ==>
              && source.visitorFrames == Staying(frames, positions, n, insertPos, splitPos)
              && sibling.visitorFrames == had + Moving(frames, positions, n, insertPos, splitPos)
              && (forall k :: 0 <= k < n ==> positions[k] != insertPos)
              && (forall k :: 0 <= k < n ==> frames[k].position == NewPosition(positions[k], insertPos, splitPos))
  {
  }

  /** How the lists and the loop's position i look when the first n frames have been dealt with. */
  ghost predicate Underway(source: Node, sibling: Node, i: int, frames: seq<CursorFrame>, positions: seq<nat>,
                           had: seq<CursorFrame>, n: nat, insertPos: nat, splitPos: nat)
    requires n <= |frames| == |positions|
    reads source, sibling, frames
  {
    && i == |Staying(frames, positions, n, insertPos, splitPos)|
    && source.visitorFrames == Staying(frames, positions, n, insertPos, splitPos) + frames[n..]
    && sibling.visitorFrames == had + Moving(frames, positions, n, insertPos, splitPos)
    && Placed(frames, positions, n, insertPos, splitPos)
  }

  method MoveNext(source: Node, sibling: Node, i: int, ghost frames: seq<CursorFrame>, ghost positions: seq<nat>,
                  ghost had: seq<CursorFrame>, ghost n: nat, insertPos: nat, splitPos: nat) returns (next: int)
    requires source != sibling && 0 <= i < |source.visitorFrames| && n < |frames| == |positions|
    requires Underway(source, sibling, i, frames, positions, had, n, insertPos, splitPos)
    modifies source`visitorFrames, sibling`visitorFrames, frames`position
    ensures 0 <= next && Underway(source, sibling, next, frames, positions, had, n + 1, insertPos, splitPos)
  {
    hide *;
    StayingStep(frames, positions, n, insertPos, splitPos);
    UnderwayMeans(source, sibling, i, frames, positions, had, n, insertPos, splitPos);
    var moves := MoveOne(source.visitorFrames[i], frames, positions, n, insertPos, splitPos);
    next := i;
    if moves {
      Splice(source, sibling, i);
    } else {
      next := i + 1;
    }
    UnderwayMeans(source, sibling, next, frames, positions, had, n + 1, insertPos, splitPos);
  }

  lemma UnderwayMeans(source: Node, sibling: Node, i: int, frames: seq<CursorFrame>, positions: seq<nat>,
                      had: seq<CursorFrame>, n: nat, insertPos: nat, splitPos: nat)
    requires n <= |frames| == |positions|
    ensures Underway(source, sibling, i, frames, positions, had, n, insertPos, splitPos) <==>
            && i == |Staying(frames, positions, n, insertPos, splitPos)|
            && source.visitorFrames == Staying(frames, positions, n, insertPos, splitPos) + frames[n..]
            && sibling.visitorFrames == had + Moving(frames, positions, n, insertPos, splitPos)
            && Placed(frames, positions, n, insertPos, splitPos)
  {
  }

  /** The first n frames have their new positions, the others still their old ones. */
  ghost predicate Placed(frames: seq<CursorFrame>, positions: seq<nat>, n: nat, insertPos: nat, splitPos: nat)
    requires |frames| == |positions|
    reads frames
  {
    && NoDuplicates(frames)
    && (forall k :: 0 <= k < |frames| ==> positions[k] != insertPos)
    && (forall k :: 0 <= k < |frames| ==>
          frames[k].position == if k < n then NewPosition(positions[k], insertPos, splitPos) else positions[k])
  }

  method MoveOne(f: CursorFrame, ghost frames: seq<CursorFrame>, ghost positions: seq<nat>, ghost n: nat,
                 insertPos: nat, splitPos: nat) returns (moves: bool)
    requires n < |frames| == |positions| && Placed(frames, positions, n, insertPos, splitPos)
    requires f == frames[n]
    modifies f`position
    ensures Placed(frames, positions, n + 1, insertPos, splitPos)
    ensures moves <==> Moves(positions[n], insertPos, splitPos)
  {
    moves := Relocate(f, insertPos, splitPos);
  }

  /** One frame further, in the form in which the loop finds and leaves the lists. */
  lemma StayingStep(frames: seq<CursorFrame>, positions: seq<nat>, n: nat, insertPos: nat, splitPos: nat)
    requires n < |frames| == |positions|
    ensures var kept := Staying(frames, positions, n, insertPos, splitPos);
            var kept' := Staying(frames, positions, n + 1, insertPos, splitPos);
            var gone := Moving(frames, positions, n, insertPos, splitPos);
            var gone' := Moving(frames, positions, n + 1, insertPos, splitPos);
            var list := kept + frames[n..];
            && list[|kept|] == frames[n]
            && if Moves(positions[n], insertPos, splitPos) then
                 gone' == gone + [frames[n]] && kept' == kept && list[..|kept|] + list[|kept| + 1..] == kept' + frames[n + 1..]
               else
                 gone' == gone && kept' == kept + [frames[n]] && list == kept' + frames[n + 1..]
  {
    hide Moves;
    assert frames[n..] == [frames[n]] + frames[n + 1..];
    MiddleOut(Staying(frames, positions, n, insertPos, splitPos), frames[n], frames[n + 1..]);
  }

  lemma MiddleOut<T>(a: seq<T>, x: T, b: seq<T>)
    ensures var list := a + ([x] + b);
            && list[|a|] == x && list == (a + [x]) + b
            && list[..|a|] + list[|a| + 1..] == a + b
  {
  }

  /** Gives a frame its new position and says whether it goes over to the sibling. */
  method Relocate(f: CursorFrame, insertPos: nat, splitPos: nat) returns (moves: bool)
    requires f.position != insertPos
    modifies f`position
    ensures f.position == NewPosition(old(f.position), insertPos, splitPos)
    ensures moves <==> Moves(old(f.position), insertPos, splitPos)
  {
    var originalPos := f.position;
    if originalPos >= splitPos {
      if originalPos < insertPos {
        f.position := originalPos - splitPos;
      } else {
        f.position := originalPos - splitPos + 1;
      }
      return insertPos > splitPos;
    } else {
      if originalPos > insertPos {
        f.position := originalPos + 1;
      }
      return insertPos <= splitPos;
    }
  }

  /** `list::splice` of one frame to the end of the sibling's list. */
  method Splice(source: Node, sibling: Node, i: nat)
    requires source != sibling && i < |source.visitorFrames|
    modifies source`visitorFrames, sibling`visitorFrames
    ensures sibling.visitorFrames == old(sibling.visitorFrames) + [old(source.visitorFrames)[i]]
    ensures source.visitorFrames == old(source.visitorFrames)[..i] + old(source.visitorFrames)[i + 1..]
  {
    sibling.visitorFrames := sibling.visitorFrames + [source.visitorFrames[i]];
    source.visitorFrames := source.visitorFrames[..i] + source.visitorFrames[i + 1..];
  }

  // ---- Frames and entries together -------------------------------------------------------------

  /** A frame is handed over exactly if its position says so, and otherwise stays. */
  lemma {:induction false} FrameMoves(frames: seq<CursorFrame>, positions: seq<nat>, n: nat, k: nat, insertPos: nat, splitPos: nat)
    requires n <= |frames| == |positions| && k < |frames| && NoDuplicates(frames)
    ensures frames[k] in Moving(frames, positions, n, insertPos, splitPos) <==> k < n && Moves(positions[k], insertPos, splitPos)
    ensures frames[k] in Staying(frames, positions, n, insertPos, splitPos) <==> k < n && !Moves(positions[k], insertPos, splitPos)
  {
    hide Moves;
    if n > 0 {
      FrameMoves(frames, positions, n - 1, k, insertPos, splitPos);
      assert frames[k] == frames[n - 1] <==> k == n - 1;
    }
  }

  /** The frame is in the node's list, at the position of the entry. */
  ghost predicate Names<N>(frame: CursorFrame, node: Node, slots: seq<Slot<N>>, leaf: bool, entry: Slot<N>)
    reads frame`position, node`visitorFrames
  {
    frame in node.visitorFrames && frame.position < |slots| && SameEntry(leaf, slots[frame.position], entry)
  }

  /** The frame is in the split node's list, one place past the entry. */
  ghost predicate JustPast<N>(frame: CursorFrame, node: Node, slots: seq<Slot<N>>, leaf: bool, entry: Slot<N>)
    reads frame`position, node`visitorFrames
  {
    && frame in node.visitorFrames && 0 < frame.position <= |slots|
    && SameEntry(leaf, slots[frame.position - 1], entry)
  }

  /**
   * What has become of a frame that was at pos. It names its old entry, in whichever of the two nodes that
   * is, exactly if it was relocated. When the left side was cleaved it is otherwise one place past its
   * entry; at the boundary, as written, it is in the list of the wrong node, at the right position.
   */
  ghost predicate Accounted<N>(reading: Reading, leaf: bool, slots: seq<Slot<N>>, r: SplitResult<N>, frame: CursorFrame, pos: nat,
                               source: Node, sibling: Node, insertPos: nat, splitPos: nat)
    requires r.SplitDone? && pos < |slots|
    reads frame`position, source`visitorFrames, sibling`visitorFrames
  {
    var entry := slots[pos];
    && ((Names(frame, source, r.original, leaf, entry) || Names(frame, sibling, r.sibling, leaf, entry)) <==>
        Relocated(reading, pos, insertPos, splitPos))
    && (!Relocated(reading, pos, insertPos, splitPos) ==>
          if r.direction.LEFT? then JustPast(frame, source, r.original, leaf, entry)
          else if pos < splitPos then Names(frame, sibling, r.original, leaf, entry)
          else Names(frame, source, r.sibling, leaf, entry))
  }

  /** A split of a node's entries together with `moveFrames`. */
  method SplitFrames<N>(ghost reading: Reading, ghost leaf: bool, ghost slots: seq<Slot<N>>, ghost e: Slot<N>,
                        source: Node, sibling: Node, insertPos: nat, splitPos: nat)
    requires 3 <= |slots| && insertPos <= |slots| && splitPos == SplitPoint(|slots|) && AllDifferent(leaf, slots, e)
    requires source != sibling && NoDuplicates(source.visitorFrames)
    requires forall f :: f in source.visitorFrames ==>
               f.position < |slots| && f.position != insertPos && f !in sibling.visitorFrames
    modifies source`visitorFrames, sibling`visitorFrames, source.visitorFrames`position
    ensures var r := SplitSlots(reading, leaf, slots, insertPos, e);
            forall f :: f in old(source.visitorFrames) ==>
              Accounted(reading, leaf, slots, r, f, old(f.position), source, sibling, insertPos, splitPos)
  {
    ghost var frames, positions := source.visitorFrames, Positions(source.visitorFrames);
    MoveFrames(source, sibling, insertPos, splitPos);
    hide Moves, NewPosition, Staying, Moving, SplitSlots, SameEntry, AllDifferent, Relocated, NoDuplicates, Accounted;
    ghost var r := SplitSlots(reading, leaf, slots, insertPos, e);
    forall f | f in frames
      ensures Accounted(reading, leaf, slots, r, f, old(f.position), source, sibling, insertPos, splitPos)
    {
      var k :| 0 <= k < |frames| && frames[k] == f;
      FrameMoves(frames, positions, |frames|, k, insertPos, splitPos);
      AccountFor(reading, leaf, slots, e, f, positions[k], source, sibling, insertPos, splitPos);
    }
  }

  lemma AccountFor<N>(reading: Reading, leaf: bool, slots: seq<Slot<N>>, e: Slot<N>, frame: CursorFrame, pos: nat,
                      source: Node, sibling: Node, insertPos: nat, splitPos: nat)
    requires 3 <= |slots| && insertPos <= |slots| && splitPos == SplitPoint(|slots|) && AllDifferent(leaf, slots, e)
    requires pos < |slots| && pos != insertPos && frame.position == NewPosition(pos, insertPos, splitPos)
    requires frame in source.visitorFrames <==> !Moves(pos, insertPos, splitPos)
    requires frame in sibling.visitorFrames <==> Moves(pos, insertPos, splitPos)
    ensures Accounted(reading, leaf, slots, SplitSlots(reading, leaf, slots, insertPos, e), frame, pos, source, sibling,
                      insertPos, splitPos)
  {
    FrameFollowsIff(reading, leaf, slots, insertPos, e, pos);
    hide Moves, NewPosition, SplitSlots, SameEntry, AllDifferent, Relocated;
    if !Relocated(reading, pos, insertPos, splitPos) {
      FrameMisses(reading, leaf, slots, insertPos, e, pos);
      BoundaryMoves(pos, insertPos, splitPos);
    }
  }

  // ---- unwindAndLockRoot -----------------------------------------------------------------------

  datatype Event = Acquired(node: Node) | Released(node: Node) | Erased(node: Node, frame: CursorFrame)

  /** The latches held after the events. */
  ghost function LatchesAfter(events: seq<Event>): set<Node> {
    if events == [] then {}
    else
      var n := |events| - 1;
      HeldThen(LatchesAfter(events[..n]), events[n])
  }

  ghost function HeldThen(held: set<Node>, event: Event): set<Node> {
    match event
    case Acquired(node) => held + {node}
    case Released(node) => held - {node}
    case Erased(_, _) => held
  }

  ghost predicate NeverTwo(events: seq<Event>) {
    forall k :: 0 <= k <= |events| ==> |LatchesAfter(events[..k])| <= 1
  }

  /** A frame leaves a node's list only while that node is latched. */
  ghost predicate Guarded(events: seq<Event>) {
    forall k :: 0 <= k < |events| && events[k].Erased? ==> events[k].node in LatchesAfter(events[..k])
  }

  /** Latching the nodes of the first n frames above the bottom one, from the top, one at a time. */
  ghost function Visits(stack: seq<CursorFrame>, nodes: seq<Node>, n: nat): seq<Event>
    requires n <= |nodes| == |stack|
  {
    if n == 0 then []
    else
      var node, frame := nodes[|nodes| - n], stack[|nodes| - n];
      Visits(stack, nodes, n - 1) + [Acquired(node), Erased(node, frame), Released(node)]
  }

  /** The whole unwinding; nodes[0] is where the cursor had its root. */
  ghost function UnwindEvents(stack: seq<CursorFrame>, nodes: seq<Node>, root: Node): seq<Event>
    requires |nodes| == |stack| && nodes != []
  {
    Visits(stack, nodes, |nodes| - 1) + [Acquired(nodes[0]), Erased(nodes[0], stack[0])]
      + if nodes[0] != root then [Acquired(root), Released(nodes[0])] else []
  }

  lemma {:induction false} VisitsHoldOne(stack: seq<CursorFrame>, nodes: seq<Node>, n: nat)
    requires n <= |nodes| == |stack|
    ensures var events := Visits(stack, nodes, n); LatchesAfter(events) == {} && NeverTwo(events) && Guarded(events)
  {
    hide NeverTwo, Guarded, LatchesAfter;
    if n == 0 {
      NoEvents();
    } else {
      VisitsHoldOne(stack, nodes, n - 1);
      var before, node := Visits(stack, nodes, n - 1), nodes[|nodes| - n];
      var erased := Erased(node, stack[|nodes| - n]);
      AndThen(before, Acquired(node));
      AndThen(before + [Acquired(node)], erased);
      AndThen(before + [Acquired(node)] + [erased], Released(node));
      assert Visits(stack, nodes, n) == before + [Acquired(node)] + [erased] + [Released(node)];
    }
  }

  lemma NoEvents()
    ensures LatchesAfter([]) == {} && NeverTwo([]) && Guarded([])
  {
  }

  lemma AndThen(events: seq<Event>, event: Event)
    ensures var after := events + [event];
            && LatchesAfter(after) == HeldThen(LatchesAfter(events), event)
            && (NeverTwo(after) <==> NeverTwo(events) && |LatchesAfter(after)| <= 1)
            && (Guarded(after) <==> Guarded(events) && (event.Erased? ==> event.node in LatchesAfter(events)))
  {
    var after := events + [event];
    Snoc(events, event);
    assert LatchesAfter(after) == HeldThen(LatchesAfter(events), event);
    hide LatchesAfter, HeldThen;
    NeverTwoAndThen(events, after);
    GuardedAndThen(events, event, after);
  }

  lemma NeverTwoAndThen(events: seq<Event>, after: seq<Event>)
    requires |after| == |events| + 1 && after[..|after|] == after
    requires forall k :: 0 <= k <= |events| ==> after[..k] == events[..k]
    ensures NeverTwo(after) <==> NeverTwo(events) && |LatchesAfter(after)| <= 1
  {
    hide LatchesAfter;
    assert NeverTwo(after) ==> |LatchesAfter(after[..|after|])| <= 1;
  }

  lemma GuardedAndThen(events: seq<Event>, event: Event, after: seq<Event>)
    requires after == events + [event]
    requires forall k :: 0 <= k <= |events| ==> after[..k] == events[..k]
    ensures Guarded(after) <==> Guarded(events) && (event.Erased? ==> event.node in LatchesAfter(events))
  {
    hide LatchesAfter;
    assert after[|events|] == event && after[..|events|] == events;
    if Guarded(after) {
      forall k | 0 <= k < |events| && events[k].Erased? ensures events[k].node in LatchesAfter(events[..k]) {
        assert after[k] == events[k];
      }
    }
  }

  lemma Snoc<T>(s: seq<T>, x: T)
    ensures var all := s + [x];
            && all[|s|] == x && all[..|all|] == all && all[..|s|] == s
            && forall k :: 0 <= k <= |s| ==> all[..k] == s[..k]
  {
  }

  /**
   * Every frame leaves its node's list while the node is latched; in the end only the root is latched; and
   * two latches are held at once exactly when the root has changed.
   */
  lemma UnwindHoldsOneIff(stack: seq<CursorFrame>, nodes: seq<Node>, root: Node)
    requires |nodes| == |stack| && nodes != []
    ensures var events := UnwindEvents(stack, nodes, root);
            LatchesAfter(events) == {root} && Guarded(events) && (NeverTwo(events) <==> nodes[0] == root)
  {
    hide NeverTwo, Guarded, LatchesAfter, Visits;
    var visits, erased := Visits(stack, nodes, |nodes| - 1), Erased(nodes[0], stack[0]);
    VisitsHoldOne(stack, nodes, |nodes| - 1);
    AndThen(visits, Acquired(nodes[0]));
    var one := visits + [Acquired(nodes[0])];
    AndThen(one, erased);
    var bare := one + [erased];
    assert visits + [Acquired(nodes[0]), erased] == bare;
    if nodes[0] != root {
      AndThen(bare, Acquired(root));
      AndThen(bare + [Acquired(root)], Released(nodes[0]));
      assert UnwindEvents(stack, nodes, root) == bare + [Acquired(root)] + [Released(nodes[0])];
      assert LatchesAfter(bare + [Acquired(root)]) == {nodes[0], root};
      assert |{nodes[0], root}| == 2;
    } else {
      assert UnwindEvents(stack, nodes, root) == bare;
    }
  }

  /** The frames that leave their lists, in order. */
  ghost function FramesErased(events: seq<Event>): seq<CursorFrame> {
    if events == [] then []
    else
      var n := |events| - 1;
      FramesErased(events[..n]) + if events[n].Erased? then [events[n].frame] else []
  }

  lemma {:induction false} FramesErasedConcat(a: seq<Event>, b: seq<Event>)
    ensures FramesErased(a + b) == FramesErased(a) + FramesErased(b)
  {
    if b == [] {
      assert a + b == a;
    } else {
      var n := |b| - 1;
      assert (a + b)[..|a + b| - 1] == a + b[..n];
      FramesErasedConcat(a, b[..n]);
    }
  }

  lemma FramesErasedOne(events: seq<Event>)
    ensures events == [] ==> FramesErased(events) == []
    ensures |events| == 1 ==> FramesErased(events) == if events[0].Erased? then [events[0].frame] else []
  {
  }

  lemma {:induction false} VisitsTopDown(stack: seq<CursorFrame>, nodes: seq<Node>, n: nat, k: nat)
    requires n <= |nodes| == |stack|
    ensures |FramesErased(Visits(stack, nodes, n))| == n
    ensures k < n ==> FramesErased(Visits(stack, nodes, n))[k] == stack[|stack| - 1 - k]
  {
    if n > 0 {
      VisitsTopDown(stack, nodes, n - 1, if k < n - 1 then k else 0);
      VisitErases(Visits(stack, nodes, n - 1), nodes[|nodes| - n], stack[|nodes| - n]);
    } else {
      FramesErasedOne([]);
    }
  }

  lemma VisitErases(events: seq<Event>, node: Node, frame: CursorFrame)
    ensures FramesErased(events + [Acquired(node), Erased(node, frame), Released(node)]) == FramesErased(events) + [frame]
    ensures FramesErased(events + [Acquired(node), Erased(node, frame)]) == FramesErased(events) + [frame]
  {
    hide FramesErased;
    var a, b, c := [Acquired(node)], [Erased(node, frame)], [Released(node)];
    FramesErasedOne(a);
    FramesErasedOne(b);
    FramesErasedOne(c);
    FramesErasedConcat(events, a);
    FramesErasedConcat(events + a, b);
    FramesErasedConcat(events + a + b, c);
    assert events + [Acquired(node), Erased(node, frame), Released(node)] == events + a + b + c;
    assert events + [Acquired(node), Erased(node, frame)] == events + a + b;
  }

  /** The frames leave their lists from the top of the stack down, each once. */
  lemma UnwindsTopDown(stack: seq<CursorFrame>, nodes: seq<Node>, root: Node, k: nat)
    requires |nodes| == |stack| && k < |stack|
    ensures var erased := FramesErased(UnwindEvents(stack, nodes, root));
            |erased| == |stack| && erased[k] == stack[|stack| - 1 - k]
  {
    hide Visits, FramesErased;
    var visits := Visits(stack, nodes, |nodes| - 1);
    VisitsTopDown(stack, nodes, |nodes| - 1, if k < |nodes| - 1 then k else 0);
    VisitErases(visits, nodes[0], stack[0]);
    HandOverErasesNone(root, nodes[0]);
    var last := if nodes[0] != root then [Acquired(root), Released(nodes[0])] else [];
    FramesErasedConcat(visits + [Acquired(nodes[0]), Erased(nodes[0], stack[0])], last);
  }

  lemma HandOverErasesNone(root: Node, node: Node)
    ensures FramesErased([]) == [] && FramesErased([Acquired(root), Released(node)]) == []
  {
    hide FramesErased;
    var a, b := [Acquired(root)], [Released(node)];
    FramesErasedOne([]);
    FramesErasedOne(a);
    FramesErasedOne(b);
    FramesErasedConcat(a, b);
    assert a + b == [Acquired(root), Released(node)];
  }

  ghost function NodesOf(frames: seq<CursorFrame>): (nodes: seq<Node>)
    reads frames
    ensures |nodes| == |frames|
    ensures forall i :: 0 <= i < |frames| ==> nodes[i] == frames[i].node
  {
    seq(|frames|, i requires 0 <= i < |frames| reads frames => frames[i].node)
  }

  ghost function SetOf<T>(s: seq<T>): set<T> {
    set x | x in s
  }

  /** Every frame of the stack is in its own node's list, once, and in no other node's. */
  ghost predicate Bound(stack: seq<CursorFrame>, nodes: set<Node>)
    reads stack, nodes`visitorFrames
  {
    && NoDuplicates(stack)
    && (forall f :: f in stack ==> f.node in nodes && f in f.node.visitorFrames)
    && (forall n :: n in nodes ==> NoDuplicates(n.visitorFrames))
    && (forall f, n :: f in stack && n in nodes && f in n.visitorFrames ==> f.node == n)
  }

  /** Waits until the node is free, which it is once this returns, and takes its latch. */
  method Acquire(node: Node, ghost events: seq<Event>) returns (ghost after: seq<Event>)
    requires !node.latched
    modifies node`latched
    ensures node.latched && after == events + [Acquired(node)]
  {
    node.latched := true;
    after := events + [Acquired(node)];
  }

  method Release(node: Node, ghost events: seq<Event>) returns (ghost after: seq<Event>)
    requires node.latched
    modifies node`latched
    ensures !node.latched && after == events + [Released(node)]
  {
    node.latched := false;
    after := events + [Released(node)];
  }

  /** Unbinds one frame from its node, whose latch must be held. */
  method Erase(frame: CursorFrame, ghost stack: seq<CursorFrame>, ghost nodes: set<Node>, ghost events: seq<Event>)
    returns (ghost after: seq<Event>)
    requires frame.node.latched
    requires Bound(stack, nodes) && stack != [] && frame == stack[|stack| - 1]
    modifies frame.node`visitorFrames
    ensures Bound(stack[..|stack| - 1], nodes)
    ensures forall n :: n in nodes ==> n.visitorFrames == Without(old(n.visitorFrames), frame)
    ensures after == events + [Erased(frame.node, frame)]
  {
    var list := frame.node.visitorFrames;
    var k :| 0 <= k < |list| && list[k] == frame;
    frame.node.visitorFrames := list[..k] + list[k + 1..];
    WithoutAt(list, k);
    forall n | n in nodes ensures n.visitorFrames == Without(old(n.visitorFrames), frame) {
      if n != frame.node {
        WithoutAbsent(n.visitorFrames, frame);
      }
    }
    after := events + [Erased(frame.node, frame)];
  }

  /**
   * `ops::unwindAndLockRoot` on a cursor with at least one frame, from the top frame down, when its
   * latches are free. The events are the latches taken and given back and the frames erased, in order.
   */
  method UnwindAndLockRoot(root: Node, visitor: Cursor, ghost nodes: set<Node>) returns (ghost events: seq<Event>)
    requires visitor.stackFrames != [] && Bound(visitor.stackFrames, nodes)
    requires root in nodes && forall n :: n in nodes ==> !n.latched
    modifies visitor, nodes
    ensures visitor.stackFrames == []
    ensures Unbound(nodes, old(ListsOf(nodes)), old(visitor.stackFrames))
    ensures forall n :: n in nodes ==> (n.latched <==> n == root)
    ensures events == UnwindEvents(old(visitor.stackFrames), old(NodesOf(visitor.stackFrames)), root)
  {
    hide Bound, Unbound, ListsOf, NodesOf, Unwound;
    ghost var stack, at, lists := visitor.stackFrames, NodesOf(visitor.stackFrames), ListsOf(nodes);
    var numFrames := |visitor.stackFrames|;
    events := [];
    UnwoundAtStart(visitor, nodes);
    for i := 1 to numFrames
      invariant Unwound(visitor, stack, numFrames - i + 1, nodes, lists, at)
      invariant forall n :: n in nodes ==> !n.latched
      invariant events == Visits(stack, at, i - 1)
    {
      events := VisitTop(visitor, numFrames - i + 1, stack, nodes, lists, at, events);
    }
    events := LockRoot(root, visitor, stack, nodes, lists, at, events);
  }

  /** The cursor's first k frames are left, the others unbound. */
  ghost predicate Unwound(visitor: Cursor, stack: seq<CursorFrame>, k: nat, nodes: set<Node>,
                          lists: map<Node, seq<CursorFrame>>, at: seq<Node>)
    reads visitor, stack, nodes`visitorFrames
  {
    && k <= |stack| && visitor.stackFrames == stack[..k] && at == NodesOf(stack)
    && Bound(stack[..k], nodes) && Unbound(nodes, lists, stack[k..])
  }

  lemma UnwoundMeans(visitor: Cursor, stack: seq<CursorFrame>, k: nat, nodes: set<Node>,
                     lists: map<Node, seq<CursorFrame>>, at: seq<Node>)
    requires k <= |stack|
    ensures Unwound(visitor, stack, k, nodes, lists, at) <==>
            && visitor.stackFrames == stack[..k] && at == NodesOf(stack)
            && Bound(stack[..k], nodes) && Unbound(nodes, lists, stack[k..])
    ensures Unwound(visitor, stack, k, nodes, lists, at) && k > 0 ==>
              |at| == |stack| && at[k - 1] == stack[k - 1].node && at[k - 1] in nodes
  {
    if Unwound(visitor, stack, k, nodes, lists, at) && k > 0 {
      assert stack[k - 1] in stack[..k];
    }
  }

  lemma UnwoundAtStart(visitor: Cursor, nodes: set<Node>)
    requires Bound(visitor.stackFrames, nodes)
    ensures var stack := visitor.stackFrames;
            Unwound(visitor, stack, |stack|, nodes, ListsOf(nodes), NodesOf(stack))
  {
    var stack := visitor.stackFrames;
    NoneUnbound(nodes, ListsOf(nodes), stack);
    assert stack == stack[..|stack|];
  }

  method VisitTop(visitor: Cursor, ghost k: nat, ghost stack: seq<CursorFrame>, ghost nodes: set<Node>,
                  ghost lists: map<Node, seq<CursorFrame>>, ghost at: seq<Node>, ghost events: seq<Event>)
    returns (ghost after: seq<Event>)
    requires 0 < k <= |stack| && Unwound(visitor, stack, k, nodes, lists, at)
    requires forall n :: n in nodes ==> !n.latched
    modifies visitor, nodes
    ensures Unwound(visitor, stack, k - 1, nodes, lists, at) && |at| == |stack|
    ensures forall n :: n in nodes ==> !n.latched
    ensures after == events + [Acquired(at[k - 1]), Erased(at[k - 1], stack[k - 1]), Released(at[k - 1])]
  {
    hide *;
    UnwoundMeans(visitor, stack, k, nodes, lists, at);
    var frame := visitor.stackFrames[|visitor.stackFrames| - 1];
    after := Acquire(frame.node, events);
    after := UnbindTop(visitor, frame, k, stack, nodes, lists, after);
    after := Release(frame.node, after);
    UnwoundMeans(visitor, stack, k - 1, nodes, lists, at);
  }

  /** The bottom frame's part: its node's latch is kept, or exchanged for the root's if the root has changed. */
  method LockRoot(root: Node, visitor: Cursor, ghost stack: seq<CursorFrame>, ghost nodes: set<Node>,
                  ghost lists: map<Node, seq<CursorFrame>>, ghost at: seq<Node>, ghost events: seq<Event>)
    returns (ghost after: seq<Event>)
    requires stack != [] && Unwound(visitor, stack, 1, nodes, lists, at)
    requires root in nodes && forall n :: n in nodes ==> !n.latched
    modifies visitor, nodes
    ensures visitor.stackFrames == [] && Unbound(nodes, lists, stack) && at != []
    ensures forall n :: n in nodes ==> (n.latched <==> n == root)
    ensures after == events + [Acquired(at[0]), Erased(at[0], stack[0])]
                       + if at[0] != root then [Acquired(root), Released(at[0])] else []
  {
    hide *;
    UnwoundMeans(visitor, stack, 1, nodes, lists, at);
    var frame := visitor.stackFrames[0];
    after := Acquire(frame.node, events);
    after := UnbindTop(visitor, frame, 1, stack, nodes, lists, after);
    if frame.node != root {
      after := Acquire(root, after);
      after := Release(frame.node, after);
    }
    assert stack[0..] == stack;
  }

  ghost function ListsOf(nodes: set<Node>): map<Node, seq<CursorFrame>>
    reads nodes`visitorFrames
  {
    map n | n in nodes :: n.visitorFrames
  }

  /** The lists as they were, without the frames already popped. */
  ghost predicate Unbound(nodes: set<Node>, lists: map<Node, seq<CursorFrame>>, popped: seq<CursorFrame>)
    reads nodes`visitorFrames
  {
    lists.Keys == nodes && forall n :: n in nodes ==> n.visitorFrames == WithoutAll(lists[n], SetOf(popped))
  }

  lemma NoneUnbound(nodes: set<Node>, lists: map<Node, seq<CursorFrame>>, stack: seq<CursorFrame>)
    requires lists.Keys == nodes && forall n :: n in nodes ==> n.visitorFrames == lists[n]
    ensures Unbound(nodes, lists, stack[|stack|..])
  {
    assert SetOf(stack[|stack|..]) == {};
    forall n | n in nodes ensures n.visitorFrames == WithoutAll(lists[n], {}) {
      WithoutNone(n.visitorFrames);
    }
  }

  method UnbindTop(visitor: Cursor, frame: CursorFrame, ghost k: nat, ghost stack: seq<CursorFrame>, ghost nodes: set<Node>,
                   ghost lists: map<Node, seq<CursorFrame>>, ghost events: seq<Event>) returns (ghost after: seq<Event>)
    requires frame.node.latched
    requires 0 < k <= |stack| && visitor.stackFrames == stack[..k] && frame == stack[k - 1]
    requires Bound(stack[..k], nodes) && Unbound(nodes, lists, stack[k..])
    modifies visitor, nodes`visitorFrames
    ensures visitor.stackFrames == stack[..k - 1]
    ensures after == events + [Erased(frame.node, frame)]
    ensures Bound(stack[..k - 1], nodes) && Unbound(nodes, lists, stack[k - 1..])
  {
    assert stack[..k][..k - 1] == stack[..k - 1];
    after := Erase(frame, stack[..k], nodes, events);
    visitor.stackFrames := visitor.stackFrames[..|visitor.stackFrames| - 1];
    assert SetOf(stack[k - 1..]) == SetOf(stack[k..]) + {frame} by {
      assert stack[k - 1..] == [frame] + stack[k..];
    }
    forall n | n in nodes ensures n.visitorFrames == WithoutAll(lists[n], SetOf(stack[k - 1..])) {
      WithoutOneMore(lists[n], SetOf(stack[k..]), frame);
    }
  }
}
