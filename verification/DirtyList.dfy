/** The allocator's doubly linked list of dirty nodes, kept in order of last dirtying, with a live flush position. */
module DirtyList {
  import opened Sequences

  // ---- What the list stands for ----------------------------------------------------------------

  /** Dirtying moves a node to the end. */
  function Dirtied<T(==)>(s: seq<T>, x: T): seq<T> {
    Without(s, x) + [x]
  }

  /** The list after dirtying the given nodes one after the other, starting from an empty one. */
  function DirtyRun<T(==)>(xs: seq<T>): seq<T> {
    if xs == [] then [] else Dirtied(DirtyRun(xs[..|xs| - 1]), xs[|xs| - 1])
  }

  /** The nodes at their last occurrences, in order. */
  function LastOccurrences<T(==)>(xs: seq<T>): seq<T> {
    if xs == [] then []
    else (if xs[0] in xs[1..] then [] else [xs[0]]) + LastOccurrences(xs[1..])
  }

  lemma {:induction false} LastOccurrencesSnoc<T>(xs: seq<T>, x: T)
    ensures LastOccurrences(xs + [x]) == Dirtied(LastOccurrences(xs), x)
  {
    if xs == [] {
      assert xs + [x] == [x];
      assert LastOccurrences([x]) == [x] + LastOccurrences([x][1..]);
    } else {
      assert (xs + [x])[1..] == xs[1..] + [x];
      LastOccurrencesSnoc(xs[1..], x);
      WithoutConcat(if xs[0] in xs[1..] then [] else [xs[0]], LastOccurrences(xs[1..]), x);
    }
  }

  /** The list is always the distinct nodes ordered by when they were last dirtied. */
  lemma {:induction false} RunIsLastOccurrences<T>(xs: seq<T>)
    ensures DirtyRun(xs) == LastOccurrences(xs)
  {
    if xs != [] {
      var n := |xs| - 1;
      assert xs == xs[..n] + [xs[n]];
      RunIsLastOccurrences(xs[..n]);
      LastOccurrencesSnoc(xs[..n], xs[n]);
    }
  }

  /** Distinct, and the same nodes. */
  lemma {:induction false} LastOccurrencesDistinct<T>(xs: seq<T>)
    ensures NoDuplicates(LastOccurrences(xs))
    ensures forall x :: x in LastOccurrences(xs) <==> x in xs
  {
    if xs != [] {
      LastOccurrencesDistinct(xs[1..]);
    }
  }

  // ---- The list --------------------------------------------------------------------------------

  class Node {
    var nextDirty: Node?
    var prevDirty: Node?
  }

  function At(list: seq<Node>, i: int): Node? {
    if 0 <= i < |list| then list[i] else null
  }

  lemma Apart<T>(s: seq<T>, i: nat, j: nat)
    requires NoDuplicates(s)
    ensures i < |s| && j < |s| && i != j ==> s[i] != s[j]
  {
  }

  // ---- The flush position ----------------------------------------------------------------------

  /** The nodes a flush has still to visit. */
  function AheadOf(s: seq<Node>, flush: Node?): seq<Node> {
    if s == [] then [] else if s[0] == flush then s else AheadOf(s[1..], flush)
  }

  lemma {:induction false} AheadOfAt(a: seq<Node>, x: Node, b: seq<Node>)
    requires x !in a
    ensures AheadOf(a + [x] + b, x) == [x] + b
  {
    if a == [] {
      assert a + [x] + b == [x] + b;
    } else {
      assert (a + [x] + b)[1..] == a[1..] + [x] + b;
      AheadOfAt(a[1..], x, b);
    }
  }

  lemma {:induction false} AheadOfAbsent(s: seq<Node>, flush: Node?)
    requires flush !in s
    ensures AheadOf(s, flush) == []
  {
    if s != [] {
      AheadOfAbsent(s[1..], flush);
    }
  }

  /** Another node's moving to the end changes what is ahead only in that node. */
  lemma {:induction false} AheadOfDirtied(s: seq<Node>, flush: Node, x: Node)
    requires flush in s && flush != x
    ensures AheadOf(Dirtied(s, x), flush) == Dirtied(AheadOf(s, flush), x)
  {
    if s[0] == flush {
      assert Without(s, x) == [s[0]] + Without(s[1..], x);
    } else if s[0] == x {
      assert Without(s, x) == Without(s[1..], x);
      AheadOfDirtied(s[1..], flush, x);
    } else {
      AheadOfDirtied(s[1..], flush, x);
      assert Without(s, x) == [s[0]] + Without(s[1..], x);
      assert Dirtied(s, x)[1..] == Dirtied(s[1..], x);
    }
  }

  lemma WithoutDirtied<T>(s: seq<T>, x: T)
    ensures Without(Dirtied(s, x), x) == Without(s, x)
  {
    InWithout(s, x);
    WithoutAbsent([], x);
    assert [x][1..] == [];
    assert Without([x], x) == [];
    WithoutConcat(Without(s, x), [x], x);
    WithoutAbsent(Without(s, x), x);
  }

  /** The node after x, null if x is the last. */
  function NextOf(s: seq<Node>, x: Node): Node? {
    if s == [] then null else if s[0] == x then At(s, 1) else NextOf(s[1..], x)
  }

  lemma {:induction false} NextOfAt(a: seq<Node>, x: Node, b: seq<Node>)
    requires x !in a
    ensures NextOf(a + [x] + b, x) == At(b, 0)
  {
    if a == [] {
      assert a + [x] + b == [x] + b;
    } else {
      assert (a + [x] + b)[1..] == a[1..] + [x] + b;
      NextOfAt(a[1..], x, b);
    }
  }

  /** Where the flush goes on after x was dirtied: past x if it stood there, unless x is all there is. */
  function FlushAfter(s: seq<Node>, flush: Node?, x: Node): Node? {
    if flush == x && |s| > 1 then NextOf(s, x) else flush
  }

  /**
   * After a dirtying the same nodes as before are ahead of the flush position, in the same order, but
   * for the dirtied one.
   */
  lemma FlushStays(s: seq<Node>, flush: Node?, x: Node)
    requires NoDuplicates(s) && (flush == null || flush in s)
    ensures Without(AheadOf(Dirtied(s, x), FlushAfter(s, flush, x)), x) == Without(AheadOf(s, flush), x)
  {
    if flush == null {
      AheadOfAbsent(s, flush);
      AheadOfAbsent(Dirtied(s, x), flush);
    } else if flush != x {
      AheadOfDirtied(s, flush, x);
      WithoutDirtied(AheadOf(s, flush), x);
    } else if |s| > 1 {
      var k :| 0 <= k < |s| && s[k] == x;
      FlushMovesOn(s, k, x);
    } else {
      assert s == [x] == [] + [x] + [];
      WithoutMiddle([], x, []);
    }
  }

  lemma FlushMovesOn(s: seq<Node>, k: nat, x: Node)
    requires NoDuplicates(s) && k < |s| && s[k] == x
    ensures Without(AheadOf(Dirtied(s, x), NextOf(s, x)), x) == Without(AheadOf(s, x), x)
  {
    hide AheadOf, Without;
    var a, b := s[..k], s[k + 1..];
    assert s == a + [x] + b;
    assert x !in a && x !in b;
    NextOfAt(a, x, b);
    FlushMoves(a, x, b);
    if b != [] {
      forall i | 0 <= i < k ensures a[i] != b[0] {
        Apart(s, i, k + 1);
      }
      FlushMovesTo(a, x, b);
    }
  }

  lemma FlushMoves(a: seq<Node>, x: Node, b: seq<Node>)
    requires x !in a && x !in b
    ensures Without(AheadOf(a + [x] + b, x), x) == b
    ensures b == [] ==> Without(AheadOf(Dirtied(a + [x] + b, x), null), x) == b
  {
    AheadOfAt(a, x, b);
    WithoutMiddle([], x, b);
    assert [] + [x] + b == [x] + b && [] + b == b;
    AheadOfAbsent(Dirtied(a + [x] + b, x), null);
    WithoutAbsent([], x);
  }

  lemma FlushMovesTo(a: seq<Node>, x: Node, b: seq<Node>)
    requires x !in a && x !in b && b != [] && b[0] !in a
    ensures Without(AheadOf(Dirtied(a + [x] + b, x), b[0]), x) == b
  {
    hide AheadOf, Without;
    WithoutMiddle(a, x, b);
    AheadOfAt(a, b[0], b[1..] + [x]);
    assert a + b + [x] == a + [b[0]] + (b[1..] + [x]);
    assert [b[0]] + (b[1..] + [x]) == b + [x] + [];
    WithoutMiddle(b, x, []);
    assert b + [] == b;
  }

  /**
   * The dirtied node itself has still to be flushed afterwards, being the last one now, unless no flush
   * was going on or had it for its very last node.
   */
  predicate ComesAgain(s: seq<Node>, flush: Node?, x: Node) {
    flush != null && !(flush == x && |s| > 1 && s[|s| - 1] == x)
  }

  lemma DirtiedIsAhead(s: seq<Node>, flush: Node?, x: Node)
    requires NoDuplicates(s) && (flush == null || flush in s)
    ensures x in AheadOf(Dirtied(s, x), FlushAfter(s, flush, x)) <==> ComesAgain(s, flush, x)
  {
    var after, all := FlushAfter(s, flush, x), Dirtied(s, x);
    InWithout(s, x);
    if flush == x && |s| > 1 {
      var k :| 0 <= k < |s| && s[k] == x;
      assert s == s[..k] + [x] + s[k + 1..];
      NextOfAt(s[..k], x, s[k + 1..]);
      if k < |s| - 1 {
        assert after == s[k + 1] && s[k + 1] != x;
      }
    }
    if after == null {
      AheadOfAbsent(all, null);
    } else {
      LastIsAhead(all, after);
    }
  }

  lemma {:induction false} LastIsAhead(s: seq<Node>, flush: Node)
    requires flush in s
    ensures s[|s| - 1] in AheadOf(s, flush)
  {
    if s[0] != flush {
      LastIsAhead(s[1..], flush);
    }
  }

  lemma {:induction false} AheadOfIsSuffix(s: seq<Node>, flush: Node)
    requires flush in s
    ensures AheadOf(s, flush) != [] && AheadOf(s, flush)[0] == flush
  {
    if s[0] != flush {
      AheadOfIsSuffix(s[1..], flush);
    }
  }

  /**
   * The two together leave no choice: there is just one flush position with the same other nodes ahead
   * of it as before, in the same order, and the dirtied node ahead of it or not as it should be.
   */
  lemma FlushIsDetermined(s: seq<Node>, flush: Node?, x: Node, after: Node?)
    requires NoDuplicates(s) && (flush == null || flush in s) && (after == null || after in Dirtied(s, x))
    ensures after == FlushAfter(s, flush, x) <==>
            && Without(AheadOf(Dirtied(s, x), after), x) == Without(AheadOf(s, flush), x)
            && (x in AheadOf(Dirtied(s, x), after) <==> ComesAgain(s, flush, x))
  {
    FlushStays(s, flush, x);
    DirtiedIsAhead(s, flush, x);
    FlushStaysInside(s, flush, x);
    hide FlushAfter, ComesAgain;
    var all, right := Without(s, x), FlushAfter(s, flush, x);
    if && Without(AheadOf(all + [x], after), x) == Without(AheadOf(all + [x], right), x)
       && (x in AheadOf(all + [x], after) <==> x in AheadOf(all + [x], right))
    {
      InWithout(s, x);
      AheadDetermines(all, x, after, right);
    }
  }

  lemma FlushStaysInside(s: seq<Node>, flush: Node?, x: Node)
    requires NoDuplicates(s) && (flush == null || flush in s)
    ensures var after := FlushAfter(s, flush, x); after == null || after in Dirtied(s, x)
  {
    InWithout(s, x);
    if flush == x && |s| > 1 {
      var k :| 0 <= k < |s| && s[k] == x;
      assert s == s[..k] + [x] + s[k + 1..];
      NextOfAt(s[..k], x, s[k + 1..]);
    }
  }

  lemma AheadDetermines(s: seq<Node>, x: Node, a: Node?, b: Node?)
    requires x !in s && (a == null || a in s + [x]) && (b == null || b in s + [x])
    requires Without(AheadOf(s + [x], a), x) == Without(AheadOf(s + [x], b), x)
    requires x in AheadOf(s + [x], a) <==> x in AheadOf(s + [x], b)
    ensures a == b
  {
    AheadOfEnd(s, x, a);
    AheadOfEnd(s, x, b);
  }

  /** Without the last one, what is ahead starts with the flush position, unless that is the last one. */
  lemma AheadOfEnd(s: seq<Node>, x: Node, flush: Node?)
    requires x !in s && (flush == null || flush in s + [x])
    ensures var ahead := AheadOf(s + [x], flush);
            && (x in ahead <==> flush != null)
            && (flush != null ==> if flush == x then Without(ahead, x) == []
                                  else Without(ahead, x) != [] && Without(ahead, x)[0] == flush)
  {
    var ahead := AheadOf(s + [x], flush);
    if flush == null {
      AheadOfAbsent(s + [x], flush);
    } else {
      LastIsAhead(s + [x], flush);
      AheadOfIsSuffix(s + [x], flush);
      if flush == x {
        AheadOfAt(s, x, []);
        assert s + [x] + [] == s + [x] && [x] + [] == [x];
        WithoutAbsent([], x);
        assert [x][1..] == [];
      }
    }
  }

  /** Walking forward along `nextDirty` or back along `prevDirty` visits the list. */
  ghost predicate Linked(list: seq<Node>)
    reads list
  {
    && NoDuplicates(list)
    && (list != [] ==> list[0].prevDirty == null && list[|list| - 1].nextDirty == null)
    && (forall i {:trigger list[i].nextDirty} :: 0 <= i < |list| - 1 ==> list[i].nextDirty == list[i + 1])
    && (forall i {:trigger list[i].prevDirty} :: 0 < i < |list| ==> list[i].prevDirty == list[i - 1])
  }

  /** Linked, but for the neighbours of entry k, which point past it. */
  ghost predicate Bridged(list: seq<Node>, k: nat)
    requires k + 1 < |list|
    reads list
  {
    && list[0].prevDirty == null && list[|list| - 1].nextDirty == null
    && list[k + 1].prevDirty == (if k == 0 then null else list[k - 1])
    && (k > 0 ==> list[k - 1].nextDirty == list[k + 1])
    && (forall i {:trigger list[i].nextDirty} :: 0 <= i < |list| - 1 && i + 1 != k ==> list[i].nextDirty == list[i + 1])
    && (forall i {:trigger list[i].prevDirty} :: 0 < i < |list| && i != k + 1 ==> list[i].prevDirty == list[i - 1])
  }

  lemma BridgedIsLinked(list: seq<Node>, k: nat)
    requires k + 1 < |list| && Bridged(list, k) && NoDuplicates(list[..k] + list[k + 1..])
    ensures Linked(list[..k] + list[k + 1..])
  {
  }

  /** The entry at k and its neighbours. */
  lemma LinksAt(list: seq<Node>, k: nat)
    requires Linked(list) && k < |list|
    ensures NoDuplicates(list)
    ensures list[k].nextDirty == At(list, k + 1) && list[k].prevDirty == At(list, k - 1)
  {
  }

  /** A node's own links tell whether it is the last one, the only one or not in the list. */
  lemma EndsOf(list: seq<Node>, node: Node)
    requires Linked(list)
    requires node !in list ==> node.nextDirty == null && node.prevDirty == null
    ensures NoDuplicates(list)
    ensures node.nextDirty != null ==> node in list && |list| > 1
    ensures node.nextDirty == null && node in list ==> node == list[|list| - 1]
    ensures node.nextDirty == null && node.prevDirty == null && node in list ==> list == [node]
    ensures node.nextDirty == null && node.prevDirty != null ==> node in list && |list| > 1
    ensures node.nextDirty == null && node !in list && list != [] ==> node != list[|list| - 1]
    ensures node in list ==> node.nextDirty == NextOf(list, node)
  {
    if node in list {
      var k :| 0 <= k < |list| && list[k] == node;
      assert list == list[..k] + [node] + list[k + 1..];
      NextOfAt(list[..k], node, list[k + 1..]);
    }
  }

  /** Where the flush goes on, by the node's own link, and what is then ahead of it. */
  lemma FlushGoesOn(list: seq<Node>, flush: Node?, node: Node)
    requires Linked(list) && (flush == null || flush in list)
    ensures var after := FlushAfter(list, flush, node);
            && after == (if flush == node && |list| > 1 then node.nextDirty else flush)
            && Without(AheadOf(Dirtied(list, node), after), node) == Without(AheadOf(list, flush), node)
            && (node in AheadOf(Dirtied(list, node), after) <==>
                && flush != null && !(flush == node && |list| > 1 && list[|list| - 1] == node))
  {
    hide Without, AheadOf, NoDuplicates, Linked, NextOf, Dirtied;
    if node in list {
      EndsOf(list, node);
    }
    LinkedIsDistinct(list);
    FlushStays(list, flush, node);
    DirtiedIsAhead(list, flush, node);
  }

  /** What moving to the end is for a node inside, outside and at the end of the list. */
  lemma MovesToEnd<T>(list: seq<T>, node: T)
    requires NoDuplicates(list)
    ensures Dirtied(list, node) == Without(list, node) + [node]
    ensures node !in list ==> Dirtied(list, node) == list + [node]
    ensures list != [] && list[|list| - 1] == node ==> Dirtied(list, node) == list
  {
    hide Without;
    if node !in list {
      WithoutAbsent(list, node);
    } else if list[|list| - 1] == node {
      LastIsOnce(list);
      StaysLast(list[..|list| - 1], node);
    }
  }

  lemma LastIsOnce<T>(s: seq<T>)
    requires NoDuplicates(s) && s != []
    ensures var n := |s| - 1; s[n] !in s[..n] && s == s[..n] + [s[n]]
  {
  }

  lemma StaysLast<T>(before: seq<T>, x: T)
    requires x !in before
    ensures Dirtied(before + [x], x) == before + [x]
  {
    hide Without;
    WithoutMiddle(before, x, []);
    assert before + [x] + [] == before + [x];
  }

  lemma LinkedIsDistinct(list: seq<Node>)
    requires Linked(list)
    ensures NoDuplicates(list)
  {
  }

  class PageAllocator {
    var firstDirty: Node?
    var lastDirty: Node?
    var flushNext: Node?
    ghost var list: seq<Node>

    /** The links are those of the list, both ways, and the flush position is null or in it. */
    ghost predicate Valid()
      reads this, list
    {
      && Linked(list)
      && firstDirty == At(list, 0) && lastDirty == At(list, |list| - 1)
      && (flushNext == null || flushNext in list)
    }

    constructor ()
      ensures Valid() && list == [] && flushNext == null
    {
      firstDirty, lastDirty, flushNext := null, null, null;
      list := [];
    }

    method Dirty(node: Node)
      requires Valid()
      requires node !in list ==> node.nextDirty == null && node.prevDirty == null
      modifies this, node, list
      ensures Valid() && list == Dirtied(old(list), node)
      ensures flushNext == FlushAfter(old(list), old(flushNext), node)
      ensures Without(AheadOf(list, flushNext), node) == Without(old(AheadOf(list, flushNext)), node)
      ensures node in AheadOf(list, flushNext) <==>
              && old(flushNext) != null
              && !(old(flushNext) == node && |old(list)| > 1 && old(list)[|old(list)| - 1] == node)
    {
      hide Without, AheadOf, NoDuplicates, Linked, NextOf, FlushAfter, Dirtied;
      EndsOf(list, node);
      MovesToEnd(list, node);
      FlushGoesOn(list, flushNext, node);
      var next, prev := node.nextDirty, node.prevDirty;
      if next != null {
        Unlink(node, next, prev);
        assert forall i :: 0 <= i < |list| ==> list[i] in old(list);
        node.nextDirty := null;
        LinkLast(node, lastDirty);
      } else if prev == null {
        var last := lastDirty;
        if last == node {
          return;
        }
        LinkLast(node, last);
      }
      lastDirty := node;
      if flushNext == node {
        flushNext := next;
      }
    }

    /** Takes a node that is not the last out of the list. */
    method Unlink(node: Node, next: Node, prev: Node?)
      requires Valid() && node in list && next == node.nextDirty && prev == node.prevDirty
      modifies this`firstDirty, this`list, list
      ensures node.prevDirty == prev && node.nextDirty == next
      ensures list == Without(old(list), node) && Linked(list)
      ensures firstDirty == At(list, 0) && lastDirty == At(list, |list| - 1) != null
      ensures next in list && forall n :: n in list <==> n in old(list) && n != node
      ensures |old(list)| > 1
    {
      hide Without, Bridged, Linked, NoDuplicates;
      ghost var k :| 0 <= k < |list| && list[k] == node;
      ghost var was := list;
      LinksAt(was, k);
      Bridge(k, next, prev);
      WithoutAt(was, k);
      BridgedIsLinked(was, k);
      list := was[..k] + was[k + 1..];
    }

    /** Makes the neighbours of entry k point past it. */
    method Bridge(ghost k: nat, next: Node, prev: Node?)
      requires Linked(list) && k + 1 < |list| && next == list[k + 1] && prev == if k == 0 then null else list[k - 1]
      modifies this`firstDirty, list
      ensures firstDirty == if k == 0 then next else old(firstDirty)
      ensures Bridged(list, k)
    {
      next.prevDirty := prev;
      if prev == null {
        firstDirty := next;
      } else {
        prev.nextDirty := next;
      }
    }

    /** Links a node that is not in the list after the last one. */
    method LinkLast(node: Node, last: Node?)
      requires Linked(list) && firstDirty == At(list, 0) && last == At(list, |list| - 1)
      requires node !in list && node.nextDirty == null && (last == null ==> node.prevDirty == null)
      modifies this`firstDirty, this`list, node, list
      ensures list == old(list) + [node] && Linked(list) && firstDirty == At(list, 0)
    {
      if last == null {
        firstDirty := node;
      } else {
        node.prevDirty := last;
        last.nextDirty := node;
      }
      list := list + [node];
    }
  }

  lemma DirtyRunStep<T>(xs: seq<T>, i: nat)
    requires i < |xs|
    ensures DirtyRun(xs[..i + 1]) == Dirtied(DirtyRun(xs[..i]), xs[i])
  {
    assert xs[..i + 1][..i] == xs[..i];
  }

  /** Any run of dirtyings of nodes that are in no list yet, on a new allocator. */
  method DirtyAll(xs: seq<Node>) returns (allocator: PageAllocator)
    requires forall n :: n in xs ==> n.nextDirty == null && n.prevDirty == null
    modifies xs
    ensures fresh(allocator) && allocator.Valid()
    ensures allocator.list == LastOccurrences(xs) && allocator.flushNext == null
  {
    hide Linked, DirtyRun, LastOccurrences, Without;
    allocator := new PageAllocator();
    RunOfNone(xs);
    for i := 0 to |xs|
      invariant allocator.Valid() && fresh(allocator) && allocator.list == DirtyRun(xs[..i]) && allocator.flushNext == null
      invariant forall n :: n in xs && n !in allocator.list ==> n.nextDirty == null && n.prevDirty == null
      invariant forall k :: 0 <= k < |allocator.list| ==> allocator.list[k] in xs
    {
      DirtyRunStep(xs, i);
      InDirtied(allocator.list, xs[i]);
      WithoutWithin(allocator.list, xs[i], xs);
      allocator.Dirty(xs[i]);
    }
    assert xs[..|xs|] == xs;
    RunIsLastOccurrences(xs);
  }

  lemma RunOfNone(xs: seq<Node>)
    ensures DirtyRun(xs[..0]) == []
  {
  }

  lemma {:induction false} WithoutWithin<T>(s: seq<T>, x: T, all: seq<T>)
    requires forall k :: 0 <= k < |s| ==> s[k] in all
    ensures forall k :: 0 <= k < |Without(s, x)| ==> Without(s, x)[k] in all
  {
    if s != [] {
      WithoutWithin(s[1..], x, all);
    }
  }

  lemma InDirtied<T>(s: seq<T>, x: T)
    ensures forall y :: y in Dirtied(s, x) <==> y in s || y == x
  {
    InWithout(s, x);
  }

  lemma {:induction false} InWithout<T>(s: seq<T>, x: T)
    ensures forall y :: y in Without(s, x) <==> y in s && y != x
  {
    if s != [] {
      InWithout(s[1..], x);
    }
  }
}
