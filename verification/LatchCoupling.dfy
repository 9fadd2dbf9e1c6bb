/**
 * Many threads descending one tree, interleaved step by step. Each thread first unwinds the frames its
 * cursor still has, latching one node at a time. If the bottom frame's node is no longer the root, the
 * root's latch is taken while that node's is held. Then the thread goes down hand over hand: the
 * child's latch is taken before the parent's is released.
 */
module LatchCoupling {
  import opened ByteOrder
  import opened Slots

  type NodeId = int

  /** A fixed tree: the child to which a key routes, and each node's parent and height. */
  datatype Index = Index(root: NodeId, child: (NodeId, Bytes) -> NodeId, parent: NodeId -> NodeId, height: NodeId -> nat) {
    ghost predicate Valid() {
      forall n, key {:trigger child(n, key)} :: height(n) > 0 ==>
        height(child(n, key)) == height(n) - 1 && parent(child(n, key)) == n
    }

    /** The nodes a descent from n visits. */
    function Path(n: NodeId, key: Bytes): seq<NodeId>
      requires Valid()
      decreases height(n)
    {
      if height(n) == 0 then [n] else [n] + Path(child(n, key), key)
    }

    /** A way from the root to a leaf. */
    ghost predicate Descent(path: seq<NodeId>) {
      && path != [] && path[0] == root
      && (forall i :: 0 <= i < |path| ==> height(path[i]) == |path| - 1 - i)
      && (forall i {:trigger path[i]} :: 0 < i < |path| ==> parent(path[i]) == path[i - 1])
    }

    /** At every node it goes on to the child to which the key routes. */
    ghost predicate Follows(path: seq<NodeId>, key: Bytes) {
      forall i :: 0 <= i && i + 1 < |path| ==> path[i + 1] == child(path[i], key)
    }

    lemma {:induction false} PathShape(n: NodeId, key: Bytes)
      requires Valid()
      ensures var path := Path(n, key);
              && path != [] && path[0] == n && |path| == height(n) + 1 && Follows(path, key)
              && (forall i :: 0 <= i < |path| ==> height(path[i]) == |path| - 1 - i)
              && (forall i {:trigger path[i]} :: 0 < i < |path| ==> parent(path[i]) == path[i - 1])
      decreases height(n)
    {
      if height(n) > 0 {
        PathShape(child(n, key), key);
      }
    }
  }

  /** Where the key leads from the root is a descent that goes on to the key's child at every node. */
  lemma PathIsDescent(ix: Index, key: Bytes)
    requires ix.Valid()
    ensures var path := ix.Path(ix.root, key);
            ix.Descent(path) && forall i :: 0 <= i && i + 1 < |path| ==> path[i + 1] == ix.child(path[i], key)
  {
    ix.PathShape(ix.root, key);
  }

  /** There is no other. */
  lemma OnlyDescent(ix: Index, key: Bytes, path: seq<NodeId>)
    requires ix.Valid() && ix.Descent(path) && ix.Follows(path, key)
    ensures path == ix.Path(ix.root, key)
  {
    var way := ix.Path(ix.root, key);
    ix.PathShape(ix.root, key);
    assert |path| == |way| by {
      assert ix.height(path[0]) == |path| - 1;
    }
    hide ix.Descent, ix.Follows, ix.Valid, ix.Path;
    SameWay(ix, path, way, key, |path|);
    assert path[..|path|] == path && way[..|way|] == way;
  }

  lemma {:induction false} SameWay(ix: Index, a: seq<NodeId>, b: seq<NodeId>, key: Bytes, n: nat)
    requires ix.Follows(a, key) && ix.Follows(b, key) && n <= |a| == |b| && a != [] && a[0] == b[0]
    ensures a[..n] == b[..n]
  {
    if n > 1 {
      SameWay(ix, a, b, key, n - 1);
      assert a[n - 2] == a[..n - 1][n - 2] == b[n - 2];
      assert a[n - 1] == a[(n - 2) + 1] && b[n - 1] == b[(n - 2) + 1];
    }
  }

  /** Where the key routes from a node, the given number of levels down. */
  ghost function Routed(ix: Index, key: Bytes, n: nat): NodeId {
    if n == 0 then ix.root else ix.child(Routed(ix, key, n - 1), key)
  }

  lemma {:induction false} OnTheWay(ix: Index, path: seq<NodeId>, key: Bytes, i: nat)
    requires ix.Descent(path) && ix.Follows(path, key) && i < |path|
    ensures path[i] == Routed(ix, key, i)
  {
    if i > 0 {
      OnTheWay(ix, path, key, i - 1);
      assert path[i] == path[(i - 1) + 1];
    }
  }

  /**
   * What one call of `find` has to do: frames to unwind above the bottom one, the bottom frame's node if
   * the cursor has any frame, the key, and its way down.
   */
  datatype Task = Task(frames: seq<NodeId>, seen: Option<NodeId>, key: Bytes, path: seq<NodeId>)

  /** The tree has grown a new root since the cursor was there. */
  predicate Stale(task: Task) {
    task.seen.Some? && task.path != [] && task.seen.value != task.path[0]
  }

  /** While `handing`, the latch of a root that is no longer one is still held besides the root's. */
  datatype Progress =
    | Unwinding(done: nat, inside: bool)
    | Descending(latched: nat, released: nat, handing: bool)

  /** Progress per thread, the owner of every latch that is held, and the order in which threads latched the root. */
  datatype State = State(progress: seq<Progress>, owner: map<NodeId, nat>, entered: seq<nat>)

  ghost predicate Tasks(ix: Index, tasks: seq<Task>) {
    forall t :: 0 <= t < |tasks| ==> ix.Descent(tasks[t].path) && ix.Follows(tasks[t].path, tasks[t].key)
  }

  predicate Finished(task: Task, p: Progress) {
    p.Descending? && p.released == |task.path|
  }

  /** The latch a thread is waiting for, if its next step is to take one. */
  function Wanted(task: Task, p: Progress): Option<NodeId>
    requires task.path != []
  {
    match p
    case Unwinding(done, inside) =>
      if done < |task.frames| then (if inside then None else Some(task.frames[done]))
      else if Stale(task) && !inside then task.seen
      else Some(task.path[0])
    case Descending(latched, released, handing) =>
      if !handing && latched == released + 1 && latched < |task.path| then Some(task.path[latched]) else None
  }

  /** The latch a thread gives back, if its next step is that. */
  function Leaving(task: Task, p: Progress): Option<NodeId> {
    match p
    case Unwinding(done, inside) =>
      if inside && done < |task.frames| then Some(task.frames[done]) else None
    case Descending(latched, released, handing) =>
      if handing then task.seen
      else if released < |task.path| && (latched == released + 2 || latched == |task.path|) then Some(task.path[released])
      else None
  }

  function Advanced(task: Task, p: Progress): Progress
    requires task.path != []
  {
    match p
    case Unwinding(done, inside) =>
      if done < |task.frames| then (if inside then Unwinding(done + 1, false) else Unwinding(done, true))
      else if Stale(task) && !inside then Unwinding(done, true)
      else Descending(1, 0, Stale(task))
    case Descending(latched, released, handing) =>
      if handing then Descending(latched, released, false)
      else if Wanted(task, p).Some? then Descending(latched + 1, released, false)
      else Descending(latched, released + 1, false)
  }

  predicate Entering(task: Task, p: Progress) {
    p.Unwinding? && p.done >= |task.frames| && (p.inside || !Stale(task))
  }

  /** One step of thread t: None when it is finished or its latch is held. */
  function Step(tasks: seq<Task>, s: State, t: nat): Option<State>
    requires t < |tasks| == |s.progress| && tasks[t].path != []
  {
    var task, p := tasks[t], s.progress[t];
    var progress := s.progress[t := Advanced(task, p)];
    var entered := if Entering(task, p) then s.entered + [t] else s.entered;
    match Wanted(task, p)
    case Some(n) => if n in s.owner then None else Some(State(progress, s.owner[n := t], entered))
    case None =>
      match Leaving(task, p)
      case Some(n) => Some(State(progress, s.owner - {n}, entered))
      case None => None
  }

  // ---- The invariant ---------------------------------------------------------------------------

  ghost predicate Legal(task: Task, p: Progress) {
    match p
    case Unwinding(done, inside) => done <= |task.frames| && (inside ==> done < |task.frames| || Stale(task))
    case Descending(latched, released, handing) =>
      && 0 < latched <= |task.path| && released <= latched <= released + 2
      && (latched == released ==> released == |task.path|)
      && (handing ==> Stale(task) && latched == 1 && released == 0)
  }

  ghost predicate Holds(task: Task, p: Progress, n: NodeId) {
    match p
    case Unwinding(done, inside) =>
      inside && if done < |task.frames| then task.frames[done] == n else task.seen == Some(n)
    case Descending(latched, released, handing) =>
      || (exists i :: released <= i < latched && i < |task.path| && task.path[i] == n)
      || (handing && task.seen == Some(n))
  }

  /** A latch is owned by exactly the thread whose progress says that it holds it. */
  ghost predicate OwnedByHolders(tasks: seq<Task>, s: State, n: NodeId)
    requires |s.progress| == |tasks|
  {
    && (n in s.owner ==> s.owner[n] < |tasks|)
    && (forall t :: 0 <= t < |tasks| ==> (Holds(tasks[t], s.progress[t], n) <==> n in s.owner && s.owner[n] == t))
  }

  ghost predicate Inv(ix: Index, tasks: seq<Task>, s: State) {
    && Tasks(ix, tasks) && |s.progress| == |tasks|
    && (forall t :: 0 <= t < |tasks| ==> Legal(tasks[t], s.progress[t]))
    && (forall n :: OwnedByHolders(tasks, s, n))
  }

  function Start(tasks: seq<Task>): State {
    State(seq(|tasks|, t => Unwinding(0, false)), map[], [])
  }

  lemma StartInv(ix: Index, tasks: seq<Task>)
    requires Tasks(ix, tasks)
    ensures Inv(ix, tasks, Start(tasks))
  {
  }

  /** A step of its own changes what a thread holds by the latch it takes or leaves. */
  lemma HoldsAfter(ix: Index, task: Task, p: Progress, n: NodeId)
    requires ix.Descent(task.path) && Legal(task, p) && (Wanted(task, p).Some? || Leaving(task, p).Some?)
    ensures Legal(task, Advanced(task, p))
    ensures Holds(task, Advanced(task, p), n) <==>
            if Wanted(task, p).Some? then n == Wanted(task, p).value || Holds(task, p, n)
            else n != Leaving(task, p).value && Holds(task, p, n)
  {
  }

  lemma LeavingIsHeld(task: Task, p: Progress)
    requires Legal(task, p) && Leaving(task, p).Some?
    ensures Holds(task, p, Leaving(task, p).value)
  {
  }

  /** No step of any thread breaks the ownership of the latches. */
  lemma StepInv(ix: Index, tasks: seq<Task>, s: State, t: nat)
    requires Inv(ix, tasks, s) && t < |tasks| && Step(tasks, s, t).Some?
    ensures Inv(ix, tasks, Step(tasks, s, t).value)
  {
    var s' := Step(tasks, s, t).value;
    var task, p := tasks[t], s.progress[t];
    HoldsAfter(ix, task, p, ix.root);
    if Leaving(task, p).Some? {
      LeavingIsHeld(task, p);
    }
    hide Holds, Legal, Wanted, Leaving, Advanced, Entering;
    forall n ensures OwnedByHolders(tasks, s', n) {
      HoldsAfter(ix, task, p, n);
      OwnershipAfter(tasks, s, t, n);
    }
  }

  /** The owner of a latch changes as what the stepping thread holds does. */
  lemma OwnershipAfter(tasks: seq<Task>, s: State, t: nat, n: NodeId)
    requires t < |tasks| == |s.progress| && tasks[t].path != [] && Step(tasks, s, t).Some? && OwnedByHolders(tasks, s, n)
    requires var task, p := tasks[t], s.progress[t];
             && (Leaving(task, p).Some? ==> Holds(task, p, Leaving(task, p).value))
             && (Holds(task, Advanced(task, p), n) <==>
                 if Wanted(task, p).Some? then n == Wanted(task, p).value || Holds(task, p, n)
                 else Leaving(task, p).Some? && n != Leaving(task, p).value && Holds(task, p, n))
    ensures OwnedByHolders(tasks, Step(tasks, s, t).value, n)
  {
    hide Holds, Wanted, Leaving, Advanced, Entering;
  }

  // ---- Runs ------------------------------------------------------------------------------------

  /** The state after the threads took their steps in the order of the schedule; None if one could not. */
  function Run(tasks: seq<Task>, schedule: seq<nat>): Option<State>
    requires forall t :: 0 <= t < |tasks| ==> tasks[t].path != []
  {
    if schedule == [] then Some(Start(tasks))
    else
      var n := |schedule| - 1;
      var s := Run(tasks, schedule[..n]);
      if s.Some? && schedule[n] < |tasks| == |s.value.progress| then Step(tasks, s.value, schedule[n]) else None
  }

  lemma {:induction false} RunInv(ix: Index, tasks: seq<Task>, schedule: seq<nat>)
    requires Tasks(ix, tasks) && Run(tasks, schedule).Some?
    ensures Inv(ix, tasks, Run(tasks, schedule).value)
  {
    if schedule == [] {
      StartInv(ix, tasks);
    } else {
      var n := |schedule| - 1;
      RunInv(ix, tasks, schedule[..n]);
      StepInv(ix, tasks, Run(tasks, schedule[..n]).value, schedule[n]);
    }
  }

  // ---- No deadlock -----------------------------------------------------------------------------

  ghost predicate CanStep(tasks: seq<Task>, s: State, t: nat)
    requires |tasks| == |s.progress|
  {
    t < |tasks| && tasks[t].path != [] && Step(tasks, s, t).Some?
  }

  /** A thread that holds the latch of what was the root and waits for the root's. */
  predicate BeforeRoot(task: Task, p: Progress) {
    p.Unwinding? && p.inside && p.done >= |task.frames|
  }

  /** No thread's cursor last saw as the root a node that is on another thread's way down. */
  ghost predicate Apart(tasks: seq<Task>) {
    forall a, b :: 0 <= a < |tasks| && 0 <= b < |tasks| && a != b && Stale(tasks[a]) ==>
      tasks[a].seen.value !in tasks[b].path
  }

  /** Below a latch that is held on a way down some thread can step: waiting goes from parent to child only. */
  lemma {:induction false} SomeoneBelowSteps(ix: Index, tasks: seq<Task>, s: State, n: NodeId) returns (t: nat)
    requires Inv(ix, tasks, s) && Apart(tasks) && n in s.owner
    requires s.owner[n] < |tasks| && !BeforeRoot(tasks[s.owner[n]], s.progress[s.owner[n]])
    ensures CanStep(tasks, s, t)
    decreases ix.height(n)
  {
    assert OwnedByHolders(tasks, s, n);
    t := s.owner[n];
    var task, p := tasks[t], s.progress[t];
    if Wanted(task, p).Some? {
      var next := Wanted(task, p).value;
      if next in s.owner {
        var i :| p.released <= i < p.latched && i < |task.path| && task.path[i] == n;
        assert next == task.path[i + 1] && ix.height(next) < ix.height(n);
        assert OwnedByHolders(tasks, s, next);
        t := SomeoneBelowSteps(ix, tasks, s, next);
      }
    }
  }

  /** While any thread is unfinished, some thread can step. */
  lemma NoDeadlock(ix: Index, tasks: seq<Task>, s: State, t: nat) returns (u: nat)
    requires Inv(ix, tasks, s) && Apart(tasks) && t < |tasks| && !Finished(tasks[t], s.progress[t])
    ensures CanStep(tasks, s, u)
  {
    u := t;
    if Wanted(tasks[t], s.progress[t]).Some? && Wanted(tasks[t], s.progress[t]).value in s.owner {
      var n := Wanted(tasks[t], s.progress[t]).value;
      assert OwnedByHolders(tasks, s, n);
      u := s.owner[n];
      if !BeforeRoot(tasks[u], s.progress[u]) {
        u := SomeoneBelowSteps(ix, tasks, s, n);
      } else if ix.root in s.owner {
        assert OwnedByHolders(tasks, s, ix.root);
        u := SomeoneBelowSteps(ix, tasks, s, ix.root);
      }
    }
  }

  // ---- Every run ends --------------------------------------------------------------------------

  /** The steps a thread has left. */
  function Remaining(task: Task, p: Progress): int {
    match p
    case Unwinding(done, inside) =>
      2 * (|task.frames| - done) - (if inside then 1 else 0) + (if Stale(task) then 2 else 0) + 2 * |task.path|
    case Descending(latched, released, handing) => 2 * |task.path| - latched - released + (if handing then 1 else 0)
  }

  function RemainingAll(tasks: seq<Task>, progress: seq<Progress>): int
    requires |tasks| == |progress|
  {
    if tasks == [] then 0 else Remaining(tasks[0], progress[0]) + RemainingAll(tasks[1..], progress[1..])
  }

  lemma {:induction false} RemainingUpdate(tasks: seq<Task>, progress: seq<Progress>, t: nat, p: Progress)
    requires t < |tasks| == |progress|
    ensures RemainingAll(tasks, progress[t := p])
         == RemainingAll(tasks, progress) - Remaining(tasks[t], progress[t]) + Remaining(tasks[t], p)
  {
    if t > 0 {
      assert progress[t := p][1..] == progress[1..][t - 1 := p];
      RemainingUpdate(tasks[1..], progress[1..], t - 1, p);
    } else {
      assert progress[t := p][1..] == progress[1..];
    }
  }

  lemma StepRemaining(ix: Index, tasks: seq<Task>, s: State, t: nat)
    requires Inv(ix, tasks, s) && t < |tasks| && Step(tasks, s, t).Some?
    ensures RemainingAll(tasks, Step(tasks, s, t).value.progress) == RemainingAll(tasks, s.progress) - 1
  {
    RemainingUpdate(tasks, s.progress, t, Advanced(tasks[t], s.progress[t]));
  }

  lemma {:induction false} RemainingNonNegative(tasks: seq<Task>, progress: seq<Progress>)
    requires |tasks| == |progress|
    requires forall t :: 0 <= t < |tasks| ==> Legal(tasks[t], progress[t]) && tasks[t].path != []
    ensures 0 <= RemainingAll(tasks, progress)
    ensures RemainingAll(tasks, progress) == 0 <==> forall t :: 0 <= t < |tasks| ==> Finished(tasks[t], progress[t])
  {
    if tasks != [] {
      RemainingNonNegative(tasks[1..], progress[1..]);
      assert Legal(tasks[0], progress[0]);
      assert Remaining(tasks[0], progress[0]) == 0 <==> Finished(tasks[0], progress[0]);
      assert forall t :: 0 < t < |tasks| ==> tasks[t] == tasks[1..][t - 1] && progress[t] == progress[1..][t - 1];
      assert (forall t :: 0 <= t < |tasks| - 1 ==> Finished(tasks[1..][t], progress[1..][t]))
        <==> (forall t :: 0 < t < |tasks| ==> Finished(tasks[t], progress[t])) by {
        forall t | 0 <= t < |tasks| - 1
          ensures Finished(tasks[1..][t], progress[1..][t]) <==> Finished(tasks[t + 1], progress[t + 1]) {}
        assert forall t :: 0 < t < |tasks| ==> tasks[t] == tasks[1..][t - 1];
      }
    }
  }

  lemma {:induction false} RunRemaining(ix: Index, tasks: seq<Task>, schedule: seq<nat>)
    requires Tasks(ix, tasks) && Run(tasks, schedule).Some?
    ensures |Run(tasks, schedule).value.progress| == |tasks|
    ensures |schedule| + RemainingAll(tasks, Run(tasks, schedule).value.progress)
         == RemainingAll(tasks, Start(tasks).progress)
  {
    RunInv(ix, tasks, schedule);
    if schedule != [] {
      var n := |schedule| - 1;
      RunRemaining(ix, tasks, schedule[..n]);
      RunInv(ix, tasks, schedule[..n]);
      StepRemaining(ix, tasks, Run(tasks, schedule[..n]).value, schedule[n]);
    }
  }

  lemma FinishedHoldsNothing(task: Task, p: Progress, n: NodeId)
    ensures Legal(task, p) && Finished(task, p) ==> !Holds(task, p, n)
  {
  }

  /** The last node on its way is the leaf to which its key routes. */
  ghost predicate LeadsToLeaf(ix: Index, task: Task) {
    && |task.path| == ix.height(ix.root) + 1
    && task.path[ix.height(ix.root)] == Routed(ix, task.key, ix.height(ix.root))
    && ix.height(task.path[ix.height(ix.root)]) == 0
  }

  /**
   * Every run is finite: its length is bounded by the work at the start, and at the bound all have
   * finished, each at the leaf to which its key routes, and no latch is held. If no old root is in another
   * thread's way, some thread can step short of that bound.
   */
  lemma EveryRunEnds(ix: Index, tasks: seq<Task>, schedule: seq<nat>)
    requires Tasks(ix, tasks) && Run(tasks, schedule).Some?
    ensures var s := Run(tasks, schedule).value;
            var work := RemainingAll(tasks, Start(tasks).progress);
            && |s.progress| == |tasks| && |schedule| <= work
            && (Apart(tasks) && |schedule| < work ==> exists u :: CanStep(tasks, s, u))
            && (|schedule| == work ==>
                  (forall t :: 0 <= t < |tasks| ==> Finished(tasks[t], s.progress[t])) && s.owner == map[])
    ensures forall t :: 0 <= t < |tasks| ==> LeadsToLeaf(ix, tasks[t])
  {
    forall t | 0 <= t < |tasks| ensures LeadsToLeaf(ix, tasks[t]) {
      OnTheWay(ix, tasks[t].path, tasks[t].key, ix.height(ix.root));
    }
    RunInv(ix, tasks, schedule);
    RunRemaining(ix, tasks, schedule);
    var s := Run(tasks, schedule).value;
    RemainingNonNegative(tasks, s.progress);
    if RemainingAll(tasks, s.progress) > 0 {
      var t :| 0 <= t < |tasks| && !Finished(tasks[t], s.progress[t]);
      if Apart(tasks) {
        var u := NoDeadlock(ix, tasks, s, t);
      }
    } else {
      forall n ensures n !in s.owner {
        assert OwnedByHolders(tasks, s, n);
        if n in s.owner {
          FinishedHoldsNothing(tasks[s.owner[n]], s.progress[s.owner[n]], n);
          assert false;
        }
      }
    }
  }

  // ---- No overtaking ---------------------------------------------------------------------------

  /** Of two threads the one that latched the root first has left every common node the other has latched. */
  ghost predicate Ahead(a: Task, pa: Progress, b: Task, pb: Progress) {
    && pa.Descending? && pb.Descending?
    && forall d :: 0 <= d < pb.latched && d < |a.path| && d < |b.path| && a.path[d] == b.path[d] ==> d < pa.released
  }

  ghost predicate InOrder(tasks: seq<Task>, s: State)
    requires |tasks| == |s.progress|
  {
    && (forall i :: 0 <= i < |s.entered| ==> s.entered[i] < |tasks| && s.progress[s.entered[i]].Descending?)
    && (forall t :: 0 <= t < |tasks| && s.progress[t].Descending? ==> t in s.entered)
    && (forall i, j :: 0 <= i < j < |s.entered| ==>
          && s.entered[i] != s.entered[j]
          && Ahead(tasks[s.entered[i]], s.progress[s.entered[i]], tasks[s.entered[j]], s.progress[s.entered[j]]))
  }

  /** When B takes the latch of a node on A's way too, A is past it. */
  lemma TakenBehind(ix: Index, tasks: seq<Task>, s: State, a: nat, b: nat, d: nat)
    requires Inv(ix, tasks, s) && a < |tasks| && b < |tasks|
    requires s.progress[a].Descending? && d < |tasks[a].path| && d < |tasks[b].path|
    requires tasks[a].path[d] == tasks[b].path[d] && tasks[b].path[d] !in s.owner
    requires d > 0 ==> s.progress[b].Descending? && d == s.progress[b].latched
                       && Ahead(tasks[a], s.progress[a], tasks[b], s.progress[b])
    ensures d < s.progress[a].released
  {
    var pa, path := s.progress[a], tasks[a].path;
    if d > 0 {
      assert path[d - 1] == ix.parent(path[d]) == tasks[b].path[d - 1];
      assert d - 1 < pa.released;
    }
    assert OwnedByHolders(tasks, s, path[d]) && !Holds(tasks[a], pa, path[d]);
  }

  lemma StaysAhead(ix: Index, tasks: seq<Task>, s: State, t: nat, a: nat, b: nat)
    requires Inv(ix, tasks, s) && t < |tasks| && Step(tasks, s, t).Some?
    requires a < |tasks| && b < |tasks| && a != b && s.progress[a].Descending?
    requires if s.progress[b].Descending? then Ahead(tasks[a], s.progress[a], tasks[b], s.progress[b])
             else b == t && Entering(tasks[t], s.progress[t])
    ensures var s' := Step(tasks, s, t).value;
            Ahead(tasks[a], s'.progress[a], tasks[b], s'.progress[b])
  {
    var s' := Step(tasks, s, t).value;
    var p := s.progress[t];
    assert s'.progress == s.progress[t := Advanced(tasks[t], p)];
    if b == t && Wanted(tasks[t], p).Some? {
      var d := if p.Unwinding? then 0 else p.latched;
      assert tasks[b].path[d] == Wanted(tasks[t], p).value;
      if d < |tasks[a].path| && tasks[a].path[d] == tasks[b].path[d] {
        TakenBehind(ix, tasks, s, a, b, d);
      }
    }
  }

  lemma EnteredAfter(tasks: seq<Task>, s: State, t: nat)
    requires t < |tasks| == |s.progress| && tasks[t].path != [] && Step(tasks, s, t).Some?
    ensures var s' := Step(tasks, s, t).value;
            && |s'.progress| == |tasks|
            && (forall u :: 0 <= u < |tasks| && u != t ==> s'.progress[u] == s.progress[u])
            && (s'.progress[t].Descending? <==> s.progress[t].Descending? || Entering(tasks[t], s.progress[t]))
            && s'.entered == s.entered + (if Entering(tasks[t], s.progress[t]) then [t] else [])
            && (Entering(tasks[t], s.progress[t]) ==> !s.progress[t].Descending?)
  {
  }

  lemma StepInOrder(ix: Index, tasks: seq<Task>, s: State, t: nat)
    requires Inv(ix, tasks, s) && InOrder(tasks, s) && t < |tasks| && Step(tasks, s, t).Some?
    ensures InOrder(tasks, Step(tasks, s, t).value)
  {
    EnteredAfter(tasks, s, t);
    hide Ahead, Inv, Step, Entering;
    var s' := Step(tasks, s, t).value;
    forall i, j | 0 <= i < j < |s'.entered|
      ensures s'.entered[i] != s'.entered[j]
      ensures Ahead(tasks[s'.entered[i]], s'.progress[s'.entered[i]], tasks[s'.entered[j]], s'.progress[s'.entered[j]])
    {
      var a, b := s'.entered[i], s'.entered[j];
      assert a == s.entered[i];
      StaysAhead(ix, tasks, s, t, a, b);
    }
  }

  /** Descending threads never overtake one another, whatever the interleaving. */
  lemma {:induction false} RunInOrder(ix: Index, tasks: seq<Task>, schedule: seq<nat>)
    requires Tasks(ix, tasks) && Run(tasks, schedule).Some?
    ensures var s := Run(tasks, schedule).value;
            |s.progress| == |tasks| && InOrder(tasks, s)
  {
    RunInv(ix, tasks, schedule);
    if schedule != [] {
      var n := |schedule| - 1;
      RunInOrder(ix, tasks, schedule[..n]);
      RunInv(ix, tasks, schedule[..n]);
      StepInOrder(ix, tasks, Run(tasks, schedule[..n]).value, schedule[n]);
    }
  }

  // ---- What a thread holds ---------------------------------------------------------------------

  ghost function Held(task: Task, p: Progress): set<NodeId> {
    match p
    case Unwinding(done, inside) =>
      if !inside then {} else if done < |task.frames| then {task.frames[done]}
      else if task.seen.Some? then {task.seen.value} else {}
    case Descending(latched, released, handing) =>
      (set i | released <= i < latched && i < |task.path| :: task.path[i])
        + if handing && task.seen.Some? then {task.seen.value} else {}
  }

  /**
   * In every reachable state a thread owns just what its progress says: one latch at most while it
   * unwinds; then the root's and an old root's, if it saw one; on its way down the latch of the node to
   * which its key routes, or of that node and the key's child; and in the end only the key's leaf's.
   */
  lemma HeldAtAnyTime(ix: Index, tasks: seq<Task>, schedule: seq<nat>, t: nat)
    requires Tasks(ix, tasks) && Run(tasks, schedule).Some? && t < |tasks|
    ensures var s := Run(tasks, schedule).value;
            && |s.progress| == |tasks|
            && (forall n :: n in s.owner && s.owner[n] == t <==> n in Held(tasks[t], s.progress[t]))
            && (s.progress[t].Descending? ==> HoldsOneOrTwo(ix, tasks[t], s.progress[t]))
  {
    RunInv(ix, tasks, schedule);
    var s := Run(tasks, schedule).value;
    forall n ensures (n in s.owner && s.owner[n] == t) <==> n in Held(tasks[t], s.progress[t]) {
      assert OwnedByHolders(tasks, s, n);
      assert n in Held(tasks[t], s.progress[t]) <==> Holds(tasks[t], s.progress[t], n);
    }
    if s.progress[t].Descending? {
      HoldsOnTheWay(ix, tasks[t], s.progress[t]);
    }
  }

  /** On its way down a thread holds the node to which its key routes at some depth, and perhaps that node's child for the key. */
  ghost predicate HoldsOneOrTwo(ix: Index, task: Task, p: Progress)
    requires p.Descending?
  {
    var i, held := p.released, Held(task, p);
    if p.handing then Stale(task) && held == {ix.root, task.seen.value}
    else if Finished(task, p) then held == {}
    else
      var n := Routed(ix, task.key, i);
      && ix.height(n) + i == ix.height(ix.root)
      && (held == {n} || (ix.height(n) > 0 && held == {n, ix.child(n, task.key)}))
      && (Leaving(task, p) == Some(n) && ix.height(n) > 0 ==> held == {n, ix.child(n, task.key)})
  }

  lemma HoldsOnTheWay(ix: Index, task: Task, p: Progress)
    requires ix.Descent(task.path) && ix.Follows(task.path, task.key) && Legal(task, p) && p.Descending?
    ensures HoldsOneOrTwo(ix, task, p)
  {
    var i := p.released;
    if !p.handing && i < |task.path| {
      OnTheWay(ix, task.path, task.key, i);
      if i + 1 < |task.path| {
        OnTheWay(ix, task.path, task.key, i + 1);
      }
      assert ix.height(task.path[i]) + i == ix.height(task.path[0]);
    }
  }

  // ---- The latches a thread takes and gives back, in order ---------------------------------------

  /** The nodes that one call of `find` latches: its cursor's, from the top, an old root, and its way down. */
  function Course(task: Task): seq<NodeId> {
    task.frames + (if Stale(task) then [task.seen.value] else []) + task.path
  }

  /** What is in the one set and not in the other, if anything. */
  ghost function Extra(a: set<NodeId>, b: set<NodeId>): seq<NodeId> {
    if n :| n in a && n !in b then [n] else []
  }

  /** The latches that came to be held in the steps of thread t. */
  ghost function Taken(tasks: seq<Task>, schedule: seq<nat>, t: nat): seq<NodeId>
    requires forall u :: 0 <= u < |tasks| ==> tasks[u].path != []
    requires Run(tasks, schedule).Some?
  {
    if schedule == [] then []
    else
      var n := |schedule| - 1;
      Taken(tasks, schedule[..n], t) +
      if schedule[n] != t then []
      else Extra(Run(tasks, schedule).value.owner.Keys, Run(tasks, schedule[..n]).value.owner.Keys)
  }

  /** The latches that ceased to be held in the steps of thread t. */
  ghost function GivenBack(tasks: seq<Task>, schedule: seq<nat>, t: nat): seq<NodeId>
    requires forall u :: 0 <= u < |tasks| ==> tasks[u].path != []
    requires Run(tasks, schedule).Some?
  {
    if schedule == [] then []
    else
      var n := |schedule| - 1;
      GivenBack(tasks, schedule[..n], t) +
      if schedule[n] != t then []
      else Extra(Run(tasks, schedule[..n]).value.owner.Keys, Run(tasks, schedule).value.owner.Keys)
  }

  /** How many latches of its course a thread has taken. */
  function TakenSoFar(task: Task, p: Progress): int {
    match p
    case Unwinding(done, inside) => done + (if inside then 1 else 0)
    case Descending(latched, released, handing) => |Course(task)| - |task.path| + latched
  }

  function GivenSoFar(task: Task, p: Progress): int {
    match p
    case Unwinding(done, inside) => done
    case Descending(latched, released, handing) => |Course(task)| - |task.path| + released - (if handing then 1 else 0)
  }

  /** Of its course a thread has taken a latches and given back b. */
  ghost predicate Underway(task: Task, a: int, b: int) {
    && 0 <= b <= a <= |Course(task)| && a <= b + 2
    && (a == b + 2 ==> |task.frames| <= b)
    && (a == b ==> a <= |task.frames| || a == |Course(task)|)
  }

  /** A thread takes, or gives back, the next latch of its course. */
  lemma StepOnCourse(task: Task, p: Progress)
    requires task.path != [] && Legal(task, p)
    ensures var a, b := TakenSoFar(task, p), GivenSoFar(task, p);
            && Underway(task, a, b)
            && (Wanted(task, p).Some? ==>
                  && a < |Course(task)| && Course(task)[a] == Wanted(task, p).value
                  && TakenSoFar(task, Advanced(task, p)) == a + 1 && GivenSoFar(task, Advanced(task, p)) == b)
            && (Wanted(task, p).None? && Leaving(task, p).Some? ==>
                  && b < |Course(task)| && Course(task)[b] == Leaving(task, p).value
                  && TakenSoFar(task, Advanced(task, p)) == a && GivenSoFar(task, Advanced(task, p)) == b + 1)
            && (Finished(task, p) <==> a == b == |Course(task)|)
  {
  }

  lemma ExtraOne(a: set<NodeId>, b: set<NodeId>, n: NodeId)
    requires n !in b && a == b + {n}
    ensures Extra(a, b) == [n] && Extra(b, a) == []
  {
  }

  /** What a thread has taken and given back is what its progress says. */
  ghost predicate OnCourse(task: Task, p: Progress, taken: seq<NodeId>, given: seq<NodeId>) {
    && |taken| == TakenSoFar(task, p) <= |Course(task)| && taken == Course(task)[..|taken|]
    && |given| == GivenSoFar(task, p) <= |Course(task)| && given == Course(task)[..|given|]
  }

  lemma OnCourseAtStart(task: Task)
    ensures OnCourse(task, Unwinding(0, false), [], [])
  {
  }

  lemma OnCourseStep(task: Task, p: Progress, taken: seq<NodeId>, given: seq<NodeId>)
    requires task.path != [] && Legal(task, p) && OnCourse(task, p, taken, given)
    ensures Wanted(task, p).Some? ==> OnCourse(task, Advanced(task, p), taken + [Wanted(task, p).value], given)
    ensures Wanted(task, p).None? && Leaving(task, p).Some? ==>
              OnCourse(task, Advanced(task, p), taken, given + [Leaving(task, p).value])
  {
    StepOnCourse(task, p);
    hide Wanted, Leaving, Advanced, Course, TakenSoFar, GivenSoFar, Legal, Finished, Underway;
  }

  lemma {:induction false} StaysOnCourse(ix: Index, tasks: seq<Task>, schedule: seq<nat>, t: nat)
    requires Tasks(ix, tasks) && Run(tasks, schedule).Some? && t < |tasks|
    ensures var s := Run(tasks, schedule).value;
            && |s.progress| == |tasks|
            && OnCourse(tasks[t], s.progress[t], Taken(tasks, schedule, t), GivenBack(tasks, schedule, t))
  {
    hide OnCourse, Wanted, Leaving, Advanced, Taken, GivenBack, Step, Legal, OwnedByHolders, Extra;
    RunInv(ix, tasks, schedule);
    TakenStep(tasks, schedule, t);
    if schedule == [] {
      OnCourseAtStart(tasks[t]);
    } else {
      var n := |schedule| - 1;
      RunInv(ix, tasks, schedule[..n]);
      StaysOnCourse(ix, tasks, schedule[..n], t);
      OneStep(ix, tasks, schedule, t);
      var p := Run(tasks, schedule[..n]).value.progress[t];
      var taken, given := Taken(tasks, schedule[..n], t), GivenBack(tasks, schedule[..n], t);
      OnCourseStep(tasks[t], p, taken, given);
      assert taken + [] == taken && given + [] == given;
    }
  }

  /**
   * In every interleaving a thread takes the latches of its course in order and gives them back in
   * order. While it unwinds it holds one at most; from the last of its cursor's nodes on it takes the
   * next before it gives the last one back, and then gives it back at once; and it is finished when it
   * has taken and given back all.
   */
  lemma TakesAndGivesBack(ix: Index, tasks: seq<Task>, schedule: seq<nat>, t: nat)
    requires Tasks(ix, tasks) && Run(tasks, schedule).Some? && t < |tasks|
    ensures var p, course := Run(tasks, schedule).value.progress, Course(tasks[t]);
            var a, b := |Taken(tasks, schedule, t)|, |GivenBack(tasks, schedule, t)|;
            && |p| == |tasks|
            && Underway(tasks[t], a, b)
            && Taken(tasks, schedule, t) == course[..a] && GivenBack(tasks, schedule, t) == course[..b]
            && (Finished(tasks[t], p[t]) <==> a == b == |course|)
  {
    RunInv(ix, tasks, schedule);
    StaysOnCourse(ix, tasks, schedule, t);
    StepOnCourse(tasks[t], Run(tasks, schedule).value.progress[t]);
    hide Taken, GivenBack, Run;
  }

  lemma TakenStep(tasks: seq<Task>, schedule: seq<nat>, t: nat)
    requires forall u :: 0 <= u < |tasks| ==> tasks[u].path != []
    requires Run(tasks, schedule).Some?
    ensures if schedule == [] then Taken(tasks, schedule, t) == GivenBack(tasks, schedule, t) == []
            else
              var n := |schedule| - 1;
              && Run(tasks, schedule[..n]).Some?
              && var before, after := Run(tasks, schedule[..n]).value, Run(tasks, schedule).value;
              && Taken(tasks, schedule, t) ==
                 Taken(tasks, schedule[..n], t) + (if schedule[n] != t then [] else Extra(after.owner.Keys, before.owner.Keys))
              && GivenBack(tasks, schedule, t) ==
                 GivenBack(tasks, schedule[..n], t) + (if schedule[n] != t then [] else Extra(before.owner.Keys, after.owner.Keys))
  {
  }

  lemma OneStep(ix: Index, tasks: seq<Task>, schedule: seq<nat>, t: nat)
    requires Tasks(ix, tasks) && Run(tasks, schedule).Some? && t < |tasks| && schedule != []
    requires Inv(ix, tasks, Run(tasks, schedule[..|schedule| - 1]).value)
    ensures var before, after := Run(tasks, schedule[..|schedule| - 1]).value, Run(tasks, schedule).value;
            && |after.progress| == |before.progress| == |tasks|
            && (schedule[|schedule| - 1] != t ==> after.progress[t] == before.progress[t])
            && (schedule[|schedule| - 1] == t ==>
                  && var p := before.progress[t];
                  && after.progress[t] == Advanced(tasks[t], p)
                  && if Wanted(tasks[t], p).Some? then
                       && Extra(after.owner.Keys, before.owner.Keys) == [Wanted(tasks[t], p).value]
                       && Extra(before.owner.Keys, after.owner.Keys) == []
                     else
                       && Leaving(tasks[t], p).Some?
                       && Extra(before.owner.Keys, after.owner.Keys) == [Leaving(tasks[t], p).value]
                       && Extra(after.owner.Keys, before.owner.Keys) == [])
  {
    var n := |schedule| - 1;
    var before, after := Run(tasks, schedule[..n]).value, Run(tasks, schedule).value;
    if schedule[n] == t {
      var p := before.progress[t];
      if Wanted(tasks[t], p).Some? {
        ExtraOne(after.owner.Keys, before.owner.Keys, Wanted(tasks[t], p).value);
      } else {
        var left := Leaving(tasks[t], p).value;
        LeavingIsHeld(tasks[t], p);
        assert OwnedByHolders(tasks, before, left);
        ExtraOne(before.owner.Keys, after.owner.Keys, left);
      }
    }
  }

  // ---- Exactly when the hand-over can deadlock -------------------------------------------------

  /** No thread can step, and not all have finished. */
  ghost predicate Stuck(tasks: seq<Task>, s: State)
    requires |tasks| == |s.progress|
  {
    (forall u :: !CanStep(tasks, s, u)) && exists t :: 0 <= t < |tasks| && !Finished(tasks[t], s.progress[t])
  }

  /** Each of the two waits for a latch that the other holds. */
  ghost predicate Deadlocked(tasks: seq<Task>, s: State, a: nat, b: nat)
    requires |tasks| == |s.progress|
  {
    && a < |tasks| && b < |tasks| && tasks[a].path != [] && tasks[b].path != []
    && WaitsFor(tasks[a], s, s.progress[a], b) && WaitsFor(tasks[b], s, s.progress[b], a)
  }

  ghost predicate WaitsFor(task: Task, s: State, p: Progress, owner: nat)
    requires task.path != []
  {
    var wanted := Wanted(task, p);
    wanted.Some? && wanted.value in s.owner && s.owner[wanted.value] == owner
  }

  /** Neither of the two steps again, whatever the others do. */
  lemma DeadlockStays(ix: Index, tasks: seq<Task>, s: State, a: nat, b: nat, t: nat)
    requires Inv(ix, tasks, s) && Deadlocked(tasks, s, a, b) && CanStep(tasks, s, t)
    ensures t != a && t != b && Deadlocked(tasks, Step(tasks, s, t).value, a, b)
  {
    if Leaving(tasks[t], s.progress[t]).Some? {
      LeavingIsHeld(tasks[t], s.progress[t]);
      assert OwnedByHolders(tasks, s, Leaving(tasks[t], s.progress[t]).value);
    }
    hide Wanted, Leaving, Advanced, Entering, Holds;
  }

  lemma RunNext(tasks: seq<Task>, schedule: seq<nat>, t: nat)
    requires forall u :: 0 <= u < |tasks| ==> tasks[u].path != []
    requires Run(tasks, schedule).Some? && t < |tasks| == |Run(tasks, schedule).value.progress|
    ensures Run(tasks, schedule + [t]) == Step(tasks, Run(tasks, schedule).value, t)
  {
    assert (schedule + [t])[..|schedule|] == schedule;
  }

  /** From a deadlock the others can go on only so far. */
  lemma {:induction false} DeadlockEndsStuck(ix: Index, tasks: seq<Task>, schedule: seq<nat>, a: nat, b: nat)
    returns (all: seq<nat>)
    requires Tasks(ix, tasks) && Run(tasks, schedule).Some? && |Run(tasks, schedule).value.progress| == |tasks|
    requires Deadlocked(tasks, Run(tasks, schedule).value, a, b)
    ensures Run(tasks, all).Some? && |Run(tasks, all).value.progress| == |tasks| && Stuck(tasks, Run(tasks, all).value)
    decreases RemainingAll(tasks, Start(tasks).progress) - |schedule|
  {
    var s := Run(tasks, schedule).value;
    RunInv(ix, tasks, schedule);
    EveryRunEnds(ix, tasks, schedule);
    if u :| CanStep(tasks, s, u) {
      DeadlockStays(ix, tasks, s, a, b, u);
      RunNext(tasks, schedule, u);
      EveryRunEnds(ix, tasks, schedule + [u]);
      all := DeadlockEndsStuck(ix, tasks, schedule + [u], a, b);
    } else {
      all := schedule;
      assert !Finished(tasks[a], s.progress[a]);
    }
  }

  /** A thread alone latches the node of a frame, and gives the latch back. */
  lemma UnwindsOne(tasks: seq<Task>, s: State, t: nat, k: nat)
    requires t < |tasks| == |s.progress| && tasks[t].path != [] && s.owner == map[]
    requires k < |tasks[t].frames| && s.progress[t] == Unwinding(k, false)
    ensures var inside := State(s.progress[t := Unwinding(k, true)], map[tasks[t].frames[k] := t], s.entered);
            && Step(tasks, s, t) == Some(inside)
            && Step(tasks, inside, t) == Some(State(s.progress[t := Unwinding(k + 1, false)], map[], s.entered))
  {
    var inside := State(s.progress[t := Unwinding(k, true)], map[tasks[t].frames[k] := t], s.entered);
    assert inside.progress[t := Unwinding(k + 1, false)] == s.progress[t := Unwinding(k + 1, false)];
    assert inside.owner - {tasks[t].frames[k]} == map[];
  }

  /** With no latch held at all a thread unwinds its frames. */
  lemma {:induction false} UnwindsAlone(tasks: seq<Task>, schedule: seq<nat>, s: State, t: nat, k: nat) returns (more: seq<nat>)
    requires forall u :: 0 <= u < |tasks| ==> tasks[u].path != []
    requires Run(tasks, schedule) == Some(s) && s.owner == map[] && t < |tasks| == |s.progress|
    requires k <= |tasks[t].frames| && s.progress[t] == Unwinding(k, false)
    ensures Run(tasks, more) == Some(State(s.progress[t := Unwinding(|tasks[t].frames|, false)], map[], s.entered))
    decreases |tasks[t].frames| - k
  {
    hide Run, Step;
    if k == |tasks[t].frames| {
      more := schedule;
      assert s.progress[t := Unwinding(k, false)] == s.progress;
    } else {
      UnwindsOne(tasks, s, t, k);
      RunNext(tasks, schedule, t);
      RunNext(tasks, schedule + [t], t);
      var after := State(s.progress[t := Unwinding(k + 1, false)], map[], s.entered);
      more := UnwindsAlone(tasks, schedule + [t] + [t], after, t, k + 1);
      assert after.progress[t := Unwinding(|tasks[t].frames|, false)] == s.progress[t := Unwinding(|tasks[t].frames|, false)];
    }
  }

  /** A thread alone hands over from what it saw as the root to the root. */
  lemma HandsOver(tasks: seq<Task>, s: State, t: nat)
    requires t < |tasks| == |s.progress| && tasks[t].path != [] && s.owner == map[]
    requires s.progress[t] == Unwinding(|tasks[t].frames|, false) && Stale(tasks[t])
    ensures var root, was := tasks[t].path[0], tasks[t].seen.value;
            var s1 := State(s.progress[t := Unwinding(|tasks[t].frames|, true)], map[was := t], s.entered);
            var s2 := State(s.progress[t := Descending(1, 0, true)], map[was := t, root := t], s.entered + [t]);
            && Step(tasks, s, t) == Some(s1) && Step(tasks, s1, t) == Some(s2)
            && Step(tasks, s2, t) == Some(State(s.progress[t := Descending(1, 0, false)], map[root := t], s.entered + [t]))
  {
    var root, was := tasks[t].path[0], tasks[t].seen.value;
    var s1 := State(s.progress[t := Unwinding(|tasks[t].frames|, true)], map[was := t], s.entered);
    var s2 := State(s.progress[t := Descending(1, 0, true)], map[was := t, root := t], s.entered + [t]);
    assert s1.progress[t := Descending(1, 0, true)] == s2.progress;
    assert s1.owner[root := t] == s2.owner;
    assert s2.progress[t := Descending(1, 0, false)] == s.progress[t := Descending(1, 0, false)];
    assert s2.owner - {was} == map[root := t];
  }

  /** With no latch held a thread that has unwound its frames gets the root. */
  lemma EntersAlone(tasks: seq<Task>, schedule: seq<nat>, s: State, t: nat) returns (more: seq<nat>)
    requires forall u :: 0 <= u < |tasks| ==> tasks[u].path != []
    requires Run(tasks, schedule) == Some(s) && s.owner == map[] && t < |tasks| == |s.progress|
    requires s.progress[t] == Unwinding(|tasks[t].frames|, false)
    ensures Run(tasks, more) == Some(State(s.progress[t := Descending(1, 0, false)], map[tasks[t].path[0] := t], s.entered + [t]))
  {
    hide Run;
    more := schedule + [t];
    RunNext(tasks, schedule, t);
    if Stale(tasks[t]) {
      HandsOver(tasks, s, t);
      hide Step;
      RunNext(tasks, more, t);
      more := more + [t];
      RunNext(tasks, more, t);
      more := more + [t];
    }
  }

  /** A thread that saw as the root what is now the first node on another's way can deadlock with it. */
  lemma OldRootDeadlocks(ix: Index, tasks: seq<Task>, a: nat, b: nat) returns (schedule: seq<nat>)
    requires Tasks(ix, tasks) && a < |tasks| && b < |tasks| && a != b
    requires Stale(tasks[a]) && 1 < |tasks[b].path| && tasks[b].path[1] == tasks[a].seen.value
    ensures Run(tasks, schedule).Some? && |Run(tasks, schedule).value.progress| == |tasks|
    ensures Deadlocked(tasks, Run(tasks, schedule).value, a, b)
  {
    var root, was := ix.root, tasks[a].seen.value;
    var s := Start(tasks);
    schedule := UnwindsAlone(tasks, [], s, a, 0);
    s := Run(tasks, schedule).value;
    schedule := UnwindsAlone(tasks, schedule, s, b, 0);
    s := Run(tasks, schedule).value;
    schedule := EntersAlone(tasks, schedule, s, b);
    s := Run(tasks, schedule).value;
    assert s.owner == map[root := b] && s.progress[a] == Unwinding(|tasks[a].frames|, false);
    assert s.progress[b] == Descending(1, 0, false);
    RunNext(tasks, schedule, a);
    schedule := schedule + [a];
    assert Run(tasks, schedule) == Some(State(s.progress[a := Unwinding(|tasks[a].frames|, true)], map[root := b, was := a], s.entered));
  }

  /** After the tree has grown once: every node that a cursor still takes for the root is a child of the root. */
  ghost predicate GrownOnce(ix: Index, tasks: seq<Task>) {
    forall t :: 0 <= t < |tasks| && Stale(tasks[t]) ==> ix.height(tasks[t].seen.value) + 1 == ix.height(ix.root)
  }

  /** In a tree that has grown at most once, threads can get stuck exactly if an old root is on another thread's way. */
  lemma StuckIff(ix: Index, tasks: seq<Task>)
    requires Tasks(ix, tasks) && GrownOnce(ix, tasks)
    ensures (exists schedule :: && Run(tasks, schedule).Some? && |Run(tasks, schedule).value.progress| == |tasks|
                                && Stuck(tasks, Run(tasks, schedule).value))
            <==> !Apart(tasks)
  {
    if !Apart(tasks) {
      var a, b :| 0 <= a < |tasks| && 0 <= b < |tasks| && a != b && Stale(tasks[a]) && tasks[a].seen.value in tasks[b].path;
      var i :| 0 <= i < |tasks[b].path| && tasks[b].path[i] == tasks[a].seen.value;
      assert ix.height(tasks[b].path[i]) == |tasks[b].path| - 1 - i && ix.height(tasks[b].path[0]) == |tasks[b].path| - 1;
      var schedule := OldRootDeadlocks(ix, tasks, a, b);
      var all := DeadlockEndsStuck(ix, tasks, schedule, a, b);
    } else {
      forall schedule | Run(tasks, schedule).Some? && |Run(tasks, schedule).value.progress| == |tasks|
        ensures !Stuck(tasks, Run(tasks, schedule).value)
      {
        ApartIsNotStuck(ix, tasks, schedule);
      }
    }
  }

  lemma ApartIsNotStuck(ix: Index, tasks: seq<Task>, schedule: seq<nat>)
    requires Tasks(ix, tasks) && Apart(tasks) && Run(tasks, schedule).Some?
    requires |Run(tasks, schedule).value.progress| == |tasks|
    ensures !Stuck(tasks, Run(tasks, schedule).value)
  {
    var s := Run(tasks, schedule).value;
    RunInv(ix, tasks, schedule);
    if t :| 0 <= t < |tasks| && !Finished(tasks[t], s.progress[t]) {
      var u := NoDeadlock(ix, tasks, s, t);
    }
  }
}
