# A verified model of TuplNative's B+Tree core

TuplNative is a partial C++ port of a B+Tree storage engine. This project models the five pieces of it
that hold real algorithms, and proves what they keep:

| files | component |
|---|---|
| `ByteOrder`, `Slots` | byte strings in lexicographic order, and the entries of a node |
| `NodeSpec`, `LeafRuns` | insertion into one node, the count-based split, byte accounting |
| `TreeSpec`, `TreeForecast`, `TreeInsert` | recursive insertion and the repair of parents as functions on tree values, what they will split, and the main theorem |
| `TreeAsWritten`, `TreeConserves` | exactly when the code meets that theorem, and what it keeps in any tree |
| `TreeRuns` | search, growth of the root, and whole runs |
| `TreeFindable`, `TreeRefusals`, `TreeFaults` | exactly when an inserted entry is found again, what a refused insertion loses, and trees on which the code goes wrong |
| `SlowTree` | the same operations as classes updated in place, proved against those functions |
| `PrefixSearch` | the binary search that skips shared prefixes |
| `LatchCoupling` | the interleavings of many threads in `ops::find` |
| `DirtyList`, `Sequences` | the allocator's list of dirty nodes with its live flush position |
| `CursorFrames` | the relocation of cursor frames on a split, and the unwinding of a cursor |

## Two readings of a split

Where the code and its own documentation disagree the operations take a `Reading`:

* `AsWritten` is the code. An insertion right at the split position goes to the right sibling
  (`slow/Node.cpp:192`), although the new key is lower than the split key; and after a left split the
  parent enters (split key, sibling) in front of the child's entry (`slow/Tree.cpp:70-73`).
* `Documented` cleaves left at that position, as the draft in `ops.cpp:196-208` does, and repairs a left
  split as `slow/Node.cpp:332-334` says: first the existing key is pointed to the new node, then the split
  key is entered with the old one.

Everything else is common to both. The documented reading is proved correct without exception
(`TreeInsert.InsertIsCorrect`). For the code it is proved exactly when it is correct
(`NodeSpec.LeafSplitSeparatesIff`, `NodeSpec.InternalSplitSortedIff`, `TreeAsWritten.AsWrittenRoutedIffClean`), that
an entry it reports as stored is found again exactly in the same case (`TreeFindable.FoundIffClean`), and what it
keeps in any case, in trees that are no longer routed too (`TreeConserves.StoredIsKept`,
`TreeRuns.RunConserves`). `TreeFaults` has sound trees on which it goes wrong.

The conditions are read off the tree before the insertion. `TreeForecast` walks down the path of the key and
compares sizes with the space in each node: `UpKey` is the key that a node will hand up, `SplitsLeft` and
`SplitsAtBoundary` say how it will split. `Clean` says that no node splits at the boundary and no child splits
left; `Promotable` that no key handed up is too big for its parent. `TreeForecast.ForecastIsRight` proves that
the insertion, in either reading, records just the splits that were forecast.

## What a tree is

`Routed(t, h, lo, hi)` says that all leaves are at depth h, leaves are strictly sorted, internal nodes have
the empty sentinel key first, and the keys below an entry lie between that entry's key and the next one's
(`lo` standing in for the sentinel). `Accounted(t, limit)` says that byte counts are the true sums, that no
entry is over a quarter of the capacity and no key longer than `limit`. The count of an internal node that
never split misses the eight bytes of its sentinel's pointer, because the constructor does not count them and
`recalculateBytesUsed` does; `BytesTrue` allows for that. `AddsOne` says that the entries, read left to right,
are the old ones with one more at some place. `Level(t, h, full)` is what is left of `Routed` when keys are no
longer where they belong: all leaves at depth h, and, if `full`, none empty.

A node that split is one of two halves until its parent has repaired the split, so the result of an
insertion is the row of one or two subtrees (`Halves`) with the split key between them; the main theorem is
about that row. `SlowTree` carries it over to objects: every method's new state is tied to the value-level
result by `Shows`, on disjoint sets of objects. The tree owns its nodes in two lists; `Owns` says that each
node below the root is in the one for its kind, once, and `Past` is what has been listed since.

`Correct` and `Conserved` also fix the failures, which are the same in both readings. An insertion that is
refused for a duplicate key or an entry that is too big leaves the tree as it was. A split key that is too big
for its parent is found out only after the child has split; if one is met, that is if the insertion is not
`Promotable`, the tree is never what it was, and if no leaf was empty some key is no longer found
(`TreeRefusals.RefusalLosesKey`). Keys of up to a quarter of the capacity less eight bytes are always
promotable.

## Model

| member | source | states |
|---|---|---|
| `ByteOrder.LessTransitive` | libTupl/src/tupl/types.hpp:72-76 | key order is transitive |
| `ByteOrder.LessTotal` | libTupl/src/tupl/types.hpp:72-76 | any two different keys are ordered one way or the other |
| `ByteOrder.LowerBoundSorted` | libTupl/src/tupl/pvt/slow/Node.cpp:97-102 | in sorted keys the lower bound is where the key is if it is there, and otherwise splits lower from higher keys |
| `NodeSpec.NoSpaceThenSplit` | libTupl/src/tupl/pvt/slow/Node.cpp:163-196 | after FAILED_NO_SPACE on a node with entries of a quarter of the capacity at most there are four entries or more, splitting throws nothing, the original keeps n/2 of its n entries (n/2 rounded up if the right side moves), and the sibling gets the rest and the new one |
| `NodeSpec.SplitHalves` | libTupl/src/tupl/pvt/slow/Node.cpp:185-205 | for any node of n entries the original keeps n/2 of them, rounded down after a left split and up after a right one; the left side moves, as written, exactly for an insert position below half; and of sorted entries just half, rounded up, are lower than the split key, which is one of their keys |
| `NodeSpec.SplitRefusedIff` | libTupl/src/tupl/pvt/slow/Node.cpp:163-180 | exactly when a split is refused, and with which error; inserting and splitting are both possible exactly for an entry that fills the node to the last byte |
| `NodeSpec.SplitIsCut` | libTupl/src/tupl/pvt/slow/Node.cpp:185-217 | off the boundary the halves are the entries with the new one among them cut in two at the split key, which has half of the old ones below it, in both directions |
| `NodeSpec.LeafSplitConserves` | libTupl/src/tupl/pvt/slow/Node.cpp:207-216 | a leaf split at any insert position loses, doubles and reorders no entry |
| `NodeSpec.LeafSplitSeparatesIff` | libTupl/src/tupl/pvt/slow/Node.cpp:185-205 | the code's leaf split has all left keys < split key <= all right keys exactly when the insert position is not the split position |
| `NodeSpec.LeafSplitIsSeparated` | libTupl/src/tupl/pvt/ops.cpp:196-219 | with the boundary cleaved left the halves are separated at every insert position |
| `NodeSpec.LeafSplitCounterexample` | libTupl/src/tupl/pvt/slow/Node.cpp:170-201 | on a full leaf of the keys [2] to [5] the code finds no space for [3, 0], splits, and puts it to the right of the split key [4] |
| `NodeSpec.InternalSplitKeepsChildren` | libTupl/src/tupl/pvt/slow/Node.cpp:207-216 | an internal split keeps every child pointer and the new one, in order, at any insert position |
| `NodeSpec.InternalSplitMovesKeyUp` | libTupl/src/tupl/pvt/slow/Node.cpp:200-205 | the split key alone leaves the keys, and the upper half begins with a sentinel |
| `NodeSpec.InternalSplitSortedIff` | libTupl/src/tupl/pvt/slow/Node.cpp:185-205 | the code's internal split leaves two strictly sorted nodes with the sentinel first exactly when the insert position is not the split position |
| `NodeSpec.InternalSplitCounterexample` | libTupl/src/tupl/pvt/slow/Node.cpp:170-205 | on a full internal node the code finds no space for [2, 1], splits right, and leaves a sibling without a sentinel |
| `NodeSpec.SplitConservesBytes` | libTupl/src/tupl/pvt/slow/Node.cpp:219-240 | the recomputed counts of both halves add up to the old sum and the new entry, less the key that an internal node hands up |
| `NodeSpec.LeafInsertWithinCapacity` | libTupl/src/tupl/pvt/slow/Node.cpp:131-152 | insertion into a leaf within capacity keeps it so, and its count equal to a recount |
| `NodeSpec.NoSpaceIff` | libTupl/src/tupl/pvt/slow/Node.cpp:134-139 | an entry that is not too big finds no space exactly if the node is within capacity and would not be with it |
| `NodeSpec.OverfullTakesAll` | libTupl/src/tupl/pvt/slow/Node.cpp:134-152 | in an overfull node the unsigned difference wraps: every entry that is not too big is taken, and the node never splits |
| `NodeSpec.LeafSplitCapacity` | libTupl/src/tupl/pvt/slow/Node.cpp:185-220 | a split of a leaf within capacity leaves the original within capacity and the sibling within five quarters of it; the sibling fits exactly if the entries of the cleaved side and the new one do |
| `NodeSpec.OverfullSibling` | libTupl/src/tupl/pvt/slow/Node.cpp:185-220 | a split by count can leave the sibling over capacity |
| `LeafRuns.RunLeafStores` | libTupl/src/tupl/pvt/slow/Node.cpp:93-105 | entries with distinct keys that fit are all stored, sorted, each once, and counted exactly |
| `LeafRuns.OrderIndependent` | libTupl/src/tupl/pvt/slow/Node.cpp:125-155 | any two orders of insertion of fitting entries end in the same leaf |
| `TreeSpec.FindChild` | libTupl/src/tupl/pvt/slow/Node.cpp:305-316 | descent picks the last entry whose key is not above the sought one |
| `TreeSpec.RoutedContents` | libTupl/src/tupl/pvt/slow/Node.cpp:305-316 | a routed tree stores, left to right, strictly sorted keys of its interval |
| `TreeInsert.CutRouted` | libTupl/src/tupl/pvt/slow/Node.cpp:326-341 | a routed node cut anywhere gives two nodes routed in the two parts of its interval |
| `TreeInsert.RepairIsPatched` | libTupl/src/tupl/pvt/slow/Node.cpp:328-337 | the documented repair puts the two halves, in order, where the child was, for both directions |
| `TreeInsert.SplitKeyPlace` | libTupl/src/tupl/pvt/slow/Tree.cpp:67-77 | a split key's place by binary search in the parent is the place right after the child, so the positional insert and the re-search on a split agree |
| `TreeForecast.ForecastIsRight` | libTupl/src/tupl/pvt/slow/Tree.cpp:49-83 | in every tree and both readings, an insertion that stores its entry records exactly the split, with key and direction, that sizes and positions on the way down foretell |
| `TreeInsert.InsertIsCorrect` | libTupl/src/tupl/pvt/slow/Tree.cpp:49-83 | read as documented, insertion throws exactly for a stored key, an entry too big, or a split key too big for a parent (the tree being unchanged in the first two cases, and changed in the last); otherwise the node and the sibling it recorded are together routed, equally deep, truly counted, and hold exactly one entry more |
| `TreeInsert.ShortKeysPromote` | libTupl/src/tupl/pvt/slow/Node.cpp:66-79 | in a tree of keys of at most capacity/4 - 8 bytes no split key is too big for a parent |
| `TreeRuns.LookupFinds` | libTupl/src/tupl/pvt/slow/Node.cpp:305-316 | descent by routing finds an entry exactly if it is among the contents |
| `TreeRuns.EmptyTreeRefines` | libTupl/src/tupl/pvt/slow/Tree.cpp:17-23 | the tree as constructed is routed and holds nothing |
| `TreeRuns.PutRefines` | libTupl/src/tupl/pvt/slow/Tree.cpp:44-47 | one sound insertion at the root, in either reading, height growing on overflow, refines one step of a map that refuses duplicates and big entries |
| `TreeRuns.SoundRunRefines` | libTupl/src/tupl/pvt/Tree.hpp:41-45 | after any run of sound insertions, in either reading and with keys of any length, the tree is valid and every search answers as the map does |
| `TreeRuns.RunConserves` | libTupl/src/tupl/pvt/Tree.hpp:41-45 | after any run in which no insertion is refused on the way up, clean or not and in either reading, the leaves hold just the entries reported as stored, at one depth, with true counts, and no leaf is empty once there is an entry |
| `TreeRuns.RunRefines` | libTupl/src/tupl/pvt/Tree.hpp:41-45 | after any run of insertions of keys of at most capacity/4 - 8 bytes, read as documented, the tree is valid and every search answers as the map does |
| `TreeAsWritten.CleanAgrees` | libTupl/src/tupl/pvt/slow/Tree.cpp:49-83 | an insertion that meets neither fault does what the documentation says, failures included |
| `TreeAsWritten.CleanIsCorrect` | libTupl/src/tupl/pvt/slow/Tree.cpp:49-83 | for an insertion that meets neither fault the code is correct in every respect in which the documented insertion is |
| `TreeAsWritten.BoundaryShows` | libTupl/src/tupl/pvt/slow/Node.cpp:192-196 | a split of any node with the insert position at the split position leaves halves that are not routed |
| `TreeAsWritten.LeftRepairAsWritten` | libTupl/src/tupl/pvt/slow/Tree.cpp:70-73 | the code's repair of a left split never leaves a routed parent |
| `TreeAsWritten.AsWrittenRoutedIffClean` | libTupl/src/tupl/pvt/slow/Tree.cpp:49-83 | the code stores a new entry in a routed tree exactly when, on the way down, no split is foretold at the boundary, none of a child to the left, and no key handed up is too big |
| `TreeConserves.AsWrittenConserves` | libTupl/src/tupl/pvt/slow/Tree.cpp:49-83 | an insertion by the code into a routed tree fails just as the documented one does, and otherwise, clean or not, keeps all entries and the new one (as a multiset), the depth of all leaves, the byte counts and the sizes |
| `TreeConserves.StoredIsKept` | libTupl/src/tupl/pvt/slow/Tree.cpp:49-83 | in any tree of equal depth and true counts, routed or not, and in both readings, an insertion that stores its entry keeps all entries and the new one, the depth, the counts and the sizes |
| `TreeFindable.FoundIffClean` | libTupl/src/tupl/pvt/slow/Tree.cpp:49-83 | a fresh entry that fits, with every split key small enough to go up, is reported as stored; by the code a search finds it afterwards exactly if the insertion was clean, read as documented always |
| `TreeFindable.AbsentNotFound` | libTupl/src/tupl/pvt/slow/Node.cpp:305-316 | in no tree, routed or not, does a search find what is not stored |
| `TreeRefusals.RefusalOrphans` | libTupl/src/tupl/pvt/slow/Tree.cpp:65-80 | an insertion refused on the way up, in either reading, leaves a tree of the old depth and true counts that misses the entries of one half of the child that split, two at least |
| `TreeRefusals.RefusalLosesKey` | libTupl/src/tupl/pvt/slow/Tree.cpp:65-80 | whenever an insertion is refused on the way up in a tree with no empty leaf, some key that was found is no longer found |
| `TreeFaults.LeftRepairLosesKey` | libTupl/src/tupl/pvt/slow/Tree.cpp:67-81 | a full leaf and a lower key, after which a stored key is no longer found |
| `TreeFaults.BoundarySplitLosesKey` | libTupl/src/tupl/pvt/slow/Node.cpp:185-217 | a full leaf and a key for its split position, which is reported as stored and then not found, as the theorem says |
| `TreeFaults.FullTreeValid` | libTupl/src/tupl/pvt/slow/Tree.cpp:17-23 | the tree of these two examples is sound: routed and truly counted |
| `TreeFaults.LongKeyLosesKeys` | libTupl/src/tupl/pvt/slow/Tree.cpp:65-73 | an insertion refused on the way up, after which a stored key is no longer found |
| `TreeFaults.LongKeyTreeValid` | libTupl/src/tupl/pvt/slow/Tree.cpp:17-23 | the tree of this example is sound |
| `TreeFaults.StaleSplitIsRepairedAgain` | libTupl/src/tupl/pvt/slow/Tree.cpp:67-81 | the next insertion below a child whose recorded split was never cleared enters the sibling a second time if the parent has space, and throws otherwise |
| `TreeFaults.RepairedTwiceIsUnsound` | libTupl/src/tupl/pvt/slow/Tree.cpp:67-81 | in a sound parent that was repaired after a right split that is the case, and with space the result is not routed |
| `SlowTree.Node.constructor` | libTupl/src/tupl/pvt/slow/Node.hpp:100-101 | a new node is empty, counts no bytes and has no split |
| `SlowTree.Node.RecalculateBytesUsed` | libTupl/src/tupl/pvt/slow/Node.cpp:223-240 | the loop counts the sum over all entries |
| `SlowTree.Node.InsertAt` | libTupl/src/tupl/pvt/slow/Node.cpp:125-155 | positional insertion: new entries and count, or nothing changed with the failure reported |
| `SlowTree.Node.LeafInsert` | libTupl/src/tupl/pvt/slow/Node.cpp:93-105 | keyed insertion: as above, a duplicate throwing first |
| `SlowTree.Node.MoveEntries` | libTupl/src/tupl/pvt/slow/Node.cpp:207-216 | the sibling gets the range with the new entry in it, the original keeps the rest |
| `SlowTree.Node.SplitAndInsert` | libTupl/src/tupl/pvt/slow/Node.cpp:157-221 | both nodes' entries and counts, how many the original keeps, and the recorded split; or nothing changed and an error |
| `SlowTree.BTree.constructor` | libTupl/src/tupl/pvt/slow/Tree.cpp:17-23 | an internal root over one empty leaf, both counting no bytes, a valid tree, of just the two nodes listed as allocated |
| `SlowTree.BTree.AllocateLeaf` | libTupl/src/tupl/pvt/slow/Tree.cpp:25-32 | a fresh empty leaf, appended to the tree's leaves |
| `SlowTree.BTree.AllocateInternal` | libTupl/src/tupl/pvt/slow/Tree.cpp:34-42 | a fresh empty internal node, appended to the tree's internal nodes |
| `SlowTree.BTree.Insert` | libTupl/src/tupl/pvt/slow/Tree.cpp:44-47 | the root and its sibling show the value-level result, in either reading; it is stored exactly for a fresh entry that is not too big and is promotable, and then found exactly as documented or when clean; a refusal leaves the tree unchanged exactly if it came from the leaf, and then nothing is allocated; the result is correct as documented or when clean, and conserves all in any case; a stored entry adds to the tree's nodes just those allocated for it, and every node of the tree stays listed once, as leaf or internal node |
| `SlowTree.BTree.InsertRecursive` | libTupl/src/tupl/pvt/slow/Tree.cpp:49-83 | in place, on disjoint objects, the result of the value-level insertion; a leaf is allocated exactly if the leaf reached has no space, and after that one internal node per level at most, from the bottom up; the nodes added are just the allocated ones; every split below the top node has its sibling entered in a node of the level above |
| `SlowTree.BTree.InsertIntoLeaf` | libTupl/src/tupl/pvt/slow/Tree.cpp:50-57 | the leaf's part, with its split if there is no space, its sibling being the one leaf that is allocated then, and only then |
| `SlowTree.BTree.RepairSplit` | libTupl/src/tupl/pvt/slow/Tree.cpp:67-80 | the parent's part: the split key entered, or the parent split in turn with the internal node allocated for it, and the sibling linked |
| `PrefixSearch.LessAfterPrefix` | libTupl/src/tupl/pvt/Node.cpp:122-135 | the first difference decides the order, and length does if there is none |
| `PrefixSearch.CompareLower` | libTupl/src/tupl/pvt/Node.cpp:113-136 | comparing only past the skipped bytes, and only up to the first difference, answers as full comparison does, and how the state changes |
| `PrefixSearch.SqueezedAgrees` | libTupl/src/tupl/pvt/Node.cpp:117-120 | a key between two others that share n bytes with the sought key shares them too and is longer |
| `PrefixSearch.ProbeAgrees` | libTupl/src/tupl/pvt/Node.cpp:117-123 | at every probe the skipped bytes are shared and fewer than either key has, which is the comparator's assertion |
| `PrefixSearch.SkippingLowerBound` | libTupl/src/tupl/pvt/Node.cpp:150-165 | the skipping search returns the plain lower bound, and its flag is set exactly if the key is present |
| `LatchCoupling.PathIsDescent` | libTupl/src/tupl/pvt/ops.cpp:114-136 | where a key leads is a way from the root to a leaf that goes on, at every node, to the child to which the key routes |
| `LatchCoupling.OnlyDescent` | libTupl/src/tupl/pvt/ops.cpp:114-136 | there is no other such way |
| `LatchCoupling.RunInv` | libTupl/src/tupl/pvt/ops.cpp:57-145 | in every interleaving each latch is owned by exactly the thread that holds it |
| `LatchCoupling.HeldAtAnyTime` | libTupl/src/tupl/pvt/ops.cpp:57-139 | what a thread holds at any time: one latch at most unwinding, an old root's and the root's while it hands over, then that of a node to which its key routes, or of that node and the key's child, in the end its leaf's; a node above the leaves is left only with the key's child latched |
| `LatchCoupling.TakesAndGivesBack` | libTupl/src/tupl/pvt/ops.cpp:57-139 | in every interleaving a thread takes the latches of its cursor's nodes, of an old root and of its key's way down in that order, gives them back in that order, one at a time while unwinding and hand over hand afterwards, and is finished when all are taken and given back |
| `LatchCoupling.NoDeadlock` | libTupl/src/tupl/pvt/ops.cpp:57-145 | while a thread is unfinished some thread can step, unless some cursor took for the root what is now on another thread's way down |
| `LatchCoupling.EveryRunEnds` | libTupl/src/tupl/pvt/ops.cpp:57-145 | every run has at most the steps of the initial work, and then all threads are finished, at the leaves to which their keys route, and no latch is held; it can go on until then under the condition of `NoDeadlock` |
| `LatchCoupling.StuckIff` | libTupl/src/tupl/pvt/ops.cpp:79-90 | in a tree that has grown one new root at most, some interleaving gets stuck exactly if a cursor last saw as the root a node on another thread's way down |
| `LatchCoupling.OldRootDeadlocks` | libTupl/src/tupl/pvt/ops.cpp:79-90 | the interleaving: one thread holds the old root and waits for the root, the other holds the root and waits for its child |
| `LatchCoupling.DeadlockStays` | libTupl/src/tupl/pvt/ops.cpp:79-90 | two threads that wait for each other never step again, whatever the others do |
| `LatchCoupling.RunInOrder` | libTupl/src/tupl/pvt/ops.cpp:114-136 | of two threads the one that latched the root first has left every common node that the other has latched |
| `DirtyList.RunIsLastOccurrences` | libTupl/src/tupl/pvt/PageAllocator.cpp:24-58 | moving each dirtied node to the end orders the nodes by when they were last dirtied |
| `DirtyList.LastOccurrencesDistinct` | libTupl/src/tupl/pvt/PageAllocator.cpp:24-58 | that list has each dirtied node once |
| `DirtyList.FlushStays` | libTupl/src/tupl/pvt/PageAllocator.cpp:56-57 | the nodes still ahead of the flush position, other than the dirtied one, stay the same in the same order |
| `DirtyList.DirtiedIsAhead` | libTupl/src/tupl/pvt/PageAllocator.cpp:24-58 | the dirtied node itself is ahead of the flush position afterwards exactly if a flush was going on and did not stand at it as the last of several |
| `DirtyList.FlushIsDetermined` | libTupl/src/tupl/pvt/PageAllocator.cpp:56-57 | these two properties leave one flush position only |
| `DirtyList.PageAllocator.constructor` | libTupl/src/tupl/pvt/PageAllocator.hpp:50-54 | an empty list |
| `DirtyList.PageAllocator.Dirty` | libTupl/src/tupl/pvt/PageAllocator.cpp:24-58 | the links, both ways, become those of the list with the node moved to its end, for first, middle, last, sole and absent nodes; the flush position stays null or a member, with the same others ahead of it, and the dirtied node exactly as stated |
| `DirtyList.DirtyAll` | libTupl/src/tupl/pvt/PageAllocator.cpp:24-58 | any run of dirtyings of unlinked nodes on a new allocator leaves a well-formed list, both ways, of the nodes at their last occurrences |
| `CursorFrames.FrameFollowsIff` | libTupl/src/tupl/pvt/ops.cpp:239-267 | in leaves and internal nodes and both readings, a frame goes with its entry exactly when the right side was cleaved past the split position, or the left was and the frame is one that moves |
| `CursorFrames.FrameMisses` | libTupl/src/tupl/pvt/ops.cpp:239-267 | where the other frames end up: after a left split in the split node one place past their entry, at the boundary at their place in the other node |
| `CursorFrames.FrameShouldGo` | libTupl/src/tupl/pvt/ops.cpp:239-267 | where every frame should have gone, in both readings and node kinds, also one at the insert position |
| `CursorFrames.GoesWhereItShouldIff` | libTupl/src/tupl/pvt/ops.cpp:239-267 | moveFrames gives a frame that place exactly if it is one of the relocated ones, and otherwise one too far or the other node |
| `CursorFrames.FrameGoesWrong` | libTupl/src/tupl/pvt/ops.cpp:242-246 | on a full leaf split left, the frame at the last entry stays and ends up past the end |
| `CursorFrames.FramesConserved` | libTupl/src/tupl/pvt/ops.cpp:235-268 | no frame is lost or doubled between the two nodes |
| `CursorFrames.FramesInOrder` | libTupl/src/tupl/pvt/ops.cpp:235-268 | of two frames that go the same way the first stays first |
| `CursorFrames.MoveFrames` | libTupl/src/tupl/pvt/ops.cpp:229-269 | both lists and every position after the loop; frames keep their order |
| `CursorFrames.Erase` | libTupl/src/tupl/pvt/ops.cpp:68-71 | a frame is erased from its own node's list, which requires that node's latch, and from no other |
| `CursorFrames.SplitFrames` | libTupl/src/tupl/pvt/ops.cpp:196-221 | after a split of the entries and moveFrames together, the frames that name their old entry, by list and position, are exactly those; each of the others is one place past it, or in the wrong list at its position |
| `CursorFrames.UnwindAndLockRoot` | libTupl/src/tupl/pvt/ops.cpp:57-91 | exactly the cursor's frames leave their nodes' lists, the others stay in order; in the end the root alone is latched; and the latches taken and given back and the erasures, in order |
| `CursorFrames.UnwindHoldsOneIff` | libTupl/src/tupl/pvt/ops.cpp:57-91 | every frame leaves its node's list while that node is latched, in the end just the root is latched, and two latches are held at once exactly when the root has changed |
| `CursorFrames.UnwindsTopDown` | libTupl/src/tupl/pvt/ops.cpp:57-91 | the cursor's frames leave their lists from the top of the stack down, each once |

## Left out

- SlowTree.BTree.AllocateInternal: the code yields a null pointer (`slow/Tree.cpp:35`); the model allocates the empty node that the caller needs. A new internal node has no sentinel, which `splitAndInsert` requires of its sibling.
- SlowTree.BTree.Insert: starts from a tree in which no split is pending, although the code never clears a recorded split; what the next insertion then does to a parent is `TreeFaults.StaleSplitIsRepairedAgain`; clearing splits and growing the root are modelled on tree values only (`TreeRuns.GrowRoot`, after the description in `pvt/Tree.hpp:41-45`).
- SlowTree.BTree.InsertRecursive: after a throw the nodes that a split has orphaned are not described, only the tree that is still linked (`TreeRefusals.RefusalOrphans` says on tree values what is lost).
- TreeInsert.InsertIsCorrect: is about the documented reading; what holds of the code is `AsWrittenConserves`, `AsWrittenRoutedIffClean` and `FoundIffClean`.
- TreeRefusals.RefusalLosesKey: a tree with empty leaves, which no run builds (`TreeRuns.RunConserves`), may lose none.
- TreeRuns.PutRefines: the code grows no root and clears no split; both are modelled after the description in `pvt/Tree.hpp:41-45`.
- TreeRuns.SoundRunRefines: stops at the first unsound insertion; `TreeRuns.RunConserves` goes on through unclean ones, and stops only at one refused on the way up.
- TreeRuns.RunRefines: is the case of short keys and the documented reading of `TreeRuns.SoundRunRefines`.
- TreeSpec.FindChild: `InternalNode::find` is unimplemented in the code; it is defined here as the description at `slow/Node.cpp:305-316` requires.
- CursorFrames.MoveFrames: the destination iterator, taken from the source's list at `ops.cpp:233`, is read as the sibling's; a frame at the insert position hits `assert(false)` in the code and is excluded; a frame's node pointer is not updated, as in the code.
- CursorFrames.UnwindAndLockRoot: the stack's size is read as its number of frames; the latches it needs are free when it asks for them (waiting is part of `LatchCoupling`).
- LatchCoupling.NoDeadlock: the tree is fixed during a run, and `isSplit` is false, as in the code, so the branch that bubbles a split up is absent; latches are an owner map, and each acquire or release is one step.
- LatchCoupling.StuckIff: one growth of the root; for a cursor that missed several, `NoDeadlock` gives the sufficient condition only, the converse depending on how many threads are on the way to the old root.
- PrefixSearch.SkippingLowerBound: `std::lower_bound` is its usual halving loop, and the search comes before the flag is read (the code's argument order leaves that open).
- Byte counts are unbounded naturals; only `capacity - used` wraps, modulo 2^64. Pointers take eight bytes.
- Leaf and internal nodes are one class with a kind, as the operations are one template over both; `std::lower_bound` over a node's entries is a function.
- `InternalNode::insert(key, value)` (`slow/Node.cpp:107-123`) steps back one place and is not used by the tree.
- `ops::store`, `ops::splitLeaf`, `bubbleSplitUpOneLevel`, `findValue` and `InternalNode::lowerBound` are stubs in the code.
- `LeafNode::moveEntries` has no live caller; `ArrayStackGeneric` is a sequence here; `operator<=` of `types.hpp` is not used by the core.
- The page layout described in `pvt/Node.hpp` is implemented nowhere; allocators, page databases, configuration, error classes and the public interfaces are thin wrappers.
- The boost containers' hooks, mutexes and atomics: visitor lists are sequences, and `dirty` runs under its mutex as one step.
