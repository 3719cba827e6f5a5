# Range merging, scheduling and pipelining in an I/O forwarding server, verified in Dafny

An I/O forwarding server takes byte ranges from many clients, merges the ones that
touch, queues them per file, issues them in batches and calls each client back once
all its bytes are through.  Large transfers are cut over fixed-size buffers and run
as a pipeline.  This project models that path of the iofsl server, together with two
pieces it stands on: the object that waits for several completions, and the streaming
SHA-1 digest.  It proves what the path is for: every byte range submitted is issued
exactly once, at the right place in the file, and its client is called back.

How the files build on each other:

| file | what it holds |
|---|---|
| `Basics.dfy` | options, sequences without an element, images of multisets |
| `Extents.dfy` | the value every range merger has to compute: a set of extents of which none touch, determined by what it covers |
| `IntervalTree.dfy`, `TreeDeletion.dfy`, `IntervalMergeTree.dfy` | the red-black interval merge tree: rotations, insertion, deletion, search by subtree maxima, merging |
| `FarIntervals.dfy` | the tree beyond 32 bits: what search and merge then do |
| `Ranges.dfy`, `RangeSet.dfy` | queued ranges, and the hierarchical range set with its two ordered indexes |
| `MergerRuns.dfy` | whole runs of the tree and of the set, and their agreement |
| `MergeScheduler.dfy`, `MergeTurns.dfy`, `RangeSchedulers.dfy` | the merging scheduler as a state machine, whose turn it is in every run, and the class that implements it |
| `Batching.dfy`, `RequestScheduler.dfy`, `RequestRuns.dfy` | batching, submitting, issuing, and every interleaving of clients, runner and completions |
| `RequestFlow.dfy`, `RequestServer.dfy` | the whole path from the segments of a request to the arrays passed on and the callback, and the class that takes it |
| `Pipeline.dfy`, `PipelineExec.dfy`, `PipelineRun.dfy` | cutting a transfer over buffers, running the buffers, and the transfer as a whole |
| `MultiCompletion.dfy`, `CompletionSlots.dfy` | waiting for several completions: the machine, and the linked slots that implement it |
| `Sha1Standard.dfy`, `Sha1Example.dfy`, `Sha1Context.dfy` | FIPS PUB 180-1, its example, and the incremental context, which shares no operation with it |

What is hard, and how it is stated:

- **Stale maxima.**  Deleting from the interval tree leaves some `max` fields too
  large, and the next search still goes by them.  `Stale(t, h)` says which errors are
  allowed while the interval `h` is on its way into the tree: only on the way to `h`,
  only above the first interval that touches `h`, and only up to `h.end`.  Search,
  deletion with its rotations, and the final insertion are each proved to keep it or to
  use it up, so that every merge ends with exact maxima again.
- **One answer.**  The tree, the set and any order of additions arrive at the same
  extents, because a set of extents of which none touch is determined by what it
  covers (`UniqueDecomposition`).  Ground is measured in half-bytes, so that adjacent
  extents touch and extents one byte apart do not.
- **Runs, not calls.**  The schedulers, the request scheduler, the pipeline and the
  completion object are state machines, and the main results hold in every run or for
  every interleaving; the classes are proved to take only steps of these machines.
- **End to end.**  `EndToEnd` speaks of requests and of calls to the file system only: in
  every run of clients, runner and completions the entries passed on are among the
  segments of the requests, each with its buffer, offset, sizes, file, direction and
  callback, and are exactly these once all is sent and drained; and each client's callback is made
  with the completion of its last entry, but for one kind of request named below.
  `RunWrite` and `RunRead` do the same for a pipelined transfer, byte by byte.

Where the code differs from what it promises:

- The `max` field has 32 bits.  A merge leaves exact maxima exactly when the end of the
  new interval is below 2^32 (`MergeIntervals`).  Whatever the maxima, all searches in a
  tree are right exactly when these guide them: at every node the left child's maximum is
  not below any end in its subtree, and not beyond the node's own end if there is a right
  child (`SearchesRight`).  Exact maxima do so (`ExactGuides`).  Beyond 2^32, a search for
  an interval that starts there finds something exactly when one on the right spine
  touches (`FarSearch`), and a merge whose search found nothing gives the wrong set exactly
  when something touched and no interval with the same start holds the new one
  (`MissedMerge`).  `TruncatedMaxMisses` makes four merges into an empty tree after which
  two of its intervals overlap.
- A read tests the address of its size array instead of a size, so it queues empty
  segments too.  Its callback wrapper then waits for the right number exactly when no
  segment is empty (`Read`).  Otherwise the client is called back too early, and the
  wrapper is invoked again after it is gone (`EndToEnd`), unless the code's assertions
  are on and an empty segment is issued unmerged: that one fails exactly then (`Issue`).
- A request without a single non-empty segment is never called back (`CallsBack`,
  `EndToEnd`).
- The slicer ends exactly when no empty segment comes before one that is not
  (`SlicingEnds`).
- The assertion that closes `removeCompleted` fails exactly when the slot removed was
  the only one with an exception (`RemoveCompleted`), and `testSome` gives an answer
  exactly when no exception is pending; otherwise it locks a mutex it holds
  (`TestSome`).
- A wait's callback is made without the lock and told of the exceptions there are by
  then: of one exactly when an exception that was there when the wait was over has not been
  handed out since, or one that came later has not been handed out after it came
  (`ReportExact`).  So what it is told stands as long as no slot is tested, or no further
  slot fails, in between (`ReportStands`); with a test in between, a wait for two slots is
  told that all is well after one slot completed, with an exception (`LateReport`).

## Model

| member | source | states |
|---|---|---|
| `Extents.MergeSound` | src/c-util/interval-merge-tree.c:1243-1400 | merging keeps the extents apart, and covers exactly what was covered before plus the new extent |
| `Extents.UniqueDecomposition` | src/iofwd/HierarchicalRangeSet.hh:162-227 | two sets of non-touching extents that cover the same are equal |
| `Extents.MergeStep` | src/c-util/interval-merge-tree.c:1276-1397 | absorbing one touching interval and merging the hull gives what merging directly gives: the step of the recursion |
| `Extents.MergeAllOrderFree` | src/iofwd/HierarchicalRangeSet.hh:162-227 | the merged extents do not depend on the order or repetition of the additions |
| `Extents.MergeTotal` | src/iofwd/RangeScheduler.cpp:114-145 | merging adds to the total length the length of the new extent less the bytes it shares with what was there |
| `Extents.TotalIsByteCount` | src/iofwd/RangeScheduler.cpp:114-145 | the total length of non-touching extents is the number of bytes they cover |
| `IntervalTree.RotateInOrder` | src/c-util/interval-merge-tree.c:441-555 | a rotation keeps the in-order sequence of intervals |
| `IntervalTree.RotateExact` | src/c-util/interval-merge-tree.c:441-555 | a rotation keeps exact subtree maxima exact |
| `IntervalTree.InsertFixRedBlack` | src/c-util/interval-merge-tree.c:558-613 | each round of the insert fix-up keeps the tree red-black but for one red pair, moved towards the root |
| `IntervalTree.InsertRules` | src/c-util/interval-merge-tree.c:558-613 | the insert fix-up ends red-black with a black root, with the same intervals in order and maxima as exact as they came |
| `IntervalTree.Insert` | src/c-util/interval-merge-tree.c:616-710 | insertion reports a duplicate key and keeps the intervals, or adds exactly the new one; search order and colour rules hold; maxima that are stale only on the new interval's way are exact afterwards |
| `TreeDeletion.DeleteFixKeeps` | src/c-util/interval-merge-tree.c:714-797 | each round of the delete fix-up keeps order, black deficiency and the bound on stale maxima, and ends or moves towards the root |
| `TreeDeletion.DeleteRules` | src/c-util/interval-merge-tree.c:714-797 | the delete fix-up restores the colour rules and keeps the order of the intervals; stale maxima stay where the merged interval excuses them |
| `TreeDeletion.LeftMost` | src/c-util/interval-merge-tree.c:800-811 | finds the node without left child at the end of the left spine |
| `TreeDeletion.Delete` | src/c-util/interval-merge-tree.c:929-999 | deletion, with or without a successor in its place, takes out exactly the interval in focus and keeps order, colours and the bound on stale maxima |
| `IntervalMergeTree.ClassifyExact` | src/c-util/interval-merge-tree.c:1139-1185 | the overlap cases are exactly touching, containment and equality, and the interval built in each case is the hull |
| `IntervalMergeTree.SearchStep` | src/c-util/interval-merge-tree.c:1194-1206 | going left or right by a possibly stale maximum never leaves a touching interval behind |
| `IntervalMergeTree.Search` | src/c-util/interval-merge-tree.c:1188-1209 | on any tree search goes down by the maxima to the first touching interval on its way; in spite of stale maxima it finds one if and only if there is one |
| `IntervalMergeTree.UpdateMax` | src/c-util/interval-merge-tree.c:1212-1240 | recomputing maxima from a node towards the root, stopping at the first that does not change, changes nothing else, leaves stale maxima excused, and makes every maximum fit its interval and children if all others did before |
| `IntervalMergeTree.Merger.constructor` | src/c-util/interval-merge-tree.c:1249-1253 | the empty tree is valid and holds nothing |
| `IntervalMergeTree.Merger.MergeIntervals` | src/c-util/interval-merge-tree.c:1243-1400 | from a valid tree the contents become the merged set, the code is that of a consumed interval exactly when the new one lies in another, and the maxima are exact again exactly when the end fits 32 bits; from any tree with order and colours kept these stay, and if the search finds nothing the interval is added as it is, unless its key is there |
| `IntervalMergeTree.Merger.MergeFrom` | src/c-util/interval-merge-tree.c:1243-1400 | the recursion from a tree with excused stale maxima ends, because each call removes a node, and arrives at the same merged set; order and colours hold on any tree |
| `IntervalMergeTree.Merger.Absorb` | src/c-util/interval-merge-tree.c:1277-1396 | deleting a touching interval and widening the new one leaves the outcome of the merge unchanged and one node less |
| `IntervalMergeTree.Merger.DeleteMinNode` | src/c-util/interval-merge-tree.c:1412-1417 | removes exactly the first interval in order, which in a valid tree lies before all that remain |
| `FarIntervals.SearchesRight` | src/c-util/interval-merge-tree.c:1188-1209 | in any ordered tree, whatever its maxima, every search finds something exactly when something touches if and only if the maxima guide: no left child's maximum is below an end in its subtree, or beyond its parent's end where there is a right child |
| `FarIntervals.ExactGuides` | src/c-util/interval-merge-tree.c:1188-1209 | exact maxima guide |
| `FarIntervals.FarSearch` | src/c-util/interval-merge-tree.c:1194-1206 | with 32-bit maxima, a search for an interval that starts at 2^32 or later finds something exactly when an interval on the right spine touches it |
| `FarIntervals.MissedMerge` | src/c-util/interval-merge-tree.c:1255-1262 | a merge whose search finds nothing gives the merged set exactly when nothing touches, or an interval with the same start holds the new one |
| `FarIntervals.TruncatedMaxMisses` | src/c-util/interval-merge-tree.h:88 | four merges from the empty tree, run by the merger itself, end with two intervals that overlap |
| `IntervalMergeTree.HeightBound` | src/c-util/interval-merge-tree.c:558-797 | in every red-black tree the height is at most twice the binary logarithm of the number of intervals plus one |
| `RangeSet.TouchingByScans` | src/iofwd/HierarchicalRangeSet.hh:73-141 | the ranges that touch a new one are those found by start, by end, and around it |
| `RangeSet.Scan` | src/iofwd/HierarchicalRangeSet.hh:73-117 | the scan of an index from its lower bound, stopping at the first miss, returns exactly the ranges whose key lies in the bounds |
| `RangeSet.ScanAround` | src/iofwd/HierarchicalRangeSet.hh:119-141 | the scan by ends, stopping at the first miss, returns exactly the ranges around the new one |
| `RangeSet.Gather` | src/iofwd/HierarchicalRangeSet.hh:186-223 | the children of the merged range are the new leaf and all leaves of the ranges replaced, each with its callback at its place |
| `RangeSet.HierarchicalRangeSet.constructor` | src/iofwd/HierarchicalRangeSet.hh:25-27 | the empty set is valid |
| `RangeSet.HierarchicalRangeSet.Get` | src/iofwd/HierarchicalRangeSet.hh:63-70 | takes out one range and keeps both indexes exact |
| `RangeSet.HierarchicalRangeSet.Intersect` | src/iofwd/HierarchicalRangeSet.hh:73-117 | returns exactly the ranges that start or end within the new one |
| `RangeSet.HierarchicalRangeSet.Included` | src/iofwd/HierarchicalRangeSet.hh:119-141 | returns exactly the ranges that contain the new one |
| `RangeSet.HierarchicalRangeSet.MergeOut` | src/iofwd/HierarchicalRangeSet.hh:144-160 | takes the touching ranges out of the set and both indexes, and computes their hull with the new one |
| `RangeSet.HierarchicalRangeSet.Add` | src/iofwd/HierarchicalRangeSet.hh:162-227 | every touching range gives way to one range over the hull that owns all their leaves and callbacks; the indexes are exact again |
| `RangeSet.AddsSound` | src/iofwd/HierarchicalRangeSet.hh:162-227 | after an addition no two ranges touch, the extents are the merged set, and exactly the new leaf is pending in addition |
| `MergerRuns.RunTree` | src/c-util/interval-merge-tree.c:1243-1417 | in every run of merges and minimum deletions from the empty tree, up to the first deletion that meets an empty tree, the intervals are apart at every point and each call does exactly what it should |
| `MergerRuns.Drain` | src/c-util/interval-merge-tree.c:1412-1417 | repeated minimum deletion yields every interval, strictly increasing |
| `MergerRuns.RunSet` | src/iofwd/HierarchicalRangeSet.hh:63-227 | in every run of additions and removals the leaves are conserved, and every range handed out is filled by its leaves without a gap, callbacks in place |
| `MergerRuns.RunBoth` | src/iofwd/HierarchicalRangeSet.hh:162-227 | given the same ranges the set and the tree hold the same extents, which cover exactly those ranges |
| `MergeScheduler.EnqueueSound` | src/iofwd/RangeScheduler.cpp:43-68 | an enqueue keeps the queues valid and separate, adds exactly the leaf, and lets the byte count run ahead by the bytes already pending |
| `MergeScheduler.DequeueSound` | src/iofwd/RangeScheduler.cpp:70-100 | a dequeue keeps the queues valid, gives up exactly the leaves of a range of the front queue's kind, and keeps the byte count's distance |
| `MergeScheduler.RunSound` | src/iofwd/RangeScheduler.cpp:43-145 | in every run every queue is non-empty, within its quantum and of one kind, leaves enqueued are leaves pending plus leaves dequeued, and the byte count exceeds the pending extents by exactly the bytes enqueued twice |
| `MergeScheduler.BytesQueued` | src/iofwd/RangeScheduler.cpp:114-145 | the byte count is never below the pending total, so never negative, and equal to it while nothing pending is enqueued again |
| `MergeScheduler.Fairness` | src/iofwd/RangeScheduler.cpp:70-100 | a queue at position k is in front after at most k times the quantum dequeues, whatever is enqueued meanwhile, and is never dropped before |
| `MergeTurns.Turn` | src/iofwd/RangeScheduler.cpp:70-100 | in every run, whatever is enqueued meanwhile, a queue whose turn begins and that is not emptied stays in front, and every dequeue is from it, until exactly a quantum of dequeues, counted from the events, was made; with the last it goes to the back |
| `MergeTurns.FrontBegins` | src/iofwd/RangeScheduler.cpp:47-97 | a queue that comes to the front begins a turn |
| `RangeSchedulers.Table.Append` | src/iofwd/RangeScheduler.cpp:47-60 | a new queue at the back keeps the list in bijection with the two maps |
| `RangeSchedulers.Table.Replace` | src/iofwd/RangeScheduler.cpp:61-67 | a queue changes in place, seen through the list and through its map alike |
| `RangeSchedulers.Table.FrontToBack` | src/iofwd/RangeScheduler.cpp:86-90 | the list turns, the maps stay exact |
| `RangeSchedulers.Table.DropFront` | src/iofwd/RangeScheduler.cpp:91-97 | list, map and queue go together |
| `RangeSchedulers.Turned` | src/iofwd/RangeScheduler.cpp:83-97 | the three outcomes of serving the front queue are exactly a dequeue step of the machine, for which `Turn` says when each occurs |
| `RangeSchedulers.MergeRangeScheduler.constructor` | src/iofwd/RangeScheduler.hh:55-66 | starts in the initial state |
| `RangeSchedulers.MergeRangeScheduler.Enqueue` | src/iofwd/RangeScheduler.cpp:43-121 | takes an enqueue step of the machine; list and maps stay in bijection |
| `RangeSchedulers.MergeRangeScheduler.Dequeue` | src/iofwd/RangeScheduler.cpp:70-145 | takes a dequeue step exactly when a queue exists, and otherwise changes nothing |
| `Batching.PutsSound` | src/iofwd/RangeScheduler.cpp:15-18 | either scheduler keeps its invariant on enqueue and gains exactly the leaf |
| `Batching.TakesSound` | src/iofwd/RangeScheduler.cpp:25-31 | either scheduler keeps its invariant on dequeue and gives up exactly the leaves of the range |
| `Batching.FifoOrder` | src/iofwd/RangeScheduler.cpp:15-31 | in every run of the FIFO scheduler the leaves come out in the order in which they were put in, and those still there are the last ones |
| `Batching.RangeScheduler.Enqueue` | src/iofwd/RangeScheduler.cpp:15-121 | the FIFO and the merging scheduler refine the same machine |
| `Batching.RangeScheduler.Dequeue` | src/iofwd/RangeScheduler.cpp:25-145 | gives out a range exactly when not empty |
| `Batching.CollectBatch` | src/iofwd/RequestScheduler.cpp:226-253 | the collecting loop takes ranges in dequeue order, of one direction and file, until the batch is full, nothing is left, or a range does not fit, which is carried over |
| `Batching.BatchClosed` | src/iofwd/RequestScheduler.cpp:226-253 | a batch is of one direction and file, and is closed because it reached the batch size, or nothing is left, or, below the batch size, the next range is of another direction or file |
| `RequestScheduler.Write` | src/iofwd/RequestScheduler.cpp:120-159 | queues exactly the non-empty segments in order, and the wrapper counts exactly these |
| `RequestScheduler.PositiveCount` | src/iofwd/RequestScheduler.cpp:130-139 | the segments a write queues hold each non-empty segment as often as the request does, and no other |
| `RequestScheduler.PositiveJoin` | src/iofwd/RequestScheduler.cpp:137-146 | and in the request's order: those of two parts follow each other |
| `RequestScheduler.Read` | src/iofwd/RequestScheduler.cpp:161-198 | queues every segment; the wrapper's count is right exactly when no segment is empty |
| `RequestScheduler.Issue` | src/iofwd/RequestScheduler.cpp:300-378 | the arrays passed on hold each leaf's buffer, offset and size once and in order, filled to exactly their length, with the callbacks alike; the assertion on the ranges holds exactly when none is empty |
| `RequestRuns.NextInv` | src/iofwd/RequestScheduler.cpp:148-298 | every locked step keeps the invariant: pending work implies an active task, there is at most one, batches are uniform and below the batch size before their last range, issued batches in order are the dequeue order, and no leaf is lost |
| `RequestRuns.RunInv` | src/iofwd/RequestScheduler.cpp:148-298 | so does every interleaving of submissions, runner and completions |
| `RequestRuns.Drained` | src/iofwd/RequestScheduler.cpp:200-298 | when no task is left, exactly what was submitted has been issued |
| `RequestRuns.RunnerEnabled` | src/iofwd/RequestScheduler.cpp:200-298 | the runner can always take a step |
| `RequestRuns.RunnerWorks` | src/iofwd/RequestScheduler.cpp:200-298 | every step of the runner leaves it less to do |
| `RequestRuns.RunnerTerminates` | src/iofwd/RequestScheduler.cpp:200-298 | without new arrivals the runner takes no more steps than the work it started with |
| `RequestRuns.CallbackEntries` | src/iofwd/RequestScheduler.cpp:318-360 | the entries of an issued callback list that name a wrapper are the leaves of that wrapper in the batch |
| `RequestRuns.RequestEntries` | src/iofwd/RequestScheduler.cpp:137-146 | the leaves of a request, and no others, name its wrapper, once each |
| `RequestRuns.InvocationsBound` | src/iofwd/RequestScheduler.cpp:300-378 | a wrapper is invoked at most once per leaf submitted for it, and exactly as often once all is drained and completed |
| `RequestRuns.InvokedOnCompletion` | src/iofwd/RequestScheduler.cpp:352-368 | a wrapper is invoked when a batch completes, once for each time it is in the batch's callback list, and at no other time |
| `RequestRuns.FifoIssues` | src/iofwd/RequestScheduler.cpp:200-298 | with the FIFO scheduler, in every interleaving leaves are issued in the order in which they were submitted, and all of them when no task is left |
| `RequestRuns.CallsBack` | src/iofwd/tasksm/IOCBWrapper.hh:26-58 | the wrapper calls the client back exactly at its last count, and never when it starts at zero |
| `RequestFlow.MoveInv` | src/iofwd/RequestScheduler.cpp:120-378 | every move, of a client that cuts or sends a segment, of the runner or of a completion, keeps the invariant that leaves submitted are leaves sent, and that the calls carry the batches issued |
| `RequestFlow.FlowRunInv` | src/iofwd/RequestScheduler.cpp:120-378 | so does every run |
| `RequestFlow.Answered` | src/iofwd/tasksm/IOCBWrapper.hh:26-58 | a wrapper is never invoked more often than its request sent leaves, and once for each leaf when all is sent, drained and completed; it calls its client back at the invocation it was told to wait for, and it was told to wait for all leaves exactly if the request is a write or has no empty segment |
| `RequestFlow.ListedExactly` | src/iofwd/RequestScheduler.cpp:318-360 | the calls name a request's wrapper at most once for each leaf sent, and exactly once for each when drained |
| `RequestFlow.PassedOnce` | src/iofwd/RequestScheduler.cpp:300-378 | no entry, that is place, sizes, direction, file and callback, is passed on more often than the clients' requests have such a segment, the empty ones of writes left out, and each exactly as often once all is sent and drained |
| `RequestFlow.PassedInOrder` | src/iofwd/RequestScheduler.cpp:120-378 | with the FIFO scheduler, in every run the entries are passed on in the order in which the clients sent them, and all of them when the runner is done |
| `RequestFlow.EndToEnd` | src/iofwd/RequestScheduler.cpp:120-378 | what `PassedOnce`, `Answered` and `ListedExactly` say, in every run from the empty server; in the end a client is called back exactly if it had a non-empty segment, with the completion of its last leaf if the request is a write or has no empty segment, and otherwise with invocations of its wrapper to follow |
| `RequestServer.Server.constructor` | src/iofwd/RequestScheduler.cpp:59-95 | the server starts empty |
| `RequestServer.Server.Write` | src/iofwd/RequestScheduler.cpp:120-146 | cuts a write request into its non-empty segments: a move of the flow |
| `RequestServer.Server.Read` | src/iofwd/RequestScheduler.cpp:161-185 | cuts a read request into its segments, empty ones included: a move of the flow |
| `RequestServer.Server.Send` | src/iofwd/RequestScheduler.cpp:148-157 | enqueues the next leaf of a request and starts a task if none is active: a move of the flow |
| `RequestServer.Server.Collect` | src/iofwd/RequestScheduler.cpp:204-257 | collects a batch, or ends the task when nothing is left: a move of the flow |
| `RequestServer.Server.Issue` | src/iofwd/RequestScheduler.cpp:259-296 | passes the batch on and keeps what was carried over: a move of the flow |
| `RequestServer.Server.Complete` | src/iofwd/RequestScheduler.cpp:362-377 | the completion of a call: a move of the flow |
| `Pipeline.ComputePipelineFileSegments` | src/iofwd/WriteTask.cpp:77-142 | the pieces map stream positions to file offsets as the request does, in order; the buffers are as many as the transfer takes, the first-piece index is the prefix sum of the piece counts, and no piece crosses its buffer's end; the loop ends in the very round in which `Ended` first holds |
| `Pipeline.SlicingRounds` | src/iofwd/WriteTask.cpp:95-141 | on any segments, after n rounds of the outer loop the segment at hand is `AtHand`, the bytes worked off are those before it, and the loop goes on exactly when not `Ended` |
| `Pipeline.SliceSegment` | src/iofwd/ReadTask.cpp:65-112 | one round of the outer loop works off the segment at hand, keeps all pieces so far right, and moves on to the next segment exactly when there was something in it |
| `Pipeline.EveryByte` | src/iofwd/WriteTask.cpp:77-142 | every byte of the stream lies in a piece of its buffer, at the file offset the request gives it |
| `Pipeline.OffsetIn` | src/iofwd/WriteTask.cpp:77-142 | byte d of segment j of the stream belongs at offset d of that segment's place in the file |
| `Pipeline.SlicingEnds` | src/iofwd/WriteTask.cpp:95-102 | there is a round in which the outer loop ends exactly when no empty segment comes before one that is not |
| `PipelineExec.PieceInBuffer` | src/iofwd/ReadTask.hh:71-90 | every piece lies inside its buffer, the short last one included |
| `PipelineExec.BufferFilled` | src/iofwd/ReadTask.hh:71-90 | the pieces of a buffer add up to exactly its size |
| `PipelineExec.BufferArrays` | src/iofwd/WriteTask.cpp:298-346 | the arrays posted for a buffer cover it without gap, each entry at the file offset of its place in the stream |
| `PipelineExec.PostNext` | src/iofwd/WriteTask.cpp:298-346 | the operation posted for a buffer moves exactly the bytes of that buffer, in order, each at its address and file offset |
| `PipelineExec.MakeBuffers` | src/iofwd/ReadTask.hh:71-90 | the buffers have the sizes the executor expects and add up to the transfer |
| `PipelineExec.Poll` | src/iofwd/ReadTask.cpp:174-202 | a pass over the operations in flight takes out exactly those found finished, marks and counts them, and keeps the others |
| `PipelineExec.SendReady` | src/iofwd/ReadTask.cpp:115-130 | sends the ready buffers in order up to the first that is not, each with its own size, and counts each down |
| `PipelineExec.ExecPipelineRead` | src/iofwd/ReadTask.cpp:132-280 | for every order of completions, buffers are posted and sent in order, each once, with its bytes and its size, and sent only after its own read finished; when the first loop ends no operation is unfinished and no buffer unsent, so the two later loops do nothing, and all bytes are sent |
| `PipelineExec.ExecPipelineWrite` | src/iofwd/WriteTask.cpp:165-275 | for every order of completions, buffers are received and writes posted in order, each once, with its size and its bytes, posted only after its buffer was received, and all finish; when the first loop ends no operation is unfinished, so the later loop does nothing, and all bytes are received |
| `PipelineRun.MovedAll` | src/iofwd/WriteTask.hh:50-98 | the operations together move the stream: byte x once, at place x mod psize of buffer x div psize and at its file offset |
| `PipelineRun.RunWrite` | src/iofwd/WriteTask.hh:50-98 | a pipelined write from request to completion: every byte of the stream is written once, from its place in its buffer to its file offset, by the one operation posted for that buffer, which is posted once and after the buffer was received, and finishes |
| `PipelineRun.RunRead` | src/iofwd/ReadTask.hh:51-99 | a pipelined read from request to completion: every byte is read once to its place in its buffer, and the buffers are sent in order, each once and after its operation finished |
| `MultiCompletion.ApplyValid` | src/iofwdevent/MultiCompletion.hh:209-633 | every operation keeps free and completed slots apart, and a pending wait pending only while its condition does not hold |
| `MultiCompletion.RunValid` | src/iofwdevent/MultiCompletion.hh:209-633 | so in every run, in which therefore no wait is called back twice |
| `MultiCompletion.SlotMoves` | src/iofwdevent/MultiCompletion.hh:209-476 | arming takes exactly the slot named from the free ones, completing puts exactly that slot to the completed ones, and testing moves exactly the one handed out back to the free ones |
| `MultiCompletion.ReusedFirst` | src/iofwdevent/MultiCompletion.hh:447-454 | the slot handed out last is the first to be armed again |
| `MultiCompletion.TestOrder` | src/iofwdevent/MultiCompletion.hh:479-508 | over a run, slots are handed out in the order of their completion, none twice and none left out |
| `MultiCompletion.WaitsAnswered` | src/iofwdevent/MultiCompletion.hh:589-633 | over a run, the waits pending, due or called back are exactly the waits begun |
| `MultiCompletion.WaitExact` | src/iofwdevent/MultiCompletion.hh:608-633 | over every run after a wait for a count, zero standing for all slots armed or completed at the call, the wait is over if and only if since then that many slots were completed at once, or one failed, or it was cancelled |
| `MultiCompletion.ReportExact` | src/iofwdevent/MultiCompletion.hh:398-405 | over every run between a wait's end and its callback, this is told of an exception exactly when one from before was not handed out in the run, or one from the run was not handed out after it came |
| `MultiCompletion.ToldExact` | src/iofwdevent/MultiCompletion.hh:398-405 | a callback made after the run is told of an exception exactly in that case, and else that all is well |
| `MultiCompletion.CancelExact` | src/iofwdevent/MultiCompletion.hh:589-605 | a callback is told that its wait was cancelled exactly when it was |
| `MultiCompletion.ReportStands` | src/iofwdevent/MultiCompletion.hh:398-405 | a callback due with an exception is told of one if no slot is tested until it is made, and one due without is told of none if no further slot fails |
| `MultiCompletion.LateReport` | src/iofwdevent/MultiCompletion.hh:398-405 | a run in which a wait for two slots is told that all is well after one slot completed, with an exception |
| `CompletionSlots.UnhookChain` | src/iofwdevent/MultiCompletion.hh:218-234 | taking a slot out relinks its neighbours and touches no other list |
| `CompletionSlots.HookBackChain` | src/iofwdevent/MultiCompletion.hh:351-372 | a slot put behind a list becomes its last |
| `CompletionSlots.HookFrontChain` | src/iofwdevent/MultiCompletion.hh:447-454 | a slot put in front of a list becomes its first |
| `CompletionSlots.Completion.constructor` | src/iofwdevent/MultiCompletion.hh:306-318 | all slots are free, in order |
| `CompletionSlots.Completion.ArmAt` | src/iofwdevent/MultiCompletion.hh:209-240 | arms the given slot wherever it is in the free list |
| `CompletionSlots.Completion.ArmNext` | src/iofwdevent/MultiCompletion.hh:243-269 | arms the first free slot |
| `CompletionSlots.Completion.CompleteSlot` | src/iofwdevent/MultiCompletion.hh:333-406 | the slot goes behind the completed list, and the callback of a pending wait is taken exactly when its condition now holds |
| `CompletionSlots.Completion.RemoveCompleted` | src/iofwdevent/MultiCompletion.hh:410-476 | the slot goes from the completed to the free list; the closing assertion holds unless it was the only one with an exception |
| `CompletionSlots.Completion.TestAny` | src/iofwdevent/MultiCompletion.hh:479-508 | hands out the slot that completed first, with its exception, or reports that there is none |
| `CompletionSlots.Completion.TestSome` | src/iofwdevent/MultiCompletion.hh:511-577 | hands out the first slots in order of completion exactly when no exception is pending |
| `CompletionSlots.Completion.Cancel` | src/iofwdevent/MultiCompletion.hh:589-605 | calls the pending wait back as cancelled, or reports that there is none |
| `CompletionSlots.Completion.Wait` | src/iofwdevent/MultiCompletion.hh:608-633 | takes the callback at once when the condition holds, and otherwise remembers the wait |
| `CompletionSlots.Completion.CallBack` | src/iofwdevent/MultiCompletion.hh:398-405 | a callback taken is made, at any later time and with the exceptions there are then, and once |
| `CompletionSlots.Completion.CheckInvariants` | src/iofwdevent/MultiCompletion.hh:680-733 | the code's own check of links and counters never fails |
| `CompletionSlots.Completion.ViewValid` | src/iofwdevent/MultiCompletion.hh:176-201 | the linked object satisfies the machine's invariant, and a slot waits exactly when it may complete |
| `Sha1Context.Schedule` | src/c-util/sha1.c:224-235 | the word sequence is W of section 7 of FIPS PUB 180-1 |
| `Sha1Context.RunRounds` | src/c-util/sha1.c:237-287 | the four loops, with the operations written out, compute the 80 rounds of section 7 |
| `Sha1Context.ProcessMessageBlock` | src/c-util/sha1.c:207-301 | the digest becomes what section 7 makes of it with this block |
| `Sha1Context.CountersAreLength` | src/c-util/sha1.c:361-368 | the octets of the two 32-bit counters are the eight octets of the length |
| `Sha1Context.PadOne` | src/c-util/sha1.c:349-370 | padding within the block gives the digest of the padded message of section 4 |
| `Sha1Context.PadTwo` | src/c-util/sha1.c:334-370 | padding over two blocks does too |
| `Sha1Context.Context.constructor` | src/c-util/sha1.c:71-85 | a new context holds the empty message |
| `Sha1Context.Context.Reset` | src/c-util/sha1.c:71-85 | whatever was before, the context holds the empty message |
| `Sha1Context.Context.CountOctet` | src/c-util/sha1.c:163-176 | the counters hold the exact length in bits, and the context is corrupted exactly when it reaches 2^64 |
| `Sha1Context.Context.Store` | src/c-util/sha1.c:160-181 | the octet goes into the block, and a full block into the digest |
| `Sha1Context.Context.PadMessage` | src/c-util/sha1.c:326-371 | the digest becomes that of the whole message |
| `Sha1Context.Context.Input` | src/c-util/sha1.c:143-185 | the message grows by the portion; corrupted exactly on overflow or when something comes after the result |
| `Sha1Context.Context.Result` | src/c-util/sha1.c:104-119 | succeeds exactly when not corrupted, with the standard's digest of everything taken in, however often it is called |
| `Sha1Context.DigestOf` | src/c-util/sha1.c:104-185 | however a message is divided into portions, the digest is that of the whole, and there is none exactly from 2^64 bits on |
| `Sha1Example.DigestOfAbc` | src/c-util/sha1.c:207-301 | the digest of "abc" is the one of appendix A of FIPS PUB 180-1 |

## Left out

- The tree's nodes are values, and a place in the tree is a path with the subtree in focus: parent pointers, the shared sentinel and update in place are not modelled, and neither are the `size` and rank fields, `find_delete` and the node pools.
- The data lists hung on tree nodes, and the range set that copies buffers between them, are not modelled.
- DeleteMinNode: requires a non-empty tree, because on a drained tree the original dereferences the sentinel's children.
- The queues of the merging scheduler are kept in an explicit store by address and each operation runs the real range set on the ranges of the queue, so destruction of queue objects is not modelled.
- Get: takes an arbitrary range, as the original's order by object address is not determined.
- Gather: leaves the order of the children open for the same reason.
- The `op_hint_` of a merged range, which the original leaves uninitialised, is not modelled; neither is the interval-tree range set behind the same scheduler interface.
- ExecPipelineRead: the order of completions is given as the number of polls each operation takes; network, buffer allocation and return codes are events in a log.
- ExecPipelineWrite: as for reads.
- ComputePipelineFileSegments: requires that no empty segment comes before one that is not, which `SlicingEnds` shows to be exactly when the original ends; the ceiling is an integer one.
- Input: the portion is a sequence, and the 32-bit length argument is not modelled.
- Serves: compares the whole handle, where the original compares its address: the contents at an address are taken not to change while ranges are queued for it.
- RunWrite: the sizes in memory and in the file add up to the same, the pipeline size is positive, and segments are such that slicing ends; where buffers lie is a parameter. The mode without a pipeline, one call with the request's own arrays, is not modelled.
- RunRead: as for writes.
- Shutdown of the request scheduler (`exiting_`), thread pool and logging are not modelled; offsets are unbounded integers, where the original has 64 bits.
- Timers, caches, tokens, hash tables, RPC, clients, configuration and encoders are not modelled: no range, transfer or completion of the path above depends on what they compute.
