/** Every interleaving of submissions, the scheduler's runner and completions. */
module RequestRuns {
  import opened Basics
  import opened Ranges
  import opened Batching
  import opened RequestScheduler

  /** A scheduler task in the thread pool: before its locked section, holding the
      carried range if there is one, or about to issue a batch. */
  datatype Task = AtTop(rs: seq<Range>) | Issuing(rs: seq<Range>, carry: Option<Range>) {
    function Holds(): seq<Range> {
      match this
      case AtTop(rs) => rs
      case Issuing(rs, carry) => rs + Carried(carry)
    }
  }

  function Carried(carry: Option<Range>): seq<Range> {
    if carry.Some? then [carry.value] else []
  }

  /** The shared state, with what was submitted and dequeued so far as history. */
  datatype World = World(sched: Sched, active: bool, tasks: seq<Task>,
                         issued: seq<seq<Range>>, done: seq<bool>,
                         submitted: multiset<Leaf>, dequeued: seq<Range>)

  datatype Step =
    | Submit(leaf: Leaf)
    | Exit(i: nat)
    | Collect(i: nat, out: seq<Range>, rs: seq<Range>, carry: Option<Range>)
    | Issue(i: nat)
    | Complete(j: nat)

  ghost predicate Next(bs: int, w: World, step: Step, w': World) {
    match step
    case Submit(l) =>
      // queue the leaf; if no task is active, hand one to the thread pool
      && l.st <= l.en && Puts(w.sched, l, w'.sched)
      && w' == w.(sched := w'.sched, submitted := w.submitted + multiset{l}, active := true,
                  tasks := if w.active then w.tasks else w.tasks + [AtTop([])])
    case Exit(i) =>
      && i < |w.tasks| && w.tasks[i] == AtTop([]) && w.sched.IsEmpty()
      && w' == w.(active := false, tasks := w.tasks[..i] + w.tasks[i + 1..])
    case Collect(i, out, rs, carry) =>
      && i < |w.tasks| && w.tasks[i].AtTop? && !(w.sched.IsEmpty() && w.tasks[i].rs == [])
      && Collects(bs, w.sched, w.tasks[i].rs, out, w'.sched, rs, carry)
      && w' == w.(sched := w'.sched, tasks := w.tasks[i := Task.Issuing(rs, carry)], dequeued := w.dequeued + out)
    case Issue(i) =>
      && i < |w.tasks| && w.tasks[i].Issuing?
      && w' == w.(tasks := w.tasks[i := AtTop(Carried(w.tasks[i].carry))],
                  issued := w.issued + [w.tasks[i].rs], done := w.done + [false])
    case Complete(j) =>
      && j < |w.done| && !w.done[j]
      && w' == w.(done := w.done[j := true])
  }

  ghost predicate Run(bs: int, ws: seq<World>, steps: seq<Step>) {
    && |ws| == |steps| + 1
    && forall k :: 0 <= k < |steps| ==> Next(bs, ws[k], steps[k], ws[k + 1])
  }

  ghost predicate Start(w: World) {
    && w.sched.Valid() && w.sched.IsEmpty() && !w.active && w.tasks == []
    && w.issued == [] && w.done == [] && w.submitted == multiset{} && w.dequeued == []
  }

  // --- the invariant ---

  function Concat(batches: seq<seq<Range>>): seq<Range> {
    if batches == [] then [] else Concat(batches[..|batches| - 1]) + batches[|batches| - 1]
  }

  function InFlight(tasks: seq<Task>): seq<Range> {
    if tasks == [] then [] else InFlight(tasks[..|tasks| - 1]) + tasks[|tasks| - 1].Holds()
  }

  ghost predicate TaskOk(bs: int, t: Task) {
    match t
    case AtTop(rs) => |rs| <= 1 && AllWhole(rs)
    case Issuing(rs, carry) => ProperBatch(bs, rs) && AllWhole(Carried(carry))
  }

  /** At most one task, exactly when the flag is set, and it is set while work is pending. */
  ghost predicate Handshake(w: World) {
    && |w.tasks| <= 1
    && (w.active <==> |w.tasks| == 1)
    && (!w.sched.IsEmpty() ==> w.active)
  }

  ghost predicate BatchesOk(bs: int, w: World) {
    && (forall t <- w.tasks :: TaskOk(bs, t))
    && (forall b <- w.issued :: ProperBatch(bs, b))
    && |w.done| == |w.issued|
  }

  ghost predicate Ordered(w: World) {
    w.dequeued == Concat(w.issued) + InFlight(w.tasks)
  }

  ghost predicate Conserved(w: World) {
    w.submitted == w.sched.Leaves() + multiset(Flat(w.dequeued))
  }

  ghost predicate Inv(bs: int, w: World) {
    w.sched.Valid() && Handshake(w) && BatchesOk(bs, w) && Ordered(w) && Conserved(w)
  }

  lemma StartInv(bs: int, w: World)
    requires Start(w)
    ensures Inv(bs, w)
  {
    EmptyHasNone(w.sched);
  }

  lemma OneInFlight(t: Task)
    ensures InFlight([t]) == t.Holds()
  {
    assert [t][..0] == [];
  }

  lemma SubmitTasks(bs: int, w: World, w': World)
    requires Handshake(w) && BatchesOk(bs, w) && Ordered(w)
    requires w' == w.(sched := w'.sched, submitted := w'.submitted, active := true,
                      tasks := if w.active then w.tasks else w.tasks + [AtTop([])])
    ensures Handshake(w') && BatchesOk(bs, w') && Ordered(w')
  {
    if !w.active {
      assert w'.tasks == [AtTop([])];
      OneInFlight(AtTop([]));
    }
  }

  lemma SubmitInv(bs: int, w: World, l: Leaf, w': World)
    requires Inv(bs, w) && Next(bs, w, Submit(l), w')
    ensures Inv(bs, w')
  {
    PutsSound(w.sched, l, w'.sched);
    AddOne(w.submitted, w.sched.Leaves(), multiset(Flat(w.dequeued)), l);
    SubmitTasks(bs, w, w');
  }

  lemma BatchOk(bs: int, rs0: seq<Range>, out: seq<Range>, rs: seq<Range>, carry: Option<Range>)
    requires bs >= 1 && |rs0| <= 1 && AllWhole(rs0) && AllWhole(out) && rs + Carried(carry) == rs0 + out
    requires rs != [] && Uniform(rs) && (rs != rs0 ==> LeafCount(rs[..|rs| - 1]) < bs)
    ensures TaskOk(bs, Task.Issuing(rs, carry))
  {
    assert forall r <- rs + Carried(carry) :: r in rs0 || r in out;
    assert forall r <- rs :: r in rs + Carried(carry);
    assert forall r <- Carried(carry) :: r in rs + Carried(carry);
    if rs == rs0 {
      assert rs[..|rs| - 1] == [];
    }
  }

  lemma CollectedOk(bs: int, s: Sched, rs0: seq<Range>, out: seq<Range>, s': Sched, rs: seq<Range>,
                    carry: Option<Range>)
    requires bs >= 1 && s.Valid() && Collects(bs, s, rs0, out, s', rs, carry)
    requires |rs0| <= 1 && AllWhole(rs0) && !(s.IsEmpty() && rs0 == [])
    ensures s'.Valid() && TaskOk(bs, Task.Issuing(rs, carry))
    ensures rs + Carried(carry) == rs0 + out
    ensures s.Leaves() == s'.Leaves() + multiset(Flat(out))
  {
    DrainsValid(s, out, s');
    DrainsLeaves(s, out, s');
    BatchOk(bs, rs0, out, rs, carry);
  }

  lemma CollectInv(bs: int, w: World, i: nat, out: seq<Range>, rs: seq<Range>, carry: Option<Range>, w': World)
    requires bs >= 1 && Inv(bs, w) && Next(bs, w, Collect(i, out, rs, carry), w')
    ensures Inv(bs, w')
  {
    var t, t' := w.tasks[0], Task.Issuing(rs, carry);
    OnlyTask(w, t);
    CollectedOk(bs, w.sched, t.rs, out, w'.sched, rs, carry);
    assert w'.tasks == [t'];
    CollectOrdered(w, t, out, t', w');
    FlatJoin(w.dequeued, out);
    Shuffle(w.submitted, w.sched.Leaves(), w'.sched.Leaves(), Flat(w.dequeued), Flat(out));
  }

  lemma OnlyTask(w: World, t: Task)
    requires |w.tasks| == 1 && t == w.tasks[0]
    ensures w.tasks == [t] && t in w.tasks
  {
  }

  lemma CollectOrdered(w: World, t: Task, out: seq<Range>, t': Task, w': World)
    requires Ordered(w) && w.tasks == [t] && w'.tasks == [t'] && t'.Holds() == t.Holds() + out
    requires w'.issued == w.issued && w'.dequeued == w.dequeued + out
    ensures Ordered(w')
  {
    OneInFlight(t);
    OneInFlight(t');
  }

  lemma IssueInv(bs: int, w: World, i: nat, w': World)
    requires Inv(bs, w) && Next(bs, w, Step.Issue(i), w')
    ensures Inv(bs, w')
  {
    var t := w.tasks[0];
    OnlyTask(w, t);
    assert [t][0 := AtTop(Carried(t.carry))] == [AtTop(Carried(t.carry))];
    IssueKeeps(bs, w, t, w');
  }

  lemma IssueKeeps(bs: int, w: World, t: Task, w': World)
    requires Handshake(w) && BatchesOk(bs, w) && Ordered(w) && w.tasks == [t] && t in w.tasks && t.Issuing?
    requires w' == w.(tasks := [AtTop(Carried(t.carry))], issued := w.issued + [t.rs], done := w.done + [false])
    ensures Handshake(w') && BatchesOk(bs, w') && Ordered(w')
  {
    IssueBatches(bs, w, t, w');
    IssueOrdered(w, t, w');
  }

  lemma IssueBatches(bs: int, w: World, t: Task, w': World)
    requires BatchesOk(bs, w) && t in w.tasks && t.Issuing? && w'.tasks == [AtTop(Carried(t.carry))]
    requires w'.issued == w.issued + [t.rs] && |w'.done| == |w.done| + 1
    ensures BatchesOk(bs, w')
  {
  }

  lemma IssueOrdered(w: World, t: Task, w': World)
    requires Ordered(w) && w.tasks == [t] && t.Issuing? && w'.tasks == [AtTop(Carried(t.carry))]
    requires w'.issued == w.issued + [t.rs] && w'.dequeued == w.dequeued
    ensures Ordered(w')
  {
    OneInFlight(t);
    OneInFlight(AtTop(Carried(t.carry)));
    assert w'.issued[..|w'.issued| - 1] == w.issued;
    assert Concat(w'.issued) == Concat(w.issued) + t.rs;
  }

  /** Every step keeps the invariant. */
  lemma NextInv(bs: int, w: World, step: Step, w': World)
    requires bs >= 1 && Inv(bs, w) && Next(bs, w, step, w')
    ensures Inv(bs, w')
  {
    match step
    case Submit(l) => SubmitInv(bs, w, l, w');
    case Exit(i) => ExitInv(bs, w, i, w');
    case Collect(i, out, rs, carry) => CollectInv(bs, w, i, out, rs, carry, w');
    case Issue(i) => IssueInv(bs, w, i, w');
    case Complete(j) => CompleteInv(bs, w, j, w');
  }

  lemma ExitInv(bs: int, w: World, i: nat, w': World)
    requires Inv(bs, w) && Next(bs, w, Exit(i), w')
    ensures Inv(bs, w')
  {
    OneInFlight(AtTop([]));
    assert w.tasks == [AtTop([])];
  }

  lemma CompleteInv(bs: int, w: World, j: nat, w': World)
    requires Inv(bs, w) && Next(bs, w, Complete(j), w')
    ensures Inv(bs, w')
  {
  }

  /** In every interleaving: pending work at any lock release means an active task,
      there is never more than one, every batch is uniform and stays below the batch
      size before its last range, batches follow the dequeue order, and every leaf
      submitted is pending or was dequeued. */
  lemma {:induction false} RunInv(bs: int, ws: seq<World>, steps: seq<Step>)
    requires bs >= 1 && Run(bs, ws, steps) && Start(ws[0])
    ensures Inv(bs, ws[|steps|])
  {
    if steps == [] {
      StartInv(bs, ws[0]);
    } else {
      var n := |steps| - 1;
      RunInv(bs, ws[..n + 1], steps[..n]);
      NextInv(bs, ws[n], steps[n], ws[n + 1]);
    }
  }

  // --- draining ---

  /** When no task is left, everything submitted has been issued, each leaf as
      often as it was submitted. */
  lemma Drained(bs: int, w: World)
    requires Inv(bs, w) && w.tasks == []
    ensures w.sched.IsEmpty()
    ensures w.submitted == multiset(Flat(Concat(w.issued)))
  {
    EmptyHasNone(w.sched);
    assert w.dequeued == Concat(w.issued);
  }

  ghost predicate RunnerStep(step: Step) {
    step.Exit? || step.Collect? || step.Issue?
  }

  /** What the runner has left to do. */
  ghost function Work(w: World): nat {
    2 * |w.sched.Leaves()| + (if w.tasks == [] then 0 else TaskWork(w.tasks[0]))
  }

  ghost function TaskWork(t: Task): nat {
    2 * LeafCount(t.Holds()) + if t.AtTop? then 1 else 0
  }

  /** The runner is never stuck. */
  lemma RunnerEnabled(bs: int, w: World) returns (step: Step, w': World)
    requires Inv(bs, w) && w.tasks != []
    ensures RunnerStep(step) && Next(bs, w, step, w')
  {
    var t := w.tasks[0];
    OnlyTask(w, t);
    match t
    case Issuing(rs, carry) =>
      step := Step.Issue(0);
      w' := w.(tasks := w.tasks[0 := AtTop(Carried(carry))], issued := w.issued + [rs], done := w.done + [false]);
    case AtTop(rs) =>
      if w.sched.IsEmpty() && rs == [] {
        step, w' := Exit(0), w.(active := false, tasks := w.tasks[..0] + w.tasks[1..]);
      } else {
        var out, s', rs', carry := CollectSome(bs, w.sched, rs);
        step := Collect(0, out, rs', carry);
        w' := w.(sched := s', tasks := w.tasks[0 := Task.Issuing(rs', carry)], dequeued := w.dequeued + out);
      }
  }

  lemma CollectWorks(bs: int, s: Sched, rs0: seq<Range>, out: seq<Range>, rs: seq<Range>, carry: Option<Range>,
                     s': Sched)
    requires bs >= 1 && s.Valid() && |rs0| <= 1 && AllWhole(rs0) && !(s.IsEmpty() && rs0 == [])
    requires Collects(bs, s, rs0, out, s', rs, carry)
    ensures 2 * |s'.Leaves()| + TaskWork(Task.Issuing(rs, carry)) < 2 * |s.Leaves()| + TaskWork(AtTop(rs0))
  {
    CollectedOk(bs, s, rs0, out, s', rs, carry);
    FlatJoin(rs0, out);
    FlatCount(out);
    assert |s.Leaves()| == |s'.Leaves()| + LeafCount(out);
    assert Task.Issuing(rs, carry).Holds() == rs0 + out;
  }

  lemma WorkIs(w: World, t: Task)
    requires |w.tasks| == 1 && w.tasks[0] == t
    ensures Work(w) == 2 * |w.sched.Leaves()| + TaskWork(t)
  {
  }

  /** Without new arrivals every step of the runner leaves it less to do, so it
      stops, and then everything is issued. */
  lemma RunnerWorks(bs: int, w: World, step: Step, w': World)
    requires bs >= 1 && Inv(bs, w) && RunnerStep(step) && Next(bs, w, step, w')
    ensures Work(w') < Work(w)
  {
    var t := w.tasks[0];
    OnlyTask(w, t);
    WorkIs(w, t);
    match step
    case Exit(i) =>
      assert w'.tasks == [];
    case Collect(i, out, rs, carry) =>
      WorkIs(w', Task.Issuing(rs, carry));
      CollectWorks(bs, w.sched, t.rs, out, rs, carry, w'.sched);
    case Issue(i) =>
      WorkIs(w', AtTop(Carried(t.carry)));
      IssueWorks(t.rs, t.carry);
  }

  lemma IssueWorks(rs: seq<Range>, carry: Option<Range>)
    requires rs != [] && AllWhole(rs)
    ensures TaskWork(AtTop(Carried(carry))) < TaskWork(Task.Issuing(rs, carry))
  {
    FlatJoin(rs, Carried(carry));
    assert Whole(rs[|rs| - 1]);
    assert LeafCount(rs) >= |rs[|rs| - 1].Leaves()| >= 1;
  }

  /** A run of the runner alone is no longer than the work it starts with. */
  lemma {:induction false} RunnerTerminates(bs: int, ws: seq<World>, steps: seq<Step>)
    requires bs >= 1 && Run(bs, ws, steps) && Inv(bs, ws[0])
    requires forall k :: 0 <= k < |steps| ==> RunnerStep(steps[k])
    ensures |steps| + Work(ws[|steps|]) <= Work(ws[0]) && Inv(bs, ws[|steps|])
  {
    if steps != [] {
      var n := |steps| - 1;
      RunnerTerminates(bs, ws[..n + 1], steps[..n]);
      RunnerWorks(bs, ws[n], steps[n], ws[n + 1]);
      NextInv(bs, ws[n], steps[n], ws[n + 1]);
    }
  }

  // --- callbacks ---

  function CbOf(l: Leaf): nat {
    l.cb
  }

  /** How many of the leaves belong to the callback wrapper `c`. */
  ghost function CbCount(ls: multiset<Leaf>, c: nat): nat {
    Image(ls, CbOf)[c]
  }

  lemma CbCountJoin(a: multiset<Leaf>, b: multiset<Leaf>, c: nat)
    ensures CbCount(a + b, c) == CbCount(a, c) + CbCount(b, c)
  {
    ImageJoin(a, b, CbOf);
  }

  /** The entries of a batch's callback list that name `c` are the leaves of `c` in it. */
  lemma CallbackEntries(ls: seq<Leaf>, c: nat)
    ensures multiset(CallbacksOf(ls))[c] == CbCount(multiset(ls), c)
  {
    ImageSeq(ls, CbOf);
    assert CallbacksOf(ls) == Map(ls, CbOf);
  }

  /** All leaves of a request, and no others, name its wrapper. */
  lemma {:induction false} RequestEntries(d: Direction, q: Request, segments: seq<Segment>, c: nat)
    ensures CbCount(multiset(LeavesOf(d, q, segments)), c) == if c == q.cb then |segments| else 0
  {
    var ls := LeavesOf(d, q, segments);
    CallbackEntries(ls, c);
    if segments != [] {
      var front, s := segments[..|segments| - 1], segments[|segments| - 1];
      RequestEntries(d, q, front, c);
      CallbackEntries(LeavesOf(d, q, front), c);
      assert CallbacksOf(ls) == CallbacksOf(LeavesOf(d, q, front)) + [q.cb];
    }
  }

  /** The leaves of the batches whose completion has been reported. */
  ghost function Completed(batches: seq<seq<Range>>, done: seq<bool>): multiset<Leaf>
    requires |batches| == |done|
  {
    if batches == [] then multiset{}
    else
      var n := |batches| - 1;
      Completed(batches[..n], done[..n]) + if done[n] then multiset(Flat(batches[n])) else multiset{}
  }

  ghost function Outstanding(batches: seq<seq<Range>>, done: seq<bool>): multiset<Leaf>
    requires |batches| == |done|
  {
    if batches == [] then multiset{}
    else
      var n := |batches| - 1;
      Outstanding(batches[..n], done[..n]) + if done[n] then multiset{} else multiset(Flat(batches[n]))
  }

  lemma {:induction false} CompletedOrNot(batches: seq<seq<Range>>, done: seq<bool>)
    requires |batches| == |done|
    ensures multiset(Flat(Concat(batches))) == Completed(batches, done) + Outstanding(batches, done)
  {
    if batches != [] {
      var n := |batches| - 1;
      CompletedOrNot(batches[..n], done[..n]);
      FlatJoin(Concat(batches[..n]), batches[n]);
      OneSide(Completed(batches[..n], done[..n]), Outstanding(batches[..n], done[..n]), multiset(Flat(batches[n])));
    }
  }

  lemma OneSide(a: multiset<Leaf>, b: multiset<Leaf>, x: multiset<Leaf>)
    ensures a + b + x == (a + x) + (b + multiset{}) == (a + multiset{}) + (b + x)
  {
  }

  predicate AllDone(done: seq<bool>) {
    forall i :: 0 <= i < |done| ==> done[i]
  }

  lemma {:induction false} NoneOutstanding(batches: seq<seq<Range>>, done: seq<bool>)
    requires |batches| == |done| && AllDone(done)
    ensures Outstanding(batches, done) == multiset{}
  {
    if batches != [] {
      NoneOutstanding(batches[..|batches| - 1], done[..|batches| - 1]);
    }
  }

  /** How often the wrapper `c` has been invoked: once per entry in the callback
      lists of the completed batches. */
  ghost function Invocations(w: World, c: nat): nat
    requires |w.issued| == |w.done|
  {
    CbCount(Completed(w.issued, w.done), c)
  }

  lemma {:induction false} OneCompletes(batches: seq<seq<Range>>, done: seq<bool>, j: nat)
    requires j < |batches| == |done| && !done[j]
    ensures Completed(batches, done[j := true]) == Completed(batches, done) + multiset(Flat(batches[j]))
  {
    var n := |batches| - 1;
    if j < n {
      OneCompletes(batches[..n], done[..n], j);
      assert done[j := true][..n] == done[..n][j := true];
    } else {
      assert done[j := true][..n] == done[..n];
    }
  }

  lemma OneIssued(batches: seq<seq<Range>>, done: seq<bool>, batch: seq<Range>)
    requires |batches| == |done|
    ensures Completed(batches + [batch], done + [false]) == Completed(batches, done)
  {
    assert (batches + [batch])[..|batches|] == batches && (done + [false])[..|done|] == done;
  }

  /** A wrapper is invoked when a batch completes, once for each time it is in the batch's
      callback list, and at no other time. */
  lemma InvokedOnCompletion(bs: int, w: World, step: Step, w': World, c: nat)
    requires |w.issued| == |w.done| && Next(bs, w, step, w')
    ensures |w'.issued| == |w'.done|
    ensures Invocations(w', c)
         == Invocations(w, c) + if step.Complete? then multiset(CallbacksOf(Flat(w.issued[step.j])))[c] else 0
  {
    match step
    case Complete(j) =>
      var batch := Flat(w.issued[j]);
      OneCompletes(w.issued, w.done, j);
      CbCountJoin(Completed(w.issued, w.done), multiset(batch), c);
      CallbackEntries(batch, c);
    case Issue(i) =>
      OneIssued(w.issued, w.done, w.tasks[i].rs);
    case _ =>
  }

  /** A wrapper is invoked at most once per leaf submitted for it, and exactly as
      often once everything is drained and completed. */
  lemma InvocationsBound(bs: int, w: World, c: nat)
    requires Inv(bs, w)
    ensures Invocations(w, c) <= CbCount(w.submitted, c)
    ensures w.tasks == [] && AllDone(w.done) ==> Invocations(w, c) == CbCount(w.submitted, c)
  {
    var done, out := Completed(w.issued, w.done), Outstanding(w.issued, w.done);
    CompletedOrNot(w.issued, w.done);
    FlatJoin(Concat(w.issued), InFlight(w.tasks));
    var flying := multiset(Flat(InFlight(w.tasks)));
    assert multiset(Flat(w.dequeued)) == done + out + flying;
    assert w.submitted == done + (out + flying + w.sched.Leaves());
    CbCountJoin(done, out + flying + w.sched.Leaves(), c);
    if w.tasks == [] && AllDone(w.done) {
      Drained(bs, w);
      EmptyHasNone(w.sched);
      NoneOutstanding(w.issued, w.done);
    }
  }

  /** The wrapper: it counts down, and on the last count calls the client back and is gone. */
  datatype Wrapper = Live(count: int) | Gone

  function Invoke(v: Wrapper): Wrapper {
    match v
    case Live(count) => if count == 1 then Gone else Live(count - 1)
    case Gone => Gone
  }

  function Invoked(count: int, times: nat): Wrapper {
    if times == 0 then Live(count) else Invoke(Invoked(count, times - 1))
  }

  /** It calls back exactly at its `count`-th invocation, and never if it starts at zero. */
  lemma {:induction false} CallsBack(count: int, times: nat)
    ensures Invoked(count, times) == if 1 <= count <= times then Gone else Live(count - times)
  {
    if times > 0 {
      CallsBack(count, times - 1);
    }
  }

  // --- first in, first out ---

  function SubmittedBy(step: Step): seq<Leaf> {
    if step.Submit? then [step.leaf] else []
  }

  /** The leaves submitted in a run, in order. */
  function Submissions(steps: seq<Step>): seq<Leaf> {
    if steps == [] then [] else Submissions(steps[..|steps| - 1]) + SubmittedBy(steps[|steps| - 1])
  }

  /** With a FIFO scheduler: what was dequeued, followed by what is queued. */
  function InTurn(w: World): seq<Leaf>
    requires w.sched.Fifo?
  {
    Flat(w.dequeued) + w.sched.items
  }

  lemma FifoStep(bs: int, w: World, step: Step, w': World)
    requires Next(bs, w, step, w') && w.sched.Fifo?
    ensures w'.sched.Fifo? && InTurn(w') == InTurn(w) + SubmittedBy(step)
  {
    match step
    case Submit(l) => Associate(Flat(w.dequeued), w.sched.items, [l]);
    case Collect(i, out, rs, carry) =>
      FifoDrains(w.sched, out, w'.sched);
      FlatJoin(w.dequeued, out);
      Associate(Flat(w.dequeued), Flat(out), w'.sched.items);
    case _ =>
  }

  lemma {:induction false} FifoRun(bs: int, ws: seq<World>, steps: seq<Step>)
    requires Run(bs, ws, steps) && Start(ws[0]) && ws[0].sched.Fifo?
    ensures ws[|steps|].sched.Fifo? && InTurn(ws[|steps|]) == Submissions(steps)
  {
    if steps != [] {
      var n := |steps| - 1;
      FifoRun(bs, ws[..n + 1], steps[..n]);
      FifoStep(bs, ws[n], steps[n], ws[n + 1]);
    }
  }

  /** What was issued comes first in turn, and is all when no task is left. */
  lemma IssuedFirst(bs: int, w: World)
    requires Inv(bs, w) && w.sched.Fifo?
    ensures Flat(Concat(w.issued)) <= InTurn(w)
    ensures w.tasks == [] ==> Flat(Concat(w.issued)) == InTurn(w)
  {
    FlatJoin(Concat(w.issued), InFlight(w.tasks));
    Associate(Flat(Concat(w.issued)), Flat(InFlight(w.tasks)), w.sched.items);
  }

  /** With the FIFO scheduler, in every interleaving leaves are issued in the order in
      which they were submitted, and all of them when no task is left. */
  lemma FifoIssues(bs: int, ws: seq<World>, steps: seq<Step>)
    requires bs >= 1 && Run(bs, ws, steps) && Start(ws[0]) && ws[0].sched.Fifo?
    ensures var issued := Flat(Concat(ws[|steps|].issued));
      issued <= Submissions(steps) && (ws[|steps|].tasks == [] ==> issued == Submissions(steps))
  {
    StartInv(bs, ws[0]);
    RunInv(bs, ws, steps);
    FifoRun(bs, ws, steps);
    IssuedFirst(bs, ws[|steps|]);
  }
}
