/** The request scheduler object: every method is what one thread does under the lock,
    or between two locked sections, and takes one move of the request flow. */
module RequestServer {
  import opened Basics
  import opened Ranges
  import opened Batching
  import Cutting = RequestScheduler
  import opened RequestRuns
  import opened RequestFlow

  lemma LeafFilled(c: Client, i: nat)
    requires UnderWay(c) && i < |c.leaves|
    ensures c.leaves[i].st <= c.leaves[i].en
  {
  }

  // --- the moves, from what the object does ---

  function Queued(f: Flow, k: nat, l: Leaf, s: Sched): Flow
    requires k < |f.clients|
  {
    Flow(f.world.(sched := s, submitted := f.world.submitted + multiset{l}, active := true,
                  tasks := if f.world.active then f.world.tasks else f.world.tasks + [AtTop([])]),
         f.clients[k := OneMore(f.clients[k])], f.calls)
  }

  function Issued(f: Flow, i: nat, call: Cutting.ApiCall): Flow
    requires i < |f.world.tasks| && f.world.tasks[i].Issuing?
  {
    Flow(f.world.(tasks := f.world.tasks[i := AtTop(Carried(f.world.tasks[i].carry))],
                  issued := f.world.issued + [f.world.tasks[i].rs], done := f.world.done + [false]),
         f.clients, f.calls + [call])
  }

  function Collected(f: Flow, i: nat, out: seq<Range>, rs: seq<Range>, carry: Option<Range>, s: Sched): Flow
    requires i < |f.world.tasks|
  {
    f.(world := f.world.(sched := s, tasks := f.world.tasks[i := Task.Issuing(rs, carry)],
                         dequeued := f.world.dequeued + out))
  }

  lemma SendMoves(bs: int, f: Flow, k: nat, l: Leaf, f': Flow)
    requires bs >= 1 && FlowInv(bs, f) && k < |f.clients| && f.clients[k].sent < |f.clients[k].leaves|
    requires l == f.clients[k].leaves[f.clients[k].sent] && l.st <= l.en && Puts(f.world.sched, l, f'.world.sched)
    requires f' == Queued(f, k, l, f'.world.sched)
    ensures Moves(bs, f, Move.Send(k), f') && FlowInv(bs, f')
  {
    SendInv(bs, f, k, f');
  }

  lemma FinishMoves(bs: int, f: Flow, j: nat, f': Flow)
    requires bs >= 1 && FlowInv(bs, f) && j < |f.world.done| && !f.world.done[j]
    requires f' == f.(world := f.world.(done := f.world.done[j := true]))
    ensures Moves(bs, f, Finish(j), f') && FlowInv(bs, f')
  {
    assert Next(bs, f.world, Step.Complete(j), f'.world);
    FinishInv(bs, f, j, f');
  }

  lemma IssueMoves(bs: int, f: Flow, i: nat, call: Cutting.ApiCall, f': Flow)
    requires bs >= 1 && FlowInv(bs, f) && i < |f.world.tasks| && f.world.tasks[i].Issuing?
    requires f.world.tasks[i].rs != [] && Cutting.Carries(call, f.world.tasks[i].rs)
    requires f' == Issued(f, i, call)
    ensures Moves(bs, f, Work(Step.Issue(i)), f') && FlowInv(bs, f')
  {
    WorkInv(bs, f, Step.Issue(i), f');
  }

  lemma ExitMoves(bs: int, f: Flow, i: nat, f': Flow)
    requires bs >= 1 && FlowInv(bs, f)
    requires i < |f.world.tasks| && f.world.tasks[i] == AtTop([]) && f.world.sched.IsEmpty()
    requires f' == f.(world := f.world.(active := false, tasks := f.world.tasks[..i] + f.world.tasks[i + 1..]))
    ensures Moves(bs, f, Work(Exit(i)), f') && FlowInv(bs, f')
  {
    WorkInv(bs, f, Exit(i), f');
  }

  lemma CollectMoves(bs: int, f: Flow, i: nat, out: seq<Range>, rs: seq<Range>, carry: Option<Range>, f': Flow)
    requires bs >= 1 && FlowInv(bs, f) && i < |f.world.tasks| && f.world.tasks[i].AtTop?
    requires !(f.world.sched.IsEmpty() && f.world.tasks[i].rs == [])
    requires Collects(bs, f.world.sched, f.world.tasks[i].rs, out, f'.world.sched, rs, carry)
    requires f' == Collected(f, i, out, rs, carry, f'.world.sched)
    ensures Moves(bs, f, Work(Step.Collect(i, out, rs, carry)), f') && FlowInv(bs, f')
  {
    WorkInv(bs, f, Step.Collect(i, out, rs, carry), f');
  }

  lemma TaskHolds(bs: int, f: Flow, i: nat)
    requires FlowInv(bs, f) && i < |f.world.tasks|
    ensures TaskOk(bs, f.world.tasks[i])
  {
    assert f.world.tasks[i] in f.world.tasks;
  }

  class Server {
    const batchSize: int
    const sched: RangeScheduler
    var active: bool
    var tasks: seq<Task>
    var clients: seq<Client>
    var calls: seq<Cutting.ApiCall>
    var done: seq<bool>
    ghost var issued: seq<seq<Range>>
    ghost var submitted: multiset<Leaf>
    ghost var dequeued: seq<Range>

    ghost function View(): Flow
      requires sched.Valid()
      reads this, sched, sched.merger
    {
      Flow(World(sched.View(), active, tasks, issued, done, submitted, dequeued), clients, calls)
    }

    ghost predicate Valid()
      reads this, sched, sched.merger
    {
      batchSize >= 1 && sched.Valid() && FlowInv(batchSize, View())
    }

    constructor (batchSize: int, sched: RangeScheduler)
      requires batchSize >= 1 && sched.Valid() && sched.View().IsEmpty()
      ensures Valid() && FlowStart(View()) && this.batchSize == batchSize && this.sched == sched
    {
      this.batchSize, this.sched := batchSize, sched;
      active, tasks, clients, calls, done := false, [], [], [], [];
      issued, submitted, dequeued := [], multiset{}, [];
      new;
      StartInv(batchSize, View().world);
    }

    /** A write begins: its wrapper counts the leaves that will be queued. */
    method Write(q: Cutting.Request)
      requires Valid() && forall c <- clients :: c.request.cb != q.cb
      modifies this`clients
      ensures Valid() && Moves(batchSize, old(View()), Begin(Direction.Write, q), View())
    {
      var count, leaves := Cutting.Write(q);
      clients := clients + [Client(Direction.Write, q, count, leaves, 0)];
      MoveInv(batchSize, old(View()), Begin(Direction.Write, q), View());
    }
  
    /** A read begins. */
    method Read(q: Cutting.Request)
      requires Valid() && forall c <- clients :: c.request.cb != q.cb
      modifies this`clients
      ensures Valid() && Moves(batchSize, old(View()), Begin(Direction.Read, q), View())
    {
      var count, leaves := Cutting.Read(q);
      clients := clients + [Client(Direction.Read, q, count, leaves, 0)];
      MoveInv(batchSize, old(View()), Begin(Direction.Read, q), View());
    }

    /** Queue a leaf, and hand a task to the thread pool if none is active. */
    method Queue(k: nat, l: Leaf)
      requires sched.Valid() && k < |clients| && l.st <= l.en
      modifies this, sched, sched.merger
      ensures sched.Valid() && Puts(old(sched.View()), l, sched.View())
      ensures View() == Queued(old(View()), k, l, sched.View())
    {
      sched.Enqueue(l);
      if !active {
        tasks := tasks + [AtTop([])];
        active := true;
      }
      clients := clients[k := OneMore(clients[k])];
      submitted := submitted + multiset{l};
    }

    /** Under the lock: queue the next leaf of request `k`. */
    method Send(k: nat)
      requires Valid() && k < |clients| && clients[k].sent < |clients[k].leaves|
      modifies this, sched, sched.merger
      ensures Valid() && Moves(batchSize, old(View()), Move.Send(k), View())
    {
      ghost var f := View();
      var l := clients[k].leaves[clients[k].sent];
      LeafFilled(clients[k], clients[k].sent);
      Queue(k, l);
      SendMoves(batchSize, f, k, l, View());
    }

    /** A batch completes. */
    method Complete(j: nat)
      requires Valid() && j < |done| && !done[j]
      modifies this`done
      ensures Valid() && Moves(batchSize, old(View()), Finish(j), View())
    {
      done := done[j := true];
      FinishMoves(batchSize, old(View()), j, View());
    }

    /** Turn the batch of task `i` into a call. */
    method Pass(i: nat) returns (ghost call: Cutting.ApiCall)
      requires sched.Valid() && i < |tasks| && tasks[i].Issuing? && tasks[i].rs != [] && AllWhole(tasks[i].rs)
      modifies this
      ensures Cutting.Carries(call, old(tasks[i].rs)) && View() == Issued(old(View()), i, call)
    {
      var t := tasks[i];
      var c, held := Cutting.Issue(t.rs);
      call := c;
      calls, done := calls + [c], done + [false];
      issued := issued + [t.rs];
      tasks := tasks[i := AtTop(Carried(t.carry))];
    }

    /** Task `i` issues its batch and keeps what it carried over. */
    method Issue(i: nat)
      requires Valid() && i < |tasks| && tasks[i].Issuing?
      modifies this
      ensures Valid() && Moves(batchSize, old(View()), Work(Step.Issue(i)), View())
    {
      ghost var f := View();
      TaskHolds(batchSize, f, i);
      ghost var call := Pass(i);
      IssueMoves(batchSize, f, i, call, View());
    }

    /** Under the lock: task `i` fills its batch. */
    method Fill(i: nat) returns (ghost out: seq<Range>, ghost rs: seq<Range>, ghost carry: Option<Range>)
      requires sched.Valid() && i < |tasks| && tasks[i].AtTop? && Uniform(tasks[i].rs)
      modifies this, sched, sched.merger
      ensures sched.Valid() && Collects(batchSize, old(sched.View()), old(tasks[i].rs), out, sched.View(), rs, carry)
      ensures View() == Collected(old(View()), i, out, rs, carry, sched.View())
    {
      var batch, rest;
      batch, rest, out := CollectBatch(sched, tasks[i].rs, batchSize);
      tasks := tasks[i := Task.Issuing(batch, rest)];
      dequeued := dequeued + out;
      rs, carry := batch, rest;
    }

    /** Under the lock: task `i` ends when there is nothing to do, and otherwise fills
        its batch. */
    method Collect(i: nat) returns (ghost step: Step)
      requires Valid() && i < |tasks| && tasks[i].AtTop?
      modifies this, sched, sched.merger
      ensures Valid() && Moves(batchSize, old(View()), Work(step), View())
    {
      if sched.Empty() && tasks[i].rs == [] {
        End(i);
        step := Exit(i);
      } else {
        ghost var f := View();
        TaskHolds(batchSize, f, i);
        ghost var out, rs, carry := Fill(i);
        step := Step.Collect(i, out, rs, carry);
        CollectMoves(batchSize, f, i, out, rs, carry, View());
      }
    }

    method End(i: nat)
      requires Valid() && i < |tasks| && tasks[i] == AtTop([]) && sched.Empty()
      modifies this`active, this`tasks
      ensures Valid() && Moves(batchSize, old(View()), Work(Exit(i)), View())
    {
      ghost var f := View();
      active := false;
      tasks := tasks[..i] + tasks[i + 1..];
      ExitMoves(batchSize, f, i, View());
    }
  }
}
