/** From the clients' requests to the calls of the file system and back: requests are
    cut into leaves, sent one by one, issued in batches and called back. */
module RequestFlow {
  import opened Basics
  import opened Ranges
  import opened Batching
  import opened RequestScheduler
  import opened RequestRuns

  // --- requests under way ---

  /** A request with the count its wrapper was given, the leaves it comes to, and how
      many of them have been queued. */
  datatype Client = Client(dir: Direction, request: Request, count: nat, leaves: seq<Leaf>, sent: nat)

  /** The segments a request queues: a write those that are not empty, a read all. */
  function Taken(d: Direction, q: Request): seq<Segment> {
    if d.Write? then Positive(q.segments) else q.segments
  }

  function Prepared(d: Direction, q: Request): Client {
    Client(d, q, |Positive(q.segments)|, LeavesOf(d, q, Taken(d, q)), 0)
  }

  /** A request whose wrapper is told to wait for as many leaves as are queued. */
  predicate CountsRight(d: Direction, q: Request) {
    d.Write? || forall s <- q.segments :: s.size > 0
  }

  datatype Flow = Flow(world: World, clients: seq<Client>, calls: seq<ApiCall>)

  datatype Move =
    | Begin(dir: Direction, request: Request)
    | Send(k: nat)
    | Work(step: Step)
    | Finish(j: nat)

  /** A request begins with a wrapper of its own, queues its leaves one at a time, and
      every batch the runner issues becomes one call. */
  ghost predicate Moves(bs: int, f: Flow, m: Move, f': Flow) {
    match m
    case Begin(d, q) =>
      && (forall c <- f.clients :: c.request.cb != q.cb)
      && f' == f.(clients := f.clients + [Prepared(d, q)])
    case Send(k) =>
      && k < |f.clients| && f.clients[k].sent < |f.clients[k].leaves|
      && Next(bs, f.world, Submit(f.clients[k].leaves[f.clients[k].sent]), f'.world)
      && f' == f.(world := f'.world, clients := f.clients[k := OneMore(f.clients[k])])
    case Work(step) =>
      && RunnerStep(step) && Next(bs, f.world, step, f'.world)
      && if step.Issue?
         then f.world.tasks[step.i].rs != [] && exists call :: Carries(call, f.world.tasks[step.i].rs)
                                                               && f' == f.(world := f'.world, calls := f.calls + [call])
         else f' == f.(world := f'.world)
    case Finish(j) =>
      Next(bs, f.world, Complete(j), f'.world) && f' == f.(world := f'.world)
  }

  // --- the invariant ---

  predicate OwnWrappers(cs: seq<Client>) {
    forall i, j :: 0 <= i < j < |cs| ==> cs[i].request.cb != cs[j].request.cb
  }

  predicate UnderWay(c: Client) {
    c.sent <= |c.leaves| && c == Prepared(c.dir, c.request).(sent := c.sent)
  }

  function SentLeaves(c: Client): seq<Leaf> {
    if c.sent <= |c.leaves| then c.leaves[..c.sent] else c.leaves
  }

  ghost function SentBy(cs: seq<Client>): multiset<Leaf> {
    if cs == [] then multiset{} else SentBy(cs[..|cs| - 1]) + multiset(SentLeaves(cs[|cs| - 1]))
  }

  /** The clients are as `write` and `read` left them, and what they sent was submitted. */
  ghost predicate Sending(cs: seq<Client>, submitted: multiset<Leaf>) {
    && (forall i :: 0 <= i < |cs| ==> UnderWay(cs[i]))
    && OwnWrappers(cs) && submitted == SentBy(cs)
  }

  /** Each issued batch has its call. */
  ghost predicate Called(calls: seq<ApiCall>, issued: seq<seq<Range>>) {
    && |calls| == |issued|
    && forall i :: 0 <= i < |calls| ==> issued[i] != [] && Carries(calls[i], issued[i])
  }

  ghost predicate FlowInv(bs: int, f: Flow) {
    Inv(bs, f.world) && Sending(f.clients, f.world.submitted) && Called(f.calls, f.world.issued)
  }

  lemma {:induction false} SentOneMore(cs: seq<Client>, k: nat)
    requires k < |cs| && cs[k].sent < |cs[k].leaves|
    ensures SentBy(cs[k := OneMore(cs[k])]) == SentBy(cs) + multiset{cs[k].leaves[cs[k].sent]}
  {
    var n, c := |cs| - 1, cs[k];
    var cs' := cs[k := OneMore(c)];
    if k == n {
      assert cs'[..n] == cs[..n];
      assert c.leaves[..c.sent + 1] == c.leaves[..c.sent] + [c.leaves[c.sent]];
    } else {
      SentOneMore(cs[..n], k);
      assert cs'[..n] == cs[..n][k := OneMore(c)];
      AddOne(SentBy(cs), SentBy(cs[..n]), multiset(SentLeaves(cs[n])), c.leaves[c.sent]);
    }
  }

  function OneMore(c: Client): Client {
    c.(sent := c.sent + 1)
  }

  lemma SendClients(cs: seq<Client>, submitted: multiset<Leaf>, k: nat, l: Leaf,
                    cs': seq<Client>, submitted': multiset<Leaf>)
    requires Sending(cs, submitted) && k < |cs| && cs[k].sent < |cs[k].leaves| && l == cs[k].leaves[cs[k].sent]
    requires cs' == cs[k := OneMore(cs[k])] && submitted' == submitted + multiset{l}
    ensures Sending(cs', submitted')
  {
    SentOneMore(cs, k);
    StillOwn(cs, k);
    forall i | 0 <= i < |cs'|
      ensures UnderWay(cs'[i])
    {
      assert UnderWay(cs[i]);
    }
  }

  lemma StillOwn(cs: seq<Client>, k: nat)
    requires OwnWrappers(cs) && k < |cs|
    ensures OwnWrappers(cs[k := OneMore(cs[k])])
  {
  }

  lemma BeginClients(cs: seq<Client>, submitted: multiset<Leaf>, d: Direction, q: Request)
    requires Sending(cs, submitted) && forall c <- cs :: c.request.cb != q.cb
    ensures Sending(cs + [Prepared(d, q)], submitted)
  {
    var cs' := cs + [Prepared(d, q)];
    assert cs'[..|cs|] == cs;
    assert multiset(SentLeaves(cs'[|cs|])) == multiset{};
  }

  /** What a step of the runner or of a submission does to the history. */
  lemma History(bs: int, w: World, step: Step, w': World)
    requires Next(bs, w, step, w')
    ensures w'.submitted == w.submitted + if step.Submit? then multiset{step.leaf} else multiset{}
    ensures w'.issued == w.issued + if step.Issue? then [w.tasks[step.i].rs] else []
  {
  }

  lemma CalledOneMore(calls: seq<ApiCall>, issued: seq<seq<Range>>, call: ApiCall, rs: seq<Range>)
    requires Called(calls, issued) && rs != [] && Carries(call, rs)
    ensures Called(calls + [call], issued + [rs])
  {
  }

  lemma SendInv(bs: int, f: Flow, k: nat, f': Flow)
    requires bs >= 1 && FlowInv(bs, f) && Moves(bs, f, Send(k), f')
    ensures FlowInv(bs, f')
  {
    var l := f.clients[k].leaves[f.clients[k].sent];
    NextInv(bs, f.world, Submit(l), f'.world);
    History(bs, f.world, Submit(l), f'.world);
    SendClients(f.clients, f.world.submitted, k, l, f'.clients, f'.world.submitted);
  }

  lemma FinishInv(bs: int, f: Flow, j: nat, f': Flow)
    requires bs >= 1 && FlowInv(bs, f) && Moves(bs, f, Finish(j), f')
    ensures FlowInv(bs, f')
  {
    NextInv(bs, f.world, Complete(j), f'.world);
    History(bs, f.world, Complete(j), f'.world);
  }

  /** Every move keeps the invariant. */
  lemma MoveInv(bs: int, f: Flow, m: Move, f': Flow)
    requires bs >= 1 && FlowInv(bs, f) && Moves(bs, f, m, f')
    ensures FlowInv(bs, f')
  {
    match m
    case Begin(d, q) => BeginClients(f.clients, f.world.submitted, d, q);
    case Send(k) => SendInv(bs, f, k, f');
    case Work(step) => WorkInv(bs, f, step, f');
    case Finish(j) => FinishInv(bs, f, j, f');
  }

  lemma WorkInv(bs: int, f: Flow, step: Step, f': Flow)
    requires bs >= 1 && FlowInv(bs, f) && Moves(bs, f, Work(step), f')
    ensures FlowInv(bs, f')
  {
    if step.Issue? {
      var call :| Carries(call, f.world.tasks[step.i].rs) && f' == f.(world := f'.world, calls := f.calls + [call]);
      IssueInv(bs, f, step.i, call, f');
    } else {
      NextInv(bs, f.world, step, f'.world);
      History(bs, f.world, step, f'.world);
    }
  }

  lemma IssueInv(bs: int, f: Flow, i: nat, call: ApiCall, f': Flow)
    requires bs >= 1 && FlowInv(bs, f) && Next(bs, f.world, Issue(i), f'.world)
    requires f.world.tasks[i].rs != [] && Carries(call, f.world.tasks[i].rs)
    requires f' == f.(world := f'.world, calls := f.calls + [call])
    ensures FlowInv(bs, f')
  {
    NextInv(bs, f.world, Issue(i), f'.world);
    History(bs, f.world, Issue(i), f'.world);
    CalledOneMore(f.calls, f.world.issued, call, f.world.tasks[i].rs);
  }

  // --- every run ---

  ghost predicate FlowStart(f: Flow) {
    Start(f.world) && f.clients == [] && f.calls == []
  }

  ghost predicate FlowRun(bs: int, fs: seq<Flow>, ms: seq<Move>) {
    && |fs| == |ms| + 1
    && forall k :: 0 <= k < |ms| ==> Moves(bs, fs[k], ms[k], fs[k + 1])
  }

  lemma {:induction false} FlowRunInv(bs: int, fs: seq<Flow>, ms: seq<Move>)
    requires bs >= 1 && FlowRun(bs, fs, ms) && FlowStart(fs[0])
    ensures FlowInv(bs, fs[|ms|])
  {
    if ms == [] {
      StartInv(bs, fs[0].world);
    } else {
      var n := |ms| - 1;
      FlowRunInv(bs, fs[..n + 1], ms[..n]);
      MoveInv(bs, fs[n], ms[n], fs[n + 1]);
    }
  }

  // --- what was issued of what was submitted ---

  lemma IssuedPart(bs: int, w: World) returns (rest: multiset<Leaf>)
    requires Inv(bs, w)
    ensures w.submitted == multiset(Flat(Concat(w.issued))) + rest
    ensures w.tasks == [] ==> rest == multiset{}
  {
    var flying := Flat(InFlight(w.tasks));
    FlatJoin(Concat(w.issued), InFlight(w.tasks));
    rest := multiset(flying) + w.sched.Leaves();
    if w.tasks == [] {
      EmptyHasNone(w.sched);
    }
  }

  // --- callbacks ---

  /** The wrapper was given the number of non-empty segments, which is the number of
      leaves exactly when the request counts right, and less otherwise. */
  lemma CountedExactly(c: Client)
    requires UnderWay(c)
    ensures c.count == |Positive(c.request.segments)| <= |c.leaves|
    ensures c.count == |c.leaves| <==> CountsRight(c.dir, c.request)
  {
    PositiveAll(c.request.segments);
  }

  lemma ClientSent(cl: Client, c: nat)
    requires UnderWay(cl)
    ensures CbCount(multiset(SentLeaves(cl)), c) == if c == cl.request.cb then cl.sent else 0
  {
    var segments := Taken(cl.dir, cl.request)[..cl.sent];
    assert SentLeaves(cl) == LeavesOf(cl.dir, cl.request, segments);
    RequestEntries(cl.dir, cl.request, segments, c);
  }

  ghost predicate Counts(cl: Client, c: nat) {
    CbCount(multiset(SentLeaves(cl)), c) == if c == cl.request.cb then cl.sent else 0
  }

  lemma {:induction false} NoneSent(cs: seq<Client>, c: nat)
    requires forall i :: 0 <= i < |cs| ==> Counts(cs[i], c) && cs[i].request.cb != c
    ensures CbCount(SentBy(cs), c) == 0
  {
    if cs != [] {
      var n := |cs| - 1;
      NoneSent(cs[..n], c);
      assert Counts(cs[n], c);
      CbCountJoin(SentBy(cs[..n]), multiset(SentLeaves(cs[n])), c);
    }
  }

  ghost predicate OnlyOwner(cs: seq<Client>, k: nat, c: nat) {
    && k < |cs| && cs[k].request.cb == c
    && forall i :: 0 <= i < |cs| ==> Counts(cs[i], c) && (i == k || cs[i].request.cb != c)
  }

  lemma {:induction false} OwnerCount(cs: seq<Client>, k: nat, c: nat)
    requires OnlyOwner(cs, k, c)
    ensures CbCount(SentBy(cs), c) == cs[k].sent
  {
    var n := |cs| - 1;
    var front := cs[..n];
    assert Counts(cs[n], c);
    CbCountJoin(SentBy(front), multiset(SentLeaves(cs[n])), c);
    if k < n {
      OwnerCount(front, k, c);
    } else {
      NoneSent(front, c);
    }
  }

  /** The leaves submitted for a wrapper are those its own request sent. */
  lemma SentCount(cs: seq<Client>, k: nat)
    requires (forall i :: 0 <= i < |cs| ==> UnderWay(cs[i])) && OwnWrappers(cs) && k < |cs|
    ensures CbCount(SentBy(cs), cs[k].request.cb) == cs[k].sent
  {
    var c := cs[k].request.cb;
    forall i | 0 <= i < |cs|
      ensures Counts(cs[i], c)
    {
      ClientSent(cs[i], c);
    }
    assert forall i :: 0 <= i < |cs| && i != k ==> cs[i].request.cb != c;
    OwnerCount(cs, k, c);
  }

  /** All leaves of request `k` were sent, the runner is done and all calls completed. */
  predicate Over(f: Flow, k: nat)
    requires k < |f.clients|
  {
    f.clients[k].sent == |f.clients[k].leaves| && f.world.tasks == [] && AllDone(f.world.done)
  }

  /** Every request's wrapper is invoked at most as often as the request sent leaves, and
      in the end once for each; it calls its client back at the invocation it was told
      to wait for, which is that of the last leaf exactly if the request counts right. */
  lemma Answered(bs: int, f: Flow, k: nat)
    requires FlowInv(bs, f) && k < |f.clients|
    ensures var c, times := f.clients[k], Invocations(f.world, f.clients[k].request.cb);
      && times <= c.sent <= |c.leaves| && c.count == |Positive(c.request.segments)|
      && (Invoked(c.count, times).Gone? <==> 1 <= c.count <= times)
      && (c.count == |c.leaves| <==> CountsRight(c.dir, c.request))
      && (Over(f, k) ==> times == |c.leaves| >= c.count)
  {
    var c := f.clients[k];
    CountedExactly(c);
    SentCount(f.clients, k);
    InvocationsBound(bs, f.world, c.request.cb);
    CallsBack(c.count, Invocations(f.world, c.request.cb));
  }

  /** The callback lists of all calls, one after the other. */
  function Listed(calls: seq<ApiCall>): seq<nat> {
    if calls == [] then [] else Listed(calls[..|calls| - 1]) + calls[|calls| - 1].cbs
  }

  lemma {:induction false} ListedIssued(calls: seq<ApiCall>, issued: seq<seq<Range>>)
    requires |calls| == |issued|
    requires forall i :: 0 <= i < |calls| ==> calls[i].cbs == CallbacksOf(Flat(issued[i]))
    ensures Listed(calls) == CallbacksOf(Flat(Concat(issued)))
  {
    if calls != [] {
      var n := |calls| - 1;
      ListedIssued(calls[..n], issued[..n]);
      FlatJoin(Concat(issued[..n]), issued[n]);
      CallbacksOfJoin(Flat(Concat(issued[..n])), Flat(issued[n]));
    }
  }

  /** A wrapper is listed at most once for each leaf sent, and exactly once for each leaf
      when its request is sent and the runner is done. */
  lemma ListedExactly(bs: int, f: Flow, k: nat)
    requires FlowInv(bs, f) && k < |f.clients|
    ensures var c := f.clients[k];
      && multiset(Listed(f.calls))[c.request.cb] <= c.sent
      && (f.world.tasks == [] ==> multiset(Listed(f.calls))[c.request.cb] == c.sent)
  {
    var c, flat := f.clients[k], Flat(Concat(f.world.issued));
    SentCount(f.clients, k);
    ListedIssued(f.calls, f.world.issued);
    CallbackEntries(flat, c.request.cb);
    var rest := IssuedPart(bs, f.world);
    CbCountJoin(multiset(flat), rest, c.request.cb);
    assert f.world.tasks == [] ==> multiset(flat) + rest == multiset(flat);
  }

  // --- entries ---

  /** One entry of a call: so many bytes at this place of this file, from or to this
      buffer, on behalf of this wrapper. */
  datatype Entry = Entry(dir: Direction, file: nat, segment: Segment, memSize: nat, cb: nat)

  function EntryOf(l: Leaf): Entry {
    var size := if l.st <= l.en then l.en - l.st else 0;
    Entry(l.dir, l.handle.file, Segment(l.buf, l.st, size), size, l.cb)
  }

  predicate FullLength(call: ApiCall) {
    |call.memStarts| == |call.memSizes| == |call.fileStarts| == |call.fileSizes| == |call.cbs|
  }

  function EntriesOf(call: ApiCall): (es: seq<Entry>)
    requires FullLength(call)
    ensures |es| == |call.cbs|
  {
    seq(|call.cbs|, i requires 0 <= i < |call.cbs| =>
      Entry(call.dir, call.handle.file, Segment(call.memStarts[i], call.fileStarts[i], call.fileSizes[i]),
            call.memSizes[i], call.cbs[i]))
  }

  ghost predicate Kind(ls: seq<Leaf>, d: Direction, file: nat) {
    forall i :: 0 <= i < |ls| ==> ls[i].dir == d && ls[i].handle.file == file && ls[i].st <= ls[i].en
  }

  lemma RangeKind(r: Range)
    requires Whole(r)
    ensures Kind(r.Leaves(), r.Direction(), r.File().file)
  {
    forall i | 0 <= i < |r.Leaves()|
      ensures var l := r.Leaves()[i]; l.dir == r.Direction() && l.handle == r.File() && l.st <= l.en
    {
      assert r.Leaves()[i] in r.Leaves();
    }
  }

  lemma {:induction false} FlatKind(rs: seq<Range>, d: Direction, file: nat)
    requires AllWhole(rs) && forall i :: 0 <= i < |rs| ==> rs[i].Direction() == d && rs[i].File().file == file
    ensures Kind(Flat(rs), d, file)
  {
    if rs != [] {
      var n := |rs| - 1;
      FlatKind(rs[..n], d, file);
      assert rs[n] in rs;
      RangeKind(rs[n]);
    }
  }

  /** A call passes on exactly the leaves of its batch, in order. */
  lemma CallEntries(bs: int, call: ApiCall, rs: seq<Range>)
    requires ProperBatch(bs, rs) && Carries(call, rs)
    ensures FullLength(call) && EntriesOf(call) == Map(Flat(rs), EntryOf)
  {
    var ls := Flat(rs);
    FlatKind(rs, call.dir, call.handle.file);
    FlatCount(rs);
    forall i | 0 <= i < |ls|
      ensures EntriesOf(call)[i] == EntryOf(ls[i])
    {
      assert call.fileStarts[i] + call.fileSizes[i] == ls[i].en;
    }
  }

  ghost predicate ProperCalls(bs: int, calls: seq<ApiCall>, issued: seq<seq<Range>>) {
    Called(calls, issued) && forall i :: 0 <= i < |issued| ==> ProperBatch(bs, issued[i])
  }

  /** All entries passed to the file system. */
  function Passed(calls: seq<ApiCall>): (es: seq<Entry>)
    requires forall i :: 0 <= i < |calls| ==> FullLength(calls[i])
  {
    if calls == [] then [] else Passed(calls[..|calls| - 1]) + EntriesOf(calls[|calls| - 1])
  }

  ghost predicate Match(calls: seq<ApiCall>, issued: seq<seq<Range>>) {
    && |calls| == |issued|
    && forall i :: 0 <= i < |calls| ==> FullLength(calls[i]) && EntriesOf(calls[i]) == Map(Flat(issued[i]), EntryOf)
  }

  lemma CallsMatch(bs: int, calls: seq<ApiCall>, issued: seq<seq<Range>>)
    requires ProperCalls(bs, calls, issued)
    ensures Match(calls, issued)
  {
    forall i | 0 <= i < |calls|
      ensures FullLength(calls[i]) && EntriesOf(calls[i]) == Map(Flat(issued[i]), EntryOf)
    {
      CallEntries(bs, calls[i], issued[i]);
    }
  }

  lemma {:induction false} PassedIssued(calls: seq<ApiCall>, issued: seq<seq<Range>>)
    requires Match(calls, issued)
    ensures Passed(calls) == Map(Flat(Concat(issued)), EntryOf)
  {
    if calls == [] {
      assert Flat(Concat(issued)) == [];
    } else {
      var n := |calls| - 1;
      assert Match(calls[..n], issued[..n]);
      PassedIssued(calls[..n], issued[..n]);
      assert EntriesOf(calls[n]) == Map(Flat(issued[n]), EntryOf);
      IssuedOneMore(issued[..n], issued[n]);
      assert issued == issued[..n] + [issued[n]];
    }
  }

  lemma IssuedOneMore(issued: seq<seq<Range>>, rs: seq<Range>)
    ensures Map(Flat(Concat(issued + [rs])), EntryOf) == Map(Flat(Concat(issued)), EntryOf) + Map(Flat(rs), EntryOf)
  {
    assert (issued + [rs])[..|issued|] == issued;
    FlatJoin(Concat(issued), rs);
    MapJoin(Flat(Concat(issued)), Flat(rs), EntryOf);
  }

  lemma MapJoin<S, T>(a: seq<S>, b: seq<S>, f: S -> T)
    ensures Map(a + b, f) == Map(a, f) + Map(b, f)
  {
  }

  function EntryFor(d: Direction, q: Request, s: Segment): Entry {
    Entry(d, q.handle.file, s, s.size, q.cb)
  }

  /** What a request asks for: an entry for each segment it queues. */
  function Wanted(d: Direction, q: Request): seq<Entry> {
    Map(Taken(d, q), s => EntryFor(d, q, s))
  }

  ghost function Requested(cs: seq<Client>): multiset<Entry> {
    if cs == [] then multiset{}
    else Requested(cs[..|cs| - 1]) + multiset(Wanted(cs[|cs| - 1].dir, cs[|cs| - 1].request))
  }

  /** How often a client asks for an entry, by the segments of its own request: for all of
      a read, and for those of a write that are not empty. */
  function AskedBy(c: Client, e: Entry): nat {
    if e == EntryFor(c.dir, c.request, e.segment) && (c.dir.Read? || e.segment.size > 0)
    then multiset(c.request.segments)[e.segment]
    else 0
  }

  function Asked(cs: seq<Client>, e: Entry): nat {
    if cs == [] then 0 else Asked(cs[..|cs| - 1], e) + AskedBy(cs[|cs| - 1], e)
  }

  lemma {:induction false} EntriesFor(d: Direction, q: Request, segments: seq<Segment>, e: Entry)
    ensures multiset(Map(segments, s => EntryFor(d, q, s)))[e]
         == if e == EntryFor(d, q, e.segment) then multiset(segments)[e.segment] else 0
  {
    if segments != [] {
      var front, last := segments[..|segments| - 1], segments[|segments| - 1];
      EntriesFor(d, q, front, e);
      assert segments == front + [last];
      MapJoin(front, [last], s => EntryFor(d, q, s));
      assert Map([last], s => EntryFor(d, q, s)) == [EntryFor(d, q, last)];
    }
  }

  lemma {:induction false} RequestedAsked(cs: seq<Client>, e: Entry)
    ensures Requested(cs)[e] == Asked(cs, e)
  {
    if cs != [] {
      var c := cs[|cs| - 1];
      RequestedAsked(cs[..|cs| - 1], e);
      EntriesFor(c.dir, c.request, Taken(c.dir, c.request), e);
      PositiveCount(c.request.segments, e.segment);
    }
  }

  lemma ClientEntries(c: Client)
    requires UnderWay(c)
    ensures c.sent <= |Wanted(c.dir, c.request)|
    ensures Map(SentLeaves(c), EntryOf) == Wanted(c.dir, c.request)[..c.sent]
  {
  }

  lemma Part<T>(s: seq<T>, n: nat)
    requires n <= |s|
    ensures multiset(s[..n]) <= multiset(s)
    ensures n == |s| ==> multiset(s[..n]) == multiset(s)
  {
    assert s == s[..n] + s[n..];
  }

  /** What a client sent is part of what it wants, and in the end all of it. */
  ghost predicate Wants(c: Client) {
    var sent, wanted := Image(multiset(SentLeaves(c)), EntryOf), multiset(Wanted(c.dir, c.request));
    sent <= wanted && (c.sent == |c.leaves| ==> sent == wanted)
  }

  lemma ClientPart(c: Client)
    requires UnderWay(c)
    ensures Wants(c)
  {
    ClientEntries(c);
    ImageSeq(SentLeaves(c), EntryOf);
    Part(Wanted(c.dir, c.request), c.sent);
  }

  predicate AllSent(cs: seq<Client>) {
    forall i :: 0 <= i < |cs| ==> cs[i].sent == |cs[i].leaves|
  }

  /** So it is for all clients together. */
  ghost predicate AllWant(cs: seq<Client>) {
    var sent, wanted := Image(SentBy(cs), EntryOf), Requested(cs);
    sent <= wanted && (AllSent(cs) ==> sent == wanted)
  }

  lemma {:induction false} SentEntries(cs: seq<Client>)
    requires forall i :: 0 <= i < |cs| ==> UnderWay(cs[i])
    ensures AllWant(cs)
  {
    if cs != [] {
      var n := |cs| - 1;
      SentEntries(cs[..n]);
      assert Wants(cs[n]) by {
        ClientPart(cs[n]);
      }
      OneClient(cs, n);
    }
  }

  lemma OneClient(cs: seq<Client>, n: nat)
    requires |cs| == n + 1 && AllWant(cs[..n]) && Wants(cs[n])
    ensures AllWant(cs)
  {
    var front, c := cs[..n], cs[n];
    ImageJoin(SentBy(front), multiset(SentLeaves(c)), EntryOf);
    assert AllSent(cs) ==> AllSent(front);
    BothParts(Image(SentBy(front), EntryOf), Requested(front), Image(multiset(SentLeaves(c)), EntryOf),
              multiset(Wanted(c.dir, c.request)));
  }

  lemma BothParts<T>(a: multiset<T>, x: multiset<T>, b: multiset<T>, y: multiset<T>)
    requires a <= x && b <= y
    ensures a + b <= x + y
  {
  }

  /** At any point no entry was passed on more often than requested; and once every
      request is sent and the runner is done, the calls passed on exactly what the
      requests ask for, every segment once, with its buffer, offset, size, file,
      direction and wrapper. */
  lemma PassedOnce(bs: int, f: Flow)
    requires FlowInv(bs, f)
    ensures forall i :: 0 <= i < |f.calls| ==> FullLength(f.calls[i])
    ensures forall e :: multiset(Passed(f.calls))[e] <= Asked(f.clients, e)
    ensures AllSent(f.clients) && f.world.tasks == [] ==>
              forall e :: multiset(Passed(f.calls))[e] == Asked(f.clients, e)
  {
    PassedRequested(bs, f);
    forall e
      ensures Requested(f.clients)[e] == Asked(f.clients, e)
    {
      RequestedAsked(f.clients, e);
    }
  }

  lemma PassedRequested(bs: int, f: Flow)
    requires FlowInv(bs, f)
    ensures forall i :: 0 <= i < |f.calls| ==> FullLength(f.calls[i])
    ensures multiset(Passed(f.calls)) <= Requested(f.clients)
    ensures AllSent(f.clients) && f.world.tasks == [] ==> multiset(Passed(f.calls)) == Requested(f.clients)
  {
    var issued := Flat(Concat(f.world.issued));
    IssuedProper(bs, f);
    CallsMatch(bs, f.calls, f.world.issued);
    PassedIssued(f.calls, f.world.issued);
    var rest := IssuedPart(bs, f.world);
    ImageJoin(multiset(issued), rest, EntryOf);
    ImageSeq(issued, EntryOf);
    SentEntries(f.clients);
  }

  lemma IssuedProper(bs: int, f: Flow)
    requires FlowInv(bs, f)
    ensures ProperCalls(bs, f.calls, f.world.issued)
  {
    assert forall i :: 0 <= i < |f.world.issued| ==> f.world.issued[i] in f.world.issued;
  }

  /** In every run of requests, runner and completions: calls pass on no entry more
      often than requested and, when all is sent and the runner is done, exactly what
      was requested; and each request is served as it should be, but for reads with
      empty segments, whose wrappers count wrong. */
  lemma EndToEnd(bs: int, fs: seq<Flow>, ms: seq<Move>)
    requires bs >= 1 && FlowRun(bs, fs, ms) && FlowStart(fs[0])
    ensures var f := fs[|ms|];
      && |f.world.issued| == |f.world.done|
      && (forall i :: 0 <= i < |f.calls| ==> FullLength(f.calls[i]))
      && (forall e :: multiset(Passed(f.calls))[e] <= Asked(f.clients, e))
      && (AllSent(f.clients) && f.world.tasks == [] ==>
            forall e :: multiset(Passed(f.calls))[e] == Asked(f.clients, e))
      && (forall k :: 0 <= k < |f.clients| ==> Served(f, k))
  {
    var f := fs[|ms|];
    FlowRunInv(bs, fs, ms);
    PassedOnce(bs, f);
    forall k | 0 <= k < |f.clients|
      ensures Served(f, k)
    {
      ServedEach(bs, f, k);
    }
  }

  lemma ServedEach(bs: int, f: Flow, k: nat)
    requires FlowInv(bs, f) && k < |f.clients| && |f.world.issued| == |f.world.done|
    ensures Served(f, k)
  {
    var c := f.clients[k];
    Answered(bs, f, k);
    ListedExactly(bs, f, k);
    CountedExactly(c);
    SomePositive(c.request.segments);
  }

  lemma {:induction false} SomePositive(segments: seq<Segment>)
    ensures Positive(segments) != [] <==> exists s <- segments :: s.size > 0
  {
    if segments != [] {
      var front, last := segments[..|segments| - 1], segments[|segments| - 1];
      SomePositive(front);
      assert segments == front + [last];
    }
  }

  /** What the run so far has done for one request: its wrapper is listed and invoked at
      most once for each leaf sent, and in the end exactly once for each leaf.  The client
      is called back in the end exactly when there was a non-empty segment.  This
      happens with the completion of its last leaf if the request counts right;
      otherwise, if it happens, the wrapper is invoked again after it is gone. */
  ghost predicate Served(f: Flow, k: nat)
    requires k < |f.clients| && |f.world.issued| == |f.world.done|
  {
    var c := f.clients[k];
    var listed, times := multiset(Listed(f.calls))[c.request.cb], Invocations(f.world, c.request.cb);
    var calledBack, right := Invoked(c.count, times).Gone?, CountsRight(c.dir, c.request);
    && times <= c.sent && listed <= c.sent <= |c.leaves| == |Taken(c.dir, c.request)|
    && (f.world.tasks == [] ==> listed == c.sent)
    && (Over(f, k) ==> times == |c.leaves|)
    && (Over(f, k) ==> (calledBack <==> exists s <- c.request.segments :: s.size > 0))
    && (right && calledBack ==> times == c.count == |c.leaves|)
    && (!right && calledBack && Over(f, k) ==> c.count < times)
  }

  // --- first in, first out ---

  function SentIn(f: Flow, m: Move): seq<Leaf> {
    if m.Send? && m.k < |f.clients| && f.clients[m.k].sent < |f.clients[m.k].leaves|
    then [f.clients[m.k].leaves[f.clients[m.k].sent]]
    else []
  }

  /** The leaves that the clients sent in a run, in order. */
  function SentInOrder(fs: seq<Flow>, ms: seq<Move>): seq<Leaf>
    requires |fs| == |ms| + 1
  {
    if ms == [] then []
    else
      var n := |ms| - 1;
      SentInOrder(fs[..n + 1], ms[..n]) + SentIn(fs[n], ms[n])
  }

  lemma {:induction false} FlowInTurn(bs: int, fs: seq<Flow>, ms: seq<Move>)
    requires FlowRun(bs, fs, ms) && FlowStart(fs[0]) && fs[0].world.sched.Fifo?
    ensures fs[|ms|].world.sched.Fifo? && InTurn(fs[|ms|].world) == SentInOrder(fs, ms)
  {
    if ms != [] {
      var n := |ms| - 1;
      FlowInTurn(bs, fs[..n + 1], ms[..n]);
      MoveInTurn(bs, fs[n], ms[n], fs[n + 1]);
    }
  }

  lemma MoveInTurn(bs: int, f: Flow, m: Move, f': Flow)
    requires Moves(bs, f, m, f') && f.world.sched.Fifo?
    ensures f'.world.sched.Fifo? && InTurn(f'.world) == InTurn(f.world) + SentIn(f, m)
  {
    match m
    case Begin(d, q) =>
    case Send(k) => FifoStep(bs, f.world, Submit(f.clients[k].leaves[f.clients[k].sent]), f'.world);
    case Work(step) => FifoStep(bs, f.world, step, f'.world);
    case Finish(j) => FifoStep(bs, f.world, Complete(j), f'.world);
  }

  /** With the FIFO scheduler, in every run the entries reach the file system in the order
      in which the clients sent them, and all of them when the runner is done. */
  lemma PassedInOrder(bs: int, fs: seq<Flow>, ms: seq<Move>)
    requires bs >= 1 && FlowRun(bs, fs, ms) && FlowStart(fs[0]) && fs[0].world.sched.Fifo?
    ensures var f, sent := fs[|ms|], Map(SentInOrder(fs, ms), EntryOf);
      && (forall i :: 0 <= i < |f.calls| ==> FullLength(f.calls[i]))
      && Passed(f.calls) <= sent && (f.world.tasks == [] ==> Passed(f.calls) == sent)
  {
    var f := fs[|ms|];
    FlowRunInv(bs, fs, ms);
    FlowInTurn(bs, fs, ms);
    IssuedFirst(bs, f.world);
    IssuedProper(bs, f);
    CallsMatch(bs, f.calls, f.world.issued);
    PassedIssued(f.calls, f.world.issued);
  }
}
