/** The request scheduler: client requests are cut into leaves and queued, a runner
    takes them out in batches and issues each batch to the file system, and the
    completions invoke the callback wrappers of the requests.

    Whatever happens under the scheduler's lock is one step. */
module RequestScheduler {
  import opened Ranges
  import opened Batching

  // --- submitting ---

  /** A segment of a request: `size` bytes at `offset` of the file, kept at `buf`. */
  datatype Segment = Segment(buf: nat, offset: nat, size: nat)

  datatype Request = Request(handle: Handle, cb: nat, segments: seq<Segment>)

  function LeafOf(d: Direction, q: Request, s: Segment): Leaf {
    Leaf(d, q.handle, s.buf, s.offset, s.offset + s.size, q.cb)
  }

  function Positive(segments: seq<Segment>): seq<Segment> {
    if segments == [] then []
    else
      var front, last := segments[..|segments| - 1], segments[|segments| - 1];
      Positive(front) + if last.size > 0 then [last] else []
  }

  /** It holds each non-empty segment as often as there is one, and nothing else. */
  lemma {:induction false} PositiveCount(segments: seq<Segment>, s: Segment)
    ensures multiset(Positive(segments))[s] == if s.size > 0 then multiset(segments)[s] else 0
  {
    if segments != [] {
      var front, last := segments[..|segments| - 1], segments[|segments| - 1];
      PositiveCount(front, s);
      assert segments == front + [last];
    }
  }

  /** It keeps the order: the non-empty segments of two parts follow each other. */
  lemma {:induction false} PositiveJoin(a: seq<Segment>, b: seq<Segment>)
    ensures Positive(a + b) == Positive(a) + Positive(b)
    decreases |b|
  {
    if b == [] {
      assert a + b == a;
    } else {
      var n := |b| - 1;
      assert (a + b)[..|a + b| - 1] == a + b[..n];
      PositiveJoin(a, b[..n]);
    }
  }

  function LeavesOf(d: Direction, q: Request, segments: seq<Segment>): (ls: seq<Leaf>)
    ensures |ls| == |segments| && forall i :: 0 <= i < |ls| ==> ls[i] == LeafOf(d, q, segments[i])
  {
    seq(|segments|, i requires 0 <= i < |segments| => LeafOf(d, q, segments[i]))
  }

  method CountValid(segments: seq<Segment>) returns (n: nat)
    ensures n == |Positive(segments)|
  {
    n := 0;
    for i := 0 to |segments|
      invariant n == |Positive(segments[..i])|
    {
      assert segments[..i + 1][..i] == segments[..i];
      if segments[i].size > 0 {
        n := n + 1;
      }
    }
    assert segments[..|segments|] == segments;
  }

  /** The leaves a write queues, in order, and the number its wrapper waits for. */
  method Write(q: Request) returns (validCount: nat, leaves: seq<Leaf>)
    ensures leaves == LeavesOf(Direction.Write, q, Positive(q.segments))
    ensures validCount == |leaves|
  {
    validCount := CountValid(q.segments);
    leaves := [];
    for i := 0 to |q.segments|
      invariant leaves == LeavesOf(Direction.Write, q, Positive(q.segments[..i]))
    {
      assert q.segments[..i + 1][..i] == q.segments[..i];
      if q.segments[i].size == 0 {
        continue;
      }
      leaves := leaves + [LeafOf(Direction.Write, q, q.segments[i])];
    }
    assert q.segments[..|q.segments|] == q.segments;
  }

  /** A read tests the size array instead of the size, so it queues every segment;
      its wrapper waits for as many as it queued exactly when no segment is empty. */
  method Read(q: Request) returns (validCount: nat, leaves: seq<Leaf>)
    ensures leaves == LeavesOf(Direction.Read, q, q.segments) && validCount == |Positive(q.segments)|
    ensures validCount == |leaves| <==> forall s <- q.segments :: s.size > 0
  {
    validCount := CountValid(q.segments);
    leaves := [];
    for i := 0 to |q.segments|
      invariant leaves == LeavesOf(Direction.Read, q, q.segments[..i])
    {
      leaves := leaves + [LeafOf(Direction.Read, q, q.segments[i])];
    }
    assert q.segments[..|q.segments|] == q.segments;
    PositiveAll(q.segments);
  }

  lemma {:induction false} PositiveAll(segments: seq<Segment>)
    ensures |Positive(segments)| <= |segments|
    ensures |Positive(segments)| == |segments| <==> forall s <- segments :: s.size > 0
    ensures forall s <- Positive(segments) :: s.size > 0
  {
    if segments != [] {
      var front, last := segments[..|segments| - 1], segments[|segments| - 1];
      PositiveAll(front);
      assert segments == front + [last];
    }
  }

  // --- issuing ---

  datatype ApiCall = ApiCall(dir: Direction, handle: Handle,
                             memStarts: seq<nat>, memSizes: seq<nat>,
                             fileStarts: seq<nat>, fileSizes: seq<nat>, cbs: seq<nat>)

  /** The arrays hold the leaves `ls` in their first places. */
  ghost predicate Filled(ms: seq<nat>, mz: seq<nat>, fs: seq<nat>, fz: seq<nat>, ls: seq<Leaf>) {
    && |ms| == |mz| == |fs| == |fz| && |ls| <= |ms|
    && forall k :: 0 <= k < |ls| ==>
         && ms[k] == ls[k].buf && mz[k] == fz[k]
         && fs[k] == ls[k].st && fs[k] + fz[k] == ls[k].en
  }

  ghost predicate Carries(call: ApiCall, rs: seq<Range>)
    requires rs != []
  {
    && call.dir == rs[0].Direction() && call.handle == rs[0].File()
    && |call.memStarts| == LeafCount(rs)
    && Filled(call.memStarts, call.memSizes, call.fileStarts, call.fileSizes, Flat(rs))
    && call.cbs == CallbacksOf(Flat(rs))
  }

  lemma FlatPrefix(rs: seq<Range>, i: nat)
    requires i < |rs|
    ensures Flat(rs[..i + 1]) == Flat(rs[..i]) + rs[i].Leaves()
    ensures LeafCount(rs[..i + 1]) == LeafCount(rs[..i]) + |rs[i].Leaves()| <= LeafCount(rs)
    ensures |Flat(rs[..i])| == LeafCount(rs[..i])
  {
    assert rs[..i + 1][..i] == rs[..i];
    assert rs == rs[..i + 1] + rs[i + 1..];
    FlatJoin(rs[..i + 1], rs[i + 1..]);
    FlatCount(rs[..i]);
  }

  /** Pass a batch on.  `held` is the value of the code's assertion that no range of the
      batch is empty. */
  method Issue(rs: seq<Range>) returns (call: ApiCall, held: bool)
    requires rs != [] && AllWhole(rs)
    ensures Carries(call, rs)
    ensures held <==> forall r <- rs :: r.Extent().start < r.Extent().end
  {
    var narrays := 0;
    for i := 0 to |rs|
      invariant narrays == LeafCount(rs[..i])
    {
      FlatPrefix(rs, i);
      narrays := narrays + |rs[i].Leaves()|;
    }
    assert rs[..|rs|] == rs;
    var ms, mz := new nat[narrays], new nat[narrays];
    var fs, fz := new nat[narrays], new nat[narrays];
    var cbs: seq<nat> := [];
    var nth := 0;
    for i := 0 to |rs|
      invariant nth == LeafCount(rs[..i]) && |Flat(rs[..i])| == nth <= narrays
      invariant Filled(ms[..], mz[..], fs[..], fz[..], Flat(rs[..i]))
      invariant cbs == CallbacksOf(Flat(rs[..i]))
    {
      FlatPrefix(rs, i);
      FlatCount(rs[..i + 1]);
      assert Whole(rs[i]);
      CallbacksOfJoin(Flat(rs[..i]), rs[i].Leaves());
      cbs := cbs + rs[i].Callbacks();
      nth := FillRange(rs[i].Leaves(), ms, mz, fs, fz, nth, Flat(rs[..i]));
    }
    assert nth == narrays;
    call := ApiCall(rs[0].Direction(), rs[0].File(), ms[..], mz[..], fs[..], fz[..], cbs);
    held := NoneEmpty(rs);
  }

  method NoneEmpty(rs: seq<Range>) returns (held: bool)
    ensures held <==> forall r <- rs :: r.Extent().start < r.Extent().end
  {
    held := true;
    for i := 0 to |rs|
      invariant held <==> forall r <- rs[..i] :: r.Extent().start < r.Extent().end
    {
      assert rs[..i + 1] == rs[..i] + [rs[i]];
      held := held && rs[i].Extent().end > rs[i].Extent().start;
    }
    assert rs[..|rs|] == rs;
  }

  /** Copy the leaves of one range behind the `nth` entries already filled. */
  method FillRange(ls: seq<Leaf>, ms: array<nat>, mz: array<nat>, fs: array<nat>, fz: array<nat>, start: nat,
                   ghost done: seq<Leaf>)
    returns (nth: nat)
    requires ms.Length == mz.Length == fs.Length == fz.Length
    requires ms != mz && ms != fs && ms != fz && mz != fs && mz != fz && fs != fz
    requires start == |done| && start + |ls| <= ms.Length
    requires forall l <- ls :: l.st <= l.en
    requires Filled(ms[..], mz[..], fs[..], fz[..], done)
    modifies ms, mz, fs, fz
    ensures nth == start + |ls|
    ensures Filled(ms[..], mz[..], fs[..], fz[..], done + ls)
  {
    nth := start;
    for j := 0 to |ls|
      invariant nth == start + j
      invariant Filled(ms[..], mz[..], fs[..], fz[..], done + ls[..j])
    {
      ms[nth] := ls[j].buf;
      mz[nth] := ls[j].en - ls[j].st;
      fs[nth] := ls[j].st;
      fz[nth] := ls[j].en - ls[j].st;
      assert done + ls[..j + 1] == (done + ls[..j]) + [ls[j]];
      nth := nth + 1;
    }
    assert ls[..|ls|] == ls;
  }
}
