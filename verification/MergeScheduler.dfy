/** The merging range scheduler: one range set per handle and direction, served
    round robin, each for at most a quantum of dequeues at a time. */
module MergeScheduler {
  import opened Extents
  import opened Ranges
  import opened RangeSet

  // --- what the scheduler holds ---

  ghost predicate OfKind(r: Range, d: Direction, h: Handle) {
    && r.Direction() == d && r.File() == h
    && forall l <- r.Leaves() :: l.dir == d && l.handle == h
  }

  datatype Queue = Queue(dir: Direction, handle: Handle, ranges: set<Range>, quantum: int) {
    predicate Serves(d: Direction, h: Handle) {
      dir == d && handle == h
    }

    /** Never empty, within its quantum, and holding only its own kind. */
    ghost predicate Valid(dq: int) {
      && Good(ranges) && ranges != {}
      && 1 <= quantum <= dq
      && forall r <- ranges :: OfKind(r, dir, handle)
    }
  }

  datatype State = State(queues: seq<Queue>, bytes: int) {
    ghost predicate Valid(dq: int) {
      && (forall q <- queues :: q.Valid(dq))
      && Separate(queues)
    }
  }

  /** No two queues serve the same handle in the same direction. */
  ghost predicate Separate(qs: seq<Queue>) {
    forall i, j :: 0 <= i < j < |qs| ==> !qs[i].Serves(qs[j].dir, qs[j].handle)
  }

  ghost predicate HasQueue(qs: seq<Queue>, d: Direction, h: Handle) {
    exists q <- qs :: q.Serves(d, h)
  }

  // --- its steps ---

  ghost predicate EnqueuesAt(s: State, l: Leaf, i: int, rs: set<Range>, s': State) {
    && 0 <= i < |s.queues| && s.queues[i].Serves(l.dir, l.handle)
    && Adds(s.queues[i].ranges, l, rs)
    && s'.queues == s.queues[i := s.queues[i].(ranges := rs)]
  }

  ghost predicate Enqueues(dq: int, s: State, l: Leaf, s': State) {
    && s'.bytes == s.bytes + Length(l.Extent())
    && if HasQueue(s.queues, l.dir, l.handle)
       then exists i, rs :: EnqueuesAt(s, l, i, rs, s')
       else s'.queues == s.queues + [Queue(l.dir, l.handle, {Child(l)}, dq)]
  }

  /** The queues after the front one gave up `r`: it stays in front while it has quantum
      and ranges left, goes to the back when the quantum is used up, and is dropped when
      it is empty. */
  ghost function Turns(qs: seq<Queue>, r: Range, dq: int): seq<Queue>
    requires qs != []
  {
    var f := qs[0];
    var rest := f.ranges - {r};
    if rest == {} then qs[1..]
    else if f.quantum - 1 == 0 then qs[1..] + [f.(ranges := rest, quantum := dq)]
    else [f.(ranges := rest, quantum := f.quantum - 1)] + qs[1..]
  }

  ghost predicate Dequeues(dq: int, s: State, r: Range, s': State) {
    && s.queues != [] && r in s.queues[0].ranges
    && s'.bytes == s.bytes - Length(r.Extent())
    && s'.queues == Turns(s.queues, r, dq)
  }

  datatype Event = Enqueue(leaf: Leaf) | Dequeue(range: Range)

  ghost predicate Steps(dq: int, s: State, e: Event, s': State) {
    match e
    case Enqueue(l) => l.st <= l.en && Enqueues(dq, s, l, s')
    case Dequeue(r) => Dequeues(dq, s, r, s')
  }

  /** A run: the states `ss` between the events `es`. */
  ghost predicate Run(dq: int, ss: seq<State>, es: seq<Event>) {
    && |ss| == |es| + 1
    && forall i :: 0 <= i < |es| ==> Steps(dq, ss[i], es[i], ss[i + 1])
  }

  // --- sums over the queues ---

  ghost function PendingIn(qs: seq<Queue>): multiset<Leaf> {
    if qs == [] then multiset{} else Pending(qs[0].ranges) + PendingIn(qs[1..])
  }

  ghost function TotalIn(qs: seq<Queue>): int {
    if qs == [] then 0 else Total(ExtentsOf(qs[0].ranges)) + TotalIn(qs[1..])
  }

  lemma {:induction false} SumsJoin(a: seq<Queue>, b: seq<Queue>)
    ensures PendingIn(a + b) == PendingIn(a) + PendingIn(b)
    ensures TotalIn(a + b) == TotalIn(a) + TotalIn(b)
  {
    if a == [] {
      assert a + b == b;
    } else {
      assert (a + b)[1..] == a[1..] + b;
      SumsJoin(a[1..], b);
    }
  }

  lemma SumsOne(q: Queue)
    ensures PendingIn([q]) == Pending(q.ranges)
    ensures TotalIn([q]) == Total(ExtentsOf(q.ranges))
  {
    assert [q][1..] == [];
  }

  /** Replacing the ranges of one queue leaves the rest of the sums alone. */
  lemma SumsUpdate(qs: seq<Queue>, i: int, rs: set<Range>) returns (others: multiset<Leaf>, n: int)
    requires 0 <= i < |qs|
    ensures var qs' := qs[i := qs[i].(ranges := rs)];
      && PendingIn(qs) == others + Pending(qs[i].ranges)
      && PendingIn(qs') == others + Pending(rs)
      && TotalIn(qs) == n + Total(ExtentsOf(qs[i].ranges))
      && TotalIn(qs') == n + Total(ExtentsOf(rs))
  {
    var a, b, q := qs[..i], qs[i + 1..], qs[i].(ranges := rs);
    others, n := PendingIn(a) + PendingIn(b), TotalIn(a) + TotalIn(b);
    SplitAt(qs, i, q);
    SumsMiddle(a, qs[i], b);
    SumsMiddle(a, q, b);
  }

  lemma SplitAt(qs: seq<Queue>, i: int, q: Queue)
    requires 0 <= i < |qs|
    ensures qs == qs[..i] + ([qs[i]] + qs[i + 1..])
    ensures qs[i := q] == qs[..i] + ([q] + qs[i + 1..])
  {
  }

  lemma SumsMiddle(a: seq<Queue>, q: Queue, b: seq<Queue>)
    ensures PendingIn(a + ([q] + b)) == PendingIn(a) + PendingIn(b) + Pending(q.ranges)
    ensures TotalIn(a + ([q] + b)) == TotalIn(a) + TotalIn(b) + Total(ExtentsOf(q.ranges))
  {
    SumsJoin(a, [q] + b);
    SumsJoin([q], b);
    SumsOne(q);
  }

  // --- enqueueing ---

  lemma AddsKind(rs: set<Range>, l: Leaf, rs': set<Range>)
    requires Adds(rs, l, rs') && forall r <- rs :: OfKind(r, l.dir, l.handle)
    ensures forall r <- rs' :: OfKind(r, l.dir, l.handle)
    ensures rs' != {}
  {
    var r :| AddsAs(rs, l, r, rs');
    LeavesKind(TouchingRanges(rs, l), l, r);
    assert r in rs';
  }

  lemma LeavesKind(t: set<Range>, l: Leaf, r: Range)
    requires forall q <- t :: OfKind(q, l.dir, l.handle)
    requires multiset(r.Leaves()) == multiset{l} + Pending(t)
    ensures forall m <- r.Leaves() :: m.dir == l.dir && m.handle == l.handle
  {
    forall m | m in r.Leaves()
      ensures m.dir == l.dir && m.handle == l.handle
    {
      assert m in multiset(r.Leaves());
      if m != l {
        assert m in Pending(t);
        var q := PendingMember(t, m);
      }
    }
  }

  lemma {:induction false} PendingMember(rs: set<Range>, m: Leaf) returns (q: Range)
    requires m in Pending(rs)
    ensures q in rs && m in q.Leaves()
  {
    var r :| r in rs;
    PendingTake(rs, r);
    if m in r.Leaves() {
      q := r;
    } else {
      q := PendingMember(rs - {r}, m);
    }
  }

  lemma NewQueueValid(dq: int, l: Leaf)
    requires dq >= 1 && l.st <= l.en
    ensures Queue(l.dir, l.handle, {Child(l)}, dq).Valid(dq)
    ensures Pending({Child(l)}) == multiset{l}
    ensures ExtentsOf({Child(l)}) == {l.Extent()}
    ensures Total({l.Extent()}) == Length(l.Extent())
  {
    ChildValid(l);
    PendingTake({Child(l)}, Child(l));
    assert {Child(l)} - {Child(l)} == {};
    TotalTake({l.Extent()}, l.Extent());
    assert {l.Extent()} - {l.Extent()} == {};
  }

  /** The bytes already pending for the handle and direction of `l`. */
  ghost function PendingBytes(qs: seq<Queue>, d: Direction, h: Handle): set<int> {
    set q <- qs, b <- ByteSet(ExtentsOf(q.ranges)) | q.Serves(d, h) :: b
  }

  lemma PendingBytesAt(qs: seq<Queue>, i: int)
    requires 0 <= i < |qs| && Separate(qs)
    ensures PendingBytes(qs, qs[i].dir, qs[i].handle) == ByteSet(ExtentsOf(qs[i].ranges))
  {
    forall q | q in qs && q.Serves(qs[i].dir, qs[i].handle)
      ensures q == qs[i]
    {
      var j :| 0 <= j < |qs| && qs[j] == q;
      assert !(i < j) && !(j < i);
    }
  }

  /** An enqueue keeps the state valid, adds the leaf, and counts every byte, so
      the count runs ahead of the pending extents by the bytes they share. */
  lemma EnqueueSound(dq: int, s: State, l: Leaf, s': State)
    requires dq >= 1 && s.Valid(dq) && l.st <= l.en && Enqueues(dq, s, l, s')
    ensures s'.Valid(dq)
    ensures PendingIn(s'.queues) == PendingIn(s.queues) + multiset{l}
    ensures s'.bytes - TotalIn(s'.queues)
         == s.bytes - TotalIn(s.queues) + |PendingBytes(s.queues, l.dir, l.handle) * Bytes(l.Extent())|
  {
    if HasQueue(s.queues, l.dir, l.handle) {
      var i, rs :| EnqueuesAt(s, l, i, rs, s');
      EnqueueOld(dq, s, l, i, rs, s');
    } else {
      var q := Queue(l.dir, l.handle, {Child(l)}, dq);
      NewQueueValid(dq, l);
      SumsJoin(s.queues, [q]);
      SumsOne(q);
      assert PendingBytes(s.queues, l.dir, l.handle) == {};
    }
  }

  lemma EnqueueOldValid(dq: int, s: State, l: Leaf, i: int, rs: set<Range>, s': State)
    requires s.Valid(dq) && l.st <= l.en && EnqueuesAt(s, l, i, rs, s')
    ensures s'.Valid(dq)
  {
    QueueAddValid(dq, s.queues[i], l, rs);
    UpdateValid(dq, s.queues, i, s.queues[i].(ranges := rs));
  }

  lemma EnqueueOld(dq: int, s: State, l: Leaf, i: int, rs: set<Range>, s': State)
    requires s.Valid(dq) && l.st <= l.en && EnqueuesAt(s, l, i, rs, s')
    requires s'.bytes == s.bytes + Length(l.Extent())
    ensures s'.Valid(dq)
    ensures PendingIn(s'.queues) == PendingIn(s.queues) + multiset{l}
    ensures s'.bytes - TotalIn(s'.queues)
         == s.bytes - TotalIn(s.queues) + |PendingBytes(s.queues, l.dir, l.handle) * Bytes(l.Extent())|
  {
    EnqueueOldValid(dq, s, l, i, rs, s');
    assert s.queues[i].Valid(dq);
    QueueAdd(s.queues[i].ranges, l, rs);
    PendingBytesAt(s.queues, i);
    var others, n := SumsUpdate(s.queues, i, rs);
  }

  lemma QueueAddValid(dq: int, q: Queue, l: Leaf, rs: set<Range>)
    requires q.Valid(dq) && l.st <= l.en && q.Serves(l.dir, l.handle) && Adds(q.ranges, l, rs)
    ensures q.(ranges := rs).Valid(dq)
  {
    AddsSound(q.ranges, l, rs);
    AddsKind(q.ranges, l, rs);
  }

  lemma QueueAdd(rs: set<Range>, l: Leaf, rs': set<Range>)
    requires Good(rs) && l.st <= l.en && Adds(rs, l, rs')
    ensures Pending(rs') == Pending(rs) + multiset{l}
    ensures Total(ExtentsOf(rs'))
         == Total(ExtentsOf(rs)) + Length(l.Extent()) - |ByteSet(ExtentsOf(rs)) * Bytes(l.Extent())|
  {
    AddsSound(rs, l, rs');
    ApartExtents(rs);
    MergeTotal(ExtentsOf(rs), l.Extent());
  }

  lemma UpdateValid(dq: int, qs: seq<Queue>, i: int, q: Queue)
    requires 0 <= i < |qs| && q.Valid(dq) && q.Serves(qs[i].dir, qs[i].handle)
    requires Separate(qs) && forall p <- qs :: p.Valid(dq)
    ensures Separate(qs[i := q]) && forall p <- qs[i := q] :: p.Valid(dq)
  {
  }

  lemma RotateValid(dq: int, f: Queue, tail: seq<Queue>, f': Queue)
    requires Separate([f] + tail) && (forall q <- tail :: q.Valid(dq))
    requires f'.Valid(dq) && f'.Serves(f.dir, f.handle)
    ensures Separate([f'] + tail) && forall q <- [f'] + tail :: q.Valid(dq)
    ensures Separate(tail + [f']) && forall q <- tail + [f'] :: q.Valid(dq)
    ensures Separate(tail)
  {
    assert forall i :: 0 <= i < |tail| ==> tail[i] == ([f] + tail)[i + 1];
    forall i | 0 <= i < |tail|
      ensures !f.Serves(tail[i].dir, tail[i].handle)
    {
      var qs := [f] + tail;
      assert !qs[0].Serves(qs[i + 1].dir, qs[i + 1].handle);
    }
  }

  // --- dequeueing ---

  ghost function Served(dq: int, f: Queue, r: Range): Queue {
    f.(ranges := f.ranges - {r}, quantum := if f.quantum - 1 == 0 then dq else f.quantum - 1)
  }

  /** A dequeue keeps the state valid, gives up exactly the leaves of the range, and
      keeps the distance between the count and the pending extents. */
  lemma DequeueSound(dq: int, s: State, r: Range, s': State)
    requires dq >= 1 && s.Valid(dq) && Dequeues(dq, s, r, s')
    ensures s'.Valid(dq)
    ensures OfKind(r, s.queues[0].dir, s.queues[0].handle) && r.Valid()
    ensures PendingIn(s.queues) == PendingIn(s'.queues) + multiset(r.Leaves())
    ensures s'.bytes - TotalIn(s'.queues) == s.bytes - TotalIn(s.queues)
  {
    assert s.queues[0] in s.queues;
    FrontRest(dq, s.queues[0], r);
    DequeueValid(dq, s, r, s');
    DequeueSums(dq, s, r, s');
  }

  lemma DequeueValid(dq: int, s: State, r: Range, s': State)
    requires s.Valid(dq) && Dequeues(dq, s, r, s')
    requires var f := Served(dq, s.queues[0], r); f.ranges != {} ==> f.Valid(dq)
    ensures s'.Valid(dq)
  {
    var f, tail := s.queues[0], s.queues[1..];
    assert s.queues == [f] + tail && f in s.queues;
    if f.ranges - {r} != {} {
      RotateValid(dq, f, tail, Served(dq, f, r));
    } else {
      RotateValid(dq, f, tail, f);
    }
  }

  lemma DequeueSums(dq: int, s: State, r: Range, s': State)
    requires Dequeues(dq, s, r, s')
    requires var f, rest := s.queues[0].ranges, s.queues[0].ranges - {r};
      && Pending(f) == Pending(rest) + multiset(r.Leaves())
      && Total(ExtentsOf(f)) == Length(r.Extent()) + Total(ExtentsOf(rest))
    ensures PendingIn(s.queues) == PendingIn(s'.queues) + multiset(r.Leaves())
    ensures s'.bytes - TotalIn(s'.queues) == s.bytes - TotalIn(s.queues)
  {
    var f, tail := s.queues[0], s.queues[1..];
    assert s.queues == [f] + tail;
    RotateSums(f, tail, Served(dq, f, r), r);
  }

  /** `qs` holds what `all` holds, less the leaves of `r`. */
  ghost predicate LessBy(all: seq<Queue>, qs: seq<Queue>, r: Range) {
    PendingIn(all) == PendingIn(qs) + multiset(r.Leaves()) && TotalIn(all) == TotalIn(qs) + Length(r.Extent())
  }

  /** The queue served may be in front, at the back or, when empty, gone. */
  lemma RotateSums(f: Queue, tail: seq<Queue>, f': Queue, r: Range)
    requires Pending(f.ranges) == Pending(f'.ranges) + multiset(r.Leaves())
    requires Total(ExtentsOf(f.ranges)) == Length(r.Extent()) + Total(ExtentsOf(f'.ranges))
    ensures LessBy([f] + tail, [f'] + tail, r) && LessBy([f] + tail, tail + [f'], r)
    ensures f'.ranges == {} ==> LessBy([f] + tail, tail, r)
  {
    SumsEnds(f, tail);
    SumsEnds(f', tail);
    Regroup(PendingIn(tail), Pending(f'.ranges), multiset(r.Leaves()));
    assert ExtentsOf({}) == {};
  }

  lemma Regroup<T>(a: multiset<T>, b: multiset<T>, c: multiset<T>)
    ensures a + (b + c) == a + b + c
    ensures b == multiset{} ==> a + b == a
  {
  }

  lemma SumsEnds(f: Queue, tail: seq<Queue>)
    ensures PendingIn([f] + tail) == PendingIn(tail + [f]) == PendingIn(tail) + Pending(f.ranges)
    ensures TotalIn([f] + tail) == TotalIn(tail + [f]) == TotalIn(tail) + Total(ExtentsOf(f.ranges))
  {
    SumsJoin([f], tail);
    SumsJoin(tail, [f]);
    SumsOne(f);
  }

  lemma ServedValid(dq: int, f: Queue, r: Range)
    requires dq >= 1 && f.Valid(dq) && f.ranges - {r} != {}
    ensures Served(dq, f, r).Valid(dq)
  {
    GoodSubset(f.ranges, f.ranges - {r});
  }

  lemma FrontRest(dq: int, f: Queue, r: Range)
    requires dq >= 1 && f.Valid(dq) && r in f.ranges
    ensures var rest := f.ranges - {r};
      && (rest != {} ==> Served(dq, f, r).Valid(dq))
      && Pending(f.ranges) == Pending(rest) + multiset(r.Leaves())
      && Total(ExtentsOf(f.ranges)) == Length(r.Extent()) + Total(ExtentsOf(rest))
  {
    if f.ranges - {r} != {} {
      ServedValid(dq, f, r);
    }
    PendingTake(f.ranges, r);
    RestTotal(f.ranges, r);
  }

  lemma RestTotal(rs: set<Range>, r: Range)
    requires Good(rs) && r in rs
    ensures Total(ExtentsOf(rs)) == Length(r.Extent()) + Total(ExtentsOf(rs - {r}))
  {
    ExtentsOfRest(rs, {r});
    assert ExtentsOf({r}) == {r.Extent()};
    TotalTake(ExtentsOf(rs), r.Extent());
  }

  // --- whole runs ---

  ghost function EnqueuedLeaves(es: seq<Event>): multiset<Leaf> {
    if es == [] then multiset{}
    else
      var last := es[|es| - 1];
      EnqueuedLeaves(es[..|es| - 1]) + LeafIn(last)
  }

  ghost function DequeuedLeaves(es: seq<Event>): multiset<Leaf> {
    if es == [] then multiset{}
    else
      var last := es[|es| - 1];
      DequeuedLeaves(es[..|es| - 1]) + LeavesOut(last)
  }

  /** The bytes enqueued while already pending, over a run. */
  ghost function DoubledBytes(ss: seq<State>, es: seq<Event>): nat
    requires |ss| == |es| + 1
  {
    if es == [] then 0
    else
      var n := |es| - 1;
      DoubledBytes(ss[..n + 1], es[..n]) + DoubledIn(ss[n], es[n])
  }

  ghost function DoubledIn(s: State, e: Event): nat {
    if e.Enqueue? then |PendingBytes(s.queues, e.leaf.dir, e.leaf.handle) * Bytes(e.leaf.Extent())| else 0
  }

  const Initial := State([], 0)

  /** In every run every state is valid, every leaf enqueued is pending or was
      dequeued, and the byte count exceeds the pending extents by exactly the bytes
      that were enqueued twice. */
  lemma {:induction false} RunSound(dq: int, ss: seq<State>, es: seq<Event>)
    requires dq >= 1 && Run(dq, ss, es) && ss[0] == Initial
    ensures Accounted(dq, ss[|es|], EnqueuedLeaves(es), DequeuedLeaves(es), DoubledBytes(ss, es))
  {
    if es != [] {
      var n := |es| - 1;
      RunSound(dq, ss[..n + 1], es[..n]);
      AccountedStep(dq, ss[n], es[n], ss[n + 1], EnqueuedLeaves(es[..n]), DequeuedLeaves(es[..n]),
                    DoubledBytes(ss[..n + 1], es[..n]));
    }
  }

  /** The state is valid, leaves that came in are pending or went out, and the byte count
      is ahead of the pending extents by `doubled`. */
  ghost predicate Accounted(dq: int, s: State, enqueued: multiset<Leaf>, dequeued: multiset<Leaf>, doubled: nat) {
    && s.Valid(dq)
    && enqueued == PendingIn(s.queues) + dequeued
    && s.bytes == TotalIn(s.queues) + doubled
  }

  function LeafIn(e: Event): multiset<Leaf> {
    if e.Enqueue? then multiset{e.leaf} else multiset{}
  }

  function LeavesOut(e: Event): multiset<Leaf> {
    if e.Dequeue? then multiset(e.range.Leaves()) else multiset{}
  }

  lemma AccountedStep(dq: int, s: State, e: Event, s': State,
                      enqueued: multiset<Leaf>, dequeued: multiset<Leaf>, doubled: nat)
    requires dq >= 1 && Accounted(dq, s, enqueued, dequeued, doubled) && Steps(dq, s, e, s')
    ensures Accounted(dq, s', enqueued + LeafIn(e), dequeued + LeavesOut(e), doubled + DoubledIn(s, e))
  {
    match e
    case Enqueue(l) => EnqueueSound(dq, s, l, s');
    case Dequeue(r) => DequeueSound(dq, s, r, s');
  }

  lemma {:induction false} TotalInNonNegative(dq: int, qs: seq<Queue>)
    requires forall q <- qs :: q.Valid(dq)
    ensures TotalIn(qs) >= 0
  {
    if qs != [] {
      assert qs[0] in qs;
      ApartExtents(qs[0].ranges);
      TotalIsByteCount(ExtentsOf(qs[0].ranges));
      TotalInNonNegative(dq, qs[1..]);
    }
  }

  /** The byte count never falls below the pending extents, so never below zero,
      and equals them as long as nothing pending was enqueued again. */
  lemma BytesQueued(dq: int, ss: seq<State>, es: seq<Event>)
    requires dq >= 1 && Run(dq, ss, es) && ss[0] == Initial
    ensures ss[|es|].bytes >= TotalIn(ss[|es|].queues) >= 0
    ensures (forall i :: 0 <= i < |es| ==> DoubledIn(ss[i], es[i]) == 0) ==> ss[|es|].bytes == TotalIn(ss[|es|].queues)
  {
    RunSound(dq, ss, es);
    TotalInNonNegative(dq, ss[|es|].queues);
    if forall i :: 0 <= i < |es| ==> DoubledIn(ss[i], es[i]) == 0 {
      NothingDoubled(ss, es);
    }
  }

  lemma {:induction false} NothingDoubled(ss: seq<State>, es: seq<Event>)
    requires |ss| == |es| + 1 && forall i :: 0 <= i < |es| ==> DoubledIn(ss[i], es[i]) == 0
    ensures DoubledBytes(ss, es) == 0
  {
    if es != [] {
      NothingDoubled(ss[..|es|], es[..|es| - 1]);
    }
  }

  // --- fairness ---

  ghost predicate InFront(s: State, d: Direction, h: Handle) {
    s.queues != [] && s.queues[0].Serves(d, h)
  }

  ghost function DequeueCount(es: seq<Event>): nat {
    if es == [] then 0 else (if es[0].Dequeue? then 1 else 0) + DequeueCount(es[1..])
  }

  /** The dequeues that the queues before position `k` may still take. */
  ghost function Ahead(qs: seq<Queue>, k: nat): int
    requires k <= |qs|
  {
    if k == 0 then 0 else qs[0].quantum + Ahead(qs[1..], k - 1)
  }

  lemma {:induction false} AheadBound(dq: int, qs: seq<Queue>, k: nat)
    requires k <= |qs| && forall q <- qs :: q.Valid(dq)
    ensures k <= Ahead(qs, k) <= k * dq
  {
    if k > 0 {
      assert qs[0] in qs;
      AheadBound(dq, qs[1..], k - 1);
    }
  }

  lemma {:induction false} AheadSame(qs: seq<Queue>, qs': seq<Queue>, k: nat)
    requires k <= |qs| && k <= |qs'|
    requires forall i :: 0 <= i < k ==> qs[i].quantum == qs'[i].quantum
    ensures Ahead(qs, k) == Ahead(qs', k)
  {
    if k > 0 {
      AheadSame(qs[1..], qs'[1..], k - 1);
    }
  }

  /** A step never drops a waiting queue nor lets another overtake it, and every
      dequeue uses up one of those ahead. */
  lemma AheadStep(dq: int, s: State, e: Event, s': State, k: nat) returns (k': nat)
    requires dq >= 1 && s.Valid(dq) && Steps(dq, s, e, s') && 0 < k < |s.queues|
    ensures k' < |s'.queues| && s'.queues[k'].Serves(s.queues[k].dir, s.queues[k].handle)
    ensures Ahead(s'.queues, k') <= Ahead(s.queues, k) - (if e.Dequeue? then 1 else 0)
  {
    match e
    case Enqueue(l) =>
      k' := k;
      AheadEnqueue(dq, s, l, s', k);
    case Dequeue(r) =>
      assert s.queues[0] in s.queues;
      k' := AheadDequeue(dq, s, r, s', k);
  }

  lemma AheadEnqueue(dq: int, s: State, l: Leaf, s': State, k: nat)
    requires Enqueues(dq, s, l, s') && k < |s.queues|
    ensures k < |s'.queues| && s'.queues[k].Serves(s.queues[k].dir, s.queues[k].handle)
    ensures Ahead(s'.queues, k) == Ahead(s.queues, k)
  {
    if HasQueue(s.queues, l.dir, l.handle) {
      var i, rs :| EnqueuesAt(s, l, i, rs, s');
    }
    AheadSame(s.queues, s'.queues, k);
  }

  lemma AheadDequeue(dq: int, s: State, r: Range, s': State, k: nat) returns (k': nat)
    requires Dequeues(dq, s, r, s') && 0 < k < |s.queues| && s.queues[0].quantum >= 1
    ensures k' < |s'.queues| && s'.queues[k'].Serves(s.queues[k].dir, s.queues[k].handle)
    ensures Ahead(s'.queues, k') <= Ahead(s.queues, k) - 1
  {
    var f, tail := s.queues[0], s.queues[1..];
    if f.ranges - {r} != {} && f.quantum - 1 != 0 {
      k' := k;
      assert s'.queues[1..] == tail;
    } else {
      k' := k - 1;
      AheadSame(tail, s'.queues, k - 1);
    }
  }

  lemma RunTail(dq: int, ss: seq<State>, es: seq<Event>)
    requires Run(dq, ss, es) && es != []
    ensures Run(dq, ss[1..], es[1..])
  {
    forall i | 0 <= i < |es[1..]|
      ensures Steps(dq, ss[1..][i], es[1..][i], ss[1..][i + 1])
    {
      assert Steps(dq, ss[i + 1], es[i + 1], ss[i + 2]);
    }
  }

  /** The queue is listed in all the states up to the `i`th. */
  ghost predicate Listed(ss: seq<State>, i: nat, d: Direction, h: Handle) {
    i < |ss| && forall j :: 0 <= j <= i ==> HasQueue(ss[j].queues, d, h)
  }

  lemma ListedBefore(ss: seq<State>, i: nat, d: Direction, h: Handle)
    requires ss != [] && HasQueue(ss[0].queues, d, h) && Listed(ss[1..], i, d, h)
    ensures Listed(ss, i + 1, d, h) && ss[i + 1] == ss[1..][i]
  {
    forall j | 0 <= j <= i + 1
      ensures HasQueue(ss[j].queues, d, h)
    {
      if j > 0 {
        assert ss[j] == ss[1..][j - 1];
      }
    }
  }

  lemma {:induction false} FairnessAhead(dq: int, ss: seq<State>, es: seq<Event>, k: nat) returns (i: nat)
    requires dq >= 1 && Run(dq, ss, es) && ss[0].Valid(dq) && k < |ss[0].queues|
    requires DequeueCount(es) >= Ahead(ss[0].queues, k)
    ensures var q := ss[0].queues[k];
      Listed(ss, i, q.dir, q.handle) && InFront(ss[i], q.dir, q.handle)
    decreases |es|
  {
    var q := ss[0].queues[k];
    assert HasQueue(ss[0].queues, q.dir, q.handle) by {
      assert q in ss[0].queues;
    }
    if k == 0 {
      i := 0;
    } else {
      AheadBound(dq, ss[0].queues, k);
      assert Steps(dq, ss[0], es[0], ss[1]);
      StepValid(dq, ss[0], es[0], ss[1]);
      var k' := AheadStep(dq, ss[0], es[0], ss[1], k);
      RunTail(dq, ss, es);
      var i' := FairnessAhead(dq, ss[1..], es[1..], k');
      ListedBefore(ss, i', q.dir, q.handle);
      i := i' + 1;
    }
  }

  lemma StepValid(dq: int, s: State, e: Event, s': State)
    requires dq >= 1 && s.Valid(dq) && Steps(dq, s, e, s')
    ensures s'.Valid(dq)
  {
    match e
    case Enqueue(l) => EnqueueSound(dq, s, l, s');
    case Dequeue(r) => DequeueSound(dq, s, r, s');
  }

  /** Round robin: a queue at position `k` comes to the front within `k` quanta of
      dequeues, whatever is enqueued meanwhile, and is not dropped before. */
  lemma Fairness(dq: int, ss: seq<State>, es: seq<Event>, k: nat)
    requires dq >= 1 && Run(dq, ss, es) && ss[0].Valid(dq) && k < |ss[0].queues|
    requires DequeueCount(es) >= k * dq
    ensures var q := ss[0].queues[k];
      exists i: nat :: Listed(ss, i, q.dir, q.handle) && InFront(ss[i], q.dir, q.handle)
  {
    AheadBound(dq, ss[0].queues, k);
    var i := FairnessAhead(dq, ss, es, k);
  }
}
