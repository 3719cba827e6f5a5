/** Taking ranges out of a scheduler in batches, and handing a batch to the file
    system as flat arrays. */
module Batching {
  import opened Basics
  import opened Extents
  import opened Ranges
  import opened RangeSet
  import opened MergeScheduler
  import opened RangeSchedulers

  // --- either kind of range scheduler ---

  datatype Sched = Fifo(items: seq<Leaf>) | Merging(dq: int, state: State) {
    ghost predicate Valid() {
      match this
      case Fifo(items) => forall l <- items :: l.st <= l.en
      case Merging(dq, s) => dq >= 1 && s.Valid(dq)
    }

    predicate IsEmpty() {
      match this
      case Fifo(items) => items == []
      case Merging(_, s) => s.queues == []
    }

    ghost function Leaves(): multiset<Leaf> {
      match this
      case Fifo(items) => multiset(items)
      case Merging(_, s) => PendingIn(s.queues)
    }
  }

  ghost predicate Puts(s: Sched, l: Leaf, s': Sched) {
    match s
    case Fifo(items) => s' == Fifo(items + [l])
    case Merging(dq, m) => s'.Merging? && s'.dq == dq && Enqueues(dq, m, l, s'.state)
  }

  ghost predicate Takes(s: Sched, r: Range, s': Sched) {
    match s
    case Fifo(items) => items != [] && r == Child(items[0]) && s' == Fifo(items[1..])
    case Merging(dq, m) => s'.Merging? && s'.dq == dq && Dequeues(dq, m, r, s'.state)
  }

  /** A range as the schedulers hand it out: well formed and of one kind throughout. */
  ghost predicate Whole(r: Range) {
    r.Valid() && OfKind(r, r.Direction(), r.File())
  }

  lemma PutsSound(s: Sched, l: Leaf, s': Sched)
    requires s.Valid() && l.st <= l.en && Puts(s, l, s')
    ensures s'.Valid() && s'.Leaves() == s.Leaves() + multiset{l}
  {
    if s.Merging? {
      EnqueueSound(s.dq, s.state, l, s'.state);
    }
  }

  lemma TakesSound(s: Sched, r: Range, s': Sched)
    requires s.Valid() && Takes(s, r, s')
    ensures s'.Valid() && Whole(r)
    ensures s.Leaves() == s'.Leaves() + multiset(r.Leaves())
  {
    match s
    case Fifo(items) =>
      ChildValid(items[0]);
      assert items == [items[0]] + items[1..];
    case Merging(dq, m) =>
      DequeueSound(dq, m, r, s'.state);
  }

  lemma EmptyHasNone(s: Sched)
    requires s.Valid() && s.IsEmpty()
    ensures s.Leaves() == multiset{}
  {
  }

  /** Something can be taken whenever the scheduler says it is not empty. */
  lemma TakeSome(s: Sched) returns (r: Range, s': Sched)
    requires s.Valid() && !s.IsEmpty()
    ensures Takes(s, r, s')
  {
    match s
    case Fifo(items) =>
      r, s' := Child(items[0]), Fifo(items[1..]);
    case Merging(dq, m) =>
      r := FrontRange(dq, m);
      s' := Merging(dq, State(Turns(m.queues, r, dq), m.bytes - Length(r.Extent())));
  }

  lemma FrontRange(dq: int, m: State) returns (r: Range)
    requires m.Valid(dq) && m.queues != []
    ensures r in m.queues[0].ranges
  {
    assert m.queues[0] in m.queues;
    r :| r in m.queues[0].ranges;
  }

  // --- batches ---

  function LeafCount(rs: seq<Range>): nat {
    if rs == [] then 0 else LeafCount(rs[..|rs| - 1]) + |rs[|rs| - 1].Leaves()|
  }

  /** The leaves of a batch, in order. */
  function Flat(rs: seq<Range>): seq<Leaf> {
    if rs == [] then [] else Flat(rs[..|rs| - 1]) + rs[|rs| - 1].Leaves()
  }

  predicate SameHandle(a: Handle, b: Handle) {
    a.file == b.file
  }

  predicate Compatible(r: Range, s: Range) {
    r.Direction() == s.Direction() && SameHandle(r.File(), s.File())
  }

  /** What `check_ranges` asserts. */
  predicate Uniform(rs: seq<Range>) {
    forall i :: 1 <= i < |rs| ==> Compatible(rs[0], rs[i])
  }

  ghost predicate AllWhole(rs: seq<Range>) {
    forall r <- rs :: Whole(r)
  }

  /** A batch to issue: uniform, and below the batch size before its last range. */
  ghost predicate ProperBatch(bs: int, rs: seq<Range>) {
    && rs != [] && Uniform(rs) && AllWhole(rs)
    && LeafCount(rs[..|rs| - 1]) < bs
  }

  /** `out` is what a sequence of dequeues hands out. */
  ghost predicate Drains(s: Sched, out: seq<Range>, s': Sched)
    decreases |out|
  {
    if out == [] then s' == s
    else
      var front, last := out[..|out| - 1], out[|out| - 1];
      exists mid :: Drains(s, front, mid) && Takes(mid, last, s')
  }

  /** One locked section of the runner: starting from the carried range, if any, take
      ranges until the batch is full, the scheduler is empty, or a range does not
      fit; that range is carried over. */
  ghost predicate Collects(bs: int, s: Sched, rs: seq<Range>, out: seq<Range>, s': Sched, rs': seq<Range>,
                           carry: Option<Range>) {
    && Drains(s, out, s')
    && (match carry
        case None => rs' == rs + out && (LeafCount(rs') >= bs || s'.IsEmpty())
        case Some(r) =>
          && rs' + [r] == rs + out && |rs'| >= |rs| && LeafCount(rs') < bs
          && rs' != [] && !Compatible(r, rs'[|rs'| - 1]))
    && Uniform(rs')
    && (rs' != rs ==> LeafCount(rs'[..|rs'| - 1]) < bs)
  }

  /** A batch is of one direction and file, and is closed for one of three reasons: it has
      reached the batch size; nothing is left; or it has not, and the range that came
      next, and is carried over, is of another direction or file. */
  lemma BatchClosed(bs: int, s: Sched, rs: seq<Range>, out: seq<Range>, s': Sched, rs': seq<Range>,
                    carry: Option<Range>)
    requires Collects(bs, s, rs, out, s', rs', carry)
    ensures forall i :: 0 <= i < |rs'| ==>
              rs'[i].Direction() == rs'[0].Direction() && rs'[i].File().file == rs'[0].File().file
    ensures carry.None? ==> |Flat(rs')| >= bs || s'.IsEmpty()
    ensures carry.Some? ==>
              && rs' != [] && |Flat(rs')| < bs
              && (carry.value.Direction() != rs'[0].Direction() || carry.value.File().file != rs'[0].File().file)
  {
    FlatCount(rs');
  }

  lemma {:induction false} DrainsValid(s: Sched, out: seq<Range>, s': Sched)
    requires s.Valid() && Drains(s, out, s')
    ensures s'.Valid() && AllWhole(out)
    decreases |out|
  {
    if out != [] {
      var front, r := out[..|out| - 1], out[|out| - 1];
      var mid := LastTake(s, out, s');
      DrainsValid(s, front, mid);
      AllWholeLast(out);
    }
  }

  lemma {:induction false} DrainsLeaves(s: Sched, out: seq<Range>, s': Sched)
    requires s.Valid() && Drains(s, out, s')
    ensures s.Leaves() == s'.Leaves() + multiset(Flat(out))
    decreases |out|
  {
    if out != [] {
      var front, r := out[..|out| - 1], out[|out| - 1];
      var mid := LastTake(s, out, s');
      DrainsValid(s, front, mid);
      DrainsLeaves(s, front, mid);
      Shuffle(s.Leaves(), mid.Leaves(), s'.Leaves(), Flat(front), r.Leaves());
    }
  }

  lemma {:induction false} LastTake(s: Sched, out: seq<Range>, s': Sched) returns (mid: Sched)
    requires Drains(s, out, s') && out != []
    ensures Drains(s, out[..|out| - 1], mid)
    ensures mid.Valid() ==>
              && s'.Valid() && Whole(out[|out| - 1])
              && mid.Leaves() == s'.Leaves() + multiset(out[|out| - 1].Leaves())
  {
    mid :| Drains(s, out[..|out| - 1], mid) && Takes(mid, out[|out| - 1], s');
    if mid.Valid() {
      TakesSound(mid, out[|out| - 1], s');
    }
  }

  // --- first in, first out ---

  datatype Use = Put(leaf: Leaf) | Take(range: Range)

  /** A run of a scheduler: the states `ss` between the uses `us`. */
  ghost predicate Used(ss: seq<Sched>, us: seq<Use>) {
    && |ss| == |us| + 1
    && forall i :: 0 <= i < |us| ==>
         if us[i].Put? then Puts(ss[i], us[i].leaf, ss[i + 1]) else Takes(ss[i], us[i].range, ss[i + 1])
  }

  function PutIn(us: seq<Use>): seq<Leaf> {
    if us == [] then []
    else PutIn(us[..|us| - 1]) + if us[|us| - 1].Put? then [us[|us| - 1].leaf] else []
  }

  function TakenOut(us: seq<Use>): seq<Leaf> {
    if us == [] then []
    else TakenOut(us[..|us| - 1]) + if us[|us| - 1].Take? then us[|us| - 1].range.Leaves() else []
  }

  /** In every run of the FIFO scheduler leaves come out in the order in which they were
      put in, and those still there are the last ones. */
  lemma {:induction false} FifoOrder(ss: seq<Sched>, us: seq<Use>)
    requires Used(ss, us) && ss[0] == Fifo([])
    ensures ss[|us|].Fifo? && TakenOut(us) + ss[|us|].items == PutIn(us)
  {
    if us != [] {
      var n := |us| - 1;
      FifoOrder(ss[..n + 1], us[..n]);
      if us[n].Take? {
        FifoTake(ss[n], us[n].range, ss[n + 1], TakenOut(us[..n]));
      } else {
        Associate(TakenOut(us[..n]), ss[n].items, [us[n].leaf]);
      }
    }
  }

  lemma FifoTake(s: Sched, r: Range, s': Sched, before: seq<Leaf>)
    requires s.Fifo? && Takes(s, r, s')
    ensures s'.Fifo? && before + r.Leaves() + s'.items == before + s.items
  {
    assert s.items == [s.items[0]] + s.items[1..];
    Associate(before, r.Leaves(), s'.items);
  }

  lemma {:induction false} FifoDrains(s: Sched, out: seq<Range>, s': Sched)
    requires s.Fifo? && Drains(s, out, s')
    ensures s'.Fifo? && Flat(out) + s'.items == s.items
    decreases |out|
  {
    if out != [] {
      var front, r := out[..|out| - 1], out[|out| - 1];
      var mid :| Drains(s, front, mid) && Takes(mid, r, s');
      FifoDrains(s, front, mid);
      FifoTake(mid, r, s', Flat(front));
    }
  }

  lemma AllWholeLast(rs: seq<Range>)
    requires rs != [] && AllWhole(rs[..|rs| - 1]) && Whole(rs[|rs| - 1])
    ensures AllWhole(rs)
  {
  }

  lemma Shuffle(a: multiset<Leaf>, b: multiset<Leaf>, c: multiset<Leaf>, x: seq<Leaf>, y: seq<Leaf>)
    requires a == b + multiset(x) && b == c + multiset(y)
    ensures a == c + multiset(x + y)
  {
  }

  lemma FlatJoin(a: seq<Range>, b: seq<Range>)
    ensures Flat(a + b) == Flat(a) + Flat(b)
    ensures LeafCount(a + b) == LeafCount(a) + LeafCount(b)
  {
    FlatConcat(a, b);
    FlatCount(a);
    FlatCount(b);
    FlatCount(a + b);
  }

  lemma {:induction false} FlatConcat(a: seq<Range>, b: seq<Range>)
    ensures Flat(a + b) == Flat(a) + Flat(b)
    decreases |b|
  {
    if b == [] {
      assert a + b == a;
    } else {
      var n := |b| - 1;
      assert (a + b)[..|a + b| - 1] == a + b[..n];
      FlatConcat(a, b[..n]);
      Associate(Flat(a), Flat(b[..n]), b[n].Leaves());
    }
  }

  lemma Associate<T>(a: seq<T>, b: seq<T>, c: seq<T>)
    ensures a + b + c == a + (b + c)
  {
  }

  lemma {:induction false} FlatCount(rs: seq<Range>)
    ensures |Flat(rs)| == LeafCount(rs)
  {
    if rs != [] {
      FlatCount(rs[..|rs| - 1]);
    }
  }

  /** The step of the collecting loop that extends the batch. */
  lemma UniformAppend(rs: seq<Range>, r: Range)
    requires Uniform(rs) && (rs != [] ==> Compatible(r, rs[|rs| - 1]))
    ensures Uniform(rs + [r])
  {
    if |rs| >= 2 {
      assert Compatible(rs[0], rs[|rs| - 1]);
    }
  }

  lemma DrainsOne(s: Sched, out: seq<Range>, mid: Sched, r: Range, s': Sched)
    requires Drains(s, out, mid) && Takes(mid, r, s')
    ensures Drains(s, out + [r], s')
  {
    assert (out + [r])[..|out + [r]| - 1] == out;
  }

  /** Invariant of the collecting loop. */
  ghost predicate Collecting(bs: int, s0: Sched, rs0: seq<Range>, out: seq<Range>, s: Sched, rs: seq<Range>) {
    && s.Valid() && Drains(s0, out, s)
    && rs == rs0 + out && Uniform(rs)
    && (rs != rs0 ==> LeafCount(rs[..|rs| - 1]) < bs)
  }

  /** A range that fits extends the batch. */
  lemma CollectFit(bs: int, s0: Sched, rs0: seq<Range>, out: seq<Range>, s: Sched, rs: seq<Range>, r: Range, s': Sched)
    requires Collecting(bs, s0, rs0, out, s, rs) && Takes(s, r, s') && LeafCount(rs) < bs
    requires rs != [] ==> Compatible(r, rs[|rs| - 1])
    ensures Collecting(bs, s0, rs0, out + [r], s', rs + [r])
  {
    TakesSound(s, r, s');
    DrainsOne(s0, out, s, r, s');
    CollectOrder(bs, rs0, out, rs, r);
  }

  lemma CollectOrder(bs: int, rs0: seq<Range>, out: seq<Range>, rs: seq<Range>, r: Range)
    requires rs == rs0 + out && Uniform(rs) && LeafCount(rs) < bs && (rs != [] ==> Compatible(r, rs[|rs| - 1]))
    ensures rs + [r] == rs0 + (out + [r]) && Uniform(rs + [r])
    ensures LeafCount((rs + [r])[..|rs + [r]| - 1]) < bs
  {
    UniformAppend(rs, r);
    assert (rs + [r])[..|rs + [r]| - 1] == rs;
  }

  /** A range that does not fit is carried over. */
  lemma CollectMiss(bs: int, s0: Sched, rs0: seq<Range>, out: seq<Range>, s: Sched, rs: seq<Range>, r: Range, s': Sched)
    requires Collecting(bs, s0, rs0, out, s, rs) && Takes(s, r, s') && LeafCount(rs) < bs
    requires rs != [] && !Compatible(r, rs[|rs| - 1])
    ensures Collects(bs, s0, rs0, out + [r], s', rs, Some(r))
  {
    DrainsOne(s0, out, s, r, s');
  }

  lemma {:induction false} CollectOn(bs: int, s0: Sched, rs0: seq<Range>, out0: seq<Range>, s: Sched, rs: seq<Range>)
    returns (out: seq<Range>, s': Sched, rs': seq<Range>, carry: Option<Range>)
    requires Collecting(bs, s0, rs0, out0, s, rs)
    ensures Collects(bs, s0, rs0, out, s', rs', carry)
    decreases |s.Leaves()|
  {
    if LeafCount(rs) >= bs || s.IsEmpty() {
      out, s', rs', carry := out0, s, rs, None;
    } else {
      var r, s1 := TakeSome(s);
      if rs != [] && !Compatible(r, rs[|rs| - 1]) {
        CollectMiss(bs, s0, rs0, out0, s, rs, r, s1);
        out, s', rs', carry := out0 + [r], s1, rs, Some(r);
      } else {
        CollectFit(bs, s0, rs0, out0, s, rs, r, s1);
        TakesLess(s, r, s1);
        out, s', rs', carry := CollectOn(bs, s0, rs0, out0 + [r], s1, rs + [r]);
      }
    }
  }

  lemma TakesLess(s: Sched, r: Range, s': Sched)
    requires s.Valid() && Takes(s, r, s')
    ensures |s'.Leaves()| < |s.Leaves()|
  {
    TakesSound(s, r, s');
    assert |multiset(r.Leaves())| == |r.Leaves()|;
  }

  /** The locked section always runs to its end. */
  lemma CollectSome(bs: int, s: Sched, rs: seq<Range>)
    returns (out: seq<Range>, s': Sched, rs': seq<Range>, carry: Option<Range>)
    requires s.Valid() && Uniform(rs)
    ensures Collects(bs, s, rs, out, s', rs', carry)
  {
    assert rs + [] == rs;
    out, s', rs', carry := CollectOn(bs, s, rs, [], s, rs);
  }

  // --- the scheduler object and the loop under the lock ---

  class RangeScheduler {
    const merger: MergeRangeScheduler?
    var fifo: seq<Leaf>

    ghost predicate Valid()
      reads this, merger
    {
      if merger == null then forall l <- fifo :: l.st <= l.en else merger.Valid()
    }

    ghost function View(): Sched
      requires Valid()
      reads this, merger
    {
      if merger == null then Fifo(fifo) else Merging(merger.defaultQuantum, merger.View())
    }

    constructor FIFO()
      ensures Valid() && View() == Fifo([]) && merger == null
    {
      merger, fifo := null, [];
    }

    constructor Merge(dq: int)
      requires dq >= 1
      ensures Valid() && View() == Merging(dq, Initial) && fresh(merger)
    {
      merger := new MergeRangeScheduler(dq);
      fifo := [];
    }

    predicate Empty()
      reads this, merger
    {
      if merger == null then fifo == [] else merger.Empty()
    }

    method Enqueue(l: Leaf)
      requires Valid() && l.st <= l.en
      modifies this, merger
      ensures Valid() && Puts(old(View()), l, View())
    {
      if merger == null {
        fifo := fifo + [l];
      } else {
        merger.Enqueue(l);
      }
    }

    method Dequeue() returns (ok: bool, r: Range)
      requires Valid()
      modifies this, merger
      ensures Valid() && ok == !old(View()).IsEmpty()
      ensures ok ==> Takes(old(View()), r, View())
    {
      if merger == null {
        ok := fifo != [];
        if ok {
          r := Child(fifo[0]);
          fifo := fifo[1..];
        } else {
          r := Child(Leaf(Read, Handle(0, 0), 0, 0, 0, 0));
        }
      } else {
        ok, r := merger.Dequeue();
      }
    }
  }

  /** Take the next range and see whether it fits the batch. */
  method CollectNext(sched: RangeScheduler, rs: seq<Range>, bs: int, ghost s0: Sched, ghost carried: seq<Range>,
                     ghost out: seq<Range>)
    returns (r: Range, fits: bool)
    requires sched.Valid() && !sched.Empty() && LeafCount(rs) < bs
    requires Collecting(bs, s0, carried, out, sched.View(), rs)
    modifies sched, sched.merger
    ensures sched.Valid() && |sched.View().Leaves()| < |old(sched.View()).Leaves()|
    ensures fits ==> Collecting(bs, s0, carried, out + [r], sched.View(), rs + [r])
    ensures !fits ==> Collects(bs, s0, carried, out + [r], sched.View(), rs, Some(r))
  {
    ghost var s := sched.View();
    var ok;
    ok, r := sched.Dequeue();
    fits := rs == [] || Compatible(r, rs[|rs| - 1]);
    TakesLess(s, r, sched.View());
    if fits {
      CollectFit(bs, s0, carried, out, s, rs, r, sched.View());
    } else {
      CollectMiss(bs, s0, carried, out, s, rs, r, sched.View());
    }
  }

  /** The part of `run` that holds the lock: fill the batch. */
  method CollectBatch(sched: RangeScheduler, carried: seq<Range>, bs: int)
    returns (rs: seq<Range>, tmp: Option<Range>, ghost out: seq<Range>)
    requires sched.Valid() && Uniform(carried)
    modifies sched, sched.merger
    ensures sched.Valid() && Collects(bs, old(sched.View()), carried, out, sched.View(), rs, tmp)
  {
    rs, tmp, out := carried, None, [];
    ghost var s0 := sched.View();
    var batch := LeafCount(carried);
    assert carried + [] == carried;
    while batch < bs
      invariant sched.Valid() && batch == LeafCount(rs) && tmp == None
      invariant Collecting(bs, s0, carried, out, sched.View(), rs)
      decreases |sched.View().Leaves()|
    {
      if sched.Empty() {
        break;
      }
      var r, fits := CollectNext(sched, rs, bs, s0, carried, out);
      if !fits {
        tmp, out := Some(r), out + [r];
        return;
      }
      FlatJoin(rs, [r]);
      batch := batch + |r.Leaves()|;
      rs, out := rs + [r], out + [r];
    }
  }
}
