/** Byte ranges of files as the schedulers queue them. */
module Ranges {
  import opened Extents

  datatype Direction = Write | Read

  /** A handle is found by address; its contents identify the file. */
  datatype Handle = Handle(address: nat, file: nat)

  /** One segment of one client request: `buf` holds bytes `st` up to `en` of the
      file, and `cb` names the callback wrapper of the request. */
  datatype Leaf = Leaf(dir: Direction, handle: Handle, buf: nat, st: nat, en: nat, cb: nat) {
    function Extent(): Interval {
      Interval(st, en)
    }
  }

  /** A queued range: a leaf, or a merged range that owns several leaves, with
      their callbacks in a second vector. */
  datatype Range =
    | Child(leaf: Leaf)
    | Parent(dir: Direction, handle: Handle, st: nat, en: nat, children: seq<Leaf>, cbs: seq<nat>)
  {
    function Extent(): Interval {
      if Child? then leaf.Extent() else Interval(st, en)
    }

    function Direction(): Direction {
      if Child? then leaf.dir else dir
    }

    function File(): Handle {
      if Child? then leaf.handle else handle
    }

    function Leaves(): seq<Leaf> {
      if Child? then [leaf] else children
    }

    function Callbacks(): seq<nat> {
      if Child? then [leaf.cb] else cbs
    }

    /** Filled without gap by its leaves, and each leaf's callback at its place. */
    ghost predicate Valid() {
      && (forall l <- Leaves() :: l.st <= l.en)
      && (forall p :: Extent().Holds(p) <==> LeavesCover(Leaves(), p))
      && Callbacks() == CallbacksOf(Leaves())
      && Leaves() != []
      && Extent().start <= Extent().end
    }
  }

  ghost predicate LeavesCover(ls: seq<Leaf>, p: int) {
    exists l <- ls :: l.Extent().Holds(p)
  }

  lemma LeavesCoverJoin(a: seq<Leaf>, b: seq<Leaf>, p: int)
    ensures LeavesCover(a + b, p) <==> LeavesCover(a, p) || LeavesCover(b, p)
  {
  }

  function CallbacksOf(ls: seq<Leaf>): (cs: seq<nat>)
    ensures |cs| == |ls| && forall i :: 0 <= i < |ls| ==> cs[i] == ls[i].cb
  {
    seq(|ls|, i requires 0 <= i < |ls| => ls[i].cb)
  }

  /** All leaves, each as often as it occurs. */
  ghost function Pending(rs: set<Range>): multiset<Leaf> {
    if rs == {} then multiset{}
    else
      var r :| r in rs;
      multiset(r.Leaves()) + Pending(rs - {r})
  }

  lemma {:induction false} PendingTake(rs: set<Range>, r: Range)
    requires r in rs
    ensures Pending(rs) == multiset(r.Leaves()) + Pending(rs - {r})
  {
    var q :| q in rs && Pending(rs) == multiset(q.Leaves()) + Pending(rs - {q});
    if q != r {
      PendingTake(rs - {q}, r);
      PendingTake(rs - {r}, q);
      assert rs - {q} - {r} == rs - {r} - {q};
    }
  }

  lemma {:induction false} PendingJoin(rs: set<Range>, qs: set<Range>)
    requires rs !! qs
    ensures Pending(rs + qs) == Pending(rs) + Pending(qs)
  {
    if qs == {} {
      assert rs + qs == rs;
    } else {
      var q :| q in qs;
      var rest := qs - {q};
      PendingJoin(rs, rest);
      assert Pending(qs) == multiset(q.Leaves()) + Pending(rest) by { PendingTake(qs, q); }
      assert Pending(rs + qs) == multiset(q.Leaves()) + Pending(rs + rest) by {
        PendingTake(rs + qs, q);
        assert rs + qs - {q} == rs + rest;
      }
    }
  }

  ghost function ExtentsOf(rs: set<Range>): set<Interval> {
    set r <- rs :: r.Extent()
  }

  lemma CallbacksOfJoin(a: seq<Leaf>, b: seq<Leaf>)
    ensures CallbacksOf(a + b) == CallbacksOf(a) + CallbacksOf(b)
  {
  }
}
