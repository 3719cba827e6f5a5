/** The hierarchical range set: merged ranges with an index by start and one by end. */
module RangeSet {
  import opened Basics
  import opened Extents
  import opened Ranges

  // --- what the set holds, and what its operations do ---

  /** Proper ranges, none touching another. */
  ghost predicate Good(rs: set<Range>) {
    && (forall r <- rs :: r.Valid())
    && (forall a <- rs, b <- rs :: a != b ==> !Touch(a.Extent(), b.Extent()))
  }

  ghost function TouchingRanges(rs: set<Range>, l: Leaf): set<Range> {
    set r <- rs | Touch(r.Extent(), l.Extent())
  }

  /** Adding a leaf: every range it touches gives way to one range over their hull
      that owns their leaves.  The order of the leaves is not determined, as the
      original keeps ranges in the order of their addresses. */
  ghost predicate Adds(rs: set<Range>, l: Leaf, rs': set<Range>) {
    exists r :: AddsAs(rs, l, r, rs')
  }

  ghost predicate AddsAs(rs: set<Range>, l: Leaf, r: Range, rs': set<Range>) {
    var t := TouchingRanges(rs, l);
    && r !in rs
    && rs' == rs - t + {r}
    && r.Valid()
    && r.Extent() == HullAll(ExtentsOf(t), l.Extent())
    && multiset(r.Leaves()) == multiset{l} + Pending(t)
    && r.Direction() == l.dir && r.File() == l.handle
    && (t == {} ==> r == Child(l))
  }

  lemma ApartExtents(rs: set<Range>)
    requires Good(rs)
    ensures Apart(ExtentsOf(rs))
  {
  }

  lemma SameExtent(rs: set<Range>, a: Range, b: Range)
    requires Good(rs) && a in rs && b in rs && a.Extent() == b.Extent()
    ensures a == b
  {
  }

  lemma ExtentsOfRest(rs: set<Range>, t: set<Range>)
    requires Good(rs) && t <= rs
    ensures ExtentsOf(rs - t) == ExtentsOf(rs) - ExtentsOf(t)
  {
    forall e | e in ExtentsOf(rs) && e !in ExtentsOf(t)
      ensures e in ExtentsOf(rs - t)
    {
      var r :| r in rs && r.Extent() == e;
      assert r !in t;
    }
    forall e | e in ExtentsOf(rs - t)
      ensures e !in ExtentsOf(t)
    {
      var r :| r in rs - t && r.Extent() == e;
      if e in ExtentsOf(t) {
        var q :| q in t && q.Extent() == e;
        SameExtent(rs, r, q);
      }
    }
  }

  lemma TouchingExtents(rs: set<Range>, l: Leaf)
    ensures ExtentsOf(TouchingRanges(rs, l)) == Touching(ExtentsOf(rs), l.Extent())
  {
    forall e | e in Touching(ExtentsOf(rs), l.Extent())
      ensures e in ExtentsOf(TouchingRanges(rs, l))
    {
      var r :| r in rs && r.Extent() == e;
      assert r in TouchingRanges(rs, l);
    }
  }

  lemma AddsExtents(rs: set<Range>, l: Leaf, r: Range, rs': set<Range>)
    requires Good(rs) && AddsAs(rs, l, r, rs')
    ensures ExtentsOf(rs') == Merge(ExtentsOf(rs), l.Extent())
  {
    var t := TouchingRanges(rs, l);
    TouchingExtents(rs, l);
    ExtentsOfRest(rs, t);
    assert ExtentsOf(rs') == ExtentsOf(rs - t) + {r.Extent()};
  }

  lemma HullApart(s: set<Interval>, n: Interval, e: Interval)
    requires Apart(s) && n.Valid() && e in s && !Touch(e, n)
    ensures !Touch(e, HullAll(Touching(s, n), n))
  {
    MergeSound(s, n);
    assert e in Merge(s, n);
  }

  lemma AddsGood(rs: set<Range>, l: Leaf, r: Range)
    requires Good(rs) && l.st <= l.en && r.Valid()
    requires r.Extent() == HullAll(ExtentsOf(TouchingRanges(rs, l)), l.Extent())
    ensures Good(rs - TouchingRanges(rs, l) + {r})
  {
    ApartExtents(rs);
    TouchingExtents(rs, l);
    forall q | q in rs && !Touch(q.Extent(), l.Extent())
      ensures !Touch(q.Extent(), r.Extent())
    {
      HullApart(ExtentsOf(rs), l.Extent(), q.Extent());
    }
  }

  lemma AddsPending(rs: set<Range>, t: set<Range>, l: Leaf, r: Range)
    requires t <= rs && r !in rs
    requires multiset(r.Leaves()) == multiset{l} + Pending(t)
    ensures Pending(rs - t + {r}) == Pending(rs) + multiset{l}
  {
    var rest := rs - t;
    assert Pending(rs) == Pending(rest) + Pending(t) by {
      PendingJoin(rest, t);
      assert rest + t == rs;
    }
    assert Pending({r}) == multiset(r.Leaves()) by {
      PendingTake({r}, r);
      assert {r} - {r} == {};
    }
    PendingJoin(rest, {r});
    Swap(Pending(rs), Pending(rest), Pending(t), multiset(r.Leaves()), l);
  }

  lemma Swap<T>(all: multiset<T>, rest: multiset<T>, some: multiset<T>, more: multiset<T>, x: T)
    requires all == rest + some && more == multiset{x} + some
    ensures rest + more == all + multiset{x}
  {
  }

  /** An addition keeps the set good, merges the extents and conserves the leaves. */
  lemma AddsSound(rs: set<Range>, l: Leaf, rs': set<Range>)
    requires Good(rs) && l.st <= l.en && Adds(rs, l, rs')
    ensures Good(rs')
    ensures ExtentsOf(rs') == Merge(ExtentsOf(rs), l.Extent())
    ensures Pending(rs') == Pending(rs) + multiset{l}
  {
    var r :| AddsAs(rs, l, r, rs');
    AddsExtents(rs, l, r, rs');
    AddsGood(rs, l, r);
    AddsPending(rs, TouchingRanges(rs, l), l, r);
  }

  // --- ordered maps ---

  lemma {:induction false} LeastKey(keys: set<nat>, k: nat, y: nat) returns (x: nat)
    requires y in keys && k <= y
    ensures x in keys && k <= x && forall z <- keys :: k <= z ==> x <= z
    decreases y
  {
    x := y;
    if z :| z in keys && k <= z < y {
      x := LeastKey(keys, k, z);
    }
  }

  /** The position of the first key not below `k`, if there is one. */
  function LowerBound(keys: set<nat>, k: nat): (it: Option<nat>)
    ensures it.None? ==> forall y <- keys :: y < k
    ensures it.Some? ==> it.value in keys && k <= it.value && forall y <- keys :: k <= y ==> it.value <= y
  {
    if exists y <- keys :: k <= y then
      assert exists x :: x in keys && k <= x && forall y <- keys :: k <= y ==> x <= y by {
        var y :| y in keys && k <= y;
        var x := LeastKey(keys, k, y);
      }
      var x :| x in keys && k <= x && forall y <- keys :: k <= y ==> x <= y;
      Some(x)
    else None
  }

  predicate Passed(it: Option<nat>, k: nat) {
    it.Some? ==> k < it.value
  }

  ghost function Remaining(keys: set<nat>, it: Option<nat>): set<nat> {
    set k <- keys | !Passed(it, k)
  }

  lemma Advance(keys: set<nat>, i: nat)
    requires i in keys
    ensures forall k <- keys :: Passed(LowerBound(keys, i + 1), k) <==> k <= i
    ensures Remaining(keys, LowerBound(keys, i + 1)) < Remaining(keys, Some(i))
  {
    assert i in Remaining(keys, Some(i)) && i !in Remaining(keys, LowerBound(keys, i + 1));
  }

  // --- indexes ---

  ghost predicate Index(m: map<nat, Range>, rs: set<Range>, key: Range -> nat) {
    && (forall k <- m :: m[k] in rs && key(m[k]) == k)
    && (forall r <- rs :: key(r) in m && m[key(r)] == r)
  }

  function StartOf(r: Range): nat { r.Extent().start }

  function EndOf(r: Range): nat { r.Extent().end }

  /** With indexes, going through the keys is going through the ranges. */
  method Scan(m: map<nat, Range>, key: Range -> nat, lo: nat, hi: nat, ghost rs: set<Range>) returns (s: set<Range>)
    requires Index(m, rs, key)
    ensures s == set r <- rs | lo <= key(r) <= hi
  {
    s := {};
    var it := LowerBound(m.Keys, lo);
    while it.Some?
      invariant it.Some? ==> it.value in m && lo <= it.value
      invariant s == set r <- rs | lo <= key(r) && Passed(it, key(r))
      invariant forall r <- s :: key(r) <= hi
      decreases Remaining(m.Keys, it)
    {
      var rr := m[it.value];
      if lo <= key(rr) && key(rr) <= hi {
        s := s + {rr};
      } else {
        break;
      }
      Advance(m.Keys, it.value);
      it := LowerBound(m.Keys, it.value + 1);
    }
  }

  lemma HullUnique(s: set<Interval>, n: Interval, h: Interval)
    requires IsHull(s, n, h)
    ensures h == HullAll(s, n)
  {
  }

  lemma HullGrows(s: set<Interval>, n: Interval, h: Interval, e: Interval)
    requires IsHull(s, n, h)
    ensures IsHull(s + {e}, n, Hull(h, e))
  {
    var g := Hull(h, e);
    assert e in s + {e};
    if g.start != n.start && g.start != e.start {
      var f :| f in s && f.start == h.start;
      assert f in s + {e};
    }
    if g.end != n.end && g.end != e.end {
      var f :| f in s && f.end == h.end;
      assert f in s + {e};
    }
  }

  lemma HullStep(s: set<Range>, todo: set<Range>, n: Interval, h: Interval, r: Range)
    requires todo <= s && r in todo && IsHull(ExtentsOf(s - todo), n, h)
    ensures IsHull(ExtentsOf(s - (todo - {r})), n, Hull(h, r.Extent()))
  {
    HullGrows(ExtentsOf(s - todo), n, h, r.Extent());
    assert s - (todo - {r}) == s - todo + {r};
    assert ExtentsOf(s - todo + {r}) == ExtentsOf(s - todo) + {r.Extent()};
  }

  /** Three scans, each stopping at its first miss, find everything that touches. */
  lemma TouchingByScans(rs: set<Range>, l: Leaf)
    requires Good(rs) && l.st <= l.en
    ensures TouchingRanges(rs, l)
         == (set r <- rs | l.st <= StartOf(r) <= l.en)
          + (set r <- rs | l.st <= EndOf(r) <= l.en)
          + (set r <- rs | StartOf(r) <= l.st && l.en <= EndOf(r))
  {
    assert forall r <- rs :: r.Valid();
  }

  ghost predicate Spaced(rs: set<Range>) {
    && (forall r <- rs :: StartOf(r) <= EndOf(r))
    && (forall a <- rs, b <- rs :: a != b ==> EndOf(a) < StartOf(b) || EndOf(b) < StartOf(a))
  }

  lemma GoodSpaced(rs: set<Range>)
    requires Good(rs)
    ensures Spaced(rs)
  {
    assert forall r <- rs :: r.Valid();
    forall a, b | a in rs && b in rs && a != b
      ensures EndOf(a) < StartOf(b) || EndOf(b) < StartOf(a)
    {
      assert !Touch(a.Extent(), b.Extent());
    }
  }

  lemma GoodSubset(rs: set<Range>, rs': set<Range>)
    requires Good(rs) && rs' <= rs
    ensures Good(rs')
  {
  }

  function IndexOf(rs: set<Range>, key: Range -> nat): (m: map<nat, Range>)
    requires forall a <- rs, b <- rs :: key(a) == key(b) ==> a == b
    ensures Index(m, rs, key)
  {
    map r <- rs :: key(r) := r
  }

  lemma GoodKeys(rs: set<Range>)
    requires Good(rs)
    ensures forall a <- rs, b <- rs :: StartOf(a) == StartOf(b) || EndOf(a) == EndOf(b) ==> a == b
  {
    GoodSpaced(rs);
  }

  lemma IndexDrop(m: map<nat, Range>, rs: set<Range>, key: Range -> nat, r: Range)
    requires Index(m, rs, key) && r in rs
    ensures Index(m - {key(r)}, rs - {r}, key)
  {
  }

  lemma IndexPut(m: map<nat, Range>, rs: set<Range>, key: Range -> nat, r: Range)
    requires Index(m, rs, key) && forall q <- rs :: key(q) != key(r)
    ensures Index(m[key(r) := r], rs + {r}, key)
  {
  }

  /** The ranges around [lo, hi]; the scan by end stops at the first that is not,
      which is enough when the ranges start in the order in which they end. */
  method ScanAround(m: map<nat, Range>, start: Range -> nat, end: Range -> nat, lo: nat, hi: nat, ghost rs: set<Range>)
    returns (s: set<Range>)
    requires Index(m, rs, end)
    requires forall a <- rs, b <- rs :: end(a) <= end(b) ==> start(a) <= start(b)
    ensures s == set r <- rs | start(r) <= lo && hi <= end(r)
  {
    s := {};
    var it := LowerBound(m.Keys, hi);
    while it.Some?
      invariant it.Some? ==> it.value in m && hi <= it.value
      invariant s == set r <- rs | hi <= end(r) && Passed(it, end(r))
      invariant forall r <- s :: start(r) <= lo
      decreases Remaining(m.Keys, it)
    {
      var rr := m[it.value];
      if start(rr) <= lo && hi <= end(rr) {
        s := s + {rr};
      } else {
        break;
      }
      Advance(m.Keys, it.value);
      it := LowerBound(m.Keys, it.value + 1);
    }
  }

  // --- building the merged range ---

  /** What the new parent has collected once the ranges `done` are absorbed. */
  ghost predicate Gathered(l: Leaf, done: set<Range>, children: seq<Leaf>, cbs: seq<nat>) {
    && multiset(children) == multiset{l} + Pending(done)
    && cbs == CallbacksOf(children)
    && (forall c <- children :: c.st <= c.en)
    && (forall p :: LeavesCover(children, p) <==> l.Extent().Holds(p) || Covers(ExtentsOf(done), p))
  }

  lemma GatherCover(done: set<Range>, children: seq<Leaf>, r: Range, l: Leaf, p: int)
    requires r.Valid()
    requires LeavesCover(children, p) <==> l.Extent().Holds(p) || Covers(ExtentsOf(done), p)
    ensures LeavesCover(children + r.Leaves(), p) <==> l.Extent().Holds(p) || Covers(ExtentsOf(done + {r}), p)
  {
    LeavesCoverJoin(children, r.Leaves(), p);
    assert Covers(ExtentsOf(done + {r}), p) <==> Covers(ExtentsOf(done), p) || r.Extent().Holds(p) by {
      assert ExtentsOf(done + {r}) == ExtentsOf(done) + {r.Extent()};
    }
  }

  lemma GatherStep(l: Leaf, done: set<Range>, children: seq<Leaf>, cbs: seq<nat>, r: Range)
    requires Gathered(l, done, children, cbs) && r !in done && r.Valid()
    ensures Gathered(l, done + {r}, children + r.Leaves(), cbs + r.Callbacks())
  {
    forall p: int
      ensures LeavesCover(children + r.Leaves(), p) <==> l.Extent().Holds(p) || Covers(ExtentsOf(done + {r}), p)
    {
      GatherCover(done, children, r, l, p);
    }
    CallbacksOfJoin(children, r.Leaves());
    PendingTake(done + {r}, r);
    assert done + {r} - {r} == done;
  }

  method Gather(l: Leaf, s: set<Range>) returns (children: seq<Leaf>, cbs: seq<nat>)
    requires l.st <= l.en && forall r <- s :: r.Valid()
    ensures Gathered(l, s, children, cbs)
    ensures s != {} ==> |children| >= 2
  {
    children, cbs := [l], [l.cb];
    var todo := s;
    assert s - todo == {};
    while todo != {}
      invariant todo <= s && Gathered(l, s - todo, children, cbs)
      invariant children != [] && (todo != s ==> |children| >= 2)
      decreases todo
    {
      var rr :| rr in todo;
      GatherStep(l, s - todo, children, cbs, rr);
      assert s - todo + {rr} == s - (todo - {rr});
      children, cbs := children + rr.Leaves(), cbs + rr.Callbacks();
      todo := todo - {rr};
    }
    assert s - todo == s;
  }

  lemma ParentValid(l: Leaf, s: set<Range>, r: Range)
    requires l.st <= l.en && forall q <- s :: q.Valid() && Touch(q.Extent(), l.Extent())
    requires r.Parent? && Gathered(l, s, r.children, r.cbs) && r.children != []
    requires r.Extent() == HullAll(ExtentsOf(s), l.Extent())
    ensures r.Valid()
  {
    forall p: int
      ensures r.Extent().Holds(p) <==> LeavesCover(r.Leaves(), p)
    {
      forall e | e in ExtentsOf(s)
        ensures e.Valid() && Touch(e, l.Extent())
      {
        var q :| q in s && q.Extent() == e;
      }
      HullIsUnion(ExtentsOf(s), l.Extent(), p);
    }
  }

  /** A merged range is none of the old ones: it owns one leaf more than it absorbs. */
  lemma NewRange(rs: set<Range>, l: Leaf, r: Range)
    requires l.st <= l.en
    requires r.Extent() == HullAll(ExtentsOf(TouchingRanges(rs, l)), l.Extent())
    requires multiset(r.Leaves()) == multiset{l} + Pending(TouchingRanges(rs, l))
    ensures r !in rs
  {
    var t := TouchingRanges(rs, l);
    assert Within(l.Extent(), r.Extent());
    assert r in rs ==> r in t;
    forall q | q in t
      ensures q != r
    {
      PendingTake(t, q);
      assert |multiset(q.Leaves())| <= |Pending(t)| < |multiset(r.Leaves())|;
    }
  }

  class HierarchicalRangeSet {
    var ranges: set<Range>
    var stMap: map<nat, Range>
    var enMap: map<nat, Range>

    ghost predicate Indexed()
      reads this
    {
      Index(stMap, ranges, StartOf) && Index(enMap, ranges, EndOf)
    }

    ghost predicate Valid()
      reads this
    {
      Good(ranges) && Indexed()
    }

    constructor ()
      ensures Valid() && ranges == {}
    {
      ranges, stMap, enMap := {}, map[], map[];
    }

    /** The set that holds the ranges `rs`. */
    constructor Of(rs: set<Range>)
      requires Good(rs)
      ensures Valid() && ranges == rs
    {
      GoodKeys(rs);
      ranges, stMap, enMap := rs, IndexOf(rs, StartOf), IndexOf(rs, EndOf);
    }

    /** Take some range out. */
    method Get() returns (r: Range)
      requires Valid() && ranges != {}
      modifies this
      ensures Valid()
      ensures r in old(ranges) && ranges == old(ranges) - {r}
    {
      r :| r in ranges;
      stMap := stMap - {StartOf(r)};
      enMap := enMap - {EndOf(r)};
      ranges := ranges - {r};
      GoodSpaced(old(ranges));
      IndexDrop(old(stMap), old(ranges), StartOf, r);
      IndexDrop(old(enMap), old(ranges), EndOf, r);
      GoodSubset(old(ranges), ranges);
    }

    /** Ranges with one end inside `l`. */
    method Intersect(l: Leaf) returns (s: set<Range>)
      requires Valid()
      ensures s == (set r <- ranges | l.st <= StartOf(r) <= l.en)
                 + (set r <- ranges | l.st <= EndOf(r) <= l.en)
    {
      s := Scan(stMap, StartOf, l.st, l.en, ranges);
      var byEnd := Scan(enMap, EndOf, l.st, l.en, ranges);
      s := s + byEnd;
    }

    method Included(l: Leaf) returns (s: set<Range>)
      requires Valid() && l.st <= l.en
      ensures s == set r <- ranges | StartOf(r) <= l.st && l.en <= EndOf(r)
    {
      GoodSpaced(ranges);
      s := ScanAround(enMap, StartOf, EndOf, l.st, l.en, ranges);
    }

    /** Take the ranges `s` out and compute the hull of them and `l`. */
    method MergeOut(l: Leaf, s: set<Range>) returns (st: nat, en: nat)
      requires Indexed() && s <= ranges
      modifies this
      ensures ranges == old(ranges) - s && Indexed()
      ensures Interval(st, en) == HullAll(ExtentsOf(s), l.Extent())
    {
      st, en := l.st, l.en;
      var todo := s;
      while todo != {}
        invariant todo <= s && ranges == old(ranges) - (s - todo)
        invariant Indexed()
        invariant IsHull(ExtentsOf(s - todo), l.Extent(), Interval(st, en))
        decreases todo
      {
        var rr :| rr in todo;
        IndexDrop(stMap, ranges, StartOf, rr);
        IndexDrop(enMap, ranges, EndOf, rr);
        HullStep(s, todo, l.Extent(), Interval(st, en), rr);
        stMap := stMap - {StartOf(rr)};
        enMap := enMap - {EndOf(rr)};
        st, en := Min(st, StartOf(rr)), Max(en, EndOf(rr));
        ranges := ranges - {rr};
        todo := todo - {rr};
      }
      assert s - todo == s;
      HullUnique(ExtentsOf(s), l.Extent(), Interval(st, en));
    }

    method Put(r: Range)
      requires Indexed() && forall q <- ranges :: StartOf(q) != StartOf(r) && EndOf(q) != EndOf(r)
      modifies this
      ensures Indexed() && ranges == old(ranges) + {r}
    {
      IndexPut(stMap, ranges, StartOf, r);
      IndexPut(enMap, ranges, EndOf, r);
      ranges := ranges + {r};
      stMap := stMap[StartOf(r) := r];
      enMap := enMap[EndOf(r) := r];
    }

    /** Add a leaf, merging it with everything it touches. */
    method Add(l: Leaf)
      requires Valid() && l.st <= l.en
      modifies this
      ensures Valid()
      ensures Adds(old(ranges), l, ranges)
    {
      var s := Intersect(l);
      var around := Included(l);
      s := s + around;
      TouchingByScans(ranges, l);
      var st, en := MergeOut(l, s);
      var r := MergedRange(l, s, st, en, old(ranges));
      AddsSpaced(old(ranges), l, r);
      Put(r);
    }
  }

  method MergedRange(l: Leaf, s: set<Range>, st: nat, en: nat, ghost rs: set<Range>) returns (r: Range)
    requires Good(rs) && l.st <= l.en && s == TouchingRanges(rs, l)
    requires Interval(st, en) == HullAll(ExtentsOf(s), l.Extent())
    ensures AddsAs(rs, l, r, rs - s + {r})
  {
    if s != {} {
      var children, cbs := Gather(l, s);
      r := Parent(l.dir, l.handle, st, en, children, cbs);
      ParentValid(l, s, r);
    } else {
      r := Child(l);
      ChildValid(l);
    }
    NewRange(rs, l, r);
  }

  lemma ChildValid(l: Leaf)
    requires l.st <= l.en
    ensures Child(l).Valid() && multiset(Child(l).Leaves()) == multiset{l} + Pending({})
    ensures Child(l).Extent() == HullAll(ExtentsOf({}), l.Extent())
  {
  }

  lemma AddsSpaced(rs: set<Range>, l: Leaf, r: Range)
    requires Good(rs) && l.st <= l.en
    requires AddsAs(rs, l, r, rs - TouchingRanges(rs, l) + {r})
    ensures forall q <- rs - TouchingRanges(rs, l) :: StartOf(q) != StartOf(r) && EndOf(q) != EndOf(r)
    ensures Good(rs - TouchingRanges(rs, l) + {r})
  {
    AddsGood(rs, l, r);
    GoodSpaced(rs - TouchingRanges(rs, l) + {r});
  }
}
