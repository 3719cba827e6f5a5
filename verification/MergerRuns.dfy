/** Whole runs of the two mergers, and what they have in common. */
module MergerRuns {
  import opened Basics
  import opened Extents
  import opened Ranges
  import opened RangeSet
  import IntervalTree
  import opened IntervalMergeTree

  // --- the tree ---

  datatype Call = MergeIn(n: Interval) | DeleteMin

  /** What a call does to the stored intervals. */
  ghost predicate Does(s: set<Interval>, c: Call, s': set<Interval>) {
    match c
    case MergeIn(n) => s' == Merge(s, n)
    case DeleteMin => exists n <- s :: s' == s - {n} && forall e <- s' :: n.end < e.start
  }

  lemma RootHeld(t: IntervalTree.Tree)
    requires t.Node?
    ensures t.iv in IntervalTree.Elements(t)
  {
    assert t.iv in IntervalTree.InOrder(t);
  }

  lemma DoesApart(s: set<Interval>, c: Call, s': set<Interval>)
    requires Apart(s) && Does(s, c, s') && (c.MergeIn? ==> c.n.Valid())
    ensures Apart(s')
  {
    if c.MergeIn? {
      MergeSound(s, c.n);
    }
  }

  method CallOne(m: Merger, c: Call)
    requires m.Valid() && (if c.MergeIn? then c.n.Valid() && c.n.end < IntervalTree.LIMIT else m.Contents() != {})
    modifies m
    ensures m.Valid() && Does(old(m.Contents()), c, m.Contents())
  {
    ValidIsUsable(m.root);
    match c {
      case MergeIn(n) =>
        var code := m.MergeIntervals(n);
      case DeleteMin =>
        var n := m.DeleteMinNode();
    }
  }

  /** From nothing, each call does what it should, and what is held is apart all along. */
  ghost predicate History(calls: seq<Call>, held: seq<set<Interval>>) {
    && |held| == |calls| + 1 && held[0] == {}
    && (forall k :: 0 <= k < |held| ==> Apart(held[k]))
    && forall k :: 0 <= k < |calls| ==> Does(held[k], calls[k], held[k + 1])
  }

  lemma HistoryStep(calls: seq<Call>, held: seq<set<Interval>>, c: Call, s: set<Interval>)
    requires History(calls, held) && Does(held[|calls|], c, s) && (c.MergeIn? ==> c.n.Valid())
    ensures History(calls + [c], held + [s])
  {
    DoesApart(held[|calls|], c, s);
  }

  /** In every run of merges and deletions the stored intervals are apart at every
      point and each call does exactly what it should.  A run goes on until a deletion
      meets the empty tree, for which the original has no meaning. */
  method RunTree(calls: seq<Call>) returns (m: Merger, done: nat, ghost held: seq<set<Interval>>)
    requires forall c <- calls :: c.MergeIn? ==> c.n.Valid() && c.n.end < IntervalTree.LIMIT
    ensures done <= |calls| && m.Valid() && History(calls[..done], held) && held[done] == m.Contents()
    ensures done < |calls| ==> calls[done].DeleteMin? && m.Contents() == {}
  {
    m := new Merger();
    held := [m.Contents()];
    done := 0;
    while done < |calls|
      invariant done <= |calls| && fresh(m) && m.Valid() && History(calls[..done], held) && held[done] == m.Contents()
    {
      assert calls[done] in calls;
      if calls[done].DeleteMin? {
        if m.root.Nil? {
          return;
        }
        RootHeld(m.root);
      }
      CallOne(m, calls[done]);
      HistoryStep(calls[..done], held, calls[done], m.Contents());
      assert calls[..done + 1] == calls[..done] + [calls[done]];
      held, done := held + [m.Contents()], done + 1;
    }
  }

  ghost predicate Increasing(s: seq<Interval>) {
    forall i, j :: 0 <= i < j < |s| ==> s[i].end < s[j].start
  }

  ghost predicate Drained(out: seq<Interval>, s: set<Interval>, all: set<Interval>) {
    Increasing(out) && (set e <- out) + s == all && forall a <- out, b <- s :: a.end < b.start
  }

  lemma DrainStep(out: seq<Interval>, s: set<Interval>, all: set<Interval>, n: Interval, s': set<Interval>)
    requires Drained(out, s, all) && n in s && s' == s - {n} && forall e <- s' :: n.end < e.start
    ensures Drained(out + [n], s', all)
  {
    var out' := out + [n];
    assert forall e :: e in out' <==> e in out || e == n;
    forall i, j | 0 <= i < j < |out'|
      ensures out'[i].end < out'[j].start
    {
      if j == |out| {
        assert out[i] in out;
      }
    }
  }

  /** Deleting the least until nothing is left yields every interval, in order. */
  method Drain(m: Merger) returns (out: seq<Interval>)
    requires m.Valid()
    modifies m
    ensures m.Valid() && m.Contents() == {}
    ensures Increasing(out) && (set e <- out) == old(m.Contents())
  {
    ghost var all := m.Contents();
    out := [];
    while m.root.Node?
      invariant m.Valid() && Drained(out, m.Contents(), all)
      decreases |m.Contents()|
    {
      RootHeld(m.root);
      ValidIsUsable(m.root);
      ghost var s := m.Contents();
      var n := m.DeleteMinNode();
      DrainStep(out, s, all, n, m.Contents());
      out := out + [n];
    }
  }

  // --- the set ---

  datatype Use = Add(leaf: Leaf) | Get

  function Added(uses: seq<Use>): multiset<Leaf> {
    if uses == [] then multiset{}
    else
      var last := uses[|uses| - 1];
      Added(uses[..|uses| - 1]) + if last.Add? then multiset{last.leaf} else multiset{}
  }

  function Taken(got: seq<Range>): multiset<Leaf> {
    if got == [] then multiset{} else Taken(got[..|got| - 1]) + multiset(got[|got| - 1].Leaves())
  }

  lemma AddedStep(uses: seq<Use>, i: nat)
    requires i < |uses|
    ensures Added(uses[..i + 1]) == Added(uses[..i]) + if uses[i].Add? then multiset{uses[i].leaf} else multiset{}
  {
    assert uses[..i + 1][..i] == uses[..i];
  }

  lemma TakenStep(got: seq<Range>, r: Range)
    ensures Taken(got + [r]) == Taken(got) + multiset(r.Leaves())
  {
    assert (got + [r])[..|got|] == got;
  }

  ghost predicate Balanced(added: multiset<Leaf>, rs: set<Range>, got: seq<Range>) {
    Good(rs) && added == Pending(rs) + Taken(got) && forall r <- got :: r.Valid()
  }

  lemma BalancedAdd(added: multiset<Leaf>, rs: set<Range>, got: seq<Range>, l: Leaf, rs': set<Range>)
    requires Balanced(added, rs, got) && l.st <= l.en && Adds(rs, l, rs')
    ensures Balanced(added + multiset{l}, rs', got)
  {
    AddsSound(rs, l, rs');
    AddOne(added, Pending(rs), Taken(got), l);
  }

  lemma BalancedGet(added: multiset<Leaf>, rs: set<Range>, got: seq<Range>, r: Range)
    requires Balanced(added, rs, got) && r in rs
    ensures Balanced(added, rs - {r}, got + [r])
  {
    PendingTake(rs, r);
    TakenStep(got, r);
    GoodSubset(rs, rs - {r});
    MoveMany(Pending(rs - {r}), multiset(r.Leaves()), Taken(got));
  }

  lemma MoveMany(a: multiset<Leaf>, b: multiset<Leaf>, c: multiset<Leaf>)
    ensures b + a + c == a + (c + b)
  {
  }

  /** In every run of additions and removals no leaf is lost or doubled, and every
      range handed out is filled by its leaves, with their callbacks at their places. */
  method RunSet(uses: seq<Use>) returns (s: HierarchicalRangeSet, got: seq<Range>)
    requires forall u <- uses :: u.Add? ==> u.leaf.st <= u.leaf.en
    ensures s.Valid() && Added(uses) == Pending(s.ranges) + Taken(got)
    ensures forall r <- got :: r.Valid()
  {
    s := new HierarchicalRangeSet();
    got := [];
    for i := 0 to |uses|
      invariant fresh(s) && s.Valid() && Balanced(Added(uses[..i]), s.ranges, got)
    {
      AddedStep(uses, i);
      got := UseOne(s, uses[i], got, Added(uses[..i]));
    }
    assert uses[..|uses|] == uses;
  }

  method UseOne(s: HierarchicalRangeSet, u: Use, got: seq<Range>, ghost added: multiset<Leaf>)
    returns (got': seq<Range>)
    requires s.Valid() && Balanced(added, s.ranges, got) && (u.Add? ==> u.leaf.st <= u.leaf.en)
    modifies s
    ensures s.Valid()
    ensures Balanced(added + if u.Add? then multiset{u.leaf} else multiset{}, s.ranges, got')
  {
    ghost var was := s.ranges;
    got' := got;
    match u {
      case Add(l) =>
        s.Add(l);
        BalancedAdd(added, was, got, l, s.ranges);
      case Get =>
        if s.ranges != {} {
          var r := s.Get();
          BalancedGet(added, was, got, r);
          got' := got + [r];
        }
        assert added + multiset{} == added;
    }
  }

  // --- both ---

  ghost predicate Agree(held: set<Interval>, rs: set<Range>, leaves: seq<Leaf>) {
    && held == ExtentsOf(rs) && Apart(held)
    && forall p :: Covers(held, p) <==> LeavesCover(leaves, p)
  }

  lemma AgreeStep(held: set<Interval>, rs: set<Range>, leaves: seq<Leaf>, l: Leaf, rs': set<Range>)
    requires Agree(held, rs, leaves) && Good(rs) && l.st <= l.en && Adds(rs, l, rs')
    ensures Agree(Merge(held, l.Extent()), rs', leaves + [l])
  {
    AddsSound(rs, l, rs');
    MergeSound(held, l.Extent());
    forall p: int
      ensures LeavesCover(leaves + [l], p) <==> LeavesCover(leaves, p) || l.Extent().Holds(p)
    {
      LeavesCoverJoin(leaves, [l], p);
      assert LeavesCover([l], p) <==> l.Extent().Holds(p);
    }
  }

  /** Given the same ranges, the tree and the set hold the same extents: those of the
      one set that is apart and covers what the ranges cover. */
  method RunBoth(leaves: seq<Leaf>) returns (m: Merger, s: HierarchicalRangeSet)
    requires forall l <- leaves :: l.st <= l.en < IntervalTree.LIMIT
    ensures m.Valid() && s.Valid() && Agree(m.Contents(), s.ranges, leaves)
  {
    m := new Merger();
    s := new HierarchicalRangeSet();
    for i := 0 to |leaves|
      invariant fresh(m) && fresh(s) && m.Valid() && s.Valid() && Agree(m.Contents(), s.ranges, leaves[..i])
    {
      assert leaves[..i + 1] == leaves[..i] + [leaves[i]];
      AddBoth(m, s, leaves[..i], leaves[i]);
    }
    assert leaves[..|leaves|] == leaves;
  }

  method AddBoth(m: Merger, s: HierarchicalRangeSet, ghost leaves: seq<Leaf>, l: Leaf)
    requires m.Valid() && s.Valid() && Agree(m.Contents(), s.ranges, leaves) && l.st <= l.en < IntervalTree.LIMIT
    modifies m, s
    ensures m.Valid() && s.Valid() && Agree(m.Contents(), s.ranges, leaves + [l])
  {
    ghost var held, was := m.Contents(), s.ranges;
    ValidIsUsable(m.root);
    var code := m.MergeIntervals(l.Extent());
    s.Add(l);
    AgreeStep(held, was, leaves, l, s.ranges);
  }
}
