/** Intervals beyond the reach of the 32-bit maxima: what the search then finds, and a
    run of the merger that goes wrong. */
module FarIntervals {
  import opened Extents
  import opened IntervalTree
  import opened IntervalMergeTree

  // --- when a search is right ---

  /** The search for `h` finds something exactly when something touches `h`. */
  ghost predicate Finds(t: Tree, h: Interval) {
    Reached(t, h).Node? <==> exists e <- InOrder(t) :: Touch(e, h)
  }

  /** The maxima guide every search: at every node with a left child, the child's
      maximum is not too small, and if there is a right child too, not so large that it
      draws a search away from there. */
  ghost predicate Guides(t: Tree) {
    t.Node? ==>
      && Guides(t.left) && Guides(t.right)
      && (t.left.Node? ==> TrueMax(t.left) <= t.left.max && (t.right.Node? ==> t.left.max <= t.iv.end))
  }

  lemma {:induction false} ReachedTouches(t: Tree, h: Interval)
    requires h.Valid() && forall e <- InOrder(t) :: e.Valid()
    ensures Reached(t, h).Node? ==> exists e <- InOrder(t) :: Touch(e, h)
  {
    if forall e <- InOrder(t) :: !Touch(e, h) {
      NothingReached(t, h);
    }
  }

  /** A tree that guides finds what touches. */
  lemma {:induction false} GuidedFinds(t: Tree, h: Interval, e: Interval)
    requires Sorted(InOrder(t)) && Guides(t) && h.Valid() && e in InOrder(t) && Touch(e, h)
    ensures Reached(t, h).Node?
  {
    SubSorted(t);
    ClassifyExact(t.iv, h);
    if !Touch(t.iv, h) {
      TrueMaxBounds(t.left);
      GuidedFinds(if e in InOrder(t.left) then t.left else t.right, h, e);
    }
  }

  /** `h` lies between the first start and the last end in `t`, touches something there,
      and is not found. */
  ghost predicate Misses(t: Tree, h: Interval) {
    && h.Valid() && InOrder(t) != [] && InOrder(t)[0].start <= h.start && h.end <= TrueMax(t)
    && (exists e <- InOrder(t) :: Touch(e, h)) && Reached(t, h).Nil?
  }

  lemma MissesLeft(t: Tree, h: Interval)
    requires t.Node? && Sorted(InOrder(t)) && Misses(t.left, h)
    ensures Misses(t, h)
  {
    SubSorted(t);
    TrueMaxBounds(t.left);
    ClassifyExact(t.iv, h);
    NothingReached(t.right, h);
  }

  lemma MissesRight(t: Tree, h: Interval)
    requires t.Node? && Sorted(InOrder(t)) && Misses(t.right, h)
    ensures Misses(t, h)
  {
    SubSorted(t);
    assert InOrder(t.right)[0] in InOrder(t.right);
    ClassifyExact(t.iv, h);
    NothingReached(t.left, h);
    FirstLeft(t);
  }

  lemma FirstLeft(t: Tree)
    requires t.Node? && Sorted(InOrder(t))
    ensures InOrder(t)[0].start <= t.iv.start
  {
    SubSorted(t);
    assert t.left.Node? ==> InOrder(t)[0] in InOrder(t.left);
  }

  /** A left maximum that is too small hides the interval with the last end. */
  lemma SmallMisses(t: Tree) returns (h: Interval)
    requires t.Node? && Sorted(InOrder(t)) && t.left.Node? && t.left.max < TrueMax(t.left)
    ensures Misses(t, h)
  {
    h := Interval(TrueMax(t.left), TrueMax(t.left));
    SubSorted(t);
    TrueMaxBounds(t.left);
    var e :| e in InOrder(t.left) && e.end == TrueMax(t.left);
    assert e in InOrder(t) && Touch(e, h);
    ClassifyExact(t.iv, h);
    NothingReached(t.right, h);
    var first := InOrder(t.left)[0];
    assert first in InOrder(t.left) && InOrder(t)[0] == first;
  }

  /** One that is too large draws a search away from the intervals to the right. */
  lemma LargeMisses(t: Tree) returns (h: Interval)
    requires t.Node? && Sorted(InOrder(t)) && t.left.Node? && t.right.Node? && t.iv.end < t.left.max
    ensures Misses(t, h)
  {
    h := Interval(t.iv.end + 1, TrueMax(t.right));
    SubSorted(t);
    TrueMaxBounds(t.right);
    var e :| e in InOrder(t.right) && e.end == TrueMax(t.right);
    assert e in InOrder(t) && e.Valid() && Touch(e, h);
    ClassifyExact(t.iv, h);
    NothingReached(t.left, h);
    FirstLeft(t);
  }

  lemma {:induction false} UnguidedMisses(t: Tree) returns (h: Interval)
    requires Sorted(InOrder(t)) && !Guides(t)
    ensures Misses(t, h)
  {
    SubSorted(t);
    if !Guides(t.left) {
      h := UnguidedMisses(t.left);
      MissesLeft(t, h);
    } else if !Guides(t.right) {
      h := UnguidedMisses(t.right);
      MissesRight(t, h);
    } else if t.left.max < TrueMax(t.left) {
      h := SmallMisses(t);
    } else {
      h := LargeMisses(t);
    }
  }

  /** Whatever the maxima, all searches are right exactly when these guide them. */
  lemma SearchesRight(t: Tree)
    requires Sorted(InOrder(t))
    ensures (forall h: Interval :: h.Valid() ==> Finds(t, h)) <==> Guides(t)
  {
    if Guides(t) {
      forall h: Interval | h.Valid()
        ensures Finds(t, h)
      {
        ReachedTouches(t, h);
        if e :| e in InOrder(t) && Touch(e, h) {
          GuidedFinds(t, h, e);
        }
      }
    } else {
      var h := UnguidedMisses(t);
      assert !Finds(t, h);
    }
  }

  /** Exact maxima guide. */
  lemma {:induction false} ExactGuides(t: Tree)
    requires Sorted(InOrder(t)) && Exact(t)
    ensures Guides(t)
  {
    if t.Node? {
      SubSorted(t);
      ExactGuides(t.left);
      ExactGuides(t.right);
      TrueMaxBounds(t.left);
    }
  }

  // --- beyond 32 bits ---

  /** The intervals on the way from the root to the right. */
  ghost function RightSpine(t: Tree): seq<Interval> {
    if t.Nil? then [] else [t.iv] + RightSpine(t.right)
  }

  /** An interval that starts at 2^32 or later lies beyond every maximum a tree can
      hold, so the search for it never goes left: it finds something exactly when an
      interval on the right spine touches. */
  lemma {:induction false} FarSearch(t: Tree, h: Interval)
    requires Narrow(t) && LIMIT <= h.start && h.Valid() && forall e <- InOrder(t) :: e.Valid()
    ensures Reached(t, h).Node? <==> exists e <- RightSpine(t) :: Touch(e, h)
  {
    if t.Node? {
      assert t.iv in InOrder(t);
      ClassifyExact(t.iv, h);
      FarSearch(t.right, h);
      assert forall e :: e in RightSpine(t) <==> e == t.iv || e in RightSpine(t.right);
    }
  }

  lemma {:induction false} NothingReached(t: Tree, h: Interval)
    requires h.Valid() && forall e <- InOrder(t) :: e.Valid() && !Touch(e, h)
    ensures Reached(t, h).Nil?
  {
    if t.Node? {
      assert t.iv in InOrder(t);
      ClassifyExact(t.iv, h);
      NothingReached(t.left, h);
      NothingReached(t.right, h);
    }
  }

  /** A merge whose search finds nothing is right exactly when nothing touches, or when
      the key is there and the interval lies inside one that is stored. */
  lemma MissedMerge(t: Tree, h: Interval, t': Tree, code: nat)
    requires Apart(Elements(t)) && h.Valid() && Added(t, h, t', code)
    ensures Elements(t') == Merge(Elements(t), h) <==>
              || (forall e <- Elements(t) :: !Touch(e, h))
              || (HasKey(t, h.start) && exists e <- Elements(t) :: Within(h, e))
  {
    var s := Elements(t);
    MergeSound(s, h);
    assert HasKey(t, h.start) <==> exists e <- s :: e.start == h.start;
    if forall e <- s :: !Touch(e, h) {
      MergeFresh(s, h);
    } else if code == 1 {
      KeyMerge(s, h);
    } else {
      var e :| e in s && Touch(e, h);
      assert e in Elements(t') && h in Elements(t') && e != h;
    }
  }

  lemma KeyMerge(s: set<Interval>, h: Interval)
    requires Apart(s) && h.Valid()
    ensures Merge(s, h) == s <==> exists e <- s :: Within(h, e)
  {
    var hull := HullAll(Touching(s, h), h);
    assert hull in Merge(s, h) && Within(h, hull);
    if exists e <- s :: Within(h, e) {
      var e :| e in s && Within(h, e);
      MergeWithin(s, h, e);
    }
  }

  /** A red-black tree of three has the middle one at its root. */
  lemma {:induction false} ThreeBalanced(t: Tree)
    requires RedBlack(t) && IsBlack(t) && |InOrder(t)| == 3
    ensures RightSpine(t) == InOrder(t)[1..]
  {
    BlackHeightBounds(t.left);
    BlackHeightBounds(t.right);
    assert |InOrder(t.left)| == |InOrder(t.right)| == 1;
    assert t.right.right.Nil?;
    assert RightSpine(t.right.right) == [];
  }

  /** Sorted by key, a set of intervals is one sequence. */
  lemma {:induction false} OneOrder(s: seq<Interval>, t: seq<Interval>)
    requires KeySorted(s) && KeySorted(t) && forall e :: e in s <==> e in t
    ensures s == t
  {
    assert |t| > 0 ==> t[0] in t;
    if s != [] {
      assert s[0] in t && t != [] && t[0] in s;
      var i, j :| 0 <= i < |s| && s[i] == t[0] && 0 <= j < |t| && t[j] == s[0];
      assert i == 0 || j == 0;
      forall e
        ensures e in s[1..] <==> e in t[1..]
      {
        Tail(s, e);
        Tail(t, e);
      }
      OneOrder(s[1..], t[1..]);
      assert s == [s[0]] + s[1..] && t == [t[0]] + t[1..];
    }
  }

  lemma Tail(s: seq<Interval>, e: Interval)
    requires KeySorted(s) && s != []
    ensures e in s[1..] <==> e in s && e != s[0]
  {
    if e in s[1..] {
      var i :| 0 <= i < |s| - 1 && s[1..][i] == e;
      assert s[i + 1] == e;
    }
    if e in s && e != s[0] {
      var i :| 0 <= i < |s| && s[i] == e;
      assert s[1..][i - 1] == e;
    }
  }

  /** Four calls that leave two touching intervals in the tree: the first of three
      intervals beyond 2^32 is off the right spine, so the fourth, which touches it, is
      added beside it. */
  method TruncatedMaxMisses() returns (m: Merger)
    ensures Usable(m.root)
    ensures !Apart(m.Contents())
  {
    var x, y, z := Interval(LIMIT, LIMIT + 1), Interval(LIMIT + 10, LIMIT + 11), Interval(LIMIT + 20, LIMIT + 21);
    var n := Interval(LIMIT + 1, LIMIT + 2);
    m := new Merger();
    AddApart(m, x);
    AddApart(m, y);
    AddApart(m, z);
    assert m.Contents() == {x, y, z};
    assert forall e :: e in InOrder(m.root) <==> e in m.Contents();
    OneOrder(InOrder(m.root), [x, y, z]);
    ThreeBalanced(m.root);
    FarSearch(m.root, n);
    assert !HasKey(m.root, n.start);
    var code := m.MergeIntervals(n);
    assert x in m.Contents() && n in m.Contents() && Touch(x, n);
  }

  method AddApart(m: Merger, h: Interval)
    requires Usable(m.root) && Narrow(m.root) && h.Valid() && forall e <- m.Contents() :: !Touch(e, h)
    modifies m
    ensures Usable(m.root) && Narrow(m.root) && m.Contents() == old(m.Contents()) + {h}
  {
    assert forall e <- InOrder(m.root) :: e in m.Contents();
    NothingReached(m.root, h);
    var code := m.MergeIntervals(h);
  }
}
