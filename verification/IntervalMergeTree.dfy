/** The interval merger: search for a touching interval, delete it, widen the new
    one and start again, until nothing touches and the result is inserted. */
module IntervalMergeTree {
  import opened Extents
  import opened IntervalTree
  import opened TreeDeletion

  datatype Overlap = NoOverlap | C1 | C2 | C3 | C4 | Same

  const CONSUME: nat := 2

  /** How a stored interval `n` lies to a new one `i`. */
  function Classify(n: Interval, i: Interval): Overlap {
    if n.start == i.start && n.end == i.end then Same
    else if n.start <= i.start && n.end >= i.end then C3
    else if n.start >= i.start && n.end <= i.end then C4
    else if n.start <= i.start && i.start <= n.end && n.end <= i.end then C1
    else if n.start >= i.start && n.start <= i.end && n.end >= i.end then C2
    else NoOverlap
  }

  /** The cases are exhaustive, and each names the hull the merger builds for it. */
  lemma ClassifyExact(n: Interval, i: Interval)
    requires n.Valid() && i.Valid()
    ensures Classify(n, i) != NoOverlap <==> Touch(n, i)
    ensures Classify(n, i) in {Same, C3} <==> Within(i, n)
    ensures Classify(n, i) == Same <==> n == i
    ensures Classify(n, i) == C1 ==> Interval(n.start, i.end) == Hull(i, n)
    ensures Classify(n, i) == C2 ==> Interval(i.start, n.end) == Hull(i, n)
    ensures Classify(n, i) == C4 ==> i == Hull(i, n)
  {
  }

  // --- search ---

  lemma {:induction false} StaleDown(p: Path, x: Tree, h: Interval)
    requires x.Node? && OnWay(p, h) && CtxStale(p, h, TrueMax(x)) && Stale(x, h)
    requires h.Valid() && x.iv.Valid() && !Touch(x.iv, h)
    ensures var d := if h.end < x.iv.start then Left else Right;
      var q := Unzip(d, p, x);
      && OnWay(q, h) && CtxStale(q, h, TrueMax(Near(d, x))) && Stale(Near(d, x), h) && Exact(Far(d, x))
  {
    var d := if h.end < x.iv.start then Left else Right;
    BuildMax(d, x.color, Near(d, x), x.iv, x.max, Far(d, x));
  }

  /** Going by the maxima never leaves a touching interval behind. */
  lemma {:induction false} SearchStep(x: Tree, h: Interval)
    requires x.Node? && Sorted(InOrder(x)) && Stale(x, h) && h.Valid() && !Touch(x.iv, h)
    ensures var left := x.left.Node? && x.left.max >= h.start;
      && (forall e <- InOrder(x) :: Touch(e, h) ==> e in InOrder(if left then x.left else x.right))
      && (left ==> h.end < x.iv.start)
      && (h.end < x.iv.start && !left ==> forall e <- InOrder(x) :: !Touch(e, h))
  {
    SubSorted(x);
    TrueMaxBounds(x.left);
    if h.end < x.iv.start {
      MaxOfStale(true, x.left, h);
    } else {
      ExactMax(x.left);
    }
  }

  /** Where the search ends: at an overlapping node or outside the tree. */
  function Reached(t: Tree, h: Interval): Tree {
    if t.Nil? || Classify(t.iv, h) != NoOverlap then t
    else Reached(if t.left.Node? && t.left.max >= h.start then t.left else t.right, h)
  }

  /** The search goes by the maxima whatever they are.  When they are stale at most
      where the interval sought excuses it, it finds a touching interval if and only
      if there is one. */
  method Search(tree: Tree, h: Interval) returns (p: Path, x: Tree, oc: Overlap)
    ensures Plug(p, x) == tree && x == Reached(tree, h)
    ensures if x.Nil? then oc == NoOverlap else oc == Classify(x.iv, h) != NoOverlap && x.iv in InOrder(tree)
    ensures Sorted(InOrder(tree)) && Stale(tree, h) && h.Valid() ==> Sought(tree, h, p, x)
  {
    p, x, oc := Top, tree, NoOverlap;
    ghost var fit, lost := Sorted(InOrder(tree)) && Stale(tree, h) && h.Valid(), false;
    while x.Node?
      invariant Plug(p, x) == tree && Reached(tree, h) == Reached(x, h) && oc == NoOverlap
      invariant fit ==> Seeking(tree, h, p, x, lost)
      decreases x
    {
      assert x.iv in InOrder(x);
      oc := Classify(x.iv, h);
      if oc != NoOverlap {
        PlugSplit(p, x);
        if fit {
          SeekingFound(tree, h, p, x, lost);
        }
        return;
      }
      var d := if x.left.Node? && x.left.max >= h.start then Left else Right;
      if fit {
        lost := SeekingDown(tree, h, p, x, lost);
      }
      p, x := Unzip(d, p, x), Near(d, x);
    }
  }

  /** The outcome of a search for `h`. */
  ghost predicate Sought(tree: Tree, h: Interval, p: Path, x: Tree) {
    && (x.Nil? ==> forall e <- InOrder(tree) :: !Touch(e, h))
    && (x.Node? ==> x.iv.Valid() && OnWay(p, h) && CtxStale(p, h, TrueMax(x)) && Exact(x))
  }

  /** What touches `h` is in the subtree `x`, and nothing is once the way is `lost`. */
  ghost predicate Seeking(tree: Tree, h: Interval, p: Path, x: Tree, lost: bool) {
    && h.Valid() && Sorted(InOrder(x))
    && (forall e <- InOrder(tree) :: Touch(e, h) ==> e in InOrder(x))
    && (lost ==> forall e <- InOrder(x) :: !Touch(e, h))
    && (!lost ==> OnWay(p, h) && CtxStale(p, h, TrueMax(x)) && Stale(x, h))
  }

  lemma SeekingFound(tree: Tree, h: Interval, p: Path, x: Tree, lost: bool)
    requires Seeking(tree, h, p, x, lost) && x.Node? && Classify(x.iv, h) != NoOverlap
    ensures Sought(tree, h, p, x)
  {
    SubSorted(x);
    assert x.iv in InOrder(x);
    ClassifyExact(x.iv, h);
  }

  lemma SeekingDown(tree: Tree, h: Interval, p: Path, x: Tree, lost: bool) returns (lost': bool)
    requires Seeking(tree, h, p, x, lost) && x.Node? && Classify(x.iv, h) == NoOverlap
    ensures var d := if x.left.Node? && x.left.max >= h.start then Left else Right;
      Seeking(tree, h, Unzip(d, p, x), Near(d, x), lost')
  {
    SubSorted(x);
    ClassifyExact(x.iv, h);
    lost' := lost;
    if !lost {
      SearchStep(x, h);
      StaleDown(p, x, h);
      lost' := !(x.left.Node? && x.left.max >= h.start) && h.end < x.iv.start;
    }
  }

  // --- the maxima above a deleted node ---

  lemma {:induction false} StaleReplace(p: Path, t: Tree, t': Tree, h: Interval)
    requires TrueMax(t) == TrueMax(t')
    requires Stale(t, h) ==> Stale(t', h)
    requires Exact(t) ==> Exact(t')
    ensures Stale(Plug(p, t), h) ==> Stale(Plug(p, t'), h)
    decreases p
  {
    if p.Frame? {
      BuildMax(p.dir, p.color, t, p.iv, p.max, p.sib);
      BuildMax(p.dir, p.color, t', p.iv, p.max, p.sib);
      StaleReplace(p.up, Fill(p, t), Fill(p, t'), h);
    }
  }

  lemma {:induction false} RecomputeStale(t: Tree, h: Interval)
    requires t.Node? && TrueMax(t) < LIMIT
    ensures TrueMax(Recompute(t)) == TrueMax(t)
    ensures Exact(t) ==> Exact(Recompute(t))
    ensures Stale(t, h) ==> Stale(Recompute(t), h)
  {
    if Exact(t) {
      RecomputeExact(t);
    }
    if Stale(t, h) && (h.end < t.iv.start || t.iv.end < h.start) {
      MaxOfStale(h.end < t.iv.start, t.left, h);
      MaxOfStale(!(h.end < t.iv.start), t.right, h);
      RecomputeBounds(t, TrueMax(t), Max(TrueMax(t), Cap(h)));
    }
  }

  /** The maximum of a node follows from its interval and its children's maxima. */
  ghost predicate Fits(x: Tree)
    requires x.Node?
  {
    x.max == U32(IntervalMax(x.iv.end, MaxOf(x.left), MaxOf(x.right)))
  }

  ghost predicate AllFit(t: Tree) {
    t.Node? ==> Fits(t) && AllFit(t.left) && AllFit(t.right)
  }

  /** All maxima of `t` fit but for those of nodes with key `k`. */
  ghost predicate FitBut(t: Tree, k: nat) {
    t.Node? ==> (Fits(t) || (t.iv.start == k && t.max < LIMIT)) && FitBut(t.left, k) && FitBut(t.right, k)
  }

  /** All maxima around a hole fit if it is filled by a tree with maximum `m`. */
  ghost predicate CtxFit(p: Path, m: nat) {
    p.Frame? ==>
      && p.max == U32(IntervalMax(p.iv.end, m, MaxOf(p.sib))) && AllFit(p.sib)
      && CtxFit(p.up, p.max)
  }

  lemma {:induction false} NoSuchKey(t: Tree, k: nat)
    requires FitBut(t, k) && forall e <- InOrder(t) :: e.start != k
    ensures AllFit(t)
  {
    if t.Node? {
      assert t.iv in InOrder(t);
      NoSuchKey(t.left, k);
      NoSuchKey(t.right, k);
    }
  }

  lemma KeysApart(t: Tree)
    requires t.Node? && KeySorted(InOrder(t))
    ensures KeySorted(InOrder(t.left)) && KeySorted(InOrder(t.right))
    ensures forall e <- InOrder(t.left) :: e.start < t.iv.start
    ensures forall e <- InOrder(t.right) :: t.iv.start < e.start
  {
    KeyParts(InOrder(t.left), t.iv, InOrder(t.right));
  }

  lemma KeyParts(a: seq<Interval>, x: Interval, b: seq<Interval>)
    requires KeySorted(a + [x] + b)
    ensures KeySorted(a) && KeySorted(b)
    ensures (forall e <- a :: e.start < x.start) && forall e <- b :: x.start < e.start
  {
    var s := a + [x] + b;
    assert s[|a|] == x;
    assert forall i :: 0 <= i < |a| ==> s[i] == a[i];
    assert forall i :: 0 <= i < |b| ==> s[|a| + 1 + i] == b[i];
  }

  /** Where the search for key `k` stands when only that node may be wrong. */
  ghost predicate Seeks(p: Path, x: Tree, k: nat) {
    KeySorted(InOrder(x)) && FitBut(x, k) && CtxFit(p, MaxOf(x))
  }

  lemma SeeksDown(p: Path, x: Tree, k: nat)
    requires x.Node? && x.iv.start != k && Seeks(p, x, k)
    ensures var d := if k < x.iv.start then Left else Right; Seeks(Unzip(d, p, x), Near(d, x), k)
  {
    KeysApart(x);
    if k < x.iv.start {
      NoSuchKey(x.right, k);
    } else {
      NoSuchKey(x.left, k);
    }
  }

  /** All maxima fit but for that of `x`. */
  ghost predicate AllElse(p: Path, x: Tree) {
    && CtxFit(p, MaxOf(x))
    && (x.Node? ==> x.max < LIMIT && AllFit(x.left) && AllFit(x.right))
  }

  lemma SeeksEnd(p: Path, x: Tree, k: nat)
    requires Seeks(p, x, k) && (x.Nil? || x.iv.start == k)
    ensures AllElse(p, x)
  {
    if x.Node? {
      KeysApart(x);
      NoSuchKey(x.left, k);
      NoSuchKey(x.right, k);
    }
  }

  lemma {:induction false} PlugFit(p: Path, x: Tree)
    requires AllFit(x) && CtxFit(p, MaxOf(x))
    ensures AllFit(Plug(p, x))
    decreases p
  {
    if p.Frame? {
      PlugFit(p.up, Fill(p, x));
    }
  }

  /** Recompute the maxima from the node with key `k` upwards, stopping at the
      first one that does not change.  If all other maxima fit what they are computed from,
      all do then. */
  method UpdateMax(tree: Tree, k: nat, ghost h: Interval) returns (root: Tree)
    requires RedBlack(tree) && IsBlack(tree)
    ensures RedBlack(root) && IsBlack(root) && InOrder(root) == InOrder(tree)
    ensures Stale(tree, h) && TrueMax(tree) < LIMIT ==> Stale(root, h)
    ensures KeySorted(InOrder(tree)) && FitBut(tree, k) ==> AllFit(root)
  {
    var p, x := Top, tree;
    ghost var fit := KeySorted(InOrder(tree)) && FitBut(tree, k);
    while x.Node? && x.iv.start != k
      invariant Plug(p, x) == tree
      invariant fit ==> Seeks(p, x, k)
      decreases x
    {
      if fit {
        SeeksDown(p, x, k);
      }
      var d := if k < x.iv.start then Left else Right;
      p, x := Unzip(d, p, x), Near(d, x);
    }
    if fit {
      SeeksEnd(p, x, k);
    }
    while x.Node?
      invariant fit ==> AllElse(p, x)
      invariant RedBlack(Plug(p, x)) && IsBlack(Plug(p, x)) && InOrder(Plug(p, x)) == InOrder(tree)
      invariant Stale(tree, h) && TrueMax(tree) < LIMIT ==> Stale(Plug(p, x), h)
      decreases Depth(p)
    {
      if IntervalMax(x.iv.end, MaxOf(x.left), MaxOf(x.right)) == x.max {
        break;
      }
      RecomputeInside(p, x, tree, h);
      x := Recompute(x);
      if p.Top? {
        break;
      }
      p, x := p.up, Fill(p, x);
    }
    if fit {
      PlugFit(p, x);
    }
    root := Plug(p, x);
  }

  lemma {:induction false} RecomputeInside(p: Path, x: Tree, tree: Tree, h: Interval)
    requires x.Node? && RedBlack(Plug(p, x)) && IsBlack(Plug(p, x)) && InOrder(Plug(p, x)) == InOrder(tree)
    ensures var t := Plug(p, Recompute(x));
      && RedBlack(t) && IsBlack(t) && InOrder(t) == InOrder(tree)
      && (Stale(Plug(p, x), h) && TrueMax(tree) < LIMIT ==> Stale(t, h))
  {
    Unplug(p, x);
    BuildRedBlack(Left, x.color, x.left, x.iv, x.max, x.right);
    BuildRedBlack(Left, x.color, x.left, x.iv, Recompute(x).max, x.right);
    PlugRedBlack(p, Recompute(x));
    PlugRootBlack(p, Recompute(x));
    PlugInOrder(p, x, Recompute(x));
    SameMax(Plug(p, x), tree);
    PlugTrueMax(p, x, x);
    if TrueMax(tree) < LIMIT {
      RecomputeStale(x, h);
      StaleReplace(p, x, Recompute(x), h);
    }
  }

  // --- sequences and sets ---

  lemma SortedApart(s: seq<Interval>)
    requires Sorted(s)
    ensures Apart(set e <- s) && KeySorted(s)
  {
  }

  lemma ApartSorted(s: seq<Interval>)
    requires KeySorted(s) && Apart(set e <- s)
    ensures Sorted(s)
  {
    forall i | 0 <= i < |s| ensures s[i].Valid() { assert s[i] in set e <- s; }
    forall i, j | 0 <= i < j < |s| ensures s[i].end < s[j].start {
      var t := set e <- s;
      assert s[i] in t && s[j] in t && s[i] != s[j];
      assert !Touch(s[i], s[j]);
    }
  }

  // --- deleting what touches ---

  lemma {:induction false} OnWayNode(p: Path, x: Tree)
    requires x.Node? && Sorted(InOrder(Plug(p, x)))
    ensures OnWay(p, x.iv)
  {
    assert x.iv in InOrder(x);
    OnWayElement(p, x, x.iv);
  }

  lemma {:induction false} OnWayElement(p: Path, x: Tree, iv: Interval)
    requires iv in InOrder(x) && Sorted(InOrder(Plug(p, x)))
    ensures OnWay(p, iv)
    decreases p
  {
    if p.Frame? {
      PlugSorted(p.up, Fill(p, x));
      SubSorted(Fill(p, x));
      OnWayElement(p.up, Fill(p, x), iv);
    }
  }

  lemma {:induction false} OnWayHull(p: Path, h: Interval, e: Interval, m: nat)
    requires OnWay(p, h) && OnWay(p, e) && CtxStale(p, h, m)
    ensures OnWay(p, Hull(h, e)) && CtxStale(p, Hull(h, e), m)
  {
    if p.Frame? {
      OnWayHull(p.up, h, e, Max(p.iv.end, Max(m, TrueMax(p.sib))));
    }
  }

  /** The search result is fit for deletion, with the hull as the interval to come back. */
  lemma {:induction false} Absorbing(p: Path, x: Tree, h: Interval)
    requires x.Node? && Ordered(p, x) && h.Valid()
    requires OnWay(p, h) && CtxStale(p, h, TrueMax(x)) && Exact(x)
    ensures Absorbs(p, x, Hull(h, x.iv))
  {
    OnWayNode(p, x);
    OnWayHull(p, h, x.iv, TrueMax(x));
    PlugTrueMax(p, x, x);
  }

  lemma {:induction false} DeletedElements(p: Path, x: Tree, s: seq<Interval>)
    requires x.Node? && Sorted(InOrder(Plug(p, x)))
    requires s == Before(p) + InOrder(x.left) + InOrder(x.right) + After(p)
    ensures Sorted(s) && |s| == |InOrder(Plug(p, x))| - 1
    ensures (set e <- s) == Elements(Plug(p, x)) - {x.iv}
    ensures x.iv in Elements(Plug(p, x))
  {
    PlugSplit(p, x);
    WithoutOne(Before(p), InOrder(x.left), x.iv, InOrder(x.right), After(p));
    assert x.iv in InOrder(x);
  }

  // --- the merger ---

  /** A tree that is right, but for maxima excused by the interval `h` to be merged. */
  ghost predicate Loose(t: Tree, h: Interval) {
    && RedBlack(t) && IsBlack(t) && Sorted(InOrder(t)) && TrueMax(t) < LIMIT
    && Stale(t, h) && h.Valid()
    && (Exact(t) || forall e <- InOrder(t) :: !Within(h, e))
  }

  ghost predicate Shaped(t: Tree) {
    RedBlack(t) && IsBlack(t) && Sorted(InOrder(t))
  }

  ghost predicate Proper(t: Tree) {
    Shaped(t) && Exact(t) && TrueMax(t) < LIMIT
  }

  /** What every tree is, in every run: search order and colour rules hold. */
  ghost predicate Usable(t: Tree) {
    RedBlack(t) && IsBlack(t) && KeySorted(InOrder(t)) && forall e <- InOrder(t) :: e.Valid()
  }

  lemma ValidIsUsable(t: Tree)
    requires Proper(t)
    ensures Usable(t)
  {
    SortedApart(InOrder(t));
  }

  /** What a merge into a tree that held `s` should come to. */
  ghost predicate Merged(s: set<Interval>, h: Interval, t: Tree, code: nat) {
    && Shaped(t) && (h.end < LIMIT ==> Proper(t)) && (Exact(t) <==> h.end < LIMIT)
    && Elements(t) == Merge(s, h)
    && (code == 0 || code == CONSUME)
    && (code == CONSUME <==> h !in s && exists e <- s :: Within(h, e))
  }

  /** What it comes to when the search finds nothing: the interval is added, unless
      its key is there. */
  ghost predicate Added(t: Tree, h: Interval, t': Tree, code: nat) {
    && code == (if HasKey(t, h.start) then 1 else 0) && code != CONSUME
    && Elements(t') == Elements(t) + (if code == 1 then {} else {h})
    && (Narrow(t) ==> Narrow(t'))
  }

  /** The tree without the interval absorbed, ready for the wider one. */
  ghost predicate Absorbed(t: Tree, h: Interval, t': Tree, hull: Interval) {
    && Loose(t', hull) && (hull.end < LIMIT <==> h.end < LIMIT)
    && Merge(Elements(t'), hull) == Merge(Elements(t), h)
    && (forall f <- Elements(t') :: !Within(hull, f))
    && (forall f <- Elements(t) :: !Within(h, f))
  }

  lemma Consumed(t: Tree, h: Interval, e: Interval, code: nat)
    requires Loose(t, h) && e in InOrder(t) && Classify(e, h) in {Same, C3}
    requires code == if Classify(e, h) == Same then 0 else CONSUME
    ensures Merged(Elements(t), h, t, code)
  {
    SortedApart(InOrder(t));
    assert e in Elements(t);
    ClassifyExact(e, h);
    MergeWithin(Elements(t), h, e);
    MemberFits(t, e);
  }

  lemma MergedOn(t: Tree, h: Interval, mid: Tree, hull: Interval, t': Tree, code: nat)
    requires Absorbed(t, h, mid, hull) && Merged(Elements(mid), hull, t', code)
    ensures Merged(Elements(t), h, t', code)
  {
    assert h in Elements(t) ==> Within(h, h);
  }

  lemma StillUsable(t: Tree, a: seq<Interval>, b: seq<Interval>, x: Interval, c: seq<Interval>, d: seq<Interval>,
                    t': Tree)
    requires Usable(t) && InOrder(t) == a + (b + [x] + c) + d && RedBlack(t') && IsBlack(t')
    requires InOrder(t') == a + b + c + d
    ensures Usable(t') && |InOrder(t')| == |InOrder(t)| - 1
  {
    var s, s', k := InOrder(t), InOrder(t'), |a| + |b|;
    assert forall i :: 0 <= i < |s'| ==> s'[i] == s[if i < k then i else i + 1];
  }

  lemma InsertedUsable(t: Tree, h: Interval, t': Tree, code: nat)
    requires Usable(t) && h.Valid() && RedBlack(t') && IsBlack(t') && KeySorted(InOrder(t'))
    requires code == 1 ==> InOrder(t') == InOrder(t)
    requires code == 0 ==> Elements(t') == Elements(t) + {h}
    requires code == 0 || code == 1
    ensures Usable(t')
  {
    if code == 0 {
      forall e | e in InOrder(t')
        ensures e.Valid()
      {
        assert e in Elements(t');
      }
    }
  }

  lemma InsertedMerged(t: Tree, h: Interval, t': Tree, code: nat)
    requires Loose(t, h) && forall e <- InOrder(t) :: !Touch(e, h)
    requires code == (if HasKey(t, h.start) then 1 else 0) && RedBlack(t') && IsBlack(t') && KeySorted(InOrder(t'))
    requires code == 0 ==> Elements(t') == Elements(t) + {h}
    requires code == 0 && Ready(t, h) ==> Exact(t')
    requires Narrow(t) ==> Narrow(t')
    ensures Merged(Elements(t), h, t', code)
  {
    SortedApart(InOrder(t));
    MergeFresh(Elements(t), h);
    MergeSound(Elements(t), h);
    InsertedMax(t, h, t');
    ApartSorted(InOrder(t'));
    if h.end >= LIMIT {
      StaleNarrow(t, h);
      TrueMaxBounds(t');
      assert h in Elements(t');
    }
  }

  lemma {:induction false} StaleNarrow(t: Tree, h: Interval)
    requires (Stale(t, h) || Exact(t)) && TrueMax(t) < LIMIT
    ensures Narrow(t)
  {
    if t.Node? {
      StaleNarrow(t.left, h);
      StaleNarrow(t.right, h);
    }
  }

  // --- height ---

  function Pow2(n: nat): nat {
    if n == 0 then 1 else 2 * Pow2(n - 1)
  }

  function Height(t: Tree): nat {
    if t.Nil? then 0 else 1 + Max(Height(t.left), Height(t.right))
  }

  lemma {:induction false} BlackHeightBounds(t: Tree)
    requires RedBlack(t)
    ensures Pow2(BlackHeight(t)) <= |InOrder(t)| + 1
    ensures Height(t) <= 2 * BlackHeight(t) + (if IsBlack(t) then 0 else 1)
  {
    if t.Node? {
      BlackHeightBounds(t.left);
      BlackHeightBounds(t.right);
    }
  }

  lemma {:induction false} Pow2Square(n: nat)
    ensures Pow2(2 * n) == Pow2(n) * Pow2(n)
  {
    if n > 0 {
      Pow2Square(n - 1);
      assert Pow2(2 * n) == 2 * Pow2(2 * n - 1) == 4 * Pow2(2 * (n - 1));
    }
  }

  lemma {:induction false} Pow2Grows(m: nat, n: nat)
    requires m <= n
    ensures 1 <= Pow2(m) <= Pow2(n)
    decreases n
  {
    if n > 0 {
      Pow2Grows(if m == n then m - 1 else m, n - 1);
    }
  }

  lemma MulGrows(a: nat, b: nat)
    requires a <= b
    ensures a * a <= b * b
  {
  }

  /** The height is at most twice the binary logarithm of the number of intervals plus one. */
  lemma HeightBound(t: Tree)
    requires RedBlack(t) && IsBlack(t)
    ensures Pow2(Height(t)) <= (|InOrder(t)| + 1) * (|InOrder(t)| + 1)
  {
    BlackHeightBounds(t);
    Pow2Grows(Height(t), 2 * BlackHeight(t));
    Pow2Square(BlackHeight(t));
    MulGrows(Pow2(BlackHeight(t)), |InOrder(t)| + 1);
  }

  class Merger {
    var root: Tree

    ghost predicate Valid()
      reads this
    {
      Proper(root)
    }

    ghost function Contents(): set<Interval>
      reads this
    {
      Elements(root)
    }

    constructor ()
      ensures Valid() && root == Nil && Contents() == {}
    {
      root := Nil;
    }

    /** Merge `n` into the tree, whatever its maxima.  From a valid tree the contents
        become the merged set, and the tree has exact maxima again exactly when the end
        of `n` fits the 32-bit maximum field. */
    method MergeIntervals(n: Interval) returns (code: nat)
      requires Usable(root) && n.Valid()
      modifies this
      ensures Usable(root)
      ensures old(Valid()) ==> Merged(old(Contents()), n, root, code)
      ensures Reached(old(root), n).Nil? ==> Added(old(root), n, root, code)
    {
      if Valid() {
        ExactIsStale(root, n);
      }
      code := MergeFrom(n);
    }

    method MergeFrom(h: Interval) returns (code: nat)
      requires Usable(root) && h.Valid()
      modifies this
      ensures Usable(root)
      ensures old(Loose(root, h)) ==> Merged(old(Contents()), h, root, code)
      ensures Reached(old(root), h).Nil? ==> Added(old(root), h, root, code)
      decreases |InOrder(root)|
    {
      if root.Nil? {
        code := InsertNew(h);
        return;
      }
      var p, x, oc := Search(root, h);
      if oc == NoOverlap {
        code := InsertNew(h);
        return;
      }
      var e := x.iv;
      ClassifyExact(e, h);
      if oc == Same || oc == C3 {
        code := if oc == Same then 0 else CONSUME;
        if Loose(root, h) {
          Consumed(root, h, e, code);
        }
        return;
      }
      ghost var before := root;
      var hull := Absorb(p, x, oc, h);
      label Absorbed:
      code := MergeFrom(hull);
      if old(Loose(root, h)) {
        MergedOn(before, h, old@Absorbed(root), hull, root, code);
      }
    }

    /** Delete the overlapping node in focus and return the interval that stands for both. */
    method Absorb(p: Path, x: Tree, oc: Overlap, h: Interval) returns (hull: Interval)
      requires Usable(root) && h.Valid() && Plug(p, x) == root && x.Node? && x.iv in InOrder(root)
      requires oc == Classify(x.iv, h) && oc in {C1, C2, C4}
      modifies this
      ensures Usable(root) && hull.Valid() && |InOrder(root)| < |InOrder(old(root))|
      ensures old(Loose(root, h)) && Sought(old(root), h, p, x) ==> Absorbed(old(root), h, root, hull)
    {
      var e := x.iv;
      ClassifyExact(e, h);
      hull := match oc
        case C1 => Interval(e.start, h.end)
        case C2 => Interval(h.start, e.end)
        case _ => h;
      ghost var before, fit := root, Loose(root, h) && Sought(root, h, p, x);
      if fit {
        Absorbing(p, x, h);
      }
      PlugSplit(p, x);
      root := Delete(p, x, hull);
      StillUsable(before, Before(p), InOrder(x.left), e, InOrder(x.right), After(p), root);
      if fit {
        DeletedElements(p, x, InOrder(root));
        Shrunk(before, root);
      }
      if oc == C4 && p.Frame? {
        root := UpdateMax(root, p.iv.start, hull);
      }
      if fit {
        Widened(before, root, h, e);
      }
    }

    method InsertNew(h: Interval) returns (code: nat)
      requires Usable(root) && h.Valid()
      modifies this
      ensures Usable(root) && Added(old(root), h, root, code)
      ensures old(Loose(root, h)) && (forall e <- old(InOrder(root)) :: !Touch(e, h)) ==>
                Merged(old(Contents()), h, root, code)
    {
      ghost var before := root;
      code, root := Insert(root, h);
      InsertedUsable(before, h, root, code);
      if Loose(before, h) && forall e <- InOrder(before) :: !Touch(e, h) {
        InsertedMerged(before, h, root, code);
      }
    }

    /** Delete the interval that starts first; in a valid tree it lies before all others. */
    method DeleteMinNode() returns (n: Interval)
      requires Usable(root) && Contents() != {}
      modifies this
      ensures Usable(root) && n in old(Contents()) && forall e <- old(Contents()) :: n.start <= e.start
      ensures InOrder(root) == old(InOrder(root))[1..]
      ensures old(Valid()) ==>
                Valid() && Contents() == old(Contents()) - {n} && forall e <- Contents() :: n.end < e.start
    {
      var p, y := LeftMost(root);
      n := y.iv;
      ghost var before := root;
      if Valid() {
        UnplugExact(p, y);
        OnWayNode(p, y);
        ExactCtxIsStale(p, n, TrueMax(y));
        PlugTrueMax(p, y, y);
      }
      LeastFirst(p, y);
      root := Delete(p, y, n);
      FirstGone(before, root, n);
      if Proper(before) {
        LeastGone(before, root, n);
      }
    }
  }

  lemma FirstGone(t: Tree, t': Tree, n: Interval)
    requires Usable(t) && InOrder(t) == [n] + InOrder(t') && RedBlack(t') && IsBlack(t')
    ensures Usable(t') && InOrder(t') == InOrder(t)[1..]
    ensures n in Elements(t) && forall e <- Elements(t) :: n.start <= e.start
  {
    assert InOrder(t)[0] == n;
    assert forall i :: 0 <= i < |InOrder(t')| ==> InOrder(t')[i] == InOrder(t)[i + 1];
  }

  lemma LeastFirst(p: Path, y: Tree)
    requires y.Node? && y.left.Nil? && AllLeft(p)
    ensures InOrder(Plug(p, y)) == [y.iv] + (Before(p) + InOrder(y.left) + InOrder(y.right) + After(p))
  {
    PlugSplit(p, y);
    AllLeftBefore(p);
  }

  lemma HeadGone(s: seq<Interval>, n: Interval, s': seq<Interval>)
    requires Sorted(s) && s == [n] + s'
    ensures Sorted(s') && forall i :: 0 <= i < |s'| ==> n.end < s'[i].start <= s'[i].end && s'[i] != n
    ensures (set e <- s') == (set e <- s) - {n}
  {
    assert s[0] == n && forall i :: 0 <= i < |s'| ==> s'[i] == s[i + 1];
  }

  lemma LeastGone(t: Tree, t': Tree, n: Interval)
    requires Proper(t) && RedBlack(t') && IsBlack(t') && Stale(t', n) && InOrder(t) == [n] + InOrder(t')
    ensures Proper(t') && Elements(t') == Elements(t) - {n} && forall e <- Elements(t') :: n.end < e.start
  {
    HeadGone(InOrder(t), n, InOrder(t'));
    StaleIsExact(t', n);
    Shrunk(t, t');
  }

  lemma {:induction false} Shrunk(t: Tree, t': Tree)
    requires Elements(t') <= Elements(t)
    ensures TrueMax(t) < LIMIT ==> TrueMax(t') < LIMIT
  {
    TrueMaxBounds(t);
    TrueMaxBounds(t');
    assert forall e <- InOrder(t') :: e in Elements(t');
  }

  lemma {:induction false} MemberFits(t: Tree, e: Interval)
    requires e in Elements(t)
    ensures e.end <= TrueMax(t)
  {
    TrueMaxBounds(t);
  }

  /** After a deletion the wider interval is ready to be merged, with the same outcome. */
  lemma {:induction false} Widened(t: Tree, t': Tree, h: Interval, e: Interval)
    requires Loose(t, h) && e in Elements(t) && Touch(e, h) && !Within(h, e)
    requires RedBlack(t') && IsBlack(t') && Sorted(InOrder(t')) && Elements(t') == Elements(t) - {e}
    requires Stale(t', Hull(h, e))
    ensures Loose(t', Hull(h, e))
    ensures Merge(Elements(t), h) == Merge(Elements(t'), Hull(h, e))
    ensures forall f <- Elements(t') :: !Within(Hull(h, e), f)
    ensures forall f <- Elements(t) :: !Within(h, f)
    ensures Hull(h, e).end < LIMIT <==> h.end < LIMIT
  {
    MemberFits(t, e);
    SortedApart(InOrder(t));
    MergeStep(Elements(t), h, e);
    Shrunk(t, t');
    forall f | f in Elements(t') ensures !Within(Hull(h, e), f) { assert !Touch(e, f); }
    forall f | f in Elements(t) ensures !Within(h, f) { assert f == e || !Touch(e, f); }
    assert forall f <- InOrder(t') :: f in Elements(t');
  }
}
