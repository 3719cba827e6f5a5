/** Deletion from the interval merge tree: unlinking a node, and the repair loop. */
module TreeDeletion {
  import opened Extents
  import opened IntervalTree

  // --- one iteration of the repair ---

  /** A red sibling is rotated above the parent; the focus gets a black sibling. */
  function RedSibling(p: Path, x: Tree): Path
    requires p.Frame? && p.sib.Node?
  {
    var t := Rotate(p.dir, Build(p.dir, Red, x, p.iv, p.max, Paint(p.sib, Black)));
    Unzip(p.dir, Unzip(p.dir, p.up, t), Near(p.dir, t))
  }

  /** A black sibling with black children turns red and the focus moves up. */
  function PushUp(p: Path, x: Tree): Tree
    requires p.Frame?
  {
    Build(p.dir, p.color, x, p.iv, p.max, Paint(p.sib, Red))
  }

  /** The sibling, turned so that its far child is red, with that child painted black. */
  function Sibling(p: Path): Tree
    requires p.Frame? && p.sib.Node?
    requires !IsBlack(Near(p.dir, p.sib)) || !IsBlack(Far(p.dir, p.sib))
  {
    var w, d := p.sib, p.dir;
    if IsBlack(Far(d, w)) then
      var t := Rotate(d.Other(), Build(d, Red, Paint(Near(d, w), Black), w.iv, w.max, Far(d, w)));
      Build(d, p.color, Near(d, t), t.iv, t.max, Paint(Far(d, t), Black))
    else
      Build(d, p.color, Near(d, w), w.iv, w.max, Paint(Far(d, w), Black))
  }

  /** The last rotation, after which the deficit is gone. */
  function Settle(p: Path, x: Tree): Tree
    requires p.Frame? && p.sib.Node?
    requires !IsBlack(Near(p.dir, p.sib)) || !IsBlack(Far(p.dir, p.sib))
  {
    Rotate(p.dir, Build(p.dir, Black, x, p.iv, p.max, Sibling(p)))
  }

  // --- shape ---

  /** The focus is one black node short; it may be red over a red child, as it is
      about to be painted black. */
  ghost predicate Deficient(p: Path, x: Tree) {
    && (x.Node? ==> RedBlack(x.left) && RedBlack(x.right) && BlackHeight(x.left) == BlackHeight(x.right))
    && CtxRedBlack(p, BlackHeight(x) + 1)
    && RootBlack(p)
  }

  lemma {:induction false} RedSiblingShape(p: Path, x: Tree)
    requires Deficient(p, x) && IsBlack(x) && p.Frame? && !IsBlack(p.sib)
    ensures var q := RedSibling(p, x);
      && Deficient(q, x) && q.dir == p.dir && q.color.Red? && IsBlack(q.sib) && q.sib.Node?
      && q.up.Frame? && q.up.up == p.up
  {
    var d, w, q := p.dir, p.sib, RedSibling(p, x);
    assert p.color.Black?;
    BuildRedBlack(d, Red, Near(d, w), w.iv, w.max, Far(d, w));
    assert q.sib == Near(d, w) && q.up.sib == Far(d, w);
    assert CtxRedBlack(q.up, BlackHeight(x) + 1);
  }

  lemma {:induction false} PushUpShape(p: Path, x: Tree)
    requires Deficient(p, x) && IsBlack(x) && p.Frame? && p.sib.Node? && IsBlack(p.sib)
    requires IsBlack(p.sib.left) && IsBlack(p.sib.right)
    ensures Deficient(p.up, PushUp(p, x))
  {
    var w := p.sib;
    BuildRedBlack(Left, Red, w.left, w.iv, w.max, w.right);
    BuildRedBlack(p.dir, p.color, x, p.iv, p.max, Paint(w, Red));
  }

  lemma {:induction false} SiblingShape(p: Path)
    requires p.Frame? && p.sib.Node? && RedBlack(p.sib) && IsBlack(p.sib)
    requires !IsBlack(Near(p.dir, p.sib)) || !IsBlack(Far(p.dir, p.sib))
    ensures var w, n := Sibling(p), BlackHeight(p.sib) - 1;
      && w.Node? && w.color == p.color
      && RedBlack(Near(p.dir, w)) && BlackHeight(Near(p.dir, w)) == n
      && RedBlack(Far(p.dir, w)) && BlackHeight(Far(p.dir, w)) == n + 1 && IsBlack(Far(p.dir, w))
  {
    var d, w := p.dir, p.sib;
    var near, far := Near(d, w), Far(d, w);
    BuildRedBlack(d, Black, near, w.iv, w.max, far);
    if IsBlack(far) {
      BuildRedBlack(d, Red, Near(d, near), near.iv, near.max, Far(d, near));
      BuildRedBlack(d, Black, Far(d, near), w.iv, Far(d, Sibling(p)).max, far);
    } else {
      BuildRedBlack(d, Red, Near(d, far), far.iv, far.max, Far(d, far));
      BuildRedBlack(d, Black, Near(d, far), far.iv, far.max, Far(d, far));
    }
  }

  lemma {:induction false} SettleShape(p: Path, x: Tree)
    requires Deficient(p, x) && IsBlack(x) && p.Frame? && p.sib.Node? && IsBlack(p.sib)
    requires !IsBlack(Near(p.dir, p.sib)) || !IsBlack(Far(p.dir, p.sib))
    ensures RedBlack(Plug(p.up, Settle(p, x)))
  {
    SiblingShape(p);
    var d, w, t := p.dir, Sibling(p), Settle(p, x);
    BuildRedBlack(d, Black, x, p.iv, Near(d, t).max, Near(d, w));
    BuildRedBlack(d, p.color, Near(d, t), t.iv, t.max, Far(d, t));
    PlugRedBlack(p.up, t);
  }

  // --- contents ---

  lemma {:induction false} PaintInOrder(t: Tree, c: Color)
    ensures InOrder(Paint(t, c)) == InOrder(t)
  {
  }

  lemma {:induction false} RedSiblingInOrder(p: Path, x: Tree)
    requires p.Frame? && p.sib.Node?
    ensures InOrder(Plug(RedSibling(p, x), x)) == InOrder(Plug(p, x))
  {
    var d := p.dir;
    var mid := Build(d, Red, x, p.iv, p.max, Paint(p.sib, Black));
    PaintInOrder(p.sib, Black);
    BuildInOrder(d, Red, x, p.iv, p.max, Paint(p.sib, Black));
    BuildInOrder(d, p.color, x, p.iv, p.max, p.sib);
    RotateInOrder(d, mid);
    PlugInOrder(p.up, Fill(p, x), Rotate(d, mid));
  }

  lemma {:induction false} PushUpInOrder(p: Path, x: Tree)
    requires p.Frame?
    ensures InOrder(Plug(p.up, PushUp(p, x))) == InOrder(Plug(p, x))
  {
    PaintInOrder(p.sib, Red);
    BuildInOrder(p.dir, p.color, x, p.iv, p.max, p.sib);
    BuildInOrder(p.dir, p.color, x, p.iv, p.max, Paint(p.sib, Red));
    PlugInOrder(p.up, Fill(p, x), PushUp(p, x));
  }

  lemma {:induction false} SiblingInOrder(p: Path)
    requires p.Frame? && p.sib.Node?
    requires !IsBlack(Near(p.dir, p.sib)) || !IsBlack(Far(p.dir, p.sib))
    ensures InOrder(Sibling(p)) == InOrder(p.sib)
  {
    var d, w := p.dir, p.sib;
    var near, far := Near(d, w), Far(d, w);
    BuildInOrder(d, w.color, near, w.iv, w.max, far);
    if IsBlack(far) {
      var u := Build(d, Red, Paint(near, Black), w.iv, w.max, far);
      PaintInOrder(near, Black);
      BuildInOrder(d, Red, Paint(near, Black), w.iv, w.max, far);
      var t := Rotate(d.Other(), u);
      RotateInOrder(d.Other(), u);
      BuildInOrder(d, t.color, Near(d, t), t.iv, t.max, Far(d, t));
      PaintInOrder(Far(d, t), Black);
      BuildInOrder(d, p.color, Near(d, t), t.iv, t.max, Paint(Far(d, t), Black));
    } else {
      PaintInOrder(far, Black);
      BuildInOrder(d, p.color, near, w.iv, w.max, Paint(far, Black));
    }
  }

  lemma {:induction false} SettleInOrder(p: Path, x: Tree)
    requires p.Frame? && p.sib.Node?
    requires !IsBlack(Near(p.dir, p.sib)) || !IsBlack(Far(p.dir, p.sib))
    ensures InOrder(Plug(p.up, Settle(p, x))) == InOrder(Plug(p, x))
  {
    var d := p.dir;
    var mid := Build(d, Black, x, p.iv, p.max, Sibling(p));
    SiblingInOrder(p);
    BuildInOrder(d, Black, x, p.iv, p.max, Sibling(p));
    BuildInOrder(d, p.color, x, p.iv, p.max, p.sib);
    RotateInOrder(d, mid);
    PlugInOrder(p.up, Fill(p, x), Settle(p, x));
  }

  // --- maxima ---

  predicate Aside(d: Dir, h: Interval, iv: Interval) {
    h.Valid() && iv.Valid() && if d.Left? then h.end < iv.start else iv.end < h.start
  }

  /** The hole lies on the way down to the place of `h`, past intervals that do not touch it. */
  ghost predicate OnWay(p: Path, h: Interval) {
    p.Frame? ==> Aside(p.dir, h, p.iv) && OnWay(p.up, h)
  }

  /** Frames around a hole with maximum `m`: exact, except that on the way to `h`
      they may be as large as `Cap(h)`. */
  ghost predicate CtxStale(p: Path, h: Interval, m: nat) {
    p.Frame? ==>
      var top := Max(p.iv.end, Max(m, TrueMax(p.sib)));
      && top <= p.max <= (if OnWay(p, h) then Max(top, Cap(h)) else top)
      && Exact(p.sib)
      && CtxStale(p.up, h, top)
  }

  ghost predicate StaleIf(on: bool, t: Tree, h: Interval) {
    if on then Stale(t, h) else Exact(t)
  }

  ghost predicate FocusStale(p: Path, x: Tree, h: Interval) {
    CtxStale(p, h, TrueMax(x)) && StaleIf(OnWay(p, h), x, h)
  }

  lemma {:induction false} FillStale(p: Path, x: Tree, h: Interval)
    requires p.Frame? && FocusStale(p, x, h)
    ensures FocusStale(p.up, Fill(p, x), h)
  {
    BuildMax(p.dir, p.color, x, p.iv, p.max, p.sib);
    if OnWay(p.up, h) && !OnWay(p, h) {
      ExactIsStale(Fill(p, x), h);
    }
  }

  lemma {:induction false} PlugStale(p: Path, x: Tree, h: Interval)
    requires FocusStale(p, x, h)
    ensures Stale(Plug(p, x), h)
    decreases p
  {
    if p.Frame? {
      FillStale(p, x, h);
      PlugStale(p.up, Fill(p, x), h);
    }
  }

  ghost predicate Ordered(p: Path, x: Tree) {
    Sorted(InOrder(Plug(p, x))) && TrueMax(Plug(p, x)) < LIMIT
  }

  lemma {:induction false} OrderedSibling(p: Path, x: Tree)
    requires p.Frame? && Ordered(p, x)
    ensures p.iv.Valid() && TrueMax(Fill(p, x)) < LIMIT
    ensures p.sib.Node? ==> p.sib.iv.Valid()
    ensures p.sib.Node? ==> if p.dir.Left? then p.iv.end < p.sib.iv.start else p.sib.iv.end < p.iv.start
  {
    PlugSorted(p.up, Fill(p, x));
    SubSorted(Fill(p, x));
    PlugTrueMax(p.up, Fill(p, x), Fill(p, x));
    if p.sib.Node? {
      SubSorted(p.sib);
      assert p.sib.iv in InOrder(p.sib);
    }
  }

  lemma {:induction false} MaxOfStale(on: bool, t: Tree, h: Interval)
    requires StaleIf(on, t, h)
    ensures TrueMax(t) <= MaxOf(t) <= (if on then Max(TrueMax(t), Cap(h)) else TrueMax(t))
  {
  }

  lemma {:induction false} RecomputeBounds(t: Tree, a: nat, b: nat)
    requires t.Node? && b < LIMIT
    requires a <= Max(t.iv.end, Max(MaxOf(t.left), MaxOf(t.right))) <= b
    ensures a <= Recompute(t).max <= b
  {
  }

  /** The maximum a rotation gives the node it moves down. */
  lemma {:induction false} RotateLow(p: Path, x: Tree, near: Tree, c: Color, h: Interval)
    requires p.Frame? && StaleIf(OnWay(p, h), x, h) && Exact(near)
    requires Max(p.iv.end, Max(TrueMax(x), TrueMax(near))) < LIMIT
    ensures var low := Max(p.iv.end, Max(TrueMax(x), TrueMax(near)));
      low <= Recompute(Build(p.dir, c, x, p.iv, p.max, near)).max <= (if OnWay(p, h) then Max(low, Cap(h)) else low)
  {
    MaxOfStale(OnWay(p, h), x, h);
    ExactMax(near);
    var low := Max(p.iv.end, Max(TrueMax(x), TrueMax(near)));
    RecomputeBounds(Build(p.dir, c, x, p.iv, p.max, near), low, if OnWay(p, h) then Max(low, Cap(h)) else low);
  }

  /** The maximum a rotation gives the node it moves up: the one it replaces. */
  lemma {:induction false} RotateTop(p: Path, x: Tree, w: Tree, x': Tree, h: Interval)
    requires p.Frame? && w.Node? && CtxStale(p, h, TrueMax(x))
    requires TrueMax(w) == TrueMax(p.sib) && Exact(w) && x'.Node? && x'.max == p.max
    requires TrueMax(Fill(p, x)) < LIMIT
    ensures var top := TrueMax(Fill(p, x));
      top <= Recompute(Build(p.dir, w.color, x', w.iv, w.max, Far(p.dir, w))).max
          <= (if OnWay(p, h) then Max(top, Cap(h)) else top)
  {
    var d := p.dir;
    BuildMax(d, p.color, x, p.iv, p.max, p.sib);
    BuildMax(d, w.color, Near(d, w), w.iv, w.max, Far(d, w));
    ExactMax(Far(d, w));
    var top := TrueMax(Fill(p, x));
    RecomputeBounds(Build(d, w.color, x', w.iv, w.max, Far(d, w)), top, if OnWay(p, h) then Max(top, Cap(h)) else top);
  }

  lemma RotateMax(p: Path, x: Tree, w: Tree)
    requires p.Frame? && w.Node? && TrueMax(w) == TrueMax(p.sib)
    ensures TrueMax(Fill(p, x))
         == Max(w.iv.end, Max(Max(p.iv.end, Max(TrueMax(x), TrueMax(Near(p.dir, w)))), TrueMax(Far(p.dir, w))))
  {
    BuildMax(p.dir, p.color, x, p.iv, p.max, p.sib);
    BuildMax(p.dir, w.color, Near(p.dir, w), w.iv, w.max, Far(p.dir, w));
  }

  lemma {:induction false} RotateStale(p: Path, x: Tree, w: Tree, c: Color, h: Interval)
    requires p.Frame? && w.Node? && FocusStale(p, x, h)
    requires InOrder(w) == InOrder(p.sib) && Exact(w)
    requires TrueMax(Fill(p, x)) < LIMIT
    ensures var t := Rotate(p.dir, Build(p.dir, c, x, p.iv, p.max, w));
      var low := Max(p.iv.end, Max(TrueMax(x), TrueMax(Near(p.dir, w))));
      var top := TrueMax(Fill(p, x));
      && low <= Near(p.dir, t).max <= (if OnWay(p, h) then Max(low, Cap(h)) else low)
      && top <= t.max <= (if OnWay(p, h) then Max(top, Cap(h)) else top)
      && top == Max(w.iv.end, Max(low, TrueMax(Far(p.dir, w))))
  {
    var d := p.dir;
    SameMax(w, p.sib);
    RotateMax(p, x, w);
    assert Exact(Near(d, w));
    RotateLow(p, x, Near(d, w), c, h);
    RotateTop(p, x, w, Build(d, c, x, p.iv, p.max, Near(d, w)), h);
  }

  lemma {:induction false} RedSiblingStale(p: Path, x: Tree, h: Interval)
    requires p.Frame? && p.sib.Node? && Ordered(p, x) && FocusStale(p, x, h)
    ensures FocusStale(RedSibling(p, x), x, h)
  {
    var d, q := p.dir, RedSibling(p, x);
    OrderedSibling(p, x);
    PaintInOrder(p.sib, Black);
    PaintExact(p.sib, Black);
    RotateStale(p, x, Paint(p.sib, Black), Red, h);
    assert OnWay(q, h) <==> OnWay(p, h);
    assert OnWay(p, h) ==> OnWay(q.up, h);
    BuildMax(d, p.color, x, p.iv, p.max, p.sib);
    BuildMax(d, p.sib.color, Near(d, p.sib), p.sib.iv, p.sib.max, Far(d, p.sib));
    assert CtxStale(q.up, h, Max(p.iv.end, Max(TrueMax(x), TrueMax(q.sib))));
  }

  lemma {:induction false} PushUpStale(p: Path, x: Tree, h: Interval)
    requires p.Frame? && FocusStale(p, x, h)
    ensures FocusStale(p.up, PushUp(p, x), h)
  {
    PaintExact(p.sib, Red);
    FillStale(p.(sib := Paint(p.sib, Red)), x, h);
  }

  lemma {:induction false} SiblingExact(p: Path)
    requires p.Frame? && p.sib.Node? && Exact(p.sib) && TrueMax(p.sib) < LIMIT
    requires !IsBlack(Near(p.dir, p.sib)) || !IsBlack(Far(p.dir, p.sib))
    ensures Exact(Sibling(p))
  {
    var d, w := p.dir, p.sib;
    var near, far := Near(d, w), Far(d, w);
    BuildMax(d, w.color, near, w.iv, w.max, far);
    if IsBlack(far) {
      PaintExact(near, Black);
      BuildMax(d, Red, Paint(near, Black), w.iv, w.max, far);
      var u := Build(d, Red, Paint(near, Black), w.iv, w.max, far);
      RotateExact(d.Other(), u);
      var t := Rotate(d.Other(), u);
      BuildMax(d, t.color, Near(d, t), t.iv, t.max, Far(d, t));
      PaintExact(Far(d, t), Black);
      BuildMax(d, p.color, Near(d, t), t.iv, t.max, Paint(Far(d, t), Black));
    } else {
      PaintExact(far, Black);
      BuildMax(d, p.color, near, w.iv, w.max, Paint(far, Black));
    }
  }

  lemma {:induction false} SettleStale(p: Path, x: Tree, h: Interval)
    requires p.Frame? && p.sib.Node? && Ordered(p, x) && FocusStale(p, x, h)
    requires !IsBlack(Near(p.dir, p.sib)) || !IsBlack(Far(p.dir, p.sib))
    ensures FocusStale(p.up, Settle(p, x), h)
  {
    var d, w, t := p.dir, Sibling(p), Settle(p, x);
    OrderedSibling(p, x);
    BuildMax(d, p.color, x, p.iv, p.max, p.sib);
    SiblingInOrder(p);
    SiblingExact(p);
    RotateStale(p, x, w, Black, h);
    var low := Near(d, t);
    BuildMax(d, w.color, Near(d, w), w.iv, w.max, Far(d, w));
    BuildMax(d, Black, x, p.iv, low.max, Near(d, w));
    BuildMax(d, w.color, low, w.iv, t.max, Far(d, w));
    if OnWay(p, h) {
      SiblingAside(p, x, h);
      assert Stale(low, h);
      assert Stale(t, h);
    } else {
      ExactIsStale(t, h);
    }
  }

  /** Past the parent, away from `h`, the sibling's intervals do not touch `h` either. */
  lemma {:induction false} SiblingAside(p: Path, x: Tree, h: Interval)
    requires p.Frame? && p.sib.Node? && Ordered(p, x) && OnWay(p, h)
    requires !IsBlack(Near(p.dir, p.sib)) || !IsBlack(Far(p.dir, p.sib))
    ensures Aside(p.dir, h, Sibling(p).iv)
  {
    SiblingInOrder(p);
    PlugSorted(p.up, Fill(p, x));
    SubSorted(Fill(p, x));
    var w := Sibling(p);
    assert w.iv in InOrder(w);
  }

  // --- the loop ---

  /** One iteration: give the focus a black sibling, then either push the deficit
      up or settle it, in which case the focus becomes the root. */
  function DeleteFix(p: Path, x: Tree): (Path, Tree)
    requires Deficient(p, x) && IsBlack(x) && p.Frame?
  {
    if !IsBlack(p.sib) then
      RedSiblingShape(p, x);
      BlackSiblingFix(RedSibling(p, x), x)
    else
      BlackSiblingFix(p, x)
  }

  function BlackSiblingFix(p: Path, x: Tree): (Path, Tree)
    requires p.Frame? && p.sib.Node?
  {
    if IsBlack(p.sib.left) && IsBlack(p.sib.right) then
      (p.up, PushUp(p, x))
    else
      (Top, Plug(p.up, Settle(p, x)))
  }

  ghost predicate Staling(p: Path, x: Tree, h: Interval) {
    Ordered(p, x) && FocusStale(p, x, h)
  }

  lemma {:induction false} BlackSiblingFixKeeps(p: Path, x: Tree, h: Interval)
    requires Deficient(p, x) && IsBlack(x) && p.Frame? && p.sib.Node? && IsBlack(p.sib)
    ensures var (q, y) := BlackSiblingFix(p, x);
      && Deficient(q, y)
      && InOrder(Plug(q, y)) == InOrder(Plug(p, x))
      && (Staling(p, x, h) ==> Staling(q, y, h))
      && (IsBlack(y) ==> q.Top? || q == p.up)
  {
    var (q, y) := BlackSiblingFix(p, x);
    if IsBlack(p.sib.left) && IsBlack(p.sib.right) {
      PushUpShape(p, x);
      PushUpInOrder(p, x);
      if Staling(p, x, h) {
        PushUpStale(p, x, h);
      }
    } else {
      SettleShape(p, x);
      SettleInOrder(p, x);
      if Staling(p, x, h) {
        SettleStale(p, x, h);
        PlugStale(p.up, Settle(p, x), h);
      }
    }
    SameMax(Plug(q, y), Plug(p, x));
  }

  lemma {:induction false} DeleteFixKeeps(p: Path, x: Tree, h: Interval)
    requires Deficient(p, x) && IsBlack(x) && p.Frame?
    ensures var (q, y) := DeleteFix(p, x);
      && Deficient(q, y)
      && InOrder(Plug(q, y)) == InOrder(Plug(p, x))
      && (Staling(p, x, h) ==> Staling(q, y, h))
      && (IsBlack(y) ==> Depth(q) < Depth(p))
  {
    if !IsBlack(p.sib) {
      RedSiblingShape(p, x);
      RedSiblingInOrder(p, x);
      var q := RedSibling(p, x);
      if Staling(p, x, h) {
        RedSiblingStale(p, x, h);
        SameMax(Plug(q, x), Plug(p, x));
      }
      BlackSiblingFixKeeps(q, x, h);
    } else {
      BlackSiblingFixKeeps(p, x, h);
    }
  }

  method DeleteRules(path: Path, node: Tree, ghost h: Interval) returns (root: Tree)
    requires Deficient(path, node)
    ensures RedBlack(root) && IsBlack(root)
    ensures InOrder(root) == InOrder(Plug(path, node))
    ensures Staling(path, node, h) ==> Stale(root, h)
  {
    var p, x := path, node;
    while p.Frame? && IsBlack(x)
      invariant Deficient(p, x)
      invariant InOrder(Plug(p, x)) == InOrder(Plug(path, node))
      invariant Staling(path, node, h) ==> Staling(p, x, h)
      decreases if IsBlack(x) then Depth(p) + 1 else 0
    {
      DeleteFixKeeps(p, x, h);
      var (p', x') := DeleteFix(p, x);
      p, x := p', x';
    }
    Repaired(p, x, h);
    root := Plug(p, Paint(x, Black));
  }

  lemma {:induction false} Repaired(p: Path, x: Tree, h: Interval)
    requires Deficient(p, x) && (p.Frame? ==> !IsBlack(x))
    ensures var root := Plug(p, Paint(x, Black));
      && RedBlack(root) && IsBlack(root) && InOrder(root) == InOrder(Plug(p, x))
      && (FocusStale(p, x, h) ==> Stale(root, h))
  {
    var y := Paint(x, Black);
    PaintInOrder(x, Black);
    PlugInOrder(p, x, y);
    if x.Node? {
      PaintBlack(x);
    }
    PlugRedBlack(p, y);
    PlugRootBlack(p, y);
    if FocusStale(p, x, h) {
      PaintExact(x, Black);
      PlugStale(p, y, h);
    }
  }

  // --- reading a zipper off a tree ---

  lemma {:induction false} Unplug(p: Path, t: Tree)
    requires RedBlack(Plug(p, t)) && IsBlack(Plug(p, t))
    ensures Placed(p, t)
    decreases p
  {
    if p.Frame? {
      Unplug(p.up, Fill(p, t));
      BuildRedBlack(p.dir, p.color, t, p.iv, p.max, p.sib);
    }
  }

  lemma {:induction false} UnplugExact(p: Path, t: Tree)
    requires Exact(Plug(p, t))
    ensures Exact(t) && CtxExact(p, TrueMax(t))
    decreases p
  {
    if p.Frame? {
      UnplugExact(p.up, Fill(p, t));
      BuildMax(p.dir, p.color, t, p.iv, p.max, p.sib);
    }
  }

  lemma {:induction false} ExactCtxIsStale(p: Path, h: Interval, m: nat)
    requires CtxExact(p, m)
    ensures CtxStale(p, h, m)
  {
    if p.Frame? {
      ExactCtxIsStale(p.up, h, p.max);
    }
  }

  /** Taking an interval inside `h` out of the hole leaves frames that `h` excuses. */
  lemma {:induction false} ShrinkCtx(p: Path, h: Interval, m: nat, m': nat)
    requires CtxStale(p, h, m) && OnWay(p, h) && m' <= m <= Max(m', Cap(h))
    ensures CtxStale(p, h, m')
  {
    if p.Frame? {
      ShrinkCtx(p.up, h, Max(p.iv.end, Max(m, TrueMax(p.sib))), Max(p.iv.end, Max(m', TrueMax(p.sib))));
    }
  }

  /** Paths can be stacked. */
  function Onto(p: Path, base: Path): Path {
    if p.Top? then base else Frame(Onto(p.up, base), p.dir, p.color, p.iv, p.max, p.sib)
  }

  lemma {:induction false} OntoPlug(p: Path, base: Path, t: Tree)
    ensures Plug(Onto(p, base), t) == Plug(base, Plug(p, t))
    decreases p
  {
    if p.Frame? {
      OntoPlug(p.up, base, Fill(p, t));
    }
  }

  lemma {:induction false} OntoCtx(p: Path, base: Path, h: Interval, t: Tree)
    requires CtxExact(p, TrueMax(t)) && CtxStale(base, h, TrueMax(Plug(p, t)))
    ensures CtxStale(Onto(p, base), h, TrueMax(t))
    decreases p
  {
    if p.Frame? {
      BuildMax(p.dir, p.color, t, p.iv, p.max, p.sib);
      OntoCtx(p.up, base, h, Fill(p, t));
    }
  }

  // --- the leftmost node ---

  ghost predicate AllLeft(p: Path) {
    p.Frame? ==> p.dir.Left? && AllLeft(p.up)
  }

  lemma {:induction false} AllLeftBefore(p: Path)
    requires AllLeft(p)
    ensures Before(p) == []
  {
    if p.Frame? {
      AllLeftBefore(p.up);
    }
  }

  method LeftMost(t: Tree) returns (p: Path, y: Tree)
    requires t.Node?
    ensures y.Node? && y.left.Nil? && Plug(p, y) == t && AllLeft(p)
  {
    p, y := Top, t;
    while y.left.Node?
      invariant y.Node? && Plug(p, y) == t && AllLeft(p)
      decreases y
    {
      p, y := Unzip(Left, p, y), y.left;
    }
  }

  lemma {:induction false} LeftMostInOrder(p: Path, y: Tree)
    requires y.Node? && y.left.Nil? && AllLeft(p)
    ensures InOrder(Plug(p, y)) == [y.iv] + InOrder(Plug(p, y.right))
  {
    PlugSplit(p, y);
    PlugSplit(p, y.right);
    AllLeftBefore(p);
  }

  /** Removing the leftmost of ordered intervals does not change the maxima above it. */
  lemma {:induction false} LeftMostExact(p: Path, y: Tree)
    requires y.Node? && y.left.Nil? && AllLeft(p)
    requires Exact(Plug(p, y)) && Sorted(InOrder(Plug(p, y)))
    ensures Exact(y.right) && CtxExact(p, TrueMax(y.right))
    ensures p.Frame? ==> TrueMax(Plug(p, y.right)) == TrueMax(Plug(p, y))
    ensures TrueMax(Plug(p, y)) == Max(y.iv.end, TrueMax(Plug(p, y.right)))
  {
    UnplugExact(p, y);
    LeftMostInOrder(p, y);
    TrueMaxHead(y.iv, Plug(p, y.right), Plug(p, y));
    if p.Frame? {
      var f, f' := Fill(p, y), Fill(p, y.right);
      PlugSorted(p.up, f);
      SubSorted(f);
      assert y.iv in InOrder(y);
      BuildMax(Left, p.color, y, p.iv, p.max, p.sib);
      BuildMax(Left, p.color, y.right, p.iv, p.max, p.sib);
      PlugTrueMax(p.up, f, f');
      PlugTrueMax(p.up, f', f);
    }
  }

  lemma {:induction false} TrueMaxHead(iv: Interval, t: Tree, t': Tree)
    requires InOrder(t') == [iv] + InOrder(t)
    ensures TrueMax(t') == Max(iv.end, TrueMax(t))
  {
    TrueMaxBounds(t);
    TrueMaxBounds(t');
    assert forall e :: e in InOrder(t') <==> e == iv || e in InOrder(t);
  }

  // --- deletion ---

  /** Where a node is unlinked, and how the tree then reads. */
  ghost predicate Unlinked(path: Path, node: Tree, p: Path, x: Tree, c: Color)
    requires node.Node?
  {
    && (c.Black? ==> Deficient(p, x))
    && (c.Red? ==> Placed(p, x))
    && InOrder(Plug(p, x)) == Before(path) + InOrder(node.left) + InOrder(node.right) + After(path)
  }

  /** What has to be known of `h` when the node it absorbs is deleted. */
  ghost predicate Absorbs(path: Path, node: Tree, h: Interval)
    requires node.Node?
  {
    && Ordered(path, node)
    && OnWay(path, h) && CtxStale(path, h, TrueMax(node)) && Exact(node)
    && h.start <= node.iv.start && node.iv.end <= h.end
  }

  lemma {:induction false} RedBlackParts(t: Tree)
    requires RedBlack(t)
    ensures t.Node? ==> RedBlack(t.left) && RedBlack(t.right) && BlackHeight(t.left) == BlackHeight(t.right)
  {
  }

  lemma {:induction false} UnlinkOne(path: Path, node: Tree, h: Interval)
    requires node.Node? && Placed(path, node) && (node.left.Nil? || node.right.Nil?)
    ensures var x := if node.left.Node? then node.left else node.right;
      && Unlinked(path, node, path, x, node.color)
      && (Absorbs(path, node, h) ==> FocusStale(path, x, h))
  {
    var x := if node.left.Node? then node.left else node.right;
    RedBlackParts(node);
    RedBlackParts(x);
    assert InOrder(Plug(path, x)) == Before(path) + InOrder(node.left) + InOrder(node.right) + After(path) by {
      PlugSplit(path, x);
      assert InOrder(x) == InOrder(node.left) + InOrder(node.right);
    }
    if Absorbs(path, node, h) {
      UnlinkOneStale(path, node, x, h);
    }
  }

  lemma {:induction false} UnlinkOneStale(path: Path, node: Tree, x: Tree, h: Interval)
    requires node.Node? && Absorbs(path, node, h)
    requires (x == node.left && node.right.Nil?) || (x == node.right && node.left.Nil?)
    ensures FocusStale(path, x, h)
  {
    assert TrueMax(node) == Max(node.iv.end, TrueMax(x));
    PlugTrueMax(path, node, node);
    ShrinkCtx(path, h, TrueMax(node), TrueMax(x));
    ExactIsStale(x, h);
  }

  method Delete(path: Path, node: Tree, ghost h: Interval) returns (root: Tree)
    requires node.Node? && RedBlack(Plug(path, node)) && IsBlack(Plug(path, node))
    ensures RedBlack(root) && IsBlack(root)
    ensures InOrder(root) == Before(path) + InOrder(node.left) + InOrder(node.right) + After(path)
    ensures Absorbs(path, node, h) ==> Stale(root, h)
  {
    var p, x, c;
    Unplug(path, node);
    if node.left.Nil? || node.right.Nil? {
      x := if node.left.Node? then node.left else node.right;
      p, c := path, node.color;
      UnlinkOne(path, node, h);
    } else {
      var spine, y := LeftMost(node.right);
      x, c := y.right, y.color;
      var rightMax := if spine.Top? then MaxOf(x) else node.right.max;
      var max := U32(IntervalMax(y.iv.end, MaxOf(node.left), rightMax));
      p := Onto(spine, Frame(path, Right, node.color, y.iv, max, node.left));
      UnlinkTwo(path, node, spine, y, max, h);
    }
    Remaining(path, node, p, x, h);
    if c.Black? {
      root := DeleteRules(p, x, h);
    } else {
      root := Plug(p, x);
      PlugRedBlack(p, x);
      PlugRootBlack(p, x);
      if FocusStale(p, x, h) {
        PlugStale(p, x, h);
      }
    }
  }

  /** Fewer intervals are still ordered and still fit. */
  lemma {:induction false} Remaining(path: Path, node: Tree, p: Path, x: Tree, h: Interval)
    requires node.Node?
    requires InOrder(Plug(p, x)) == Before(path) + InOrder(node.left) + InOrder(node.right) + After(path)
    ensures Ordered(path, node) ==> Ordered(p, x)
  {
    PlugSplit(path, node);
    WithoutOne(Before(path), InOrder(node.left), node.iv, InOrder(node.right), After(path));
    TrueMaxBounds(Plug(path, node));
    TrueMaxBounds(Plug(p, x));
  }

  lemma WithoutOne(a: seq<Interval>, b: seq<Interval>, iv: Interval, c: seq<Interval>, d: seq<Interval>)
    ensures Sorted(a + (b + [iv] + c) + d) ==> Sorted(a + b + c + d)
    ensures forall e :: e in a + b + c + d ==> e in a + (b + [iv] + c) + d
    ensures Sorted(a + (b + [iv] + c) + d) ==> iv !in a + b + c + d
    ensures forall e :: e in a + (b + [iv] + c) + d ==> e == iv || e in a + b + c + d
  {
    var s, s' := a + (b + [iv] + c) + d, a + b + c + d;
    var k := |a + b|;
    assert s[k] == iv;
    assert forall i :: 0 <= i < |s'| ==> s'[i] == s[if i < k then i else i + 1];
  }

  lemma {:induction false} UnlinkTwo(path: Path, node: Tree, spine: Path, y: Tree, max: nat, h: Interval)
    requires node.Node? && Placed(path, node) && node.left.Node?
    requires y.Node? && y.left.Nil? && Plug(spine, y) == node.right && AllLeft(spine)
    requires max == U32(IntervalMax(y.iv.end, MaxOf(node.left),
                                    if spine.Top? then MaxOf(y.right) else MaxOf(node.right)))
    ensures var p := Onto(spine, Frame(path, Right, node.color, y.iv, max, node.left));
      && Unlinked(path, node, p, y.right, y.color)
      && (Absorbs(path, node, h) ==> FocusStale(p, y.right, h))
  {
    var base := Frame(path, Right, node.color, y.iv, max, node.left);
    var p := Onto(spine, base);
    UnlinkTwoShape(path, node, spine, y, base);
    UnlinkTwoInOrder(path, node, spine, y, base);
    if Absorbs(path, node, h) {
      UnlinkTwoStale(path, node, spine, y, base, h);
    }
  }

  lemma {:induction false} UnlinkTwoShape(path: Path, node: Tree, spine: Path, y: Tree, base: Path)
    requires node.Node? && Placed(path, node) && node.left.Node?
    requires y.Node? && y.left.Nil? && Plug(spine, y) == node.right
    requires base.Frame? && base.up == path && base.dir.Right? && base.color == node.color && base.sib == node.left
    ensures var p := Onto(spine, base);
      (y.color.Black? ==> Deficient(p, y.right)) && (y.color.Red? ==> Placed(p, y.right))
  {
    var p := Onto(spine, base);
    OntoPlug(spine, base, y);
    var t := Fill(base, node.right);
    PlugRedBlack(path, t);
    PlugRootBlack(path, t);
    Unplug(p, y);
    RedBlackParts(y);
    RedBlackParts(y.right);
    OntoFrame(spine, base);
  }

  lemma OntoFrame(p: Path, base: Path)
    requires base.Frame?
    ensures Onto(p, base).Frame?
  {
  }

  lemma {:induction false} UnlinkTwoInOrder(path: Path, node: Tree, spine: Path, y: Tree, base: Path)
    requires node.Node? && y.Node? && y.left.Nil? && Plug(spine, y) == node.right && AllLeft(spine)
    requires base.Frame? && base.up == path && base.dir.Right? && base.iv == y.iv && base.sib == node.left
    ensures InOrder(Plug(Onto(spine, base), y.right))
         == Before(path) + InOrder(node.left) + InOrder(node.right) + After(path)
  {
    OntoPlug(spine, base, y.right);
    LeftMostInOrder(spine, y);
    var r := Plug(spine, y.right);
    PlugSplit(base, r);
    assert Before(path) + InOrder(node.left) + [y.iv] + InOrder(r) + After(path)
        == Before(path) + InOrder(node.left) + ([y.iv] + InOrder(r)) + After(path);
  }

  lemma {:induction false} UnlinkTwoStale(path: Path, node: Tree, spine: Path, y: Tree, base: Path, h: Interval)
    requires node.Node? && Absorbs(path, node, h)
    requires y.Node? && y.left.Nil? && Plug(spine, y) == node.right && AllLeft(spine)
    requires base.Frame? && base.up == path && base.dir.Right? && base.iv == y.iv && base.sib == node.left
    requires base.max == U32(IntervalMax(y.iv.end, MaxOf(node.left),
                                         if spine.Top? then MaxOf(y.right) else MaxOf(node.right)))
    ensures FocusStale(Onto(spine, base), y.right, h)
  {
    PlugSorted(path, node);
    SubSorted(node);
    LeftMostInOrder(spine, y);
    assert y.iv in InOrder(node.right);
    PlugTrueMax(path, node, node);
    LeftMostExact(spine, y);
    var r := Plug(spine, y.right);
    assert CtxStale(base, h, TrueMax(r)) by {
      UnlinkTwoMax(node, spine, y, r);
      assert base.max == Max(y.iv.end, Max(TrueMax(r), TrueMax(node.left)));
    }
    OntoCtx(spine, base, h, y.right);
    ExactIsStale(y.right, h);
  }

  /** The two-child case changes no maximum: the successor reaches further than what it replaces. */
  lemma {:induction false} UnlinkTwoMax(node: Tree, spine: Path, y: Tree, r: Tree)
    requires node.Node? && y.Node? && Exact(node) && TrueMax(node) < LIMIT
    requires r == Plug(spine, y.right) && Exact(y.right) && node.iv.end <= y.iv.end
    requires TrueMax(node.right) == Max(y.iv.end, TrueMax(r))
    requires spine.Frame? ==> TrueMax(r) == TrueMax(node.right)
    ensures TrueMax(node) == Max(y.iv.end, Max(TrueMax(r), TrueMax(node.left)))
    ensures TrueMax(node) == U32(IntervalMax(y.iv.end, MaxOf(node.left),
                                             if spine.Top? then MaxOf(y.right) else MaxOf(node.right)))
  {
    ExactMax(node.left);
    ExactMax(y.right);
    TrueMaxBounds(node.right);
  }
}
