/** The red-black tree underneath the interval merger.

    Nodes are values; a position in the tree is a zipper: the subtree in focus and
    the path of frames from it up to the root.  The fix-up loops move the focus
    and rewrite the frames around it, as the original moves a node pointer and
    rewrites the nodes it can reach.  The left and right branches of the original
    are mirror images and are written once, with a direction. */
module IntervalTree {
  import opened Extents

  datatype Color = Red | Black

  datatype Dir = Left | Right {
    function Other(): Dir {
      if Left? then Right else Left
    }
  }

  /** `Nil` is the shared sentinel: black, with maximum 0. */
  datatype Tree = Nil | Node(color: Color, left: Tree, iv: Interval, max: nat, right: Tree)

  datatype Path = Top | Frame(up: Path, dir: Dir, color: Color, iv: Interval, max: nat, sib: Tree)

  // --- colours and construction ---

  predicate IsBlack(t: Tree) {
    t.Node? ==> t.color.Black?
  }

  predicate BlackAbove(p: Path) {
    p.Frame? ==> p.color.Black?
  }

  function Paint(t: Tree, c: Color): Tree {
    if t.Nil? then Nil else t.(color := c)
  }

  function Build(d: Dir, c: Color, near: Tree, iv: Interval, max: nat, far: Tree): Tree {
    if d.Left? then Node(c, near, iv, max, far) else Node(c, far, iv, max, near)
  }

  function Near(d: Dir, t: Tree): Tree
    requires t.Node?
  {
    if d.Left? then t.left else t.right
  }

  function Far(d: Dir, t: Tree): Tree
    requires t.Node?
  {
    if d.Left? then t.right else t.left
  }

  function Fill(p: Path, t: Tree): Tree
    requires p.Frame?
  {
    Build(p.dir, p.color, t, p.iv, p.max, p.sib)
  }

  function Plug(p: Path, t: Tree): Tree
    decreases p
  {
    if p.Top? then t else Plug(p.up, Fill(p, t))
  }

  function Unzip(d: Dir, up: Path, t: Tree): (p: Path)
    requires t.Node?
  {
    Frame(up, d, t.color, t.iv, t.max, Far(d, t))
  }

  // --- the maximum field ---

  const LIMIT: nat := 0x1_0000_0000

  /** The field is an `unsigned int`, while interval bounds are `size_t`. */
  function U32(n: nat): nat {
    if n < LIMIT then n else n % LIMIT
  }

  function MaxOf(t: Tree): nat {
    if t.Nil? then 0 else t.max
  }

  function IntervalMax(end: nat, left: nat, right: nat): (m: nat)
    ensures m == Max(end, Max(left, right))
  {
    if end > left then
      if end > right then end else right
    else
      if left > right then left else right
  }

  function Recompute(t: Tree): Tree
    requires t.Node?
  {
    t.(max := U32(IntervalMax(t.iv.end, MaxOf(t.left), MaxOf(t.right))))
  }

  /** Rotate towards `d`; the new parent's maximum is recomputed first, while the
      demoted node still carries its old one. */
  function Rotate(d: Dir, x: Tree): Tree
    requires x.Node? && Far(d, x).Node?
  {
    var y := Far(d, x);
    var x' := Build(d, x.color, Near(d, x), x.iv, x.max, Near(d, y));
    var y' := Recompute(Build(d, y.color, x', y.iv, y.max, Far(d, y)));
    Build(d, y.color, Recompute(x'), y.iv, y'.max, Far(d, y))
  }

  // --- what a tree means ---

  ghost function InOrder(t: Tree): seq<Interval> {
    if t.Nil? then [] else InOrder(t.left) + [t.iv] + InOrder(t.right)
  }

  ghost predicate KeySorted(s: seq<Interval>) {
    forall i, j :: 0 <= i < j < |s| ==> s[i].start < s[j].start
  }

  /** Ordered, and no interval touches its neighbour. */
  ghost predicate Sorted(s: seq<Interval>) {
    && (forall i :: 0 <= i < |s| ==> s[i].Valid())
    && (forall i, j :: 0 <= i < j < |s| ==> s[i].end < s[j].start)
  }

  ghost function TrueMax(t: Tree): nat {
    if t.Nil? then 0 else Max(t.iv.end, Max(TrueMax(t.left), TrueMax(t.right)))
  }

  ghost function BlackHeight(t: Tree): nat {
    if t.Nil? then 0 else BlackHeight(t.left) + (if t.color.Black? then 1 else 0)
  }

  ghost predicate RedBlack(t: Tree) {
    t.Node? ==>
      && RedBlack(t.left) && RedBlack(t.right)
      && BlackHeight(t.left) == BlackHeight(t.right)
      && (t.color.Red? ==> IsBlack(t.left) && IsBlack(t.right))
  }

  ghost predicate Exact(t: Tree) {
    t.Node? ==> t.max == TrueMax(t) && Exact(t.left) && Exact(t.right)
  }

  // --- frames ---

  /** Everything around a hole that expects black height `n`. */
  ghost predicate CtxRedBlack(p: Path, n: nat) {
    p.Frame? ==>
      && RedBlack(p.sib) && BlackHeight(p.sib) == n
      && (p.color.Red? ==> IsBlack(p.sib) && BlackAbove(p.up))
      && CtxRedBlack(p.up, if p.color.Black? then n + 1 else n)
  }

  ghost predicate RootBlack(p: Path) {
    p.Frame? ==> if p.up.Top? then p.color.Black? else RootBlack(p.up)
  }

  lemma {:induction false} PlugRedBlack(p: Path, t: Tree)
    requires CtxRedBlack(p, BlackHeight(t)) && RedBlack(t)
    requires IsBlack(t) || BlackAbove(p)
    ensures RedBlack(Plug(p, t))
    decreases p
  {
    if p.Frame? {
      PlugRedBlack(p.up, Fill(p, t));
    }
  }

  lemma {:induction false} PlugRootBlack(p: Path, t: Tree)
    requires RootBlack(p) && (p.Top? ==> IsBlack(t))
    ensures IsBlack(Plug(p, t))
    decreases p
  {
    if p.Frame? {
      PlugRootBlack(p.up, Fill(p, t));
    }
  }

  lemma {:induction false} PlugInOrder(p: Path, t: Tree, t': Tree)
    requires InOrder(t) == InOrder(t')
    ensures InOrder(Plug(p, t)) == InOrder(Plug(p, t'))
    decreases p
  {
    if p.Frame? {
      PlugInOrder(p.up, Fill(p, t), Fill(p, t'));
    }
  }

  lemma {:induction false} PlugSorted(p: Path, t: Tree)
    requires Sorted(InOrder(Plug(p, t)))
    ensures Sorted(InOrder(t))
    decreases p
  {
    if p.Frame? {
      PlugSorted(p.up, Fill(p, t));
      SubSorted(Fill(p, t));
    }
  }

  lemma SortedParts(a: seq<Interval>, x: Interval, b: seq<Interval>)
    requires Sorted(a + [x] + b)
    ensures Sorted(a) && Sorted(b) && x.Valid()
    ensures forall i :: 0 <= i < |a| ==> a[i].end < x.start
    ensures forall i :: 0 <= i < |b| ==> x.end < b[i].start
  {
    var s := a + [x] + b;
    assert s[|a|] == x;
    assert forall i :: 0 <= i < |a| ==> a[i] == s[i];
    forall i | 0 <= i < |b|
      ensures b[i] == s[|a| + 1 + i] && x.end < b[i].start
    {
    }
  }

  lemma SubSorted(t: Tree)
    requires t.Node? && Sorted(InOrder(t))
    ensures Sorted(InOrder(t.left)) && Sorted(InOrder(t.right)) && t.iv.Valid()
    ensures forall e <- InOrder(t.left) :: e.end < t.iv.start
    ensures forall e <- InOrder(t.right) :: t.iv.end < e.start
  {
    SortedParts(InOrder(t.left), t.iv, InOrder(t.right));
  }

  ghost function Join(d: Dir, near: seq<Interval>, iv: Interval, far: seq<Interval>): seq<Interval> {
    if d.Left? then near + [iv] + far else far + [iv] + near
  }

  lemma {:induction false} BuildInOrder(d: Dir, c: Color, near: Tree, iv: Interval, m: nat, far: Tree)
    ensures InOrder(Build(d, c, near, iv, m, far)) == Join(d, InOrder(near), iv, InOrder(far))
  {
  }

  lemma JoinRotates(d: Dir, a: seq<Interval>, x: Interval, b: seq<Interval>, y: Interval, c: seq<Interval>)
    ensures Join(d, a, x, Join(d, b, y, c)) == Join(d, Join(d, a, x, b), y, c)
  {
  }

  lemma {:induction false} RotateInOrder(d: Dir, x: Tree)
    requires x.Node? && Far(d, x).Node?
    ensures InOrder(Rotate(d, x)) == InOrder(x)
  {
    var y, t := Far(d, x), Rotate(d, x);
    var a, b, c := Near(d, x), Near(d, y), Far(d, y);
    BuildInOrder(d, x.color, a, x.iv, x.max, y);
    BuildInOrder(d, y.color, b, y.iv, y.max, c);
    BuildInOrder(d, x.color, a, x.iv, Near(d, t).max, b);
    BuildInOrder(d, y.color, Near(d, t), y.iv, t.max, c);
    JoinRotates(d, InOrder(a), x.iv, InOrder(b), y.iv, InOrder(c));
  }

  lemma {:induction false} BuildMax(d: Dir, c: Color, near: Tree, iv: Interval, m: nat, far: Tree)
    ensures var t := Build(d, c, near, iv, m, far);
      && TrueMax(t) == Max(iv.end, Max(TrueMax(near), TrueMax(far)))
      && (Exact(t) <==> m == TrueMax(t) && Exact(near) && Exact(far))
  {
  }

  lemma {:induction false} RecomputeExact(t: Tree)
    requires t.Node? && Exact(t.left) && Exact(t.right) && TrueMax(t) < LIMIT
    ensures Exact(Recompute(t))
  {
  }

  lemma {:induction false} RotateExact(d: Dir, x: Tree)
    requires x.Node? && Far(d, x).Node?
    requires Exact(x) && TrueMax(x) < LIMIT
    ensures Exact(Rotate(d, x)) && TrueMax(Rotate(d, x)) == TrueMax(x)
  {
    var y, t := Far(d, x), Rotate(d, x);
    RotateInOrder(d, x);
    SameMax(t, x);
    BuildMax(d, x.color, Near(d, x), x.iv, x.max, y);
    BuildMax(d, y.color, Near(d, y), y.iv, y.max, Far(d, y));
    var x' := Build(d, x.color, Near(d, x), x.iv, x.max, Near(d, y));
    BuildMax(d, x.color, Near(d, x), x.iv, x.max, Near(d, y));
    assert TrueMax(x') <= TrueMax(x);
    RecomputeExact(x');
    BuildMax(d, y.color, Recompute(x'), y.iv, t.max, Far(d, y));
    assert t == Build(d, y.color, Recompute(x'), y.iv, t.max, Far(d, y));
    assert t.max == x.max;
  }

  lemma {:induction false} ExactMax(t: Tree)
    requires Exact(t)
    ensures MaxOf(t) == TrueMax(t)
  {
  }

  lemma {:induction false} TrueMaxBounds(t: Tree)
    ensures forall e <- InOrder(t) :: e.end <= TrueMax(t)
    ensures t.Node? ==> exists e <- InOrder(t) :: e.end == TrueMax(t)
  {
    if t.Node? {
      TrueMaxBounds(t.left);
      TrueMaxBounds(t.right);
      assert t.iv in InOrder(t);
    }
  }

  lemma {:induction false} PlugTrueMax(p: Path, t: Tree, t': Tree)
    requires TrueMax(t') <= TrueMax(t)
    ensures TrueMax(Plug(p, t')) <= TrueMax(Plug(p, t))
    ensures TrueMax(t) <= TrueMax(Plug(p, t))
    decreases p
  {
    if p.Frame? {
      PlugTrueMax(p.up, Fill(p, t), Fill(p, t'));
    }
  }

  // --- insertion ---

  /** Frames whose maxima are exact for a hole whose own maximum is `m`. */
  ghost predicate CtxExact(p: Path, m: nat) {
    p.Frame? ==>
      && p.max == Max(p.iv.end, Max(m, TrueMax(p.sib)))
      && Exact(p.sib)
      && CtxExact(p.up, p.max)
  }

  lemma {:induction false} PlugExact(p: Path, t: Tree)
    requires CtxExact(p, TrueMax(t)) && Exact(t)
    ensures Exact(Plug(p, t))
    decreases p
  {
    if p.Frame? {
      PlugExact(p.up, Fill(p, t));
    }
  }

  /** One iteration of the repair after an insertion: `t` is red and so is its parent. */
  function InsertFix(p: Path, t: Tree): (r: (Path, Tree))
    requires t.Node? && p.Frame? && p.color.Red? && p.up.Frame?
  {
    var g := p.up;
    if !IsBlack(g.sib) then
      (g.up, Build(g.dir, Red, Paint(Fill(p, t), Black), g.iv, g.max, Paint(g.sib, Black)))
    else
      var parent := if p.dir == g.dir then Fill(p, t) else Rotate(g.dir, Fill(p, t));
      var top := Rotate(g.dir.Other(), Build(g.dir, Red, Paint(parent, Black), g.iv, g.max, g.sib));
      (Unzip(g.dir, g.up, top), Near(g.dir, top))
  }

  ghost predicate Inserting(p: Path, t: Tree) {
    && t.Node? && t.color.Red? && RedBlack(t)
    && CtxRedBlack(p, BlackHeight(t)) && RootBlack(p)
  }

  lemma {:induction false} InsertFixRedBlack(p: Path, t: Tree)
    requires Inserting(p, t) && p.Frame? && p.color.Red?
    ensures p.up.Frame?
    ensures var (p', t') := InsertFix(p, t); Inserting(p', t')
  {
    var g := p.up;
    assert CtxRedBlack(g, BlackHeight(t)) && g.color.Black? && RootBlack(g) && RootBlack(g.up);
    if !IsBlack(g.sib) {
      BuildRedBlack(p.dir, Black, t, p.iv, p.max, p.sib);
      PaintBlack(g.sib);
      BuildRedBlack(g.dir, Red, Paint(Fill(p, t), Black), g.iv, g.max, Paint(g.sib, Black));
    } else {
      var parent := if p.dir == g.dir then Fill(p, t) else Rotate(g.dir, Fill(p, t));
      InsertParent(g.dir, p, t);
      InsertTop(g, parent);
    }
  }

  lemma {:induction false} InsertTop(g: Path, parent: Tree)
    requires g.Frame? && g.color.Black? && IsBlack(g.sib) && parent.Node?
    requires var inner, outer := Near(g.dir, parent), Far(g.dir, parent);
      && inner.Node? && inner.color.Red? && RedBlack(inner) && RedBlack(outer) && IsBlack(outer)
      && BlackHeight(outer) == BlackHeight(inner)
      && CtxRedBlack(g, BlackHeight(inner)) && RootBlack(g)
    ensures var top := Rotate(g.dir.Other(), Build(g.dir, Red, Paint(parent, Black), g.iv, g.max, g.sib));
      Inserting(Unzip(g.dir, g.up, top), Near(g.dir, top))
  {
    var top := Rotate(g.dir.Other(), Build(g.dir, Red, Paint(parent, Black), g.iv, g.max, g.sib));
    assert Near(g.dir, top) == Near(g.dir, parent);
    BuildRedBlack(g.dir, Red, Far(g.dir, parent), g.iv, Far(g.dir, top).max, g.sib);
  }

  /** The red parent, turned so that its red child is on side `d`. */
  lemma {:induction false} InsertParent(d: Dir, p: Path, t: Tree)
    requires p.Frame? && p.color.Red? && t.Node? && t.color.Red? && RedBlack(t)
    requires RedBlack(p.sib) && BlackHeight(p.sib) == BlackHeight(t) && IsBlack(p.sib)
    ensures var parent := if p.dir == d then Fill(p, t) else Rotate(d, Fill(p, t));
      var inner, outer := Near(d, parent), Far(d, parent);
      && inner.Node? && inner.color.Red? && RedBlack(inner) && BlackHeight(inner) == BlackHeight(t)
      && RedBlack(outer) && IsBlack(outer) && BlackHeight(outer) == BlackHeight(t)
  {
    if p.dir != d {
      var f := Fill(p, t);
      BuildRedBlack(d, t.color, Near(d, t), t.iv, t.max, Far(d, t));
      BuildRedBlack(d, Red, p.sib, p.iv, Near(d, Rotate(d, f)).max, Near(d, t));
    }
  }

  lemma {:induction false} BuildRedBlack(d: Dir, c: Color, near: Tree, iv: Interval, m: nat, far: Tree)
    ensures var t := Build(d, c, near, iv, m, far);
      && (RedBlack(t) <==> RedBlack(near) && RedBlack(far) && BlackHeight(near) == BlackHeight(far)
                           && (c.Red? ==> IsBlack(near) && IsBlack(far)))
      && (BlackHeight(near) == BlackHeight(far) ==> BlackHeight(t) == BlackHeight(near) + (if c.Black? then 1 else 0))
  {
  }

  lemma {:induction false} PaintBlack(t: Tree)
    requires t.Node? && RedBlack(t.left) && RedBlack(t.right) && BlackHeight(t.left) == BlackHeight(t.right)
    ensures RedBlack(Paint(t, Black)) && BlackHeight(Paint(t, Black)) == BlackHeight(t.left) + 1
  {
  }

  lemma {:induction false} InsertFixInOrder(p: Path, t: Tree)
    requires t.Node? && p.Frame? && p.color.Red? && p.up.Frame?
    ensures var (p', t') := InsertFix(p, t); InOrder(Plug(p', t')) == InOrder(Plug(p, t))
  {
    var g := p.up;
    var was := Fill(g, Fill(p, t));
    if !IsBlack(g.sib) {
      var (_, now) := InsertFix(p, t);
      PlugInOrder(g.up, was, now);
    } else {
      var f := Fill(p, t);
      var parent := if p.dir == g.dir then f else Rotate(g.dir, f);
      if p.dir != g.dir {
        RotateInOrder(g.dir, f);
      }
      var mid := Build(g.dir, Red, Paint(parent, Black), g.iv, g.max, g.sib);
      assert InOrder(Paint(parent, Black)) == InOrder(parent);
      assert InOrder(mid) == InOrder(was);
      RotateInOrder(g.dir.Other(), mid);
      PlugInOrder(g.up, was, Rotate(g.dir.Other(), mid));
    }
  }

  lemma {:induction false} InsertFixExact(p: Path, t: Tree)
    requires t.Node? && p.Frame? && p.color.Red? && p.up.Frame?
    requires CtxExact(p, TrueMax(t)) && Exact(t) && TrueMax(Plug(p, t)) < LIMIT
    ensures var (p', t') := InsertFix(p, t); CtxExact(p', TrueMax(t')) && Exact(t')
  {
    var g := p.up;
    var f := Fill(p, t);
    BuildMax(p.dir, p.color, t, p.iv, p.max, p.sib);
    BuildMax(g.dir, g.color, f, g.iv, g.max, g.sib);
    PlugTrueMax(g.up, Fill(g, f), Fill(g, f));
    if !IsBlack(g.sib) {
      PaintExact(f, Black);
      PaintExact(g.sib, Black);
      BuildMax(g.dir, Red, Paint(f, Black), g.iv, g.max, Paint(g.sib, Black));
    } else {
      var parent := if p.dir == g.dir then f else Rotate(g.dir, f);
      if p.dir != g.dir {
        RotateExact(g.dir, f);
      }
      PaintExact(parent, Black);
      var mid := Build(g.dir, Red, Paint(parent, Black), g.iv, g.max, g.sib);
      BuildMax(g.dir, Red, Paint(parent, Black), g.iv, g.max, g.sib);
      RotateExact(g.dir.Other(), mid);
      var top := Rotate(g.dir.Other(), mid);
      BuildMax(g.dir, top.color, Near(g.dir, top), top.iv, top.max, Far(g.dir, top));
    }
  }

  lemma {:induction false} PaintExact(t: Tree, c: Color)
    ensures TrueMax(Paint(t, c)) == TrueMax(t)
    ensures Exact(Paint(t, c)) <==> Exact(t)
  {
  }

  /** Every stored maximum fits its 32 bits, right or wrong. */
  ghost predicate Narrow(t: Tree) {
    t.Node? ==> t.max < LIMIT && Narrow(t.left) && Narrow(t.right)
  }

  lemma {:induction false} NarrowReplace(p: Path, t: Tree, t': Tree)
    requires Narrow(t) ==> Narrow(t')
    ensures Narrow(Plug(p, t)) ==> Narrow(Plug(p, t'))
    decreases p
  {
    if p.Frame? {
      NarrowReplace(p.up, Fill(p, t), Fill(p, t'));
    }
  }

  lemma {:induction false} RotateNarrow(d: Dir, x: Tree)
    requires x.Node? && Far(d, x).Node? && Narrow(x)
    ensures Narrow(Rotate(d, x))
  {
    var y, t := Far(d, x), Rotate(d, x);
    assert Narrow(y);
    assert Narrow(Near(d, t));
  }

  lemma {:induction false} InsertFixNarrow(p: Path, t: Tree)
    requires t.Node? && p.Frame? && p.color.Red? && p.up.Frame?
    ensures var (p', t') := InsertFix(p, t); Narrow(Plug(p, t)) ==> Narrow(Plug(p', t'))
  {
    var g, f := p.up, Fill(p, t);
    var (p', t') := InsertFix(p, t);
    assert Plug(p, t) == Plug(g, f) == Plug(g.up, Fill(g, f));
    if !IsBlack(g.sib) {
      assert Narrow(Fill(g, f)) ==> Narrow(f) && Narrow(g.sib);
      assert Narrow(f) ==> Narrow(Paint(f, Black));
      assert Narrow(g.sib) ==> Narrow(Paint(g.sib, Black));
      NarrowReplace(g.up, Fill(g, f), t');
    } else {
      var parent := if p.dir == g.dir then f else Rotate(g.dir, f);
      var mid := Build(g.dir, Red, Paint(parent, Black), g.iv, g.max, g.sib);
      var top := Rotate(g.dir.Other(), mid);
      if Narrow(Fill(g, f)) {
        if p.dir != g.dir {
          RotateNarrow(g.dir, f);
        }
        assert Narrow(parent);
        assert Narrow(Paint(parent, Black));
        RotateNarrow(g.dir.Other(), mid);
      }
      assert Plug(p', t') == Plug(g.up, top);
      NarrowReplace(g.up, Fill(g, f), top);
    }
  }

  ghost function Depth(p: Path): nat {
    if p.Top? then 0 else 1 + Depth(p.up)
  }

  method InsertRules(path: Path, node: Tree) returns (root: Tree)
    requires Inserting(path, node)
    ensures RedBlack(root) && IsBlack(root)
    ensures InOrder(root) == InOrder(Plug(path, node))
    ensures CtxExact(path, TrueMax(node)) && Exact(node) && TrueMax(Plug(path, node)) < LIMIT ==> Exact(root)
    ensures Narrow(Plug(path, node)) ==> Narrow(root)
  {
    var p, t := path, node;
    ghost var exact := CtxExact(path, TrueMax(node)) && Exact(node) && TrueMax(Plug(path, node)) < LIMIT;
    while p.Frame? && p.color.Red?
      invariant Inserting(p, t)
      invariant InOrder(Plug(p, t)) == InOrder(Plug(path, node))
      invariant exact ==> CtxExact(p, TrueMax(t)) && Exact(t) && TrueMax(Plug(p, t)) < LIMIT
      invariant Narrow(Plug(path, node)) ==> Narrow(Plug(p, t))
      decreases Depth(p)
    {
      InsertFixRedBlack(p, t);
      InsertFixInOrder(p, t);
      InsertFixNarrow(p, t);
      var (p', t') := InsertFix(p, t);
      if exact {
        InsertFixExact(p, t);
        SameMax(Plug(p', t'), Plug(p, t));
      }
      assert Depth(p) == 2 + Depth(p.up.up);
      p, t := p', t';
    }
    PlugRedBlack(p, t);
    if exact {
      PlugExact(p, t);
    }
    root := Paint(Plug(p, t), Black);
  }

  lemma {:induction false} SameMax(t: Tree, t': Tree)
    requires InOrder(t) == InOrder(t')
    ensures TrueMax(t) == TrueMax(t')
  {
    TrueMaxBounds(t);
    TrueMaxBounds(t');
  }

  // --- stale maxima ---

  /** The part of `h.end` that the maximum field can hold. */
  function Cap(h: Interval): nat {
    Min(h.end, LIMIT - 1)
  }

  /** What the maxima may look like while `h` is out of the tree, waiting to be
      put back: exact everywhere, except along the way down from the root towards
      the place of `h`, and there only down to the first interval that touches
      `h`.  On that way a maximum may be too large, but never beyond `Cap(h)`. */
  ghost predicate Stale(t: Tree, h: Interval) {
    t.Node? ==>
      if h.end < t.iv.start then
        TrueMax(t) <= t.max <= Max(TrueMax(t), Cap(h)) && Stale(t.left, h) && Exact(t.right)
      else if t.iv.end < h.start then
        TrueMax(t) <= t.max <= Max(TrueMax(t), Cap(h)) && Exact(t.left) && Stale(t.right, h)
      else
        Exact(t)
  }

  lemma {:induction false} ExactIsStale(t: Tree, h: Interval)
    requires Exact(t)
    ensures Stale(t, h)
  {
    if t.Node? {
      ExactIsStale(t.left, h);
      ExactIsStale(t.right, h);
    }
  }

  /** When every interval reaches past `h`, nothing can be too large. */
  lemma {:induction false} StaleIsExact(t: Tree, h: Interval)
    requires Stale(t, h) && forall e <- InOrder(t) :: h.end <= e.end
    ensures Exact(t)
  {
    if t.Node? {
      assert t.iv in InOrder(t);
      if h.end < t.iv.start {
        StaleIsExact(t.left, h);
      } else if t.iv.end < h.start {
        StaleIsExact(t.right, h);
      }
    }
  }

  // --- insertion ---

  ghost function Elements(t: Tree): set<Interval> {
    set e <- InOrder(t)
  }

  ghost predicate HasKey(t: Tree, k: nat) {
    exists e <- InOrder(t) :: e.start == k
  }

  ghost function Before(p: Path): seq<Interval> {
    if p.Top? then []
    else if p.dir.Left? then Before(p.up)
    else Before(p.up) + InOrder(p.sib) + [p.iv]
  }

  ghost function After(p: Path): seq<Interval> {
    if p.Top? then []
    else if p.dir.Right? then After(p.up)
    else [p.iv] + InOrder(p.sib) + After(p.up)
  }

  lemma {:induction false} PlugSplit(p: Path, t: Tree)
    ensures InOrder(Plug(p, t)) == Before(p) + InOrder(t) + After(p)
    decreases p
  {
    if p.Frame? {
      PlugSplit(p.up, Fill(p, t));
      BuildInOrder(p.dir, p.color, t, p.iv, p.max, p.sib);
      if p.dir.Left? {
        JoinLeft(Before(p.up), InOrder(t), p.iv, InOrder(p.sib), After(p.up));
      } else {
        JoinRight(Before(p.up), InOrder(p.sib), p.iv, InOrder(t), After(p.up));
      }
    }
  }

  lemma JoinLeft(a: seq<Interval>, x: seq<Interval>, iv: Interval, s: seq<Interval>, b: seq<Interval>)
    ensures a + (x + [iv] + s) + b == a + x + ([iv] + s + b)
  {
  }

  lemma JoinRight(a: seq<Interval>, s: seq<Interval>, iv: Interval, x: seq<Interval>, b: seq<Interval>)
    ensures a + (s + [iv] + x) + b == (a + s + [iv]) + x + b
  {
  }

  ghost predicate Around(p: Path, k: nat) {
    && (forall e <- Before(p) :: e.start < k)
    && (forall e <- After(p) :: k < e.start)
  }

  lemma {:induction false} KeyStep(p: Path, x: Tree, d: Dir, k: nat)
    requires x.Node? && KeySorted(Before(p) + InOrder(x) + After(p)) && Around(p, k)
    requires if d.Left? then k < x.iv.start else x.iv.start < k
    ensures forall c, m :: Around(Frame(p, d, c, x.iv, m, Far(d, x)), k)
  {
    var s := Before(p) + InOrder(x) + After(p);
    var i := |Before(p)| + |InOrder(x.left)|;
    assert s[i] == x.iv;
    forall e | e in InOrder(x.left)
      ensures e.start < x.iv.start
    {
      var j :| 0 <= j < |InOrder(x.left)| && InOrder(x.left)[j] == e;
      assert s[|Before(p)| + j] == e;
    }
    forall e | e in InOrder(x.right)
      ensures x.iv.start < e.start
    {
      var j :| 0 <= j < |InOrder(x.right)| && InOrder(x.right)[j] == e;
      assert s[i + 1 + j] == e;
    }
  }

  lemma SplitKeys(a: seq<Interval>, iv: Interval, b: seq<Interval>)
    requires KeySorted(a + b)
    requires forall e <- a :: e.start < iv.start
    requires forall e <- b :: iv.start < e.start
    ensures KeySorted(a + [iv] + b)
  {
    assert forall i :: 0 <= i < |a| ==> a[i] == (a + b)[i];
    assert forall i :: 0 <= i < |b| ==> b[i] == (a + b)[|a| + i];
  }

  /** Invariant of the way down: the subtree still to be searched fits its place. */
  ghost predicate Placed(p: Path, x: Tree) {
    && RedBlack(x) && CtxRedBlack(p, BlackHeight(x)) && RootBlack(p)
    && (IsBlack(x) || BlackAbove(p))
    && (p.Top? ==> IsBlack(x))
  }

  lemma {:induction false} PlacedDown(p: Path, x: Tree, d: Dir, m: nat)
    requires Placed(p, x) && x.Node?
    ensures var q := Frame(p, d, x.color, x.iv, m, Far(d, x));
      Placed(q, Near(d, x)) && InOrder(Plug(q, Near(d, x))) == InOrder(Plug(p, x))
  {
    var q := Frame(p, d, x.color, x.iv, m, Far(d, x));
    BuildRedBlack(d, x.color, Near(d, x), x.iv, x.max, Far(d, x));
    BuildInOrder(d, x.color, Near(d, x), x.iv, x.max, Far(d, x));
    BuildInOrder(d, x.color, Near(d, x), x.iv, m, Far(d, x));
    PlugInOrder(p, x, Fill(q, Near(d, x)));
  }

  /** Raising the maxima on the way down makes them exact for the tree that holds `iv`. */
  lemma {:induction false} RaisedDown(p: Path, x: Tree, d: Dir, m: nat, iv: Interval)
    requires x.Node? && Stale(x, iv) && CtxExact(p, Max(TrueMax(x), iv.end))
    requires x.iv.Valid() && iv.Valid() && if d.Left? then iv.end < x.iv.start else x.iv.end < iv.start
    requires m == Max(iv.end, x.max)
    ensures Stale(Near(d, x), iv)
    ensures CtxExact(Frame(p, d, x.color, x.iv, m, Far(d, x)), Max(TrueMax(Near(d, x)), iv.end))
  {
    BuildMax(d, x.color, Near(d, x), x.iv, x.max, Far(d, x));
  }

  ghost predicate Ready(t: Tree, iv: Interval) {
    && Stale(t, iv) && iv.Valid() && iv.end < LIMIT && TrueMax(t) < LIMIT
    && forall e <- InOrder(t) :: e.Valid() && !Touch(e, iv)
  }

  /** Insert a node for `iv`, unless its key is present (result 1).  The maxima on
      the way down are raised before a duplicate is noticed. */
  method Insert(tree: Tree, iv: Interval) returns (code: nat, root: Tree)
    requires RedBlack(tree) && IsBlack(tree) && KeySorted(InOrder(tree))
    ensures code == (if HasKey(tree, iv.start) then 1 else 0)
    ensures RedBlack(root) && IsBlack(root) && KeySorted(InOrder(root))
    ensures code == 1 ==> InOrder(root) == InOrder(tree)
    ensures code == 0 ==> Elements(root) == Elements(tree) + {iv}
    ensures code == 0 && Ready(tree, iv) ==> Exact(root)
    ensures Narrow(tree) ==> Narrow(root)
  {
    var p, x := Top, tree;
    var m := U32(iv.end);
    ghost var ready := Ready(tree, iv);
    while x.Node?
      invariant Placed(p, x)
      invariant InOrder(Plug(p, x)) == InOrder(tree)
      invariant Around(p, iv.start)
      invariant Narrow(tree) ==> Narrow(Plug(p, x))
      invariant ready ==> Stale(x, iv) && CtxExact(p, Max(TrueMax(x), iv.end))
      decreases x
    {
      PlugSplit(p, x);
      assert x.iv in InOrder(tree);
      if iv.start == x.iv.start {
        PlugRedBlack(p, x);
        PlugRootBlack(p, x);
        return 1, Plug(p, x);
      }
      var d := if iv.start < x.iv.start then Left else Right;
      var raised := if m > x.max then m else x.max;
      PlacedDown(p, x, d, raised);
      KeyStep(p, x, d, iv.start);
      NarrowReplace(p, x, x.(max := raised));
      if ready {
        RaisedDown(p, x, d, raised, iv);
      }
      p, x := Frame(p, d, x.color, x.iv, raised, Far(d, x)), Near(d, x);
    }
    code := 0;
    Inserted(p, tree, iv, m);
    NarrowReplace(p, Nil, Node(Red, Nil, iv, m, Nil));
    root := InsertRules(p, Node(Red, Nil, iv, m, Nil));
  }

  lemma {:induction false} Inserted(p: Path, tree: Tree, iv: Interval, m: nat)
    requires InOrder(Plug(p, Nil)) == InOrder(tree) && KeySorted(InOrder(tree)) && Around(p, iv.start)
    ensures !HasKey(tree, iv.start)
    ensures var t := Node(Red, Nil, iv, m, Nil);
      && KeySorted(InOrder(Plug(p, t)))
      && (set e <- InOrder(Plug(p, t))) == Elements(tree) + {iv}
      && TrueMax(t) == iv.end
      && (m == iv.end ==> Exact(t))
      && (TrueMax(tree) < LIMIT && iv.end < LIMIT ==> TrueMax(Plug(p, t)) < LIMIT)
  {
    var t := Node(Red, Nil, iv, m, Nil);
    PlugSplit(p, Nil);
    PlugSplit(p, t);
    InsertedOrder(Before(p), iv, After(p));
    assert InOrder(tree) == Before(p) + After(p);
    assert InOrder(Plug(p, t)) == Before(p) + [iv] + After(p);
    InsertedMax(tree, iv, Plug(p, t));
  }

  lemma {:induction false} InsertedMax(tree: Tree, iv: Interval, tree': Tree)
    requires Elements(tree') == Elements(tree) + {iv}
    ensures TrueMax(tree) < LIMIT && iv.end < LIMIT ==> TrueMax(tree') < LIMIT
  {
    TrueMaxBounds(tree);
    TrueMaxBounds(tree');
    assert forall e <- InOrder(tree') :: e in Elements(tree');
  }

  lemma InsertedOrder(a: seq<Interval>, iv: Interval, b: seq<Interval>)
    requires KeySorted(a + b)
    requires forall e <- a :: e.start < iv.start
    requires forall e <- b :: iv.start < e.start
    ensures KeySorted(a + [iv] + b)
    ensures (set e <- a + [iv] + b) == (set e <- a + b) + {iv}
  {
    SplitKeys(a, iv, b);
    assert forall e :: e in a + [iv] + b <==> e in a + b || e == iv;
  }
}
