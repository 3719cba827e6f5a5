/** The value both range mergers compute: a set of pairwise non-touching extents.

    Two extents touch when they overlap or are adjacent.  Merging an extent into a
    set replaces every extent it touches, and itself, by their common hull.  The
    theorems below characterise the result by what it covers, without mentioning
    how it was built, so any two mergers that keep the extents apart and cover the
    same ground hold the same set. */
module Extents {

  /** An extent from `start` up to, but not including, byte `end`. */
  datatype Interval = Interval(start: nat, end: nat) {
    predicate Valid() {
      start <= end
    }

    /** Ground is measured in half-bytes, so that extents that are merely close
        to each other ([0,4) and [5,9)) leave a gap and empty extents are points. */
    predicate Holds(p: int) {
      2 * start <= p <= 2 * end
    }
  }

  predicate Touch(a: Interval, b: Interval) {
    a.start <= b.end && b.start <= a.end
  }

  predicate Within(a: Interval, b: Interval) {
    b.start <= a.start && a.end <= b.end
  }

  function Min(a: nat, b: nat): nat {
    if a <= b then a else b
  }

  function Max(a: nat, b: nat): nat {
    if a <= b then b else a
  }

  function Hull(a: Interval, b: Interval): Interval {
    Interval(Min(a.start, b.start), Max(a.end, b.end))
  }

  /** The invariant of a merged set: proper extents, none touching another. */
  ghost predicate Apart(s: set<Interval>) {
    && (forall e <- s :: e.Valid())
    && (forall a <- s, b <- s :: a != b ==> !Touch(a, b))
  }

  ghost predicate Covers(s: set<Interval>, p: int) {
    exists e <- s :: e.Holds(p)
  }

  ghost function Touching(s: set<Interval>, n: Interval): set<Interval> {
    set e <- s | Touch(e, n)
  }

  ghost predicate IsHull(s: set<Interval>, n: Interval, h: Interval) {
    && Within(n, h)
    && (forall e <- s :: Within(e, h))
    && (h.start == n.start || exists e <- s :: e.start == h.start)
    && (h.end == n.end || exists e <- s :: e.end == h.end)
  }

  /** The least extent around `n` and every member of `s`. */
  ghost function HullAll(s: set<Interval>, n: Interval): (h: Interval)
    ensures IsHull(s, n, h)
  {
    if s == {} then n
    else
      var e :| e in s;
      HullAll(s - {e}, Hull(n, e))
  }

  /** What adding `n` to the merged set `s` must produce. */
  ghost function Merge(s: set<Interval>, n: Interval): set<Interval> {
    s - Touching(s, n) + {HullAll(Touching(s, n), n)}
  }

  ghost function MergeAll(s: set<Interval>, ns: seq<Interval>): set<Interval> {
    if ns == [] then s else Merge(MergeAll(s, ns[..|ns| - 1]), ns[|ns| - 1])
  }

  // --- the hull of touching extents is their union ---

  lemma HullIsUnion(s: set<Interval>, n: Interval, p: int)
    requires n.Valid() && forall e <- s :: e.Valid() && Touch(e, n)
    ensures HullAll(s, n).Holds(p) <==> n.Holds(p) || Covers(s, p)
  {
    var h := HullAll(s, n);
    if h.Holds(p) && !n.Holds(p) {
      if p < 2 * n.start {
        var e :| e in s && e.start == h.start;
        assert e.Holds(p);
      } else {
        var e :| e in s && e.end == h.end;
        assert e.Holds(p);
      }
    }
  }

  /** Two extents touch exactly when some half-byte lies in both. */
  lemma TouchIsMeet(a: Interval, b: Interval) returns (p: int)
    requires a.Valid() && b.Valid()
    ensures Touch(a, b) <==> a.Holds(p) && b.Holds(p)
  {
    p := 2 * Max(a.start, b.start);
  }

  // --- main facts about Merge ---

  /** Merging keeps the set apart, and adds to what it covers exactly the new extent. */
  lemma MergeSound(s: set<Interval>, n: Interval)
    requires Apart(s) && n.Valid()
    ensures Apart(Merge(s, n))
    ensures forall p :: Covers(Merge(s, n), p) <==> Covers(s, p) || n.Holds(p)
  {
    var t := Touching(s, n);
    var h := HullAll(t, n);
    forall e | e in s - t
      ensures !Touch(e, h)
    {
      var p := TouchIsMeet(e, h);
      HullIsUnion(t, n, p);
    }
    forall p: int
      ensures Covers(Merge(s, n), p) <==> Covers(s, p) || n.Holds(p)
    {
      HullIsUnion(t, n, p);
      if Covers(s, p) {
        var e :| e in s && e.Holds(p);
        assert e in t || e in Merge(s, n);
      }
      if h.Holds(p) {
        assert h in Merge(s, n);
      }
    }
  }

  /** One member of `s` is a member of every apart set with the same cover. */
  lemma SameCoverMember(s: set<Interval>, t: set<Interval>, e: Interval)
    requires Apart(s) && Apart(t)
    requires forall p :: Covers(s, p) <==> Covers(t, p)
    requires e in s
    ensures e in t
  {
    var f := Enclosing(s, t, e);
    var g := Enclosing(t, s, f);
    assert Touch(e, g);
  }

  lemma Enclosing(s: set<Interval>, t: set<Interval>, e: Interval) returns (f: Interval)
    requires Apart(s) && Apart(t)
    requires forall p :: Covers(s, p) <==> Covers(t, p)
    requires e in s
    ensures f in t && Within(e, f)
  {
    assert e.Holds(2 * e.start);
    assert Covers(t, 2 * e.start);
    f :| f in t && f.Holds(2 * e.start);
    if f.end < e.end {
      var p := 2 * f.end + 1;
      assert e.Holds(p);
      assert Covers(t, p);
      var g :| g in t && g.Holds(p);
      assert Touch(f, g);
      assert false;
    }
  }

  /** A merged set is determined by what it covers. */
  lemma UniqueDecomposition(s: set<Interval>, t: set<Interval>)
    requires Apart(s) && Apart(t)
    requires forall p :: Covers(s, p) <==> Covers(t, p)
    ensures s == t
  {
    forall e | e in s ensures e in t { SameCoverMember(s, t, e); }
    forall e | e in t ensures e in s { SameCoverMember(t, s, e); }
  }

  // --- consequences used by the mergers ---

  /** Absorbing one touching extent first, then merging the hull, changes nothing. */
  lemma MergeStep(s: set<Interval>, n: Interval, e: Interval)
    requires Apart(s) && n.Valid() && e in s && Touch(e, n)
    ensures Apart(s - {e}) && Hull(n, e).Valid()
    ensures Merge(s, n) == Merge(s - {e}, Hull(n, e))
  {
    var s' := s - {e};
    var h := Hull(n, e);
    MergeSound(s, n);
    MergeSound(s', h);
    forall p: int
      ensures Covers(Merge(s, n), p) <==> Covers(Merge(s', h), p)
    {
      assert h.Holds(p) <==> n.Holds(p) || e.Holds(p);
      if Covers(s, p) {
        var f :| f in s && f.Holds(p);
        assert f == e || f in s';
      }
    }
    UniqueDecomposition(Merge(s, n), Merge(s', h));
  }

  /** An extent inside a member adds nothing. */
  lemma MergeWithin(s: set<Interval>, n: Interval, e: Interval)
    requires Apart(s) && n.Valid() && e in s && Within(n, e)
    ensures Merge(s, n) == s
  {
    MergeSound(s, n);
    forall p: int
      ensures Covers(Merge(s, n), p) <==> Covers(s, p)
    {
      assert n.Holds(p) ==> e.Holds(p);
    }
    UniqueDecomposition(Merge(s, n), s);
  }

  /** An extent that touches nothing is simply added. */
  lemma MergeFresh(s: set<Interval>, n: Interval)
    requires forall e <- s :: !Touch(e, n)
    ensures Merge(s, n) == s + {n}
  {
    assert Touching(s, n) == {};
  }

  // --- whole runs ---

  lemma {:induction false} MergeAllSound(s: set<Interval>, ns: seq<Interval>)
    requires Apart(s) && forall n <- ns :: n.Valid()
    ensures Apart(MergeAll(s, ns))
    ensures forall p :: Covers(MergeAll(s, ns), p) <==> Covers(s, p) || exists n <- ns :: n.Holds(p)
  {
    if ns != [] {
      var front, n := ns[..|ns| - 1], ns[|ns| - 1];
      MergeAllSound(s, front);
      MergeSound(MergeAll(s, front), n);
      assert ns == front + [n];
      forall p: int
        ensures (exists m <- ns :: m.Holds(p)) <==> (exists m <- front :: m.Holds(p)) || n.Holds(p)
      {
      }
    }
  }

  /** Order, and repetition, of the additions do not matter. */
  lemma MergeAllOrderFree(s: set<Interval>, ns: seq<Interval>, ms: seq<Interval>)
    requires Apart(s) && forall n <- ns :: n.Valid()
    requires forall n :: n in ns <==> n in ms
    ensures MergeAll(s, ns) == MergeAll(s, ms)
  {
    MergeAllSound(s, ns);
    MergeAllSound(s, ms);
    UniqueDecomposition(MergeAll(s, ns), MergeAll(s, ms));
  }

  /** In bytes: a half-byte strictly inside byte `b` is covered iff the byte is. */
  lemma CoversByte(s: set<Interval>, b: int)
    ensures Covers(s, 2 * b + 1) <==> exists e <- s :: e.start <= b < e.end
  {
    forall e: Interval
      ensures e.Holds(2 * b + 1) <==> e.start <= b < e.end
    {
    }
  }

  // --- counting bytes ---

  function Length(e: Interval): int {
    e.end - e.start
  }

  predicate HasByte(e: Interval, b: int) {
    e.start <= b < e.end
  }

  ghost function Bytes(e: Interval): set<int> {
    set b: int | e.start <= b < e.end && HasByte(e, b)
  }

  ghost function ByteSet(s: set<Interval>): set<int> {
    set e <- s, b <- Bytes(e) :: b
  }

  ghost function Total(s: set<Interval>): int {
    if s == {} then 0
    else
      var e :| e in s;
      Length(e) + Total(s - {e})
  }

  lemma BytesStep(e: Interval)
    requires e.start < e.end
    ensures forall b :: b in Bytes(e) <==> b in Bytes(Interval(e.start, e.end - 1)) || b == e.end - 1
  {
  }

  lemma {:induction false} BytesCount(e: Interval)
    requires e.Valid()
    ensures |Bytes(e)| == Length(e)
    decreases e.end
  {
    if e.start < e.end {
      var f := Interval(e.start, e.end - 1);
      BytesCount(f);
      BytesStep(e);
      assert Bytes(e) == Bytes(f) + {e.end - 1};
      assert e.end - 1 !in Bytes(f);
    } else {
      assert Bytes(e) == {};
    }
  }

  lemma InByteSet(s: set<Interval>, b: int)
    ensures b in ByteSet(s) <==> exists e <- s :: e.start <= b < e.end
  {
    if e :| e in s && e.start <= b < e.end {
      assert b in Bytes(e);
    }
  }

  lemma ByteSetTake(s: set<Interval>, e: Interval)
    requires Apart(s) && e in s
    ensures ByteSet(s) == ByteSet(s - {e}) + Bytes(e)
    ensures ByteSet(s - {e}) !! Bytes(e)
  {
    forall b: int
      ensures b in ByteSet(s) <==> b in ByteSet(s - {e}) || b in Bytes(e)
      ensures !(b in ByteSet(s - {e}) && b in Bytes(e))
    {
      InByteSet(s, b);
      InByteSet(s - {e}, b);
      if f :| f in s - {e} && f.start <= b < f.end {
        assert !Touch(e, f);
      }
    }
  }

  lemma UnionSize(a: set<int>, b: set<int>)
    ensures |a + b| == |a| + |b| - |a * b|
  {
    assert a + b == a + (b - a);
    assert b == (b - a) + a * b;
  }

  /** Extents that are apart share no byte, so their lengths add up. */
  lemma {:induction false} TotalIsByteCount(s: set<Interval>)
    requires Apart(s)
    ensures Total(s) == |ByteSet(s)|
  {
    if s == {} {
      assert ByteSet(s) == {};
    } else {
      var e :| e in s;
      TotalTake(s, e);
      TotalIsByteCount(s - {e});
      BytesCount(e);
      ByteSetTake(s, e);
      UnionSize(ByteSet(s - {e}), Bytes(e));
    }
  }

  /** Merging makes the total grow by the new bytes only: what `n` shares with the
      set is counted once. */
  lemma MergeTotal(s: set<Interval>, n: Interval)
    requires Apart(s) && n.Valid()
    ensures Total(Merge(s, n)) == Total(s) + Length(n) - |ByteSet(s) * Bytes(n)|
  {
    MergeSound(s, n);
    TotalIsByteCount(s);
    TotalIsByteCount(Merge(s, n));
    BytesCount(n);
    MergeByteSet(s, n);
    UnionSize(ByteSet(s), Bytes(n));
  }

  lemma MergeByteSet(s: set<Interval>, n: Interval)
    requires Apart(s) && n.Valid()
    ensures ByteSet(Merge(s, n)) == ByteSet(s) + Bytes(n)
  {
    MergeSound(s, n);
    forall b: int
      ensures b in ByteSet(Merge(s, n)) <==> b in ByteSet(s) + Bytes(n)
    {
      InByteSet(Merge(s, n), b);
      InByteSet(s, b);
      CoversByte(Merge(s, n), b);
      CoversByte(s, b);
    }
  }

  lemma {:induction false} TotalTake(s: set<Interval>, e: Interval)
    requires e in s
    ensures Total(s) == Length(e) + Total(s - {e})
  {
    var f :| f in s && Total(s) == Length(f) + Total(s - {f});
    if e != f {
      TotalTake(s - {f}, e);
      TotalTake(s - {e}, f);
      assert s - {e} - {f} == s - {f} - {e};
    }
  }
}
