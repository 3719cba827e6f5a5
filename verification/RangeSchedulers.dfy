/** The merging scheduler as it is linked together: a list of queue addresses, one
    map from handle to queue address per direction, and the queues themselves in a
    store, so that the list and the maps share queues as the original's pointers do. */
module RangeSchedulers {
  import opened Basics
  import opened Extents
  import opened Ranges
  import opened RangeSet
  import opened MergeScheduler

  type Store = map<nat, Queue>

  /** A map of one direction holds exactly the queues of that direction. */
  ghost predicate Indexes(m: map<Handle, nat>, store: Store, d: Direction) {
    && (forall h <- m :: m[h] in store && store[m[h]].Serves(d, h))
    && (forall a <- store :: store[a].dir == d ==> store[a].handle in m && m[store[a].handle] == a)
  }

  /** The list holds every queue once. */
  ghost predicate Lists(q: seq<nat>, store: Store) {
    && (forall a :: a in q <==> a in store)
    && forall i, j :: 0 <= i < j < |q| ==> q[i] != q[j]
  }

  ghost function Views(q: seq<nat>, store: Store): (vs: seq<Queue>)
    requires forall a <- q :: a in store
    ensures |vs| == |q| && forall i :: 0 <= i < |q| ==> vs[i] == store[q[i]]
  {
    seq(|q|, i requires 0 <= i < |q| => store[q[i]])
  }

  method AddRange(rs: set<Range>, l: Leaf) returns (rs': set<Range>)
    requires Good(rs) && l.st <= l.en
    ensures Adds(rs, l, rs')
  {
    var brs := new HierarchicalRangeSet.Of(rs);
    brs.Add(l);
    rs' := brs.ranges;
  }

  method GetRange(rs: set<Range>) returns (r: Range)
    requires Good(rs) && rs != {}
    ensures r in rs
  {
    var brs := new HierarchicalRangeSet.Of(rs);
    r := brs.Get();
  }

  lemma AddsFirst(l: Leaf, rs: set<Range>)
    requires Adds({}, l, rs)
    ensures rs == {Child(l)}
  {
    var r :| AddsAs({}, l, r, rs);
    assert TouchingRanges({}, l) == {};
  }

  /** Overwriting a queue with one for the same handle and direction. */
  lemma StoreUpdate(q: seq<nat>, store: Store, rm: map<Handle, nat>, wm: map<Handle, nat>, i: nat, v: Queue)
    requires Lists(q, store) && Indexes(rm, store, Read) && Indexes(wm, store, Write)
    requires i < |q| && v.Serves(store[q[i]].dir, store[q[i]].handle)
    ensures var store' := store[q[i] := v];
      && Lists(q, store') && Indexes(rm, store', Read) && Indexes(wm, store', Write)
      && Views(q, store') == Views(q, store)[i := v]
  {
  }

  lemma Rotated(q: seq<nat>, store: Store)
    requires Lists(q, store) && q != []
    ensures Lists(q[1..] + [q[0]], store)
    ensures Views(q[1..] + [q[0]], store) == Views(q, store)[1..] + [store[q[0]]]
  {
    var p := q[1..] + [q[0]];
    assert forall a :: a in p <==> a in q by {
      assert q == [q[0]] + q[1..];
    }
    assert forall i :: 0 <= i < |p| - 1 ==> p[i] == q[i + 1];
    assert p[|p| - 1] == q[0];
  }

  lemma DropFromList(q: seq<nat>, store: Store)
    requires Lists(q, store) && q != []
    ensures Lists(q[1..], store - {q[0]})
    ensures Views(q[1..], store - {q[0]}) == Views(q, store)[1..]
  {
    assert q == [q[0]] + q[1..];
  }

  lemma DropFromIndex(m: map<Handle, nat>, store: Store, d: Direction, a: nat)
    requires Indexes(m, store, d) && a in store
    ensures Indexes(if store[a].dir == d then m - {store[a].handle} else m, store - {a}, d)
  {
  }

  lemma AppendToList(q: seq<nat>, store: Store, a: nat, v: Queue)
    requires Lists(q, store) && a !in store
    ensures Lists(q + [a], store[a := v])
    ensures Views(q + [a], store[a := v]) == Views(q, store) + [v]
  {
    assert a !in q;
  }

  lemma AppendToIndex(m: map<Handle, nat>, store: Store, d: Direction, a: nat, v: Queue)
    requires Indexes(m, store, d) && a !in store && forall b <- store :: !store[b].Serves(v.dir, v.handle)
    ensures Indexes(if v.dir == d then m[v.handle := a] else m, store[a := v], d)
  {
  }

  /** The list `q_`, the maps `rm_` and `wm_`, and the queues they point to. */
  datatype Table = Table(q: seq<nat>, rm: map<Handle, nat>, wm: map<Handle, nat>, store: Store, next: nat) {
    ghost predicate Valid() {
      && Lists(q, store)
      && Indexes(rm, store, Read) && Indexes(wm, store, Write)
      && forall a <- store :: a < next
    }

    ghost function Queues(): seq<Queue>
      requires Valid()
    {
      Views(q, store)
    }

    function Find(d: Direction, h: Handle): Option<nat> {
      var m := if d == Read then rm else wm;
      if h in m then Some(m[h]) else None
    }

    function Append(hq: Queue): (t: Table)
      requires Valid() && forall b <- store :: !store[b].Serves(hq.dir, hq.handle)
      ensures t.Valid() && t.Queues() == Queues() + [hq]
    {
      AppendToList(q, store, next, hq);
      AppendToIndex(rm, store, Read, next, hq);
      AppendToIndex(wm, store, Write, next, hq);
      Table(q + [next],
            if hq.dir == Read then rm[hq.handle := next] else rm,
            if hq.dir == Write then wm[hq.handle := next] else wm,
            store[next := hq], next + 1)
    }

    function Replace(a: nat, hq: Queue): (t: Table)
      requires Valid() && a in store && hq.Serves(store[a].dir, store[a].handle)
      ensures t.Valid() && forall i :: 0 <= i < |q| && q[i] == a ==> t.Queues() == Queues()[i := hq]
      ensures t.q == q && t.store[a] == hq
    {
      assert exists i :: 0 <= i < |q| && q[i] == a;
      forall i | 0 <= i < |q| && q[i] == a
        ensures Lists(q, store[a := hq]) && Indexes(rm, store[a := hq], Read) && Indexes(wm, store[a := hq], Write)
        ensures Views(q, store[a := hq]) == Views(q, store)[i := hq]
      {
        StoreUpdate(q, store, rm, wm, i, hq);
      }
      this.(store := store[a := hq])
    }

    function FrontToBack(): (t: Table)
      requires Valid() && q != []
      ensures t.Valid() && t.Queues() == Queues()[1..] + [Queues()[0]]
    {
      Rotated(q, store);
      this.(q := q[1..] + [q[0]])
    }

    function DropFront(): (t: Table)
      requires Valid() && q != []
      ensures t.Valid() && t.Queues() == Queues()[1..]
    {
      DropFromList(q, store);
      DropFromIndex(rm, store, Read, q[0]);
      DropFromIndex(wm, store, Write, q[0]);
      var hq := store[q[0]];
      Table(q[1..],
            if hq.dir == Read then rm - {hq.handle} else rm,
            if hq.dir == Write then wm - {hq.handle} else wm,
            store - {q[0]}, next)
    }
  }

  class MergeRangeScheduler {
    var table: Table
    var bytesQueued: int
    const defaultQuantum: int

    ghost predicate Valid()
      reads this
    {
      defaultQuantum >= 1 && table.Valid() && View().Valid(defaultQuantum)
    }

    ghost function View(): State
      requires table.Valid()
      reads this
    {
      State(table.Queues(), bytesQueued)
    }

    constructor (defaultQuantum: int)
      requires defaultQuantum >= 1
      ensures Valid() && View() == Initial && this.defaultQuantum == defaultQuantum
    {
      this.defaultQuantum := defaultQuantum;
      table, bytesQueued := Table([], map[], map[], map[], 0), 0;
    }

    predicate Empty()
      reads this
    {
      table.q == []
    }

    method Enqueue(l: Leaf)
      requires Valid() && l.st <= l.en
      modifies this
      ensures Valid() && Enqueues(defaultQuantum, old(View()), l, View())
    {
      var found := table.Find(l.dir, l.handle);
      if found.None? {
        NoQueue(table, l.dir, l.handle);
        var rs := AddRange({}, l);
        AddsFirst(l, rs);
        table := table.Append(Queue(l.dir, l.handle, rs, defaultQuantum));
      } else {
        ghost var i := QueueAt(table, defaultQuantum, found.value);
        var hq := table.store[found.value];
        var rs := AddRange(hq.ranges, l);
        EnqueuesTo(old(View()), l, i, rs);
        table := table.Replace(found.value, hq.(ranges := rs));
      }
      bytesQueued := bytesQueued + (l.en - l.st);
      EnqueueSound(defaultQuantum, old(View()), l, View());
    }

    /** Serve the front queue. */
    method Dequeue() returns (ok: bool, r: Range)
      requires Valid()
      modifies this
      ensures Valid() && ok == !old(Empty())
      ensures ok ==> Dequeues(defaultQuantum, old(View()), r, View())
      ensures !ok ==> View() == old(View())
    {
      if table.q == [] {
        var none := Leaf(Read, Handle(0, 0), 0, 0, 0, 0);
        return false, Child(none);
      }
      r := Serve();
      ok := true;
      DequeueSound(defaultQuantum, old(View()), r, View());
    }

    method Serve() returns (r: Range)
      requires Valid() && table.q != []
      modifies this
      ensures table.Valid() && Dequeues(defaultQuantum, old(View()), r, View())
    {
      var a := table.q[0];
      ghost var i := QueueAt(table, defaultQuantum, a);
      var hq := table.store[a];
      r := GetRange(hq.ranges);
      table := Turned(table, r, defaultQuantum);
      bytesQueued := bytesQueued - Length(r.Extent());
    }
  }

  /** The front queue changes in place. */
  function FrontChanged(t: Table, hq: Queue): (t': Table)
    requires t.Valid() && t.q != [] && hq.Serves(t.store[t.q[0]].dir, t.store[t.q[0]].handle)
    ensures t'.Valid() && t'.q == t.q && t'.Queues() == [hq] + t.Queues()[1..]
  {
    t.Replace(t.q[0], hq)
  }

  /** After `r` was taken from the front queue: keep it, send it back, or delete it. */
  function Turned(t: Table, r: Range, dq: int): (t': Table)
    requires t.Valid() && t.q != [] && t.store[t.q[0]].quantum >= 1
    ensures t'.Valid() && t'.Queues() == Turns(t.Queues(), r, dq)
  {
    var hq := t.store[t.q[0]];
    var rest, quantum := hq.ranges - {r}, hq.quantum - 1;
    if quantum > 0 && rest != {} then
      FrontChanged(t, hq.(ranges := rest, quantum := quantum))
    else if quantum == 0 && rest != {} then
      FrontChanged(t, hq.(ranges := rest, quantum := dq)).FrontToBack()
    else
      t.DropFront()
  }

  lemma NoQueue(t: Table, d: Direction, h: Handle)
    requires t.Valid() && t.Find(d, h).None?
    ensures !HasQueue(t.Queues(), d, h)
    ensures forall a <- t.store :: !t.store[a].Serves(d, h)
  {
  }

  lemma EnqueuesTo(s: State, l: Leaf, i: int, rs: set<Range>)
    requires 0 <= i < |s.queues| && s.queues[i].Serves(l.dir, l.handle) && Adds(s.queues[i].ranges, l, rs)
    ensures HasQueue(s.queues, l.dir, l.handle)
    ensures forall s': State :: s'.queues == s.queues[i := s.queues[i].(ranges := rs)] ==> EnqueuesAt(s, l, i, rs, s')
  {
    assert s.queues[i] in s.queues;
  }

  lemma QueueAt(t: Table, dq: int, a: nat) returns (i: int)
    requires t.Valid() && a in t.store && forall v <- t.Queues() :: v.Valid(dq)
    ensures 0 <= i < |t.q| && t.q[i] == a && t.Queues()[i] == t.store[a] && t.store[a].Valid(dq)
  {
    i :| 0 <= i < |t.q| && t.q[i] == a;
    assert t.Queues()[i] in t.Queues();
  }
}
