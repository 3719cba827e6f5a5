/** Running a pipelined transfer: buffers are obtained and posted in order, their
    operations complete in any order, and reads are sent back in order.

    An operation's completion is polled.  `delays[i]` is the number of polls that
    find operation `i` still running, so the delays range over every order in which
    the operations may complete. */
module PipelineExec {
  import opened Basics
  import opened Pipeline

  // --- buffers ---

  /** The size of buffer `i` of `n`: the last one may be partial. */
  function BufferSize(total: nat, psize: nat, n: nat, i: nat): nat
    requires psize > 0
  {
    if total % psize != 0 && i + 1 == n then total % psize else psize
  }

  /** The bytes before buffer `i`. */
  lemma BufferStart(total: nat, psize: nat, i: nat)
    requires psize > 0 && i < CeilDiv(total, psize)
    ensures i * psize < total
    ensures BufferSize(total, psize, CeilDiv(total, psize), i) == Min(psize, total - i * psize)
    ensures i + 1 == CeilDiv(total, psize) ==> i * psize + BufferSize(total, psize, CeilDiv(total, psize), i) == total
    ensures i + 1 < CeilDiv(total, psize) ==> BufferSize(total, psize, CeilDiv(total, psize), i) == psize
  {
    var n := CeilDiv(total, psize);
    var q, r := total / psize, total % psize;
    assert total == q * psize + r;
    assert n == (if r == 0 then q else q + 1) by {
      if r == 0 {
        DivUnique(total + psize - 1, psize, q, psize - 1);
      } else {
        DivUnique(total + psize - 1, psize, q + 1, r - 1);
      }
    }
    MulOrder(i, q, psize);
    if i < q {
      MulOrder(i + 1, q, psize);
    }
  }

  lemma MulOrder(i: nat, q: nat, p: nat)
    ensures i <= q ==> i * p <= q * p
    ensures (i + 1) * p == i * p + p
  {
    if i <= q {
      assert q * p == i * p + (q - i) * p;
    }
  }

  /** No piece reaches beyond its buffer, not even in the partial last one. */
  lemma PieceInBuffer(q: Segments, psize: nat, s: Slices, j: nat, k: nat)
    requires q.Valid() && psize > 0 && s.Shaped() && s.PiecesOk(q, psize)
    requires |s.counts| == CeilDiv(q.Total(), psize)
    requires j < |s.counts| && s.firsts[j] <= k < s.firsts[j] + s.counts[j] && k < |s.sizes|
    ensures s.offsets[k] + s.sizes[k] <= BufferSize(q.Total(), psize, |s.counts|, j)
  {
    assert s.PieceOk(q, psize, j, k);
    BufferStart(q.Total(), psize, j);
  }

  function Min(a: int, b: int): int {
    if a <= b then a else b
  }

  /** The pieces of a buffer fill it. */
  lemma BufferFilled(q: Segments, psize: nat, s: Slices, j: nat)
    requires psize > 0 && s.Shaped() && Aligned(s, psize) && Sum(s.sizes) == q.Total()
    requires |s.counts| == CeilDiv(q.Total(), psize) && j < |s.counts|
    ensures s.firsts[j] + s.counts[j] <= |s.sizes|
    ensures Sum(s.sizes[s.firsts[j]..s.firsts[j] + s.counts[j]]) == BufferSize(q.Total(), psize, |s.counts|, j)
  {
    var a, b := s.firsts[j], s.firsts[j] + s.counts[j];
    PiecesBetween(s, j);
    assert s.sizes[..b] == s.sizes[..a] + s.sizes[a..b];
    SumJoin(s.sizes[..a], s.sizes[a..b]);
    BufferEnds(q.Total(), psize, j, Sum(s.sizes[..a]), Sum(s.sizes[..b]));
  }

  /** A buffer that ends where the next one begins, or with the last byte, is full. */
  lemma BufferEnds(total: nat, psize: nat, j: nat, start: nat, end: nat)
    requires psize > 0 && j < CeilDiv(total, psize) && start == j * psize
    requires end == if j + 1 < CeilDiv(total, psize) then (j + 1) * psize else total
    ensures end == start + BufferSize(total, psize, CeilDiv(total, psize), j)
  {
    BufferStart(total, psize, j);
    MulOrder(j, j, psize);
  }

  /** The pieces of a buffer end where those of the next begin, or at the last. */
  lemma PiecesBetween(s: Slices, j: nat)
    requires s.Shaped() && j < |s.counts|
    ensures s.firsts[j] + s.counts[j] <= |s.sizes|
    ensures j + 1 < |s.counts| ==> s.firsts[j + 1] == s.firsts[j] + s.counts[j]
    ensures j + 1 == |s.counts| ==> s.sizes[..s.firsts[j] + s.counts[j]] == s.sizes
  {
    FirstsBelow(s, j);
    SumStep(s.counts, j);
    if j + 1 == |s.counts| {
      assert s.counts[..j + 1] == s.counts;
    }
  }

  /** Entry `i` of the arrays for buffer `index` at address `base`: the request's own
      bytes, right behind those of the entry before. */
  ghost predicate EntryOk(q: Segments, psize: nat, index: nat, base: nat,
                          memStarts: seq<nat>, fileStarts: seq<nat>, sizes: seq<nat>, i: nat)
    requires q.Valid() && i < |sizes| == |memStarts| == |fileStarts|
  {
    && memStarts[i] == base + Sum(sizes[..i])
    && index * psize + Sum(sizes[..i]) + sizes[i] <= q.Total()
    && MapsAs(q, index * psize + Sum(sizes[..i]), sizes[i], fileStarts[i])
  }

  lemma EntryPiece(q: Segments, psize: nat, s: Slices, index: nat, i: nat, sizes: seq<nat>)
    requires q.Valid() && s.Shaped() && s.PiecesOk(q, psize) && Aligned(s, psize)
    requires index < |s.counts| && i < |sizes| == s.counts[index]
    requires s.firsts[index] + s.counts[index] <= |s.sizes|
    requires sizes == s.sizes[s.firsts[index]..s.firsts[index] + s.counts[index]]
    ensures var k, pos := s.firsts[index] + i, index * psize + Sum(sizes[..i]);
      && s.offsets[k] == Sum(sizes[..i]) && pos + sizes[i] <= q.Total()
      && MapsAs(q, pos, sizes[i], s.starts[k])
  {
    var first := s.firsts[index];
    assert s.PieceOk(q, psize, index, first + i);
    assert s.sizes[..first + i] == s.sizes[..first] + sizes[..i];
    SumJoin(s.sizes[..first], sizes[..i]);
  }

  /** What is posted for buffer `index` at address `base`. */
  method CopyPieces(s: Slices, first: nat, count: nat, base: nat)
    returns (memStarts: seq<nat>, fileStarts: seq<nat>, sizes: seq<nat>)
    requires s.Shaped() && first + count <= |s.sizes|
    ensures |memStarts| == |fileStarts| == count && sizes == s.sizes[first..first + count]
    ensures forall k :: 0 <= k < count ==> memStarts[k] == base + s.offsets[first + k]
    ensures forall k :: 0 <= k < count ==> fileStarts[k] == s.starts[first + k]
  {
    memStarts, fileStarts, sizes := [], [], [];
    for i := 0 to count
      invariant |memStarts| == |fileStarts| == i && sizes == s.sizes[first..first + i]
      invariant forall k :: 0 <= k < i ==> memStarts[k] == base + s.offsets[first + k]
      invariant forall k :: 0 <= k < i ==> fileStarts[k] == s.starts[first + k]
    {
      memStarts := memStarts + [base + s.offsets[first + i]];
      fileStarts := fileStarts + [s.starts[first + i]];
      sizes := sizes + [s.sizes[first + i]];
    }
  }

  method BufferArrays(q: Segments, psize: nat, s: Slices, index: nat, base: nat)
    returns (memStarts: seq<nat>, fileStarts: seq<nat>, sizes: seq<nat>)
    requires q.Valid() && psize > 0 && s.Shaped() && s.PiecesOk(q, psize) && Aligned(s, psize)
    requires Sum(s.sizes) == q.Total() && |s.counts| == CeilDiv(q.Total(), psize) && index < |s.counts|
    ensures |memStarts| == |fileStarts| == |sizes| == s.counts[index]
    ensures Sum(sizes) == BufferSize(q.Total(), psize, |s.counts|, index)
    ensures forall i :: 0 <= i < |sizes| ==> EntryOk(q, psize, index, base, memStarts, fileStarts, sizes, i)
  {
    BufferFilled(q, psize, s, index);
    memStarts, fileStarts, sizes := CopyPieces(s, s.firsts[index], s.counts[index], base);
    forall i | 0 <= i < |sizes|
      ensures EntryOk(q, psize, index, base, memStarts, fileStarts, sizes, i)
    {
      EntryPiece(q, psize, s, index, i, sizes);
    }
  }

  // --- what is posted ---

  /** Where a byte is: its address in memory and its offset in the file. */
  datatype Place = Place(address: int, offset: int)

  /** One operation on the file: `sizes[i]` bytes at address `memStarts[i]` and at file
      offset `fileStarts[i]`, for every entry `i`. */
  datatype Posting = Posting(memStarts: seq<nat>, fileStarts: seq<nat>, sizes: seq<nat>) {
    predicate Shaped() {
      |memStarts| == |fileStarts| == |sizes|
    }

    /** The bytes its first `n` entries move. */
    ghost function Bytes(n: nat): (r: seq<Place>)
      requires Shaped() && n <= |sizes|
    {
      if n == 0 then []
      else
        var i := n - 1;
        Bytes(i) + seq(sizes[i], d requires 0 <= d < sizes[i] => Place(memStarts[i] + d, fileStarts[i] + d))
    }
  }

  /** The `n` bytes of the stream from `pos`, held in memory from `base` on. */
  ghost function StreamBytes(q: Segments, pos: nat, n: nat, base: nat): (r: seq<Place>)
    requires q.Valid() && pos + n <= q.Total()
  {
    seq(n, d requires 0 <= d < n => Place(base + d, FileOffset(q, pos + d)))
  }

  lemma StreamNext(q: Segments, pos: nat, n: nat, m: nat, base: nat, start: nat)
    requires q.Valid() && pos + n + m <= q.Total() && MapsAs(q, pos + n, m, start)
    ensures StreamBytes(q, pos, n + m, base)
         == StreamBytes(q, pos, n, base) + seq(m, d requires 0 <= d < m => Place(base + n + d, start + d))
  {
    var part := seq(m, d requires 0 <= d < m => Place(base + n + d, start + d));
    forall d | 0 <= d < m
      ensures StreamBytes(q, pos, n + m, base)[n + d] == part[d]
    {
      assert FileOffset(q, pos + n + d) == start + d;
    }
  }

  /** Posting `p` moves the bytes of buffer `j`, in order, and no others. */
  ghost predicate PostOk(q: Segments, psize: nat, j: nat, base: nat, p: Posting)
    requires q.Valid() && psize > 0
  {
    && p.Shaped()
    && Sum(p.sizes) == BufferSize(q.Total(), psize, CeilDiv(q.Total(), psize), j)
    && j * psize + Sum(p.sizes) <= q.Total()
    && p.Bytes(|p.sizes|) == StreamBytes(q, j * psize, Sum(p.sizes), base)
  }

  lemma {:induction false} EntryBytes(q: Segments, psize: nat, j: nat, base: nat, p: Posting, n: nat)
    requires q.Valid() && p.Shaped() && n <= |p.sizes|
    requires j * psize <= q.Total()
    requires forall i :: 0 <= i < n ==> EntryOk(q, psize, j, base, p.memStarts, p.fileStarts, p.sizes, i)
    ensures j * psize + Sum(p.sizes[..n]) <= q.Total()
    ensures p.Bytes(n) == StreamBytes(q, j * psize, Sum(p.sizes[..n]), base)
  {
    if n > 0 {
      var i := n - 1;
      EntryBytes(q, psize, j, base, p, i);
      SumStep(p.sizes, i);
      assert EntryOk(q, psize, j, base, p.memStarts, p.fileStarts, p.sizes, i);
      StreamNext(q, j * psize, Sum(p.sizes[..i]), p.sizes[i], base, p.fileStarts[i]);
    }
  }

  ghost predicate PostsOk(q: Segments, psize: nat, bases: seq<nat>, posts: seq<Posting>)
    requires q.Valid() && psize > 0
  {
    |posts| <= |bases| && forall j :: 0 <= j < |posts| ==> PostOk(q, psize, j, bases[j], posts[j])
  }

  /** The slicer's result for `q`. */
  ghost predicate SlicesOf(q: Segments, psize: nat, s: Slices) {
    && q.Valid() && psize > 0 && s.Shaped() && s.PiecesOk(q, psize) && Aligned(s, psize)
    && Sum(s.sizes) == q.Total() && (q.Total() > 0 ==> |s.counts| == CeilDiv(q.Total(), psize))
  }

  /** Post the next buffer's operation. */
  method PostNext(q: Segments, psize: nat, s: Slices, bases: seq<nat>, posts0: seq<Posting>)
    returns (posts: seq<Posting>)
    requires SlicesOf(q, psize, s) && |bases| == CeilDiv(q.Total(), psize)
    requires PostsOk(q, psize, bases, posts0) && |posts0| < |bases|
    ensures PostsOk(q, psize, bases, posts) && |posts| == |posts0| + 1
  {
    var j := |posts0|;
    BufferStart(q.Total(), psize, j);
    var memStarts, fileStarts, sizes := BufferArrays(q, psize, s, j, bases[j]);
    var p := Posting(memStarts, fileStarts, sizes);
    EntryBytes(q, psize, j, bases[j], p, |sizes|);
    assert sizes[..|sizes|] == sizes;
    posts := posts0 + [p];
  }

  // --- what happens ---

  datatype Event =
    | Allocated(i: nat)
    | Received(i: nat, size: nat)
    | Posted(i: nat)
    | Finished(i: nat)
    | Sent(i: nat, size: nat)

  /** Every event comes after the one it needs. */
  ghost predicate Causal(log: seq<Event>, cause: Event -> Option<Event>) {
    forall p {:trigger log[..p]} :: 0 <= p < |log| && cause(log[p]).Some? ==> cause(log[p]).value in log[..p]
  }

  lemma CausalAppend(log: seq<Event>, cause: Event -> Option<Event>, e: Event)
    requires Causal(log, cause) && (cause(e).Some? ==> cause(e).value in log)
    ensures Causal(log + [e], cause)
  {
    forall p | 0 <= p < |log + [e]| && cause((log + [e])[p]).Some?
      ensures cause((log + [e])[p]).value in (log + [e])[..p]
    {
      if p < |log| {
        assert (log + [e])[..p] == log[..p];
      } else {
        assert (log + [e])[..p] == log;
      }
    }
  }

  /** The events that satisfy `f`, in order. */
  ghost function Those(log: seq<Event>, f: Event -> bool): seq<Event> {
    if log == [] then []
    else
      var last := log[|log| - 1];
      Those(log[..|log| - 1], f) + if f(last) then [last] else []
  }

  lemma ThoseAppend(log: seq<Event>, f: Event -> bool, e: Event)
    ensures Those(log + [e], f) == Those(log, f) + if f(e) then [e] else []
  {
    assert (log + [e])[..|log|] == log;
  }

  lemma SumUpdate(xs: seq<nat>, i: nat, x: nat)
    requires i < |xs|
    ensures Sum(xs[i := x]) + xs[i] == Sum(xs) + x
  {
    var a, b := xs[..i], xs[i + 1..];
    assert xs == (a + [xs[i]]) + b;
    assert xs[i := x] == (a + [x]) + b;
    SumJoin(a + [xs[i]], b);
    SumJoin(a + [x], b);
    SumAppend(a, xs[i]);
    SumAppend(a, x);
  }

  // --- polling ---

  /** The operations in flight are those posted and not yet finished. */
  ghost predicate Polled(ops: seq<nat>, index: nat, ready: seq<bool>) {
    && index <= |ready|
    && (forall k :: 0 <= k < |ops| ==> ops[k] < index && !ready[ops[k]])
    && (forall j :: 0 <= j < index && !ready[j] ==> j in ops)
    && (forall i, j :: 0 <= i < j < |ops| ==> ops[i] != ops[j])
    && (forall j :: index <= j < |ready| ==> !ready[j])
  }

  lemma PolledFinish(ops: seq<nat>, index: nat, ready: seq<bool>, i: nat)
    requires Polled(ops, index, ready) && i < |ops|
    ensures Polled(Without(ops, i), index, ready[ops[i] := true])
  {
    var ops' := Without(ops, i);
    assert forall k :: 0 <= k < |ops'| ==> ops'[k] == ops[if k < i then k else k + 1];
    forall j | 0 <= j < index && !ready[ops[i] := true][j]
      ensures j in ops'
    {
      assert j in ops;
      var k :| 0 <= k < |ops| && ops[k] == j;
      assert ops'[if k < i then k else k - 1] == j;
    }
  }

  /** Go once through the operations in flight, taking out those that finished. */
  method Poll(ops0: seq<nat>, delays0: seq<nat>, ready0: seq<bool>, log0: seq<Event>, done0: int,
              ghost index: nat, ghost cause: Event -> Option<Event>)
    returns (ops: seq<nat>, delays: seq<nat>, ready: seq<bool>, log: seq<Event>, done: int)
    requires |delays0| == |ready0| && Polled(ops0, index, ready0) && Causal(log0, cause)
    requires forall j :: 0 <= j < index ==> Posted(j) in log0
    requires forall j :: cause(Finished(j)) == Some(Posted(j))
    requires forall j :: 0 <= j < |ready0| && ready0[j] ==> Finished(j) in log0
    ensures |delays| == |ready| == |ready0| && Polled(ops, index, ready) && Causal(log, cause)
    ensures forall e <- log0 :: e in log
    ensures forall j :: 0 <= j < |ready| && ready[j] ==> Finished(j) in log
    ensures forall f: Event -> bool :: (forall j :: !f(Finished(j))) ==> Those(log, f) == Those(log0, f)
    ensures |ops| + Sum(delays) == Sum(delays0) && done - |ops| == done0 - |ops0|
    ensures forall j :: 0 <= j < |ready| && ready0[j] ==> ready[j]
    ensures forall j :: 0 <= j < |ready| && ready[j] && !ready0[j] ==> delays0[j] == 0
    ensures forall k :: 0 <= k < |ops| ==>
              ops[k] in ops0 && delays0[ops[k]] > 0 && delays[ops[k]] == delays0[ops[k]] - 1
  {
    ops, delays, ready, log, done := ops0, delays0, ready0, log0, done0;
    var i := 0;
    while i < |ops|
      invariant i <= |ops| && |delays| == |ready| == |ready0| && Polled(ops, index, ready) && Causal(log, cause)
      invariant forall e <- log0 :: e in log
      invariant forall j :: 0 <= j < |ready| && ready[j] ==> Finished(j) in log
      invariant forall j :: 0 <= j < |ready| && ready0[j] ==> ready[j]
      invariant forall j :: 0 <= j < |ready| && ready[j] && !ready0[j] ==> delays0[j] == 0
      invariant forall k :: 0 <= k < |ops| ==> ops[k] in ops0
      invariant forall k :: 0 <= k < i ==> delays0[ops[k]] > 0 && delays[ops[k]] == delays0[ops[k]] - 1
      invariant forall k :: i <= k < |ops| ==> delays[ops[k]] == delays0[ops[k]]
      invariant forall f: Event -> bool :: (forall j :: !f(Finished(j))) ==> Those(log, f) == Those(log0, f)
      invariant Sum(delays) + i == Sum(delays0) && done - |ops| == done0 - |ops0|
      decreases |ops| - i
    {
      var cur := ops[i];
      if delays[cur] == 0 {
        PolledFinish(ops, index, ready, i);
        CausalAppend(log, cause, Finished(cur));
        forall f: Event -> bool | forall j :: !f(Finished(j))
          ensures Those(log + [Finished(cur)], f) == Those(log0, f)
        {
          ThoseAppend(log, f, Finished(cur));
        }
        done := done - 1;
        ops, ready, log := Without(ops, i), ready[cur := true], log + [Finished(cur)];
      } else {
        SumUpdate(delays, cur, delays[cur] - 1);
        delays := delays[cur := delays[cur] - 1];
        i := i + 1;
      }
    }
  }

  /** Bytes in the first `i` buffers. */
  function BytesBefore(total: nat, psize: nat, i: nat): nat {
    Min(i * psize, total)
  }

  lemma NextBytes(total: nat, psize: nat, i: nat)
    requires psize > 0 && i < CeilDiv(total, psize)
    ensures Min(psize, total - BytesBefore(total, psize, i)) == BufferSize(total, psize, CeilDiv(total, psize), i)
    ensures BytesBefore(total, psize, i + 1)
         == BytesBefore(total, psize, i) + BufferSize(total, psize, CeilDiv(total, psize), i)
  {
    BufferStart(total, psize, i);
    MulOrder(i, i, psize);
  }

  lemma AllBytes(total: nat, psize: nat)
    requires psize > 0
    ensures BytesBefore(total, psize, CeilDiv(total, psize)) == total
    ensures BytesBefore(total, psize, 0) == 0
  {
    var n := CeilDiv(total, psize);
    if n > 0 {
      BufferStart(total, psize, n - 1);
      NextBytes(total, psize, n - 1);
    } else {
      assert total == 0 by {
        if total > 0 {
          assert total + psize - 1 >= psize;
          DivAtLeastOne(total + psize - 1, psize);
        }
      }
    }
  }

  lemma DivAtLeastOne(x: nat, b: nat)
    requires b > 0 && x >= b
    ensures x / b >= 1
  {
  }

  /** The buffers together hold the transfer, and each is as large as what is
      left after those before it, up to the pipeline size. */
  ghost predicate Buffers(sizes: seq<nat>, total: nat, psize: nat) {
    Sum(sizes) == total && LaidOut(sizes, total, psize)
  }

  /** Lay out the buffers of a transfer. */
  method MakeBuffers(total: nat, psize: nat) returns (sizes: seq<nat>)
    requires psize > 0
    ensures |sizes| == CeilDiv(total, psize)
    ensures forall i :: 0 <= i < |sizes| ==> sizes[i] == BufferSize(total, psize, |sizes|, i)
    ensures Buffers(sizes, total, psize)
  {
    var n := CeilDiv(total, psize);
    sizes := [];
    AllBytes(total, psize);
    for i := 0 to n
      invariant |sizes| == i && Sum(sizes) == BytesBefore(total, psize, i)
      invariant forall k :: 0 <= k < i ==> sizes[k] == BufferSize(total, psize, n, k)
      invariant LaidOut(sizes, total, psize)
    {
      NextBytes(total, psize, i);
      var size := BufferSize(total, psize, n, i);
      LaidOutNext(sizes, total, psize, size);
      sizes := sizes + [size];
    }
  }

  /** Each size so far is what was left, up to the pipeline size. */
  ghost predicate LaidOut(sizes: seq<nat>, total: nat, psize: nat) {
    forall k {:trigger sizes[..k]} :: 0 <= k < |sizes| ==> sizes[k] == Min(psize, total - Sum(sizes[..k]))
  }

  lemma LaidOutNext(sizes: seq<nat>, total: nat, psize: nat, size: nat)
    requires LaidOut(sizes, total, psize) && size == Min(psize, total - Sum(sizes))
    ensures LaidOut(sizes + [size], total, psize) && Sum(sizes + [size]) == Sum(sizes) + size
  {
    var sizes' := sizes + [size];
    SumAppend(sizes, size);
    forall k | 0 <= k < |sizes'|
      ensures sizes'[k] == Min(psize, total - Sum(sizes'[..k]))
    {
      assert sizes'[..k] == sizes[..k];
      if k == |sizes| {
        assert sizes[..k] == sizes;
      }
    }
  }

  // --- reading ---

  function ReadCause(e: Event): Option<Event> {
    match e
    case Posted(i) => Some(Allocated(i))
    case Finished(i) => Some(Posted(i))
    case Sent(i, _) => Some(Finished(i))
    case _ => None
  }

  predicate IsSent(e: Event) {
    e.Sent?
  }

  ghost function Sends(sizes: seq<nat>, c: nat): seq<Event>
    requires c <= |sizes|
  {
    seq(c, i requires 0 <= i < c => Sent(i, sizes[i]))
  }

  predicate IsPosted(e: Event) {
    e.Posted?
  }

  ghost function Posts(c: nat): seq<Event> {
    seq(c, i requires 0 <= i < c => Posted(i))
  }

  lemma PostsNext(log: seq<Event>, i: nat)
    requires Those(log, IsPosted) == Posts(i)
    ensures Those(log + [Posted(i)], IsPosted) == Posts(i + 1)
  {
    ThoseAppend(log, IsPosted, Posted(i));
    PostsGrow(i);
  }

  lemma PostsGrow(i: nat)
    ensures Posts(i + 1) == Posts(i) + [Posted(i)]
  {
  }

  /** The log so far: in causal order, with the first `index` buffers posted and the
      first `c` sent. */
  ghost predicate ReadLog(log: seq<Event>, sizes: seq<nat>, c: nat, index: nat) {
    && c <= |sizes| && Causal(log, ReadCause)
    && Those(log, IsSent) == Sends(sizes, c) && Those(log, IsPosted) == Posts(index)
  }

  /** The log knows what was posted and what finished. */
  ghost predicate Known(log: seq<Event>, index: nat, ready: seq<bool>) {
    && (forall j :: 0 <= j < index ==> Posted(j) in log)
    && (forall j :: 0 <= j < |ready| && ready[j] ==> Finished(j) in log)
  }

  lemma SendStep(log: seq<Event>, sizes: seq<nat>, c: nat, index: nat, ready: seq<bool>, log': seq<Event>)
    requires c < |sizes| == |ready| && ready[c] && Known(log, index, ready) && ReadLog(log, sizes, c, index)
    requires log' == log + [Sent(c, sizes[c])]
    ensures ReadLog(log', sizes, c + 1, index) && Known(log', index, ready)
    ensures Sum(sizes[..c + 1]) == Sum(sizes[..c]) + sizes[c]
  {
    var e := Sent(c, sizes[c]);
    CausalAppend(log, ReadCause, e);
    ThoseAppend(log, IsSent, e);
    ThoseAppend(log, IsPosted, e);
    assert Sends(sizes, c + 1) == Sends(sizes, c) + [e];
    SumStep(sizes, c);
  }

  lemma BufferSizeAt(sizes: seq<nat>, total: nat, psize: nat, c: nat)
    requires Buffers(sizes, total, psize) && c < |sizes|
    ensures sizes[c] == Min(psize, total - Sum(sizes[..c]))
  {
  }

  /** Send the buffers that are ready, in order, up to the first that is not. */
  method SendReady(total: nat, psize: nat, ready: seq<bool>, c0: nat, sent0: nat, log0: seq<Event>, unsent0: int,
                   ghost sizes: seq<nat>, ghost index: nat)
    returns (c: nat, sent: nat, log: seq<Event>, unsent: int)
    requires Buffers(sizes, total, psize) && |ready| == |sizes|
    requires ReadLog(log0, sizes, c0, index) && Known(log0, index, ready) && sent0 == Sum(sizes[..c0])
    ensures c <= |ready| && (c < |ready| ==> !ready[c]) && unsent + c == unsent0 + c0
    ensures ReadLog(log, sizes, c, index) && Known(log, index, ready) && sent == Sum(sizes[..c])
  {
    c, sent, log, unsent := c0, sent0, log0, unsent0;
    while c < |ready| && ready[c]
      invariant c <= |ready| && ReadLog(log, sizes, c, index) && Known(log, index, ready) && sent == Sum(sizes[..c])
      invariant unsent + c == unsent0 + c0
    {
      var size := Min(psize, total - sent);
      BufferSizeAt(sizes, total, psize, c);
      ghost var was := log;
      log := log + [Sent(c, size)];
      SendStep(was, sizes, c, index, ready, log);
      sent := sent + size;
      c, unsent := c + 1, unsent - 1;
    }
  }

  /** Whatever the order of completions, buffers 0, 1, ... are posted and sent in order,
      each once, with its own bytes and its own size, and sent only after its own read
      has finished.  The counters `done` and `unsent`, of operations not yet finished
      and of buffers not yet sent, come down to nothing in the one loop. */
  method ExecPipelineRead(q: Segments, psize: nat, s: Slices, bases: seq<nat>, polls: seq<nat>, ghost sizes: seq<nat>)
    returns (log: seq<Event>, posts: seq<Posting>, done: int, unsent: int, sent: nat)
    requires SlicesOf(q, psize, s) && Buffers(sizes, q.Total(), psize)
    requires |polls| == |bases| == |sizes| == CeilDiv(q.Total(), psize)
    ensures |posts| == |bases| && PostsOk(q, psize, bases, posts)
    ensures ReadLog(log, sizes, |sizes|, |posts|)
    ensures done == unsent == 0 && sent == q.Total()
  {
    var n, total := |polls|, q.Total();
    var index, posted := 0, n;
    var c: nat := 0;
    var ops: seq<nat>, delays := [], polls;
    var ready := seq(n, _ => false);
    done, unsent, sent, posts, log := n, n, 0, [], [];
    while posted > 0 || done > 0
      invariant 0 <= posted == n - index && |delays| == |ready| == n
      invariant done == posted + |ops| && unsent == n - c
      invariant ReadLog(log, sizes, c, index) && Known(log, index, ready) && sent == Sum(sizes[..c])
      invariant c < n ==> !ready[c]
      invariant Polled(ops, index, ready)
      invariant |posts| == index && PostsOk(q, psize, bases, posts)
      decreases posted + |ops| + Sum(delays)
    {
      if posted > 0 {
        PolledPost(ops, index, ready);
        posts := PostNext(q, psize, s, bases, posts);
        log := ObtainAndPost(log, index, sizes, c, ready);
        ops, index, posted := ops + [index], index + 1, posted - 1;
      }
      if done > 0 {
        ops, delays, ready, log, done := PollReads(ops, delays, ready, log, done, index, sizes, c);
        c, sent, log, unsent := SendReady(total, psize, ready, c, sent, log, unsent, sizes, index);
      }
    }
    AllReady(ops, index, ready);
    assert sizes[..n] == sizes;
  }

  lemma AllReady(ops: seq<nat>, index: nat, ready: seq<bool>)
    requires Polled(ops, index, ready) && ops == [] && index == |ready|
    ensures forall j :: 0 <= j < |ready| ==> ready[j]
  {
  }

  /** Obtaining buffer `i` and posting its read. */
  lemma PostStep(log: seq<Event>, sizes: seq<nat>, c: nat, i: nat, ready: seq<bool>)
    requires ReadLog(log, sizes, c, i) && Known(log, i, ready)
    ensures var log' := log + [Allocated(i)] + [Posted(i)];
      ReadLog(log', sizes, c, i + 1) && Known(log', i + 1, ready)
  {
    CausalAppend(log, ReadCause, Allocated(i));
    ThoseAppend(log, IsSent, Allocated(i));
    ThoseAppend(log, IsPosted, Allocated(i));
    var mid := log + [Allocated(i)];
    CausalAppend(mid, ReadCause, Posted(i));
    ThoseAppend(mid, IsSent, Posted(i));
    PostsNext(mid, i);
  }

  method ObtainAndPost(log0: seq<Event>, i: nat, ghost sizes: seq<nat>, ghost c: nat, ghost ready: seq<bool>)
    returns (log: seq<Event>)
    requires ReadLog(log0, sizes, c, i) && Known(log0, i, ready)
    ensures ReadLog(log, sizes, c, i + 1) && Known(log, i + 1, ready)
  {
    PostStep(log0, sizes, c, i, ready);
    log := log0 + [Allocated(i)];
    log := log + [Posted(i)];
  }

  method PollReads(ops0: seq<nat>, delays0: seq<nat>, ready0: seq<bool>, log0: seq<Event>, done0: int,
                   ghost index: nat, ghost sizes: seq<nat>, ghost c: nat)
    returns (ops: seq<nat>, delays: seq<nat>, ready: seq<bool>, log: seq<Event>, done: int)
    requires |delays0| == |ready0| && Polled(ops0, index, ready0)
    requires ReadLog(log0, sizes, c, index) && Known(log0, index, ready0)
    ensures |delays| == |ready| == |ready0| && Polled(ops, index, ready)
    ensures ReadLog(log, sizes, c, index) && Known(log, index, ready)
    ensures |ops| + Sum(delays) == Sum(delays0) && done - |ops| == done0 - |ops0|
  {
    ops, delays, ready, log, done := Poll(ops0, delays0, ready0, log0, done0, index, ReadCause);
  }

  lemma PolledPost(ops: seq<nat>, index: nat, ready: seq<bool>)
    requires Polled(ops, index, ready) && index < |ready|
    ensures Polled(ops + [index], index + 1, ready)
  {
    assert forall j :: j in ops ==> j in ops + [index];
    assert (ops + [index])[|ops|] == index;
  }

  // --- writing ---

  function WriteCause(sizes: seq<nat>): Event -> Option<Event> {
    (e: Event) =>
      match e
      case Received(i, _) => Some(Allocated(i))
      case Posted(i) => if i < |sizes| then Some(Received(i, sizes[i])) else None
      case Finished(i) => Some(Posted(i))
      case _ => None
  }

  predicate IsReceived(e: Event) {
    e.Received?
  }

  ghost function Receives(sizes: seq<nat>, c: nat): seq<Event>
    requires c <= |sizes|
  {
    seq(c, i requires 0 <= i < c => Received(i, sizes[i]))
  }

  /** The log so far: in causal order, with the first `got` buffers received and the
      first `index` posted. */
  ghost predicate WriteLog(log: seq<Event>, sizes: seq<nat>, got: nat, index: nat) {
    && got <= |sizes| && Causal(log, WriteCause(sizes))
    && Those(log, IsReceived) == Receives(sizes, got) && Those(log, IsPosted) == Posts(index)
  }

  lemma KnownAppend(log: seq<Event>, index: nat, ready: seq<bool>, e: Event)
    requires Known(log, index, ready)
    ensures Known(log + [e], index, ready)
    ensures e == Posted(index) ==> Known(log + [e], index + 1, ready)
  {
    assert (log + [e])[|log|] == e;
  }

  lemma AllocateOne(log: seq<Event>, sizes: seq<nat>, i: nat)
    requires WriteLog(log, sizes, i, i)
    ensures WriteLog(log + [Allocated(i)], sizes, i, i)
  {
    CausalAppend(log, WriteCause(sizes), Allocated(i));
    ThoseAppend(log, IsPosted, Allocated(i));
    ThoseAppend(log, IsReceived, Allocated(i));
  }

  lemma ReceiveOne(log: seq<Event>, sizes: seq<nat>, i: nat)
    requires i < |sizes| && WriteLog(log, sizes, i, i) && Allocated(i) in log
    ensures WriteLog(log + [Received(i, sizes[i])], sizes, i + 1, i)
  {
    var e := Received(i, sizes[i]);
    CausalAppend(log, WriteCause(sizes), e);
    ThoseAppend(log, IsPosted, e);
    ThoseAppend(log, IsReceived, e);
    assert Receives(sizes, i + 1) == Receives(sizes, i) + [e];
  }

  lemma PostOne(log: seq<Event>, sizes: seq<nat>, i: nat)
    requires i < |sizes| && WriteLog(log, sizes, i + 1, i) && Received(i, sizes[i]) in log
    ensures WriteLog(log + [Posted(i)], sizes, i + 1, i + 1)
  {
    CausalAppend(log, WriteCause(sizes), Posted(i));
    ThoseAppend(log, IsReceived, Posted(i));
    PostsNext(log, i);
  }

  /** Obtaining buffer `i`, receiving its bytes and posting its write. */
  lemma ReceiveStep(log: seq<Event>, sizes: seq<nat>, i: nat, ready: seq<bool>)
    requires i < |sizes| && WriteLog(log, sizes, i, i) && Known(log, i, ready)
    ensures var log' := log + [Allocated(i)] + [Received(i, sizes[i])] + [Posted(i)];
      WriteLog(log', sizes, i + 1, i + 1) && Known(log', i + 1, ready)
    ensures Sum(sizes[..i + 1]) == Sum(sizes[..i]) + sizes[i]
  {
    var a := log + [Allocated(i)];
    var b := a + [Received(i, sizes[i])];
    AllocateOne(log, sizes, i);
    KnownAppend(log, i, ready, Allocated(i));
    ReceiveOne(a, sizes, i);
    KnownAppend(a, i, ready, Received(i, sizes[i]));
    PostOne(b, sizes, i);
    KnownAppend(b, i, ready, Posted(i));
    SumStep(sizes, i);
  }

  method ReceiveAndPost(total: nat, psize: nat, log0: seq<Event>, i: nat, received0: nat,
                        ghost sizes: seq<nat>, ghost ready: seq<bool>)
    returns (log: seq<Event>, received: nat)
    requires Buffers(sizes, total, psize) && i < |sizes| && received0 == Sum(sizes[..i])
    requires WriteLog(log0, sizes, i, i) && Known(log0, i, ready)
    ensures WriteLog(log, sizes, i + 1, i + 1) && Known(log, i + 1, ready)
    ensures received == Sum(sizes[..i + 1])
  {
    var size := Min(psize, total - received0);
    BufferSizeAt(sizes, total, psize, i);
    ReceiveStep(log0, sizes, i, ready);
    log := log0 + [Allocated(i)];
    log := log + [Received(i, size)];
    log := log + [Posted(i)];
    received := received0 + size;
  }

  method PollWrites(ops0: seq<nat>, delays0: seq<nat>, ready0: seq<bool>, log0: seq<Event>, done0: int,
                    ghost index: nat, ghost sizes: seq<nat>)
    returns (ops: seq<nat>, delays: seq<nat>, ready: seq<bool>, log: seq<Event>, done: int)
    requires |delays0| == |ready0| && Polled(ops0, index, ready0)
    requires WriteLog(log0, sizes, index, index) && Known(log0, index, ready0)
    ensures |delays| == |ready| == |ready0| && Polled(ops, index, ready)
    ensures WriteLog(log, sizes, index, index) && Known(log, index, ready)
    ensures |ops| + Sum(delays) == Sum(delays0) && done - |ops| == done0 - |ops0|
  {
    ops, delays, ready, log, done := Poll(ops0, delays0, ready0, log0, done0, index, WriteCause(sizes));
  }

  /** Whatever the order of completions, buffers 0, 1, ... are received and posted in
      order, each once, with its own size and its own bytes, posted only after all its
      bytes were received, and every write finishes.  The counter `done`, of operations
      not yet finished, comes down to nothing in the one loop. */
  method ExecPipelineWrite(q: Segments, psize: nat, s: Slices, bases: seq<nat>, polls: seq<nat>, ghost sizes: seq<nat>)
    returns (log: seq<Event>, posts: seq<Posting>, done: int, received: nat)
    requires SlicesOf(q, psize, s) && Buffers(sizes, q.Total(), psize)
    requires |polls| == |bases| == |sizes| == CeilDiv(q.Total(), psize)
    ensures |posts| == |bases| && PostsOk(q, psize, bases, posts)
    ensures WriteLog(log, sizes, |sizes|, |posts|)
    ensures forall i :: 0 <= i < |sizes| ==> Finished(i) in log
    ensures done == 0 && received == q.Total()
  {
    var n, total := |polls|, q.Total();
    var index, posted := 0, n;
    var ops: seq<nat>, delays := [], polls;
    var ready := seq(n, _ => false);
    done, received, posts, log := n, 0, [], [];
    while posted > 0 || done > 0
      invariant 0 <= posted == n - index && |delays| == |ready| == n
      invariant done == posted + |ops| && received == Sum(sizes[..index])
      invariant WriteLog(log, sizes, index, index) && Known(log, index, ready)
      invariant Polled(ops, index, ready)
      invariant |posts| == index && PostsOk(q, psize, bases, posts)
      decreases posted + |ops| + Sum(delays)
    {
      if posted > 0 {
        PolledPost(ops, index, ready);
        posts := PostNext(q, psize, s, bases, posts);
        log, received := ReceiveAndPost(total, psize, log, index, received, sizes, ready);
        ops, index, posted := ops + [index], index + 1, posted - 1;
      }
      if done > 0 {
        ops, delays, ready, log, done := PollWrites(ops, delays, ready, log, done, index, sizes);
      }
    }
    AllReady(ops, index, ready);
    assert sizes[..n] == sizes;
  }
}
