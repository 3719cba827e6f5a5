/** Pipelined transfers: a request's file segments are cut across fixed-size
    buffers, and the buffers are moved and issued one after the other. */
module Pipeline {

  function Sum(xs: seq<nat>): nat {
    if xs == [] then 0 else Sum(xs[..|xs| - 1]) + xs[|xs| - 1]
  }

  lemma {:induction false} SumJoin(a: seq<nat>, b: seq<nat>)
    ensures Sum(a + b) == Sum(a) + Sum(b)
    decreases |b|
  {
    if b == [] {
      assert a + b == a;
    } else {
      assert (a + b)[..|a + b| - 1] == a + b[..|b| - 1];
      SumJoin(a, b[..|b| - 1]);
    }
  }

  lemma SumStep(xs: seq<nat>, i: nat)
    requires i < |xs|
    ensures Sum(xs[..i + 1]) == Sum(xs[..i]) + xs[i] <= Sum(xs)
  {
    assert xs[..i + 1][..i] == xs[..i];
    assert xs == xs[..i + 1] + xs[i + 1..];
    SumJoin(xs[..i + 1], xs[i + 1..]);
  }

  lemma SumAppend(xs: seq<nat>, x: nat)
    ensures Sum(xs + [x]) == Sum(xs) + x
  {
    assert (xs + [x])[..|xs|] == xs;
  }

  // --- what a request means ---

  /** The file segments of a request, in stream order. */
  datatype Segments = Segments(starts: seq<nat>, sizes: seq<nat>) {
    predicate Valid() {
      |starts| == |sizes| && |sizes| >= 1
    }

    function Total(): nat {
      Sum(sizes)
    }

    /** The file offset at which byte `x` of the stream lives. */
    function Offset(x: nat, i: nat): nat
      requires Valid() && i < |sizes| && Sum(sizes[..i]) <= x < Total()
      decreases |sizes| - i
    {
      SumStep(sizes, i);
      if x < Sum(sizes[..i + 1]) then starts[i] + (x - Sum(sizes[..i]))
      else
        assert sizes[..|sizes|] == sizes;
        Offset(x, i + 1)
    }
  }

  function FileOffset(q: Segments, x: nat): nat
    requires q.Valid() && x < q.Total()
  {
    q.Offset(x, 0)
  }

  /** The `size` bytes of the stream from `pos` lie in one piece of the file at `start`. */
  ghost predicate MapsAs(q: Segments, pos: nat, size: nat, start: nat)
    requires q.Valid() && pos + size <= q.Total()
  {
    forall x: nat :: pos <= x < pos + size ==> FileOffset(q, x) == start + (x - pos)
  }

  lemma {:induction false} OffsetIn(q: Segments, i: nat, j: nat, d: nat)
    requires q.Valid() && i <= j < |q.sizes| && d < q.sizes[j]
    ensures Sum(q.sizes[..i]) <= Sum(q.sizes[..j]) + d < q.Total()
    ensures q.Offset(Sum(q.sizes[..j]) + d, i) == q.starts[j] + d
    decreases j - i
  {
    SumStep(q.sizes, j);
    if i < j {
      OffsetIn(q, i + 1, j, d);
      SumStep(q.sizes, i);
    }
  }

  // --- the slices ---

  /** The vectors the slicer fills: for each piece its size, its place in the file
      and its place in its buffer; for each buffer how many pieces it has and which
      is its first. */
  datatype Slices = Slices(sizes: seq<nat>, starts: seq<nat>, offsets: seq<nat>, counts: seq<nat>, firsts: seq<nat>) {
    predicate Shaped() {
      && |sizes| == |starts| == |offsets|
      && |counts| == |firsts|
      && (forall j :: 0 <= j < |firsts| ==> firsts[j] == Sum(counts[..j]))
      && Sum(counts) == |sizes|
    }

    /** Piece `k` of buffer `j` sits at the stream position of the bytes before it,
        within the buffer, and maps every byte as the whole request does. */
    ghost predicate PieceOk(q: Segments, psize: nat, j: nat, k: nat)
      requires q.Valid() && |sizes| == |starts| == |offsets| && k < |sizes|
    {
      && j * psize + offsets[k] == Sum(sizes[..k])
      && offsets[k] + sizes[k] <= psize
      && Sum(sizes[..k]) + sizes[k] <= q.Total()
      && MapsAs(q, Sum(sizes[..k]), sizes[k], starts[k])
    }

    ghost predicate PiecesOk(q: Segments, psize: nat)
      requires q.Valid() && Shaped()
    {
      forall j, k :: 0 <= j < |counts| && firsts[j] <= k < firsts[j] + counts[j] && k < |sizes| ==>
        PieceOk(q, psize, j, k)
    }
  }

  /** Buffer `j` begins with byte `j * psize` of the stream. */
  ghost predicate Aligned(s: Slices, psize: nat) {
    forall j :: 0 <= j < |s.firsts| ==> s.firsts[j] <= |s.sizes| && Sum(s.sizes[..s.firsts[j]]) == j * psize
  }

  lemma AddPieceAligned(s: Slices, size: nat, start: nat, offset: nat, psize: nat)
    requires s.counts != [] && Aligned(s, psize)
    ensures Aligned(AddPiece(s, size, start, offset), psize)
  {
    var s' := AddPiece(s, size, start, offset);
    forall j | 0 <= j < |s'.firsts|
      ensures s'.firsts[j] <= |s'.sizes| && Sum(s'.sizes[..s'.firsts[j]]) == j * psize
    {
      assert s'.sizes[..s'.firsts[j]] == s.sizes[..s.firsts[j]];
    }
  }

  lemma OpenBufferAligned(s: Slices, psize: nat)
    requires Aligned(s, psize) && |s.firsts| == |s.counts| && Sum(s.sizes) == |s.counts| * psize
    ensures Aligned(OpenBuffer(s), psize)
  {
    assert s.sizes[..|s.sizes|] == s.sizes;
  }

  function CeilDiv(a: nat, b: nat): nat
    requires b > 0
  {
    (a + b - 1) / b
  }

  lemma CeilUnique(a: nat, b: nat, n: nat)
    requires b > 0 && n >= 1 && (n - 1) * b < a <= n * b
    ensures CeilDiv(a, b) == n
  {
    var r := a + b - 1 - n * b;
    assert 0 <= r < b;
    assert a + b - 1 == n * b + r;
    DivUnique(a + b - 1, b, n, r);
  }

  lemma AtLeast(k: int, b: int)
    requires k >= 1 && b > 0
    ensures k * b >= b
  {
  }

  lemma DivUnique(x: int, b: int, n: int, r: int)
    requires b > 0 && 0 <= r < b && x == n * b + r
    ensures x / b == n
  {
    var q := x / b;
    var s := x - q * b;
    assert 0 <= s < b;
    assert (q - n) * b == r - s;
    if q > n {
      AtLeast(q - n, b);
    } else if q < n {
      AtLeast(n - q, b);
    }
  }

  function AddPiece(s: Slices, size: nat, start: nat, offset: nat): Slices
    requires s.counts != []
  {
    var j := |s.counts| - 1;
    Slices(s.sizes + [size], s.starts + [start], s.offsets + [offset], s.counts[j := s.counts[j] + 1], s.firsts)
  }

  function OpenBuffer(s: Slices): Slices {
    s.(counts := s.counts + [0], firsts := s.firsts + [|s.sizes|])
  }

  lemma AddPieceShaped(s: Slices, size: nat, start: nat, offset: nat)
    requires s.counts != [] && s.Shaped()
    ensures AddPiece(s, size, start, offset).Shaped()
    ensures var j := |s.counts| - 1; s.firsts[j] + s.counts[j] == |s.sizes|
  {
    var j := |s.counts| - 1;
    var counts := s.counts[j := s.counts[j] + 1];
    assert forall i :: 0 <= i <= j ==> counts[..i] == s.counts[..i];
  }

  lemma AddPieceOk(q: Segments, psize: nat, s: Slices, size: nat, start: nat, offset: nat)
    requires q.Valid() && s.counts != [] && s.Shaped() && s.PiecesOk(q, psize)
    requires (|s.counts| - 1) * psize + offset == Sum(s.sizes) && offset + size <= psize
    requires Sum(s.sizes) + size <= q.Total() && MapsAs(q, Sum(s.sizes), size, start)
    ensures var s' := AddPiece(s, size, start, offset);
      s'.Shaped() && s'.PiecesOk(q, psize) && Sum(s'.sizes) == Sum(s.sizes) + size
  {
    var s' := AddPiece(s, size, start, offset);
    AddPieceShaped(s, size, start, offset);
    SumAppend(s.sizes, size);
    var n := |s.sizes|;
    assert s'.sizes[..n] == s.sizes;
    assert s'.PieceOk(q, psize, |s.counts| - 1, n);
    forall j, k | 0 <= j < |s'.counts| && s'.firsts[j] <= k < s'.firsts[j] + s'.counts[j] && k < |s'.sizes|
      ensures s'.PieceOk(q, psize, j, k)
    {
      if k < n {
        assert s.PieceOk(q, psize, j, k);
        assert s'.sizes[..k] == s.sizes[..k];
      } else {
        FirstsBelow(s, j);
      }
    }
  }

  /** Only the last buffer reaches up to the next piece. */
  lemma FirstsBelow(s: Slices, j: nat)
    requires s.Shaped() && j < |s.counts|
    ensures s.firsts[j] + s.counts[j] <= |s.sizes|
  {
    SumStep(s.counts, j);
  }

  lemma OpenBufferOk(q: Segments, psize: nat, s: Slices)
    requires q.Valid() && s.Shaped() && s.PiecesOk(q, psize)
    ensures OpenBuffer(s).Shaped() && OpenBuffer(s).PiecesOk(q, psize)
  {
    var s' := OpenBuffer(s);
    SumAppend(s.counts, 0);
    assert forall j :: 0 <= j <= |s.counts| ==> s'.counts[..j] == s.counts[..j];
    assert s.counts[..|s.counts|] == s.counts;
    forall j, k | 0 <= j < |s'.counts| && s'.firsts[j] <= k < s'.firsts[j] + s'.counts[j] && k < |s'.sizes|
      ensures s'.PieceOk(q, psize, j, k)
    {
      assert s.PieceOk(q, psize, j, k);
    }
  }

  /** Segments without an empty one before a non-empty one; on others the slicer
      does not terminate, as it never moves past an empty segment. */
  predicate EmptiesLast(sizes: seq<nat>) {
    forall i, j :: 0 <= i < j < |sizes| && sizes[j] > 0 ==> sizes[i] > 0
  }

  /** Where the slicer stands: the current buffer holds `mem` bytes and has `room` left. */
  ghost predicate Sliced(q: Segments, psize: nat, s: Slices, pos: nat, mem: nat, room: nat) {
    && q.Valid() && s.counts != [] && s.Shaped() && s.PiecesOk(q, psize) && Aligned(s, psize)
    && pos == Sum(s.sizes) == (|s.counts| - 1) * psize + mem
    && mem + room == psize
  }

  /** The slicer before the first round and between two rounds of its outer loop,
      with segment `index` at hand. */
  ghost predicate Between(q: Segments, psize: nat, s: Slices, pos: nat, mem: nat, room: nat, index: nat) {
    && Sliced(q, psize, s, pos, mem, room)
    && index <= |q.sizes| && pos == Sum(q.sizes[..index])
    && (mem > 0 || (pos == 0 && |s.counts| == 1))
  }

  method StartSlicing(q: Segments, psize: nat)
    returns (s: Slices, pos: nat, mem: nat, room: nat, index: nat)
    requires q.Valid()
    ensures Between(q, psize, s, pos, mem, room, index) && pos == index == 0
  {
    s := Slices([], [], [], [0], [0]);
    pos, index, room, mem := 0, 0, psize, 0;
    assert s.sizes[..0] == [];
  }

  /** Cut the segments of `q` across buffers of `psize` bytes. */
  method ComputePipelineFileSegments(q: Segments, psize: nat) returns (s: Slices, ghost rounds: nat)
    requires q.Valid() && psize > 0 && EmptiesLast(q.sizes)
    ensures s.Shaped() && s.PiecesOk(q, psize) && Aligned(s, psize)
    ensures Sum(s.sizes) == q.Total()
    ensures q.Total() > 0 ==> |s.counts| == CeilDiv(q.Total(), psize)
    ensures Ended(q.sizes, rounds) && NotBefore(q.sizes, rounds)
  {
    var total := Sum(q.sizes);
    var pos: nat, mem: nat, room: nat, index: nat;
    s, pos, mem, room, index := StartSlicing(q, psize);
    rounds := 0;
    while pos < total
      invariant Between(q, psize, s, pos, mem, room, index)
      invariant index == AtHand(q.sizes, rounds) && NotBefore(q.sizes, rounds)
      decreases |q.sizes| - index
    {
      NextSegment(q.sizes, index);
      NotYet(q.sizes, rounds);
      s, pos, mem, room, index := SliceSegment(q, psize, s, pos, mem, room, index);
      rounds := rounds + 1;
    }
    SumTake(q.sizes, index);
    if total > 0 {
      BuffersOpened(q, psize, s, pos, mem, room, index);
    }
  }

  /** The outer loop goes on for `n` rounds at least. */
  ghost predicate NotBefore(sizes: seq<nat>, n: nat) {
    forall k: nat :: k < n ==> !Ended(sizes, k)
  }

  lemma NotYet(sizes: seq<nat>, n: nat)
    requires NotBefore(sizes, n) && !Ended(sizes, n)
    ensures NotBefore(sizes, n + 1)
  {
  }

  /** At the end as many buffers are open as the bytes need. */
  lemma BuffersOpened(q: Segments, psize: nat, s: Slices, pos: nat, mem: nat, room: nat, index: nat)
    requires psize > 0 && Between(q, psize, s, pos, mem, room, index) && pos > 0
    ensures |s.counts| == CeilDiv(pos, psize)
  {
    NextBuffer(|s.counts|, psize);
    CeilUnique(pos, psize, |s.counts|);
  }

  /** The first `n` rounds of the outer loop on any segments, fewer if it ends before. */
  method SlicingRounds(q: Segments, psize: nat, n: nat) returns (s: Slices, pos: nat, index: nat)
    requires q.Valid() && psize > 0
    ensures index == AtHand(q.sizes, n) && pos == Sum(s.sizes) == Sum(q.sizes[..index])
    ensures pos < q.Total() <==> !Ended(q.sizes, n)
  {
    var total := Sum(q.sizes);
    var mem: nat, room: nat;
    s, pos, mem, room, index := StartSlicing(q, psize);
    for k := 0 to n
      invariant Between(q, psize, s, pos, mem, room, index)
      invariant index == AtHand(q.sizes, k)
    {
      SumTake(q.sizes, index);
      if pos < total {
        s, pos, mem, room, index := SliceSegment(q, psize, s, pos, mem, room, index);
      } else {
        NothingLeft(q.sizes, index);
      }
    }
    SumTake(q.sizes, index);
  }

  lemma SumTake(sizes: seq<nat>, i: nat)
    requires i <= |sizes|
    ensures Sum(sizes[..i]) <= Sum(sizes)
    ensures Sum(sizes[..i]) < Sum(sizes) ==> i < |sizes|
  {
    assert sizes == sizes[..i] + sizes[i..];
    SumJoin(sizes[..i], sizes[i..]);
    assert sizes[..|sizes|] == sizes;
  }

  lemma NothingLeft(sizes: seq<nat>, i: nat)
    requires i <= |sizes| && Sum(sizes[..i]) == Sum(sizes)
    ensures i < |sizes| ==> sizes[i] == 0
  {
    if i < |sizes| {
      SumStep(sizes, i);
    }
  }

  /** One round of the outer loop.  It cuts the segment at hand: fill the current
      buffer, and open new ones as long as the rest of the segment does not fit.
      Only the last piece of a segment moves on to the next one. */
  method SliceSegment(q: Segments, psize: nat, s0: Slices, pos0: nat, mem0: nat, room0: nat, index0: nat)
    returns (s: Slices, pos: nat, mem: nat, room: nat, index: nat)
    requires psize > 0 && Between(q, psize, s0, pos0, mem0, room0, index0) && index0 < |q.sizes|
    ensures Between(q, psize, s, pos, mem, room, index)
    ensures index == if q.sizes[index0] > 0 then index0 + 1 else index0
  {
    s, pos, mem, room, index := s0, pos0, mem0, room0, index0;
    var size: nat, start: nat := q.sizes[index], q.starts[index];
    SumStep(q.sizes, index0);
    while size > 0
      invariant Sliced(q, psize, s, pos, mem, room)
      invariant size <= q.sizes[index0] && start == q.starts[index0] + (q.sizes[index0] - size)
      invariant pos == Sum(q.sizes[..index0]) + (q.sizes[index0] - size)
      invariant index == if q.sizes[index0] > 0 && size == 0 then index0 + 1 else index0
      invariant size == 0 ==> mem > 0 || (pos == 0 && |s.counts| == 1)
      decreases size, if room == 0 then 1 else 0
    {
      if size > room {
        SegmentMaps(q, index, q.sizes[index] - size, room);
        SlicedPiece(q, psize, s, pos, mem, room, room, start);
        s := AddPiece(s, room, start, mem);
        start, size, pos := start + room, size - room, pos + room;
        SlicedBuffer(q, psize, s, pos);
        s := OpenBuffer(s);
        room, mem := psize, 0;
      } else {
        SegmentMaps(q, index, q.sizes[index] - size, size);
        SlicedPiece(q, psize, s, pos, mem, room, size, start);
        s := AddPiece(s, size, start, mem);
        start, room, pos, mem, size := start + size, room - size, pos + size, mem + size, 0;
        index := index + 1;
      }
    }
  }

  lemma SlicedPiece(q: Segments, psize: nat, s: Slices, pos: nat, mem: nat, room: nat, size: nat, start: nat)
    requires Sliced(q, psize, s, pos, mem, room) && size <= room
    requires pos + size <= q.Total() && MapsAs(q, pos, size, start)
    ensures Sliced(q, psize, AddPiece(s, size, start, mem), pos + size, mem + size, room - size)
  {
    AddPieceOk(q, psize, s, size, start, mem);
    AddPieceAligned(s, size, start, mem, psize);
  }

  lemma SlicedBuffer(q: Segments, psize: nat, s: Slices, pos: nat)
    requires Sliced(q, psize, s, pos, psize, 0)
    ensures Sliced(q, psize, OpenBuffer(s), pos, 0, psize)
  {
    NextBuffer(|s.counts|, psize);
    OpenBufferOk(q, psize, s);
    OpenBufferAligned(s, psize);
  }

  lemma NextBuffer(n: nat, psize: nat)
    requires n >= 1
    ensures n * psize == (n - 1) * psize + psize
  {
  }

  lemma NextSegment(sizes: seq<nat>, i: nat)
    requires i <= |sizes| && Sum(sizes[..i]) < Sum(sizes) && EmptiesLast(sizes)
    ensures i < |sizes| && sizes[i] > 0
  {
    assert sizes[..|sizes|] == sizes;
    if sizes[i] == 0 {
      assert forall j :: i <= j < |sizes| ==> sizes[j] == 0;
      SumZero(sizes[i..]);
      assert sizes == sizes[..i] + sizes[i..];
      SumJoin(sizes[..i], sizes[i..]);
    }
  }

  lemma {:induction false} SumZero(xs: seq<nat>)
    requires forall i :: 0 <= i < |xs| ==> xs[i] == 0
    ensures Sum(xs) == 0
  {
    if xs != [] {
      SumZero(xs[..|xs| - 1]);
    }
  }

  lemma SegmentMaps(q: Segments, i: nat, d: nat, size: nat)
    requires q.Valid() && i < |q.sizes| && d < q.sizes[i] && d + size <= q.sizes[i]
    ensures Sum(q.sizes[..i]) + d + size <= q.Total()
    ensures MapsAs(q, Sum(q.sizes[..i]) + d, size, q.starts[i] + d)
  {
    SumStep(q.sizes, i);
    var pos := Sum(q.sizes[..i]) + d;
    forall x: nat | pos <= x < pos + size
      ensures FileOffset(q, x) == q.starts[i] + d + (x - pos)
    {
      OffsetIn(q, 0, i, x - Sum(q.sizes[..i]));
    }
  }

  // --- the pieces cover the stream ---

  lemma {:induction false} FindPrefix(xs: seq<nat>, x: nat) returns (i: nat)
    requires x < Sum(xs)
    ensures i < |xs| && Sum(xs[..i]) <= x < Sum(xs[..i]) + xs[i]
    decreases |xs|
  {
    var n := |xs| - 1;
    if x < Sum(xs[..n]) {
      i := FindPrefix(xs[..n], x);
      assert xs[..n][..i] == xs[..i];
    } else {
      i := n;
    }
  }

  /** Every byte of the stream is in a piece: it sits in the buffer where the piece
      puts it and goes to the file where the whole request puts it. */
  lemma EveryByte(q: Segments, psize: nat, s: Slices, x: nat) returns (j: nat, k: nat)
    requires q.Valid() && s.Shaped() && s.PiecesOk(q, psize) && Sum(s.sizes) == q.Total() && x < q.Total()
    ensures j < |s.counts| && s.firsts[j] <= k < s.firsts[j] + s.counts[j] && k < |s.sizes|
    ensures j * psize + s.offsets[k] <= x < j * psize + s.offsets[k] + s.sizes[k]
    ensures FileOffset(q, x) == s.starts[k] + (x - (j * psize + s.offsets[k]))
  {
    k := FindPrefix(s.sizes, x);
    j := FindPrefix(s.counts, k);
    assert s.PieceOk(q, psize, j, k);
  }

  // --- when slicing ends ---

  /** The segment at hand after `n` rounds of the outer loop: a round works off the
      segment at hand, and goes on to the next one only if there was something in it. */
  function AtHand(sizes: seq<nat>, n: nat): (i: nat)
    ensures i <= |sizes|
  {
    if n == 0 then 0
    else
      var i := AtHand(sizes, n - 1);
      if i < |sizes| && sizes[i] > 0 then i + 1 else i
  }

  /** All bytes are worked off, which is when the outer loop ends. */
  predicate Ended(sizes: seq<nat>, n: nat) {
    Sum(sizes[..AtHand(sizes, n)]) == Sum(sizes)
  }

  lemma {:induction false} AtHandStays(sizes: seq<nat>, n: nat, i: nat)
    requires i < |sizes| && sizes[i] == 0
    ensures AtHand(sizes, n) <= i
  {
    if n > 0 {
      AtHandStays(sizes, n - 1, i);
    }
  }

  lemma {:induction false} AtHandMoves(sizes: seq<nat>, n: nat)
    requires n <= |sizes| && forall i :: 0 <= i < n ==> sizes[i] > 0
    ensures AtHand(sizes, n) == n
  {
    if n > 0 {
      AtHandMoves(sizes, n - 1);
    }
  }

  lemma SumPart(sizes: seq<nat>, i: nat, j: nat)
    requires i <= j < |sizes|
    ensures Sum(sizes[..i]) + sizes[j] <= Sum(sizes)
  {
    SumJoin(sizes[..i], sizes[i..]);
    assert sizes == sizes[..i] + sizes[i..];
    SumAtLeast(sizes[i..], j - i);
  }

  lemma {:induction false} SumAtLeast(xs: seq<nat>, i: nat)
    requires i < |xs|
    ensures xs[i] <= Sum(xs)
  {
    SumStep(xs, i);
    SumJoin(xs[..i + 1], xs[i + 1..]);
    assert xs == xs[..i + 1] + xs[i + 1..];
  }

  lemma {:induction false} Positives(sizes: seq<nat>) returns (n: nat)
    ensures n <= |sizes| && (forall i :: 0 <= i < n ==> sizes[i] > 0) && (n < |sizes| ==> sizes[n] == 0)
  {
    n := 0;
    while n < |sizes| && sizes[n] > 0
      invariant n <= |sizes| && forall i :: 0 <= i < n ==> sizes[i] > 0
    {
      n := n + 1;
    }
  }

  lemma EmptiesLastEnd(sizes: seq<nat>) returns (n: nat)
    requires EmptiesLast(sizes)
    ensures Ended(sizes, n)
  {
    n := Positives(sizes);
    AtHandMoves(sizes, n);
    assert sizes == sizes[..n] + sizes[n..];
    SumJoin(sizes[..n], sizes[n..]);
    SumZero(sizes[n..]);
  }

  lemma EmptyBlocks(sizes: seq<nat>, i: nat, j: nat, n: nat)
    requires i < j < |sizes| && sizes[i] == 0 && sizes[j] > 0
    ensures !Ended(sizes, n)
  {
    AtHandStays(sizes, n, i);
    SumPart(sizes, AtHand(sizes, n), j);
  }

  /** Slicing ends exactly when no empty segment comes before one that is not. */
  lemma SlicingEnds(sizes: seq<nat>)
    ensures (exists n: nat :: Ended(sizes, n)) <==> EmptiesLast(sizes)
  {
    if EmptiesLast(sizes) {
      var n := EmptiesLastEnd(sizes);
    } else {
      var i: nat, j: nat :| i < j < |sizes| && sizes[j] > 0 && sizes[i] == 0;
      forall n: nat
        ensures !Ended(sizes, n)
      {
        EmptyBlocks(sizes, i, j, n);
      }
    }
  }
}
