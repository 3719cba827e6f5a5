/** A pipelined transfer as a whole: the request is sliced, its buffers are laid out,
    and the executor posts and moves them. */
module PipelineRun {
  import opened Basics
  import opened Pipeline
  import opened PipelineExec

  // --- the bytes of a transfer ---

  ghost predicate AllShaped(posts: seq<Posting>) {
    forall j :: 0 <= j < |posts| ==> posts[j].Shaped()
  }

  /** The bytes that the operations move, one after the other. */
  ghost function Moved(posts: seq<Posting>): seq<Place>
    requires AllShaped(posts)
  {
    if posts == [] then []
    else
      var last := posts[|posts| - 1];
      Moved(posts[..|posts| - 1]) + last.Bytes(|last.sizes|)
  }

  /** Where the bytes of the stream belong: byte `x` is byte `x % psize` of buffer
      `x / psize`, and lies in the file where the request puts it. */
  ghost function Stream(q: Segments, psize: nat, bases: seq<nat>): (r: seq<Place>)
    requires q.Valid() && psize > 0 && |bases| == CeilDiv(q.Total(), psize)
  {
    seq(q.Total(), x requires 0 <= x < q.Total() =>
      BufferOf(q.Total(), psize, x);
      Place(bases[x / psize] + x % psize, FileOffset(q, x)))
  }

  lemma BufferOf(total: nat, psize: nat, x: nat)
    requires psize > 0 && x < total
    ensures x / psize < CeilDiv(total, psize)
  {
    var n, j := CeilDiv(total, psize), x / psize;
    AllBytes(total, psize);
    if j >= n {
      MulOrder(n, j, psize);
    }
  }

  lemma InBuffer(psize: nat, j: nat, d: nat)
    requires d < psize
    ensures (j * psize + d) / psize == j && (j * psize + d) % psize == d
  {
    DivUnique(j * psize + d, psize, j, d);
  }

  /** Buffer `j` holds the bytes of the stream from `j * psize` on. */
  lemma StreamOfBuffer(q: Segments, psize: nat, bases: seq<nat>, j: nat, n: nat)
    requires q.Valid() && psize > 0 && j < |bases| == CeilDiv(q.Total(), psize)
    requires n <= psize && j * psize + n <= q.Total()
    ensures Stream(q, psize, bases)[j * psize..j * psize + n] == StreamBytes(q, j * psize, n, bases[j])
  {
    var part := Stream(q, psize, bases)[j * psize..j * psize + n];
    forall d | 0 <= d < n
      ensures part[d] == StreamBytes(q, j * psize, n, bases[j])[d]
    {
      InBuffer(psize, j, d);
    }
  }

  lemma BufferRange(total: nat, psize: nat, j: nat)
    requires psize > 0 && j < CeilDiv(total, psize)
    ensures var size := BufferSize(total, psize, CeilDiv(total, psize), j);
      size <= psize && BytesBefore(total, psize, j) == j * psize && BytesBefore(total, psize, j + 1) == j * psize + size
  {
    NextBytes(total, psize, j);
    BufferStart(total, psize, j);
  }

  /** An operation moves the bytes between the buffers before it and those after it. */
  lemma PostedPart(q: Segments, psize: nat, bases: seq<nat>, j: nat, p: Posting)
    requires q.Valid() && psize > 0 && j < |bases| == CeilDiv(q.Total(), psize) && PostOk(q, psize, j, bases[j], p)
    ensures var a, b := BytesBefore(q.Total(), psize, j), BytesBefore(q.Total(), psize, j + 1);
      a <= b <= q.Total() && p.Bytes(|p.sizes|) == Stream(q, psize, bases)[a..b]
  {
    BufferRange(q.Total(), psize, j);
    StreamOfBuffer(q, psize, bases, j, Sum(p.sizes));
  }

  lemma {:induction false} MovedPart(q: Segments, psize: nat, bases: seq<nat>, posts: seq<Posting>)
    requires q.Valid() && psize > 0 && |bases| == CeilDiv(q.Total(), psize) && PostsOk(q, psize, bases, posts)
    ensures AllShaped(posts) && Moved(posts) == Stream(q, psize, bases)[..BytesBefore(q.Total(), psize, |posts|)]
  {
    if posts != [] {
      var j, total := |posts| - 1, q.Total();
      MovedPart(q, psize, bases, posts[..j]);
      PostedPart(q, psize, bases, j, posts[j]);
      Spliced(Stream(q, psize, bases), BytesBefore(total, psize, j), BytesBefore(total, psize, j + 1));
    }
  }

  lemma Spliced(s: seq<Place>, a: nat, b: nat)
    requires a <= b <= |s|
    ensures s[..a] + s[a..b] == s[..b]
  {
  }

  /** The operations move every byte of the stream exactly once. */
  lemma MovedAll(q: Segments, psize: nat, bases: seq<nat>, posts: seq<Posting>)
    requires q.Valid() && psize > 0 && |posts| == |bases| == CeilDiv(q.Total(), psize)
    requires PostsOk(q, psize, bases, posts)
    ensures AllShaped(posts) && Moved(posts) == Stream(q, psize, bases)
  {
    MovedPart(q, psize, bases, posts);
    AllBytes(q.Total(), psize);
  }

  // --- the order of a transfer ---

  /** `e` happens exactly once, and `cause` before it. */
  ghost predicate OnceAfter(log: seq<Event>, e: Event, cause: Event) {
    && multiset(log)[e] == 1
    && forall p {:trigger log[..p]} :: 0 <= p < |log| && log[p] == e ==> cause in log[..p]
  }

  lemma {:induction false} ThoseCount(log: seq<Event>, f: Event -> bool, e: Event)
    requires f(e)
    ensures multiset(Those(log, f))[e] == multiset(log)[e]
  {
    if log != [] {
      var n := |log| - 1;
      assert log == log[..n] + [log[n]];
      ThoseCount(log[..n], f, e);
    }
  }

  lemma {:induction false} ListedOnce(es: seq<Event>, j: nat)
    requires j < |es| && forall i :: 0 <= i < |es| && i != j ==> es[i] != es[j]
    ensures multiset(es)[es[j]] == 1
  {
    assert es == es[..j] + [es[j]] + es[j + 1..];
    assert es[j] !in es[..j] && es[j] !in es[j + 1..];
  }

  lemma Once(log: seq<Event>, f: Event -> bool, es: seq<Event>, j: nat, cause: Event -> Option<Event>)
    requires Those(log, f) == es && j < |es| && f(es[j]) && cause(es[j]).Some?
    requires forall i :: 0 <= i < |es| && i != j ==> es[i] != es[j]
    requires Causal(log, cause)
    ensures OnceAfter(log, es[j], cause(es[j]).value)
  {
    ThoseCount(log, f, es[j]);
    ListedOnce(es, j);
  }

  // --- running it ---

  /** The transfer cut into buffers. */
  method Prepare(q: Segments, total: nat, psize: nat) returns (s: Slices, sizes: seq<nat>)
    requires q.Valid() && psize > 0 && EmptiesLast(q.sizes) && total == q.Total()
    ensures SlicesOf(q, psize, s) && Buffers(sizes, total, psize)
    ensures |sizes| == CeilDiv(total, psize)
    ensures forall i :: 0 <= i < |sizes| ==> sizes[i] == BufferSize(total, psize, |sizes|, i)
  {
    ghost var rounds;
    s, rounds := ComputePipelineFileSegments(q, psize);
    sizes := MakeBuffers(total, psize);
  }

  /** Each operation moves as many bytes as its buffer holds. */
  ghost predicate Filled(posts: seq<Posting>, sizes: seq<nat>) {
    |posts| == |sizes| && forall j :: 0 <= j < |posts| ==> Sum(posts[j].sizes) == sizes[j]
  }

  /** A pipelined write.  Every byte of the stream is written exactly once, out of its
      place in its buffer to its place in the file, by the one operation posted for
      that buffer, after the buffer was received and whatever the order in which the
      operations finish. */
  method RunWrite(memSizes: seq<nat>, q: Segments, maxBuffer: nat, pipelineSize: nat, bases: seq<nat>, polls: seq<nat>)
    returns (log: seq<Event>, posts: seq<Posting>, sizes: seq<nat>)
    requires q.Valid() && EmptiesLast(q.sizes) && Sum(memSizes) == q.Total() && Min(maxBuffer, pipelineSize) > 0
    requires |bases| == |polls| == CeilDiv(q.Total(), Min(maxBuffer, pipelineSize))
    ensures Buffers(sizes, q.Total(), Min(maxBuffer, pipelineSize)) && Filled(posts, sizes)
    ensures AllShaped(posts) && Moved(posts) == Stream(q, Min(maxBuffer, pipelineSize), bases)
    ensures forall j :: 0 <= j < |sizes| ==> Written(log, sizes, j)
  {
    var total, psize := Sum(memSizes), Min(maxBuffer, pipelineSize);
    var s;
    s, sizes := Prepare(q, total, psize);
    var done, received;
    log, posts, done, received := ExecPipelineWrite(q, psize, s, bases, polls, sizes);
    MovedAll(q, psize, bases, posts);
    forall j | 0 <= j < |sizes|
      ensures Written(log, sizes, j)
    {
      WriteOnce(log, sizes, j);
    }
  }

  ghost predicate Written(log: seq<Event>, sizes: seq<nat>, j: nat)
    requires j < |sizes|
  {
    && OnceAfter(log, Received(j, sizes[j]), Allocated(j))
    && OnceAfter(log, Posted(j), Received(j, sizes[j]))
    && Finished(j) in log
  }

  lemma WriteOnce(log: seq<Event>, sizes: seq<nat>, j: nat)
    requires j < |sizes| && WriteLog(log, sizes, |sizes|, |sizes|) && Finished(j) in log
    ensures Written(log, sizes, j)
  {
    Once(log, IsReceived, Receives(sizes, |sizes|), j, WriteCause(sizes));
    Once(log, IsPosted, Posts(|sizes|), j, WriteCause(sizes));
  }

  /** A pipelined read.  Every byte of the stream is read exactly once, from its place
      in the file into its place in its buffer, by the one operation posted for that
      buffer; and each buffer is sent exactly once, after that operation finished. */
  method RunRead(memSizes: seq<nat>, q: Segments, maxBuffer: nat, pipelineSize: nat, bases: seq<nat>, polls: seq<nat>)
    returns (log: seq<Event>, posts: seq<Posting>, sizes: seq<nat>)
    requires q.Valid() && EmptiesLast(q.sizes) && Sum(memSizes) == q.Total() && Min(maxBuffer, pipelineSize) > 0
    requires |bases| == |polls| == CeilDiv(q.Total(), Min(maxBuffer, pipelineSize))
    ensures Buffers(sizes, q.Total(), Min(maxBuffer, pipelineSize)) && Filled(posts, sizes)
    ensures AllShaped(posts) && Moved(posts) == Stream(q, Min(maxBuffer, pipelineSize), bases)
    ensures Those(log, IsSent) == Sends(sizes, |sizes|)
    ensures forall j :: 0 <= j < |sizes| ==> WasRead(log, sizes, j)
  {
    var total, psize := Sum(memSizes), Min(maxBuffer, pipelineSize);
    var s;
    s, sizes := Prepare(q, total, psize);
    var done, unsent, sent;
    log, posts, done, unsent, sent := ExecPipelineRead(q, psize, s, bases, polls, sizes);
    MovedAll(q, psize, bases, posts);
    forall j | 0 <= j < |sizes|
      ensures WasRead(log, sizes, j)
    {
      ReadOnce(log, sizes, j);
    }
  }

  ghost predicate WasRead(log: seq<Event>, sizes: seq<nat>, j: nat)
    requires j < |sizes|
  {
    OnceAfter(log, Posted(j), Allocated(j)) && OnceAfter(log, Sent(j, sizes[j]), Finished(j))
  }

  lemma ReadOnce(log: seq<Event>, sizes: seq<nat>, j: nat)
    requires j < |sizes| && ReadLog(log, sizes, |sizes|, |sizes|)
    ensures WasRead(log, sizes, j)
  {
    Once(log, IsPosted, Posts(|sizes|), j, ReadCause);
    Once(log, IsSent, Sends(sizes, |sizes|), j, ReadCause);
  }
}
