/** Whose turn it is: a queue of the merging scheduler that has come to the front is
    served, and no other, until its quantum of dequeues is used up or it is empty. */
module MergeTurns {
  import opened Ranges
  import opened MergeScheduler

  /** The event takes the last range of the front queue. */
  predicate Empties(s: State, e: Event) {
    e.Dequeue? && s.queues != [] && s.queues[0].ranges == {e.range}
  }

  /** The dequeues made in the present turn once `taken` were and event `e` happens in
      state `s`: a turn is over with its `dq`-th dequeue, or when its queue is empty. */
  function TakenNext(dq: int, taken: nat, s: State, e: Event): nat {
    if e.Enqueue? then taken
    else if taken + 1 >= dq || Empties(s, e) then 0
    else taken + 1
  }

  /** The dequeues made in the turn of state `j`, told from the events. */
  function Taken(dq: int, ss: seq<State>, es: seq<Event>, j: nat): nat
    requires j <= |es| && |ss| == |es| + 1
  {
    if j == 0 then 0 else TakenNext(dq, Taken(dq, ss, es, j - 1), ss[j - 1], es[j - 1])
  }

  /** The front queue has as much quantum left as its turn has dequeues left, and those
      behind it have all of it. */
  ghost predicate OnTurn(dq: int, s: State, taken: nat) {
    && taken < dq && (s.queues == [] ==> taken == 0)
    && forall i :: 0 <= i < |s.queues| ==> s.queues[i].quantum == if i == 0 then dq - taken else dq
  }

  ghost predicate AtBack(s: State, d: Direction, h: Handle) {
    s.queues != [] && s.queues[|s.queues| - 1].Serves(d, h)
  }

  lemma EnqueueOnTurn(dq: int, s: State, l: Leaf, s': State, taken: nat)
    requires OnTurn(dq, s, taken) && Enqueues(dq, s, l, s')
    ensures OnTurn(dq, s', taken)
    ensures s.queues != [] ==> InFront(s', s.queues[0].dir, s.queues[0].handle)
  {
    if HasQueue(s.queues, l.dir, l.handle) {
      var i, rs :| EnqueuesAt(s, l, i, rs, s');
    }
  }

  /** A queue that gives up a range without being emptied goes to the back if that was the
      last dequeue of its turn, and else stays in front. */
  lemma DequeueOnTurn(dq: int, s: State, r: Range, s': State, taken: nat)
    requires dq >= 1 && OnTurn(dq, s, taken) && Dequeues(dq, s, r, s')
    ensures OnTurn(dq, s', TakenNext(dq, taken, s, Dequeue(r)))
    ensures var q := s.queues[0];
      !Empties(s, Dequeue(r)) ==>
        if taken + 1 == dq then AtBack(s', q.dir, q.handle) else InFront(s', q.dir, q.handle)
  {
    var q := s.queues[0];
    assert q.ranges - {r} == {} <==> q.ranges == {r};
  }

  lemma StepOnTurn(dq: int, s: State, e: Event, s': State, taken: nat)
    requires dq >= 1 && OnTurn(dq, s, taken) && Steps(dq, s, e, s')
    ensures OnTurn(dq, s', TakenNext(dq, taken, s, e))
  {
    match e
    case Enqueue(l) => EnqueueOnTurn(dq, s, l, s', taken);
    case Dequeue(r) => DequeueOnTurn(dq, s, r, s', taken);
  }

  lemma {:induction false} RunOnTurn(dq: int, ss: seq<State>, es: seq<Event>, j: nat)
    requires dq >= 1 && Run(dq, ss, es) && ss[0] == Initial && j <= |es|
    ensures OnTurn(dq, ss[j], Taken(dq, ss, es, j))
  {
    if j > 0 {
      RunOnTurn(dq, ss, es, j - 1);
      StepOnTurn(dq, ss[j - 1], es[j - 1], ss[j], Taken(dq, ss, es, j - 1));
    }
  }

  lemma {:induction false} RunIsValid(dq: int, ss: seq<State>, es: seq<Event>, j: nat)
    requires dq >= 1 && Run(dq, ss, es) && ss[0] == Initial && j <= |es|
    ensures ss[j].Valid(dq)
  {
    if j > 0 {
      RunIsValid(dq, ss, es, j - 1);
      StepValid(dq, ss[j - 1], es[j - 1], ss[j]);
    }
  }

  /** A queue that comes to the front begins a turn. */
  lemma FrontBegins(dq: int, ss: seq<State>, es: seq<Event>, i: nat, d: Direction, h: Handle)
    requires dq >= 1 && Run(dq, ss, es) && ss[0] == Initial && 0 < i <= |es|
    requires !InFront(ss[i - 1], d, h) && InFront(ss[i], d, h)
    ensures Taken(dq, ss, es, i) == 0
  {
    RunOnTurn(dq, ss, es, i - 1);
    FrontChanges(dq, ss[i - 1], es[i - 1], ss[i], Taken(dq, ss, es, i - 1), d, h);
  }

  lemma FrontChanges(dq: int, s: State, e: Event, s': State, taken: nat, d: Direction, h: Handle)
    requires dq >= 1 && OnTurn(dq, s, taken) && Steps(dq, s, e, s') && !InFront(s, d, h) && InFront(s', d, h)
    ensures TakenNext(dq, taken, s, e) == 0
  {
    match e
    case Enqueue(l) => EnqueueOnTurn(dq, s, l, s', taken);
    case Dequeue(r) => DequeueOnTurn(dq, s, r, s', taken);
  }

  /** The dequeues between states `i` and `j`. */
  function Made(es: seq<Event>, i: nat, j: nat): nat
    requires j <= |es|
  {
    if j <= i then 0 else Made(es, i, j - 1) + One(es[j - 1])
  }

  /** After `made` dequeues of its turn the queue is in front, or, right after the last, at
      the back. */
  ghost predicate Served(dq: int, s: State, made: nat, d: Direction, h: Handle) {
    && (made < dq ==> InFront(s, d, h) && OnTurn(dq, s, made))
    && (made == dq ==> AtBack(s, d, h))
  }

  lemma ServedStep(dq: int, s: State, e: Event, s': State, made: nat, d: Direction, h: Handle)
    requires dq >= 1 && Steps(dq, s, e, s') && made < dq && Served(dq, s, made, d, h) && !Empties(s, e)
    ensures Served(dq, s', made + One(e), d, h)
  {
    match e
    case Enqueue(l) => EnqueueOnTurn(dq, s, l, s', made);
    case Dequeue(r) => DequeueOnTurn(dq, s, r, s', made);
  }

  predicate NeverEmptied(ss: seq<State>, es: seq<Event>, i: nat, j: nat)
    requires j <= |es| < |ss|
  {
    forall k :: i <= k < j ==> !Empties(ss[k], es[k])
  }

  function One(e: Event): nat {
    if e.Dequeue? then 1 else 0
  }

  lemma {:induction false} MadeGrows(es: seq<Event>, i: nat, k: nat, j: nat)
    requires i <= k <= j <= |es|
    ensures Made(es, i, k) <= Made(es, i, j)
    decreases j - k
  {
    if k < j {
      MadeGrows(es, i, k, j - 1);
    }
  }

  /** What holds at the beginning of a turn, and is kept by each of its events, holds until
      its last dequeue. */
  lemma {:induction false} Throughout(p: (nat, nat) -> bool, dq: int, es: seq<Event>, i: nat, j: nat)
    requires i <= j <= |es| && p(i, 0) && (i < j ==> Made(es, i, j - 1) < dq)
    requires forall n: nat, made: nat :: i <= n < j && made < dq && p(n, made) ==> p(n + 1, made + One(es[n]))
    ensures p(j, Made(es, i, j))
    decreases j - i
  {
    if i < j {
      if i < j - 1 {
        MadeGrows(es, i, j - 2, j - 1);
      }
      Throughout(p, dq, es, i, j - 1);
    }
  }

  lemma TurnServed(dq: int, ss: seq<State>, es: seq<Event>, i: nat, j: nat, d: Direction, h: Handle)
    requires dq >= 1 && Run(dq, ss, es) && ss[0] == Initial && i <= j <= |es|
    requires Served(dq, ss[i], 0, d, h) && NeverEmptied(ss, es, i, j)
    requires i < j ==> Made(es, i, j - 1) < dq
    ensures Served(dq, ss[j], Made(es, i, j), d, h)
  {
    var p := (n: nat, made: nat) => n < |ss| && Served(dq, ss[n], made, d, h);
    forall n: nat, made: nat | i <= n < j && made < dq && p(n, made)
      ensures p(n + 1, made + One(es[n]))
    {
      ServedStep(dq, ss[n], es[n], ss[n + 1], made, d, h);
    }
    Throughout(p, dq, es, i, j);
  }

  lemma FrontGives(dq: int, ss: seq<State>, es: seq<Event>, j: nat, d: Direction, h: Handle)
    requires dq >= 1 && Run(dq, ss, es) && ss[0] == Initial && j < |es| && es[j].Dequeue? && InFront(ss[j], d, h)
    ensures OfKind(es[j].range, d, h)
  {
    RunIsValid(dq, ss, es, j);
    DequeueSound(dq, ss[j], es[j].range, ss[j + 1]);
  }

  /** In every run, whatever is enqueued meanwhile: from the state in which a queue's turn
      begins, and as long as no dequeue empties it, it stays in front until exactly `dq`
      dequeues were made, so that the next of them is of its kind; and with the last of
      them it goes to the back. */
  lemma Turn(dq: int, ss: seq<State>, es: seq<Event>, i: nat, j: nat, d: Direction, h: Handle)
    requires dq >= 1 && Run(dq, ss, es) && ss[0] == Initial && i <= j <= |es|
    requires Taken(dq, ss, es, i) == 0 && InFront(ss[i], d, h) && NeverEmptied(ss, es, i, j)
    requires i < j ==> Made(es, i, j - 1) < dq
    ensures Made(es, i, j) < dq ==>
              InFront(ss[j], d, h) && (j < |es| && es[j].Dequeue? ==> OfKind(es[j].range, d, h))
    ensures Made(es, i, j) == dq ==> AtBack(ss[j], d, h)
  {
    RunOnTurn(dq, ss, es, i);
    TurnServed(dq, ss, es, i, j, d, h);
    if Made(es, i, j) < dq && j < |es| && es[j].Dequeue? {
      FrontGives(dq, ss, es, j, d, h);
    }
  }
}
