/** Waiting for several completions: what the object does, without its links.

    Slots are free, armed and waiting for their completion, or completed and not
    yet tested.  At most one wait is pending; its callback is named by a number.  A wait
    that is over is due: its callback is taken under the lock and called without it, by
    whoever took it, after any number of other operations. */
module MultiCompletion {
  import opened Basics

  datatype Outcome = Ok | SlotException | Cancelled

  datatype Fired = Fired(id: nat, outcome: Outcome)

  datatype View = View(free: seq<int>, completed: seq<int>, failed: set<int>,
                       waitingFor: nat, pending: Option<nat>, due: seq<nat>, fired: seq<Fired>)
  {
    /** The condition under which a wait for `count` slots is over. */
    predicate Over(count: nat) {
      count <= |completed| || failed != {}
    }

    function Report(): Outcome {
      if failed != {} then SlotException else Ok
    }
  }

  predicate Distinct<T(==)>(s: seq<T>) {
    forall i, j :: 0 <= i < j < |s| ==> s[i] != s[j]
  }

  function Ids(fired: seq<Fired>): (ids: seq<nat>)
    ensures |ids| == |fired| && forall i :: 0 <= i < |ids| ==> ids[i] == fired[i].id
  {
    seq(|fired|, i requires 0 <= i < |fired| => fired[i].id)
  }

  // --- the operations ---

  function Armed(v: View, i: int): View
    requires 0 <= i < |v.free|
  {
    v.(free := Without(v.free, i))
  }

  function Settled(v: View): View {
    if v.pending.Some? && v.Over(v.waitingFor) then
      v.(waitingFor := 0, pending := None, due := v.due + [v.pending.value])
    else v
  }

  function Added(v: View, slot: int, failed: bool): View {
    v.(completed := v.completed + [slot], failed := v.failed + if failed then {slot} else {})
  }

  function Completed(v: View, slot: int, failed: bool): View {
    Settled(Added(v, slot, failed))
  }

  function Tested(v: View, i: int): View
    requires 0 <= i < |v.completed|
  {
    var slot := v.completed[i];
    v.(free := [slot] + v.free, completed := Without(v.completed, i), failed := v.failed - {slot})
  }

  /** Testing the first completed slot `n` times. */
  function TestedTimes(v: View, n: nat): View
    requires n <= |v.completed|
    decreases n
  {
    if n == 0 then v else TestedTimes(Tested(v, 0), n - 1)
  }

  /** Of the first `n` completed slots of `v`, those in `got` are handed out. */
  ghost predicate Handing(v: View, w: View, got: seq<int>, n: nat) {
    && |got| <= n <= |v.completed| && w.failed == {}
    && got == v.completed[..|got|] && w.completed == v.completed[|got|..]
    && TestedTimes(w, n - |got|) == TestedTimes(v, n)
  }

  lemma HandingStep(v: View, w: View, got: seq<int>, n: nat)
    requires Handing(v, w, got, n) && |got| < n
    ensures Handing(v, Tested(w, 0), got + [w.completed[0]], n)
  {
  }

  /** A count of zero stands for all slots armed or completed. */
  function Awaited(size: nat, v: View, id: nat, count: nat): View
    requires |v.free| <= size
  {
    var n := if count == 0 then size - |v.free| else count;
    if v.Over(n) then v.(due := v.due + [id])
    else v.(waitingFor := n, pending := Some(id))
  }

  /** A callback that is due is called, and told of the exceptions there are by then. */
  function Called(v: View, i: nat): View
    requires i < |v.due|
  {
    v.(due := Without(v.due, i), fired := v.fired + [Fired(v.due[i], v.Report())])
  }

  function Withdrawn(v: View): View {
    if v.pending.None? then v
    else v.(waitingFor := 0, pending := None, fired := v.fired + [Fired(v.pending.value, Cancelled)])
  }

  // --- their invariant ---

  /** Free and completed slots are different slots, and a failure belongs to a
      completed slot. */
  ghost predicate SlotsApart(size: nat, v: View) {
    && Distinct(v.free) && Distinct(v.completed)
    && (forall k <- v.free :: 0 <= k < size && k !in v.completed)
    && (forall k <- v.completed :: 0 <= k < size)
    && (forall k <- v.failed :: k in v.completed)
  }

  /** The wait `id` is over: due, or called back. */
  predicate Gone(v: View, id: nat) {
    id in v.due || id in Ids(v.fired)
  }

  /** A pending wait is one whose condition does not hold; no wait was called back
      twice, and one that is pending or due not at all. */
  ghost predicate WaitsOpen(v: View) {
    && (v.pending.Some? <==> v.waitingFor > 0)
    && (v.pending.Some? ==> !v.Over(v.waitingFor))
    && Distinct(v.due) && Distinct(Ids(v.fired))
    && (forall id <- v.due :: id !in Ids(v.fired))
    && (v.pending.Some? ==> !Gone(v, v.pending.value))
  }

  ghost predicate Valid(size: nat, v: View) {
    SlotsApart(size, v) && WaitsOpen(v)
  }

  datatype Op =
    | Arm(i: nat)
    | Complete(slot: int, failed: bool)
    | Test(i: nat)
    | Wait(id: nat, count: nat)
    | Cancel
    | Call(i: nat)

  /** When an operation may be called: a free slot is armed, an armed slot completes,
      a wait is not begun while another is pending, and has a callback of its own. */
  predicate Enabled(size: nat, v: View, op: Op) {
    match op
    case Arm(i) => i < |v.free|
    case Complete(slot, _) => 0 <= slot < size && slot !in v.free && slot !in v.completed
    case Test(i) => i < |v.completed|
    case Wait(id, _) => v.pending.None? && !Gone(v, id) && |v.free| <= size
    case Cancel => true
    case Call(i) => i < |v.due|
  }

  function Apply(size: nat, v: View, op: Op): View
    requires Enabled(size, v, op)
  {
    match op
    case Arm(i) => Armed(v, i)
    case Complete(slot, failed) => Completed(v, slot, failed)
    case Test(i) => Tested(v, i)
    case Wait(id, count) => Awaited(size, v, id, count)
    case Cancel => Withdrawn(v)
    case Call(i) => Called(v, i)
  }

  lemma FiredIds(fired: seq<Fired>, f: Fired)
    requires Distinct(Ids(fired)) && f.id !in Ids(fired)
    ensures Distinct(Ids(fired + [f]))
    ensures forall id :: id in Ids(fired + [f]) <==> id in Ids(fired) || id == f.id
  {
    assert Ids(fired + [f]) == Ids(fired) + [f.id];
  }

  lemma WithoutDistinct<T>(s: seq<T>, i: int)
    requires 0 <= i < |s| && Distinct(s)
    ensures Distinct(Without(s, i)) && s[i] !in Without(s, i)
    ensures forall k :: k in s <==> k in Without(s, i) || k == s[i]
  {
    var t := Without(s, i);
    assert forall j :: 0 <= j < |t| ==> t[j] == s[if j < i then j else j + 1];
    forall k | k in s && k != s[i]
      ensures k in t
    {
      var j :| 0 <= j < |s| && s[j] == k;
      assert t[if j < i then j else j - 1] == k;
    }
  }

  /** Every operation keeps the invariant. */
  lemma ApplyValid(size: nat, v: View, op: Op)
    requires Valid(size, v) && Enabled(size, v, op)
    ensures Valid(size, Apply(size, v, op))
  {
    match op
    case Arm(i) => WithoutDistinct(v.free, i);
    case Complete(slot, failed) => CompleteValid(size, v, slot, failed);
    case Test(i) => TestValid(size, v, i);
    case Wait(id, count) => AwaitedWaits(size, v, id, count);
    case Cancel => WithdrawnWaits(v);
    case Call(i) => CalledWaits(v, i);
  }

  lemma AwaitedWaits(size: nat, v: View, id: nat, count: nat)
    requires WaitsOpen(v) && Enabled(size, v, Wait(id, count))
    ensures WaitsOpen(Awaited(size, v, id, count))
  {
  }

  lemma CalledWaits(v: View, i: nat)
    requires WaitsOpen(v) && i < |v.due|
    ensures WaitsOpen(Called(v, i))
  {
    WithoutDistinct(v.due, i);
    FiredIds(v.fired, Fired(v.due[i], v.Report()));
  }

  lemma WithdrawnWaits(v: View)
    requires WaitsOpen(v)
    ensures WaitsOpen(Withdrawn(v))
  {
    if v.pending.Some? {
      FiredIds(v.fired, Fired(v.pending.value, Cancelled));
    }
  }

  lemma TestWaits(v: View, i: int)
    requires WaitsOpen(v) && 0 <= i < |v.completed|
    ensures WaitsOpen(Tested(v, i))
  {
  }

  lemma CompleteWaits(v: View, slot: int, failed: bool)
    requires WaitsOpen(v)
    ensures WaitsOpen(Completed(v, slot, failed))
  {
  }

  lemma TestValid(size: nat, v: View, i: int)
    requires Valid(size, v) && 0 <= i < |v.completed|
    ensures Valid(size, Tested(v, i))
  {
    WithoutDistinct(v.completed, i);
    var slot := v.completed[i];
    assert slot in v.completed;
    assert slot !in v.free;
  }

  lemma CompleteValid(size: nat, v: View, slot: int, failed: bool)
    requires Valid(size, v) && Enabled(size, v, Complete(slot, failed))
    ensures Valid(size, Completed(v, slot, failed))
  {
    CompleteWaits(v, slot, failed);
  }

  /** What an operation does to each slot: arming takes it from the free ones, so that it
      may complete; completing and testing move it on to the completed and to the free
      ones; no other slot moves. */
  lemma SlotMoves(size: nat, v: View, op: Op, slot: int)
    requires Valid(size, v) && Enabled(size, v, op)
    ensures var w := Apply(size, v, op);
      && (slot in w.free <==> (slot in v.free && !(op.Arm? && v.free[op.i] == slot)) || slot in ReturnedBy(v, op))
      && (slot in w.completed <==> (slot in v.completed && slot !in ReturnedBy(v, op)) || slot in CompletedBy(op))
  {
    match op
    case Arm(i) => WithoutDistinct(v.free, i);
    case Test(i) => WithoutDistinct(v.completed, i);
    case _ =>
  }

  /** The slot handed out last is the first to be armed again. */
  lemma ReusedFirst(size: nat, v: View, i: nat)
    requires Valid(size, v) && i < |v.completed|
    ensures var w := Apply(size, v, Test(i));
      w.free != [] && w.free[0] == v.completed[i] && Apply(size, w, Arm(0)).free == v.free
  {
  }

  // --- whole runs ---

  predicate Runs(size: nat, v: View, ops: seq<Op>)
    decreases |ops|
  {
    ops == [] || (Enabled(size, v, ops[0]) && Runs(size, Apply(size, v, ops[0]), ops[1..]))
  }

  function After(size: nat, v: View, ops: seq<Op>): View
    requires Runs(size, v, ops)
    decreases |ops|
  {
    if ops == [] then v else After(size, Apply(size, v, ops[0]), ops[1..])
  }

  /** In every run the invariant holds: the slots stay apart, a pending wait means
      its condition does not hold yet, and every wait is called back at most once. */
  lemma {:induction false} RunValid(size: nat, v: View, ops: seq<Op>)
    requires Valid(size, v) && Runs(size, v, ops)
    ensures Valid(size, After(size, v, ops))
    decreases |ops|
  {
    if ops != [] {
      ApplyValid(size, v, ops[0]);
      RunValid(size, Apply(size, v, ops[0]), ops[1..]);
    }
  }

  function CompletedBy(op: Op): seq<int> {
    if op.Complete? then [op.slot] else []
  }

  function ReturnedBy(v: View, op: Op): seq<int>
    requires op.Test? ==> op.i < |v.completed|
  {
    if op.Test? then [v.completed[op.i]] else []
  }

  /** The slots that complete during a run, in order. */
  function Completions(ops: seq<Op>): seq<int> {
    if ops == [] then [] else CompletedBy(ops[0]) + Completions(ops[1..])
  }

  /** The slots that the tests of a run hand out, in order. */
  function Returned(size: nat, v: View, ops: seq<Op>): seq<int>
    requires Runs(size, v, ops)
    decreases |ops|
  {
    if ops == [] then [] else ReturnedBy(v, ops[0]) + Returned(size, Apply(size, v, ops[0]), ops[1..])
  }

  predicate InOrder(ops: seq<Op>) {
    forall k :: 0 <= k < |ops| && ops[k].Test? ==> ops[k].i == 0
  }

  lemma StepOrder(size: nat, v: View, op: Op)
    requires Enabled(size, v, op) && (op.Test? ==> op.i == 0)
    ensures v.completed + CompletedBy(op) == ReturnedBy(v, op) + Apply(size, v, op).completed
  {
  }

  lemma Regroup(a: seq<int>, c: seq<int>, cs: seq<int>, r: seq<int>, b: seq<int>, rs: seq<int>, z: seq<int>)
    requires a + c == r + b && b + cs == rs + z
    ensures a + (c + cs) == (r + rs) + z
  {
    assert a + (c + cs) == (a + c) + cs == r + (b + cs) == r + (rs + z) == (r + rs) + z;
  }

  /** Testing hands out the slots in the order of their completion, none twice and
      none left out. */
  lemma {:induction false} TestOrder(size: nat, v: View, ops: seq<Op>)
    requires Runs(size, v, ops) && InOrder(ops)
    ensures v.completed + Completions(ops) == Returned(size, v, ops) + After(size, v, ops).completed
    decreases |ops|
  {
    if ops != [] {
      var w, rest := Apply(size, v, ops[0]), ops[1..];
      assert forall k :: 0 <= k < |rest| ==> rest[k] == ops[k + 1];
      TestOrder(size, w, rest);
      StepOrder(size, v, ops[0]);
      Regroup(v.completed, CompletedBy(ops[0]), Completions(rest), ReturnedBy(v, ops[0]), w.completed,
              Returned(size, w, rest), After(size, w, rest).completed);
    }
  }

  /** The wait `id` was begun. */
  predicate Begun(v: View, id: nat) {
    v.pending == Some(id) || Gone(v, id)
  }

  /** Over a run, every wait begun is pending or due at the end or was called back
      exactly once, and no other was. */
  lemma {:induction false} WaitsAnswered(size: nat, v: View, ops: seq<Op>, id: nat)
    requires Valid(size, v) && Runs(size, v, ops)
    ensures Begun(After(size, v, ops), id)
      <==> Begun(v, id) || exists k :: 0 <= k < |ops| && ops[k].Wait? && ops[k].id == id
    decreases |ops|
  {
    if ops != [] {
      var w, rest := Apply(size, v, ops[0]), ops[1..];
      ApplyValid(size, v, ops[0]);
      WaitsAnswered(size, w, rest, id);
      assert forall k :: 0 <= k < |rest| ==> rest[k] == ops[k + 1];
      assert ops == [ops[0]] + rest;
      StepAnswers(size, v, ops[0], id);
    }
  }

  lemma StepAnswers(size: nat, v: View, op: Op, id: nat)
    requires Valid(size, v) && Enabled(size, v, op)
    ensures Begun(Apply(size, v, op), id) <==> Begun(v, id) || (op.Wait? && op.id == id)
  {
    match op
    case Call(i) =>
      WithoutDistinct(v.due, i);
      FiredIds(v.fired, Fired(v.due[i], v.Report()));
    case Cancel =>
      if v.pending.Some? {
        FiredIds(v.fired, Fired(v.pending.value, Cancelled));
      }
    case _ =>
  }

  // --- when a wait is over ---

  /** At some point of the run `n` slots are completed and not yet tested, or one of these
      failed. */
  predicate Reaches(size: nat, v: View, ops: seq<Op>, n: nat)
    requires Runs(size, v, ops)
    decreases |ops|
  {
    |v.completed| >= n || v.failed != {} || (ops != [] && Reaches(size, Apply(size, v, ops[0]), ops[1..], n))
  }

  /** The run cancels the wait `id`. */
  predicate Cancels(size: nat, v: View, ops: seq<Op>, id: nat)
    requires Runs(size, v, ops)
    decreases |ops|
  {
    ops != [] && ((ops[0].Cancel? && v.pending == Some(id)) || Cancels(size, Apply(size, v, ops[0]), ops[1..], id))
  }

  lemma GoneStep(size: nat, v: View, op: Op, id: nat)
    requires Valid(size, v) && Enabled(size, v, op) && Gone(v, id)
    ensures Gone(Apply(size, v, op), id)
  {
    StepAnswers(size, v, op, id);
    PendingStep(size, v, op, id);
  }

  /** A wait that is pending after an operation was pending before, or begins with it. */
  lemma PendingStep(size: nat, v: View, op: Op, id: nat)
    requires Enabled(size, v, op)
    ensures Apply(size, v, op).pending == Some(id) ==> v.pending == Some(id) || (op.Wait? && op.id == id)
  {
  }

  lemma {:induction false} GoneStays(size: nat, v: View, ops: seq<Op>, id: nat)
    requires Valid(size, v) && Runs(size, v, ops) && Gone(v, id)
    ensures Gone(After(size, v, ops), id)
    decreases |ops|
  {
    if ops != [] {
      ApplyValid(size, v, ops[0]);
      GoneStep(size, v, ops[0], id);
      GoneStays(size, Apply(size, v, ops[0]), ops[1..], id);
    }
  }

  /** What an operation does to a pending wait for `n` slots: it stays pending, unless it
      is cancelled, or `n` slots are completed by then, or one failed. */
  lemma PendingOn(size: nat, v: View, op: Op, id: nat, n: nat)
    requires Valid(size, v) && Enabled(size, v, op) && v.pending == Some(id) && v.waitingFor == n
    ensures var w := Apply(size, v, op);
      if op.Cancel? || |w.completed| >= n || w.failed != {} then Gone(w, id)
      else w.pending == Some(id) && w.waitingFor == n
  {
    if op.Cancel? {
      FiredIds(v.fired, Fired(id, Cancelled));
    }
  }

  lemma {:induction false} PendingExact(size: nat, v: View, ops: seq<Op>, id: nat, n: nat)
    requires Valid(size, v) && Runs(size, v, ops) && v.pending == Some(id) && v.waitingFor == n
    ensures Gone(After(size, v, ops), id) <==> Reaches(size, v, ops, n) || Cancels(size, v, ops, id)
    decreases |ops|
  {
    if ops != [] {
      var op, rest := ops[0], ops[1..];
      var w := Apply(size, v, op);
      ApplyValid(size, v, op);
      PendingOn(size, v, op, id, n);
      if Gone(w, id) {
        GoneStays(size, w, rest, id);
      } else {
        PendingExact(size, w, rest, id, n);
      }
    }
  }

  /** Over every run after a wait for `count` slots, zero standing for all slots armed or
      completed at the call: the wait is over if and only if since then that many slots
      were completed at once, or one of them failed, or the wait was cancelled. */
  lemma WaitExact(size: nat, v: View, id: nat, count: nat, ops: seq<Op>)
    requires Valid(size, v) && Enabled(size, v, Wait(id, count)) && Runs(size, Apply(size, v, Wait(id, count)), ops)
    ensures var w, n := Apply(size, v, Wait(id, count)), if count == 0 then size - |v.free| else count;
      Gone(After(size, w, ops), id) <==> Reaches(size, w, ops, n) || Cancels(size, w, ops, id)
  {
    var w, n := Apply(size, v, Wait(id, count)), if count == 0 then size - |v.free| else count;
    ApplyValid(size, v, Wait(id, count));
    if |v.completed| >= n || v.failed != {} {
      GoneStays(size, w, ops, id);
    } else {
      PendingExact(size, w, ops, id, n);
    }
  }

  // --- what a callback is told ---

  /** During the run `slot` fails, and is not handed out after that. */
  predicate FailsLate(size: nat, v: View, ops: seq<Op>, slot: int)
    requires Runs(size, v, ops)
    decreases |ops|
  {
    ops != [] && (
      || (ops[0] == Complete(slot, true) && slot !in Returned(size, Apply(size, v, ops[0]), ops[1..]))
      || FailsLate(size, Apply(size, v, ops[0]), ops[1..], slot))
  }

  /** An exception that is there after the run: from before and not handed out since,
      or from a completion during the run and not handed out after it. */
  predicate Outstanding(size: nat, v: View, ops: seq<Op>, slot: int)
    requires Runs(size, v, ops)
  {
    (slot in v.failed && slot !in Returned(size, v, ops)) || FailsLate(size, v, ops, slot)
  }

  lemma {:induction false} FailedAfter(size: nat, v: View, ops: seq<Op>, slot: int)
    requires Valid(size, v) && Runs(size, v, ops)
    ensures slot in After(size, v, ops).failed <==> Outstanding(size, v, ops, slot)
    decreases |ops|
  {
    if ops != [] {
      var op := ops[0];
      var w := Apply(size, v, op);
      ApplyValid(size, v, op);
      FailedAfter(size, w, ops[1..], slot);
      FailedStep(size, v, op, slot);
    }
  }

  lemma FailedStep(size: nat, v: View, op: Op, slot: int)
    requires Valid(size, v) && Enabled(size, v, op)
    ensures slot in Apply(size, v, op).failed
      <==> (slot in v.failed && slot !in ReturnedBy(v, op)) || op == Complete(slot, true)
  {
  }

  /** What a callback is told when it is made after the run `ops`, due since `v`: of an
      exception exactly when one that was there has not been handed out since, or one
      that came during the run has not been handed out after it came. */
  lemma ReportExact(size: nat, v: View, ops: seq<Op>)
    requires Valid(size, v) && Runs(size, v, ops)
    ensures After(size, v, ops).Report() == SlotException <==> exists slot :: Outstanding(size, v, ops, slot)
  {
    var w := After(size, v, ops);
    forall slot
      ensures slot in w.failed <==> Outstanding(size, v, ops, slot)
    {
      FailedAfter(size, v, ops, slot);
    }
    Inhabited(w.failed);
  }

  lemma Inhabited(s: set<int>)
    ensures s != {} <==> exists x :: x in s
  {
    assert (forall x :: x !in s) ==> s == {};
  }

  /** So a callback that is made after the run is told of an exception exactly then, and
      else that all is well. */
  lemma ToldExact(size: nat, v: View, ops: seq<Op>, i: nat)
    requires Valid(size, v) && Runs(size, v, ops) && i < |After(size, v, ops).due|
    ensures var w := After(size, v, ops);
      Apply(size, w, Call(i)).fired
      == w.fired + [Fired(w.due[i], if exists slot :: Outstanding(size, v, ops, slot) then SlotException else Ok)]
  {
    ReportExact(size, v, ops);
  }

  lemma CancelStep(size: nat, v: View, op: Op, id: nat)
    requires Enabled(size, v, op)
    ensures Fired(id, Cancelled) in Apply(size, v, op).fired
      <==> Fired(id, Cancelled) in v.fired || (op.Cancel? && v.pending == Some(id))
  {
  }

  /** A callback is told that its wait was cancelled exactly when it was. */
  lemma {:induction false} CancelExact(size: nat, v: View, ops: seq<Op>, id: nat)
    requires Runs(size, v, ops)
    ensures Fired(id, Cancelled) in After(size, v, ops).fired
      <==> Fired(id, Cancelled) in v.fired || Cancels(size, v, ops, id)
    decreases |ops|
  {
    if ops != [] {
      CancelStep(size, v, ops[0], id);
      CancelExact(size, Apply(size, v, ops[0]), ops[1..], id);
    }
  }

  predicate NoTests(ops: seq<Op>) {
    forall k :: 0 <= k < |ops| ==> !ops[k].Test?
  }

  predicate NoFailures(ops: seq<Op>) {
    forall k :: 0 <= k < |ops| && ops[k].Complete? ==> !ops[k].failed
  }

  lemma {:induction false} NothingReturned(size: nat, v: View, ops: seq<Op>)
    requires Runs(size, v, ops) && NoTests(ops)
    ensures Returned(size, v, ops) == []
    decreases |ops|
  {
    if ops != [] {
      assert forall k :: 0 <= k < |ops[1..]| ==> ops[1..][k] == ops[k + 1];
      NothingReturned(size, Apply(size, v, ops[0]), ops[1..]);
    }
  }

  lemma {:induction false} NothingFails(size: nat, v: View, ops: seq<Op>, slot: int)
    requires Runs(size, v, ops) && NoFailures(ops)
    ensures !FailsLate(size, v, ops, slot)
    decreases |ops|
  {
    if ops != [] {
      assert forall k :: 0 <= k < |ops[1..]| ==> ops[1..][k] == ops[k + 1];
      NothingFails(size, Apply(size, v, ops[0]), ops[1..], slot);
    }
  }

  /** So a callback that became due with an exception is told of one if no slot is
      tested until it is made, and one that became due without is told of none if no
      further slot fails. */
  lemma ReportStands(size: nat, v: View, ops: seq<Op>)
    requires Valid(size, v) && Runs(size, v, ops)
    ensures NoTests(ops) && v.failed != {} ==> After(size, v, ops).Report() == SlotException
    ensures NoFailures(ops) && v.failed == {} ==> After(size, v, ops).Report() == Ok
  {
    ReportExact(size, v, ops);
    if NoTests(ops) && v.failed != {} {
      Inhabited(v.failed);
      var slot :| slot in v.failed;
      NothingReturned(size, v, ops);
      assert Outstanding(size, v, ops, slot);
    }
    if NoFailures(ops) && v.failed == {} {
      forall slot
        ensures !Outstanding(size, v, ops, slot)
      {
        NothingFails(size, v, ops, slot);
      }
    }
  }

  function Fresh(free: seq<int>): View {
    View(free, [], {}, 0, None, [], [])
  }

  /** A test in between misleads: the wait for two slots is over because of an
      exception, and is told that all is well after only one slot completed. */
  lemma LateReport(id: nat)
    ensures var v, ops := Fresh([0, 1]), [Arm(0), Arm(0), Wait(id, 2), Complete(0, true), Test(0), Call(0)];
      && Runs(2, v, ops) && Completions(ops) == [0]
      && After(2, v, ops).fired == [Fired(id, Ok)]
  {
    var v0 := Fresh([0, 1]);
    var v2 := v0.(free := []);
    var v4 := v2.(completed := [0], failed := {0}, due := [id]);
    var v6 := v2.(free := [0], fired := [Fired(id, Ok)]);
    assert v4.failed - {0} == {};
    Before(v6.(due := [id], fired := []), Call(0), [], v6);
    Before(v4, Test(0), [Call(0)], v6);
    Before(v2.(waitingFor := 2, pending := Some(id)), Complete(0, true), [Test(0), Call(0)], v6);
    Before(v2, Wait(id, 2), [Complete(0, true), Test(0), Call(0)], v6);
    Before(v0.(free := [1]), Arm(0), [Wait(id, 2), Complete(0, true), Test(0), Call(0)], v6);
    Before(v0, Arm(0), [Arm(0), Wait(id, 2), Complete(0, true), Test(0), Call(0)], v6);
  }

  lemma Before(v: View, op: Op, rest: seq<Op>, u: View)
    requires Enabled(2, v, op) && Runs(2, Apply(2, v, op), rest) && After(2, Apply(2, v, op), rest) == u
    ensures Runs(2, v, [op] + rest) && After(2, v, [op] + rest) == u
    ensures Completions([op] + rest) == CompletedBy(op) + Completions(rest)
  {
    assert ([op] + rest)[1..] == rest;
  }
}
