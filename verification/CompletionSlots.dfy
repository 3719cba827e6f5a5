/** The completion object itself: the free slots and the completed slots are two
    doubly linked lists threaded by index through one array. */
module CompletionSlots {
  import opened Basics
  import opened MultiCompletion

  datatype Status = Waiting | Free | Completed

  datatype Slot = Slot(next: int, prev: int, status: Status, failed: bool)

  // --- lists threaded through the slots ---

  function At(l: seq<int>, i: int): int {
    if 0 <= i < |l| then l[i] else -1
  }

  /** The slots `l` are linked to each other in this order, with -1 at both ends. */
  ghost predicate Chain(s: seq<Slot>, l: seq<int>) {
    && Distinct(l)
    && (forall i :: 0 <= i < |l| ==> 0 <= l[i] < |s|)
    && (forall i {:trigger s[l[i]]} :: 0 <= i < |l| ==> s[l[i]].next == At(l, i + 1) && s[l[i]].prev == At(l, i - 1))
  }

  ghost predicate SameFlags(s: seq<Slot>, s': seq<Slot>) {
    |s| == |s'| && forall k :: 0 <= k < |s| ==> s'[k].status == s[k].status && s'[k].failed == s[k].failed
  }

  predicate Link(s: seq<Slot>, k: int) {
    k == -1 || 0 <= k < |s|
  }

  /** Take slot `k` out of the list it is in. */
  function Unhook(s: seq<Slot>, k: int): (s': seq<Slot>)
    requires 0 <= k < |s| && Link(s, s[k].prev) && Link(s, s[k].next)
    ensures |s'| == |s|
  {
    var p, n := s[k].prev, s[k].next;
    var t := if p != -1 then s[p := s[p].(next := n)] else s;
    if n != -1 then t[n := t[n].(prev := p)] else t
  }

  /** Put slot `k` in front of the list that starts with `first`. */
  function HookFront(s: seq<Slot>, k: int, first: int): (s': seq<Slot>)
    requires 0 <= k < |s| && Link(s, first)
    ensures |s'| == |s|
  {
    var t := s[k := s[k].(next := first, prev := -1)];
    if first != -1 then t[first := t[first].(prev := k)] else t
  }

  /** Put slot `k` behind the list that ends with `last`. */
  function HookBack(s: seq<Slot>, k: int, last: int): (s': seq<Slot>)
    requires 0 <= k < |s| && Link(s, last)
    ensures |s'| == |s|
  {
    var t := s[k := s[k].(next := -1, prev := last)];
    if last != -1 then t[last := t[last].(next := k)] else t
  }

  lemma ChainFrame(s: seq<Slot>, s': seq<Slot>, l: seq<int>)
    requires Chain(s, l) && |s| == |s'|
    requires forall i :: 0 <= i < |l| ==> s'[l[i]].next == s[l[i]].next && s'[l[i]].prev == s[l[i]].prev
    ensures Chain(s', l)
  {
  }

  /** Position `j` of the list that is left links to its neighbours there. */
  lemma UnhookAt(s: seq<Slot>, l: seq<int>, i: int, j: int)
    requires Chain(s, l) && 0 <= i < |l| && 0 <= j < |l| - 1
    requires Link(s, s[l[i]].prev) && Link(s, s[l[i]].next)
    ensures var s', m := Unhook(s, l[i]), Without(l, i);
      0 <= m[j] < |s'| && s'[m[j]].next == At(m, j + 1) && s'[m[j]].prev == At(m, j - 1)
  {
    var m, j' := Without(l, i), if j < i then j else j + 1;
    assert s[l[i]].prev == At(l, i - 1) && s[l[i]].next == At(l, i + 1);
    assert m[j] == l[j'];
    assert s[l[j']].next == At(l, j' + 1) && s[l[j']].prev == At(l, j' - 1);
  }

  lemma UnhookRest(s: seq<Slot>, l: seq<int>, i: int)
    requires Chain(s, l) && 0 <= i < |l|
    ensures Link(s, s[l[i]].prev) && Link(s, s[l[i]].next)
    ensures forall k :: 0 <= k < |s| && (k !in l || k == l[i]) ==> Unhook(s, l[i])[k] == s[k]
    ensures SameFlags(s, Unhook(s, l[i]))
  {
    assert s[l[i]].prev == At(l, i - 1) && s[l[i]].next == At(l, i + 1);
  }

  lemma UnhookChain(s: seq<Slot>, l: seq<int>, i: int)
    requires Chain(s, l) && 0 <= i < |l|
    ensures Link(s, s[l[i]].prev) && Link(s, s[l[i]].next)
    ensures Chain(Unhook(s, l[i]), Without(l, i))
    ensures forall k :: 0 <= k < |s| && (k !in l || k == l[i]) ==> Unhook(s, l[i])[k] == s[k]
    ensures SameFlags(s, Unhook(s, l[i]))
  {
    UnhookRest(s, l, i);
    WithoutDistinct(l, i);
    forall j | 0 <= j < |Without(l, i)|
      ensures var s', m := Unhook(s, l[i]), Without(l, i);
        0 <= m[j] < |s'| && s'[m[j]].next == At(m, j + 1) && s'[m[j]].prev == At(m, j - 1)
    {
      UnhookAt(s, l, i, j);
    }
  }

  lemma HookFrontChain(s: seq<Slot>, l: seq<int>, k: int)
    requires Chain(s, l) && 0 <= k < |s| && k !in l
    ensures Link(s, At(l, 0)) && Chain(HookFront(s, k, At(l, 0)), [k] + l)
    ensures forall j :: 0 <= j < |s| && j !in l && j != k ==> HookFront(s, k, At(l, 0))[j] == s[j]
    ensures SameFlags(s, HookFront(s, k, At(l, 0)))
  {
    var s', m := HookFront(s, k, At(l, 0)), [k] + l;
    forall j | 0 <= j < |m|
      ensures 0 <= m[j] < |s'| && s'[m[j]].next == At(m, j + 1) && s'[m[j]].prev == At(m, j - 1)
    {
      if j > 0 {
        assert m[j] == l[j - 1] && s[l[j - 1]].next == At(l, j);
      }
    }
  }

  lemma HookBackChain(s: seq<Slot>, l: seq<int>, k: int)
    requires Chain(s, l) && 0 <= k < |s| && k !in l
    ensures Link(s, At(l, |l| - 1)) && Chain(HookBack(s, k, At(l, |l| - 1)), l + [k])
    ensures forall j :: 0 <= j < |s| && j !in l && j != k ==> HookBack(s, k, At(l, |l| - 1))[j] == s[j]
    ensures SameFlags(s, HookBack(s, k, At(l, |l| - 1)))
  {
    var s', m := HookBack(s, k, At(l, |l| - 1)), l + [k];
    forall j | 0 <= j < |m|
      ensures 0 <= m[j] < |s'| && s'[m[j]].next == At(m, j + 1) && s'[m[j]].prev == At(m, j - 1)
    {
      if j < |l| {
        assert m[j] == l[j] && s[l[j]].next == At(l, j + 1) && s[l[j]].prev == At(l, j - 1);
      }
    }
  }

  // --- both lists together ---

  /** The status of every slot says which list it is in; only a completed slot failed. */
  ghost predicate Flags(s: seq<Slot>, free: seq<int>, completed: seq<int>) {
    && (forall k :: 0 <= k < |s| ==> (s[k].status == Free <==> k in free))
    && (forall k :: 0 <= k < |s| ==> (s[k].status == Completed <==> k in completed))
    && (forall k :: 0 <= k < |s| && s[k].failed ==> s[k].status == Completed)
  }

  ghost predicate Laid(s: seq<Slot>, free: seq<int>, completed: seq<int>) {
    Chain(s, free) && Chain(s, completed) && Flags(s, free, completed)
  }

  ghost function FailedOf(s: seq<Slot>, completed: seq<int>): set<int> {
    set k <- completed | 0 <= k < |s| && s[k].failed
  }

  ghost predicate Apart(a: seq<int>, b: seq<int>) {
    forall k <- a :: k !in b
  }

  /** Only slot `k` changes its flags. */
  ghost predicate Reflags(s: seq<Slot>, s': seq<Slot>, k: int, st: Status, failed: bool) {
    && |s| == |s'| && 0 <= k < |s| && s'[k].status == st && s'[k].failed == failed
    && forall j :: 0 <= j < |s| && j != k ==> s'[j].status == s[j].status && s'[j].failed == s[j].failed
  }

  lemma LaidApart(s: seq<Slot>, free: seq<int>, completed: seq<int>)
    requires Laid(s, free, completed)
    ensures Apart(free, completed)
  {
    forall k | k in free
      ensures k !in completed
    {
      assert s[k].status == Free;
    }
  }

  lemma ArmFlags(s: seq<Slot>, s': seq<Slot>, free: seq<int>, completed: seq<int>, i: int)
    requires Flags(s, free, completed) && 0 <= i < |free| && Distinct(free) && free[i] !in completed
    requires Reflags(s, s', free[i], Waiting, false)
    ensures Flags(s', Without(free, i), completed)
    ensures FailedOf(s', completed) == FailedOf(s, completed)
  {
    WithoutDistinct(free, i);
  }

  /** Arming takes a slot out of the free list, whatever becomes of its own links. */
  lemma LaidArm(s: seq<Slot>, free: seq<int>, completed: seq<int>, i: int, own: Slot)
    requires Laid(s, free, completed) && 0 <= i < |free|
    requires Link(s, s[free[i]].prev) && Link(s, s[free[i]].next)
    requires own.status == Waiting && !own.failed
    ensures var s' := Unhook(s, free[i])[free[i] := own];
      Laid(s', Without(free, i), completed) && FailedOf(s', completed) == FailedOf(s, completed)
  {
    var t := Unhook(s, free[i]);
    var s' := t[free[i] := own];
    UnhookChain(s, free, i);
    WithoutDistinct(free, i);
    ChainFrame(t, s', Without(free, i));
    LaidApart(s, free, completed);
    ChainFrame(s, s', completed);
    ArmFlags(s, s', free, completed, i);
  }

  function CompletedSlots(s: seq<Slot>, k: int, last: int, failed: bool): (s': seq<Slot>)
    requires 0 <= k < |s| && Link(s, last)
    ensures |s'| == |s|
  {
    HookBack(s[k := s[k].(status := Completed, failed := failed)], k, last)
  }

  lemma CompleteChains(s: seq<Slot>, free: seq<int>, completed: seq<int>, k: int, failed: bool)
    requires Chain(s, free) && Chain(s, completed) && Apart(free, completed)
    requires 0 <= k < |s| && k !in free && k !in completed
    requires Link(s, At(completed, |completed| - 1))
    ensures var s' := CompletedSlots(s, k, At(completed, |completed| - 1), failed);
      Chain(s', free) && Chain(s', completed + [k]) && Reflags(s, s', k, Completed, failed)
  {
    var t := s[k := s[k].(status := Completed, failed := failed)];
    ChainFrame(s, t, completed);
    ChainFrame(s, t, free);
    HookBackChain(t, completed, k);
    ChainFrame(t, HookBack(t, k, At(completed, |completed| - 1)), free);
  }

  lemma CompleteFlags(s: seq<Slot>, s': seq<Slot>, free: seq<int>, completed: seq<int>, k: int, failed: bool)
    requires Flags(s, free, completed) && Reflags(s, s', k, Completed, failed) && k !in free && k !in completed
    ensures Flags(s', free, completed + [k])
    ensures FailedOf(s', completed + [k]) == FailedOf(s, completed) + if failed then {k} else {}
  {
  }

  /** Completing puts a waiting slot behind the completed list. */
  lemma LaidComplete(s: seq<Slot>, free: seq<int>, completed: seq<int>, k: int, failed: bool)
    requires Laid(s, free, completed) && 0 <= k < |s| && s[k].status == Waiting
    requires Link(s, At(completed, |completed| - 1))
    ensures var s' := CompletedSlots(s, k, At(completed, |completed| - 1), failed);
      && Laid(s', free, completed + [k])
      && FailedOf(s', completed + [k]) == FailedOf(s, completed) + if failed then {k} else {}
  {
    LaidApart(s, free, completed);
    CompleteChains(s, free, completed, k, failed);
    CompleteFlags(s, CompletedSlots(s, k, At(completed, |completed| - 1), failed), free, completed, k, failed);
  }

  function TestedSlots(s: seq<Slot>, k: int, first: int): (s': seq<Slot>)
    requires 0 <= k < |s| && Link(s, s[k].prev) && Link(s, s[k].next) && Link(s, first)
    ensures |s'| == |s|
  {
    var t := HookFront(Unhook(s, k), k, first);
    t[k := t[k].(status := Free, failed := false)]
  }

  lemma TestChains(s: seq<Slot>, free: seq<int>, completed: seq<int>, i: int)
    requires Chain(s, free) && Chain(s, completed) && Apart(free, completed) && 0 <= i < |completed|
    requires Link(s, s[completed[i]].prev) && Link(s, s[completed[i]].next) && Link(s, At(free, 0))
    ensures var s' := TestedSlots(s, completed[i], At(free, 0));
      && Chain(s', [completed[i]] + free) && Chain(s', Without(completed, i))
      && Reflags(s, s', completed[i], Free, false)
  {
    var k := completed[i];
    var u := Unhook(s, k);
    UnhookChain(s, completed, i);
    WithoutDistinct(completed, i);
    ChainFrame(s, u, free);
    HookChains(u, free, Without(completed, i), k);
  }

  lemma HookChains(u: seq<Slot>, free: seq<int>, rest: seq<int>, k: int)
    requires Chain(u, free) && Chain(u, rest) && Apart(free, rest) && 0 <= k < |u| && k !in free && k !in rest
    requires Link(u, At(free, 0))
    ensures var t := HookFront(u, k, At(free, 0));
      var s' := t[k := t[k].(status := Free, failed := false)];
      Chain(s', [k] + free) && Chain(s', rest) && Reflags(u, s', k, Free, false)
  {
    var t := HookFront(u, k, At(free, 0));
    var s' := t[k := t[k].(status := Free, failed := false)];
    HookFrontChain(u, free, k);
    ChainFrame(u, s', rest);
    ChainFrame(t, s', [k] + free);
  }

  lemma TestFlags(s: seq<Slot>, s': seq<Slot>, free: seq<int>, completed: seq<int>, i: int)
    requires Flags(s, free, completed) && 0 <= i < |completed| && Distinct(completed)
    requires Reflags(s, s', completed[i], Free, false)
    ensures Flags(s', [completed[i]] + free, Without(completed, i))
    ensures FailedOf(s', Without(completed, i)) == FailedOf(s, completed) - {completed[i]}
  {
    WithoutDistinct(completed, i);
    assert forall k :: k in [completed[i]] + free <==> k == completed[i] || k in free;
  }

  /** Testing moves a slot from the completed list to the front of the free list. */
  lemma LaidTest(s: seq<Slot>, free: seq<int>, completed: seq<int>, i: int)
    requires Laid(s, free, completed) && 0 <= i < |completed|
    requires Link(s, s[completed[i]].prev) && Link(s, s[completed[i]].next) && Link(s, At(free, 0))
    ensures var s' := TestedSlots(s, completed[i], At(free, 0));
      && Laid(s', [completed[i]] + free, Without(completed, i))
      && FailedOf(s', Without(completed, i)) == FailedOf(s, completed) - {completed[i]}
  {
    LaidApart(s, free, completed);
    TestChains(s, free, completed, i);
    TestFlags(s, TestedSlots(s, completed[i], At(free, 0)), free, completed, i);
  }

  // --- the object ---

  ghost function SeqSet(l: seq<int>): set<int> {
    set k <- l
  }

  lemma {:induction false} SeqSetSize(l: seq<int>)
    requires Distinct(l)
    ensures |SeqSet(l)| == |l|
  {
    if l != [] {
      var front, last := l[..|l| - 1], l[|l| - 1];
      SeqSetSize(front);
      assert SeqSet(l) == SeqSet(front) + {last} && last !in SeqSet(front);
    }
  }

  ghost function Below(n: nat): (r: set<int>)
    ensures |r| == n && forall k :: k in r <==> 0 <= k < n
  {
    if n == 0 then {} else Below(n - 1) + {n - 1}
  }

  /** A slot in neither list leaves room for it in the count. */
  lemma Room(size: nat, free: seq<int>, completed: seq<int>, k: int)
    requires Distinct(free) && Distinct(completed) && Apart(free, completed)
    requires forall j <- free :: 0 <= j < size
    requires forall j <- completed :: 0 <= j < size
    requires 0 <= k < size && k !in free && k !in completed
    ensures |free| + |completed| < size
  {
    SeqSetSize(free);
    SeqSetSize(completed);
    assert SeqSet(free) !! SeqSet(completed);
    var x := SeqSet(free) + SeqSet(completed) + {k};
    assert Below(size) * x == x;
    assert |Below(size) - x| == size - |x|;
  }

  lemma OnlyFailure(x: set<int>, k: int)
    ensures k in x ==> (|x - {k}| == 0 <==> x == {k})
  {
    if |x - {k}| == 0 {
      assert x - {k} == {};
    }
  }

  /** The heads of the lists and the counters. */
  datatype Heads = Heads(firstFree: int, firstCompleted: int, lastCompleted: int,
                         waiting: int, done: int, exceptions: int)

  /** The links are two lists, and the heads and counters describe them. */
  ghost predicate Linked(s: seq<Slot>, free: seq<int>, completed: seq<int>, h: Heads) {
    && Laid(s, free, completed)
    && h.firstFree == At(free, 0) && h.firstCompleted == At(completed, 0)
    && h.lastCompleted == At(completed, |completed| - 1)
    && h.done == |completed| && h.waiting + |free| + |completed| == |s|
    && h.exceptions == |FailedOf(s, completed)|
  }

  lemma NextOf(s: seq<Slot>, l: seq<int>, i: int)
    requires Chain(s, l) && 0 <= i < |l|
    ensures s[l[i]].next == At(l, i + 1) && s[l[i]].prev == At(l, i - 1)
  {
  }

  function ArmedHeads(h: Heads, s: Slot): Heads {
    h.(firstFree := if s.prev == -1 then s.next else h.firstFree, waiting := h.waiting + 1)
  }

  lemma ArmEnds(s: seq<Slot>, free: seq<int>, i: int)
    requires Chain(s, free) && 0 <= i < |free|
    ensures At(Without(free, i), 0) == if s[free[i]].prev == -1 then s[free[i]].next else At(free, 0)
    ensures |Without(free, i)| == |free| - 1 && (s[free[i]].prev == -1 <==> i == 0)
  {
    NextOf(s, free, i);
  }

  lemma ArmLinked(s: seq<Slot>, free: seq<int>, completed: seq<int>, h: Heads, i: int, own: Slot)
    requires Linked(s, free, completed, h) && 0 <= i < |free| && own.status == Waiting && !own.failed
    requires Link(s, s[free[i]].prev) && Link(s, s[free[i]].next)
    ensures Linked(Unhook(s, free[i])[free[i] := own], Without(free, i), completed, ArmedHeads(h, s[free[i]]))
    ensures FailedOf(Unhook(s, free[i])[free[i] := own], completed) == FailedOf(s, completed)
  {
    LaidArm(s, free, completed, i, own);
    ArmEnds(s, free, i);
  }

  function DoneHeads(h: Heads, k: int, failed: bool): Heads {
    h.(firstCompleted := if h.firstCompleted < 0 then k else h.firstCompleted, lastCompleted := k,
       waiting := h.waiting - 1, done := h.done + 1, exceptions := h.exceptions + if failed then 1 else 0)
  }

  lemma CompleteRoom(s: seq<Slot>, free: seq<int>, completed: seq<int>, h: Heads, k: int)
    requires Linked(s, free, completed, h) && 0 <= k < |s| && s[k].status == Waiting
    ensures Link(s, h.lastCompleted) && 0 < h.waiting && k !in completed
  {
    LaidApart(s, free, completed);
    Room(|s|, free, completed, k);
  }

  lemma CompleteLinked(s: seq<Slot>, free: seq<int>, completed: seq<int>, h: Heads, k: int, failed: bool)
    requires Linked(s, free, completed, h) && 0 <= k < |s| && s[k].status == Waiting
    requires Link(s, h.lastCompleted) && k !in completed
    ensures Linked(CompletedSlots(s, k, h.lastCompleted, failed), free, completed + [k], DoneHeads(h, k, failed))
    ensures FailedOf(CompletedSlots(s, k, h.lastCompleted, failed), completed + [k])
         == FailedOf(s, completed) + if failed then {k} else {}
  {
    LaidComplete(s, free, completed, k, failed);
  }

  lemma WithoutEnds(l: seq<int>, i: int)
    requires 0 <= i < |l| && Distinct(l)
    ensures At(Without(l, i), 0) == if At(l, 0) == l[i] then At(l, i + 1) else At(l, 0)
    ensures At(Without(l, i), |l| - 2) == if At(l, |l| - 1) == l[i] then At(l, i - 1) else At(l, |l| - 1)
  {
  }

  /** The slot behind position `i` becomes the first, or the one before it the last,
      when the slot there was. */
  lemma TestEnds(s: seq<Slot>, completed: seq<int>, i: int)
    requires Chain(s, completed) && 0 <= i < |completed|
    ensures var k := completed[i];
      && At(Without(completed, i), 0) == (if At(completed, 0) == k then s[k].next else At(completed, 0))
      && |Without(completed, i)| == |completed| - 1
      && At(Without(completed, i), |Without(completed, i)| - 1)
         == (if At(completed, |completed| - 1) == k then s[k].prev else At(completed, |completed| - 1))
  {
    assert s[completed[i]].prev == At(completed, i - 1) && s[completed[i]].next == At(completed, i + 1);
    WithoutEnds(completed, i);
  }

  lemma TestSize(s: seq<Slot>, completed: seq<int>, i: int)
    requires Chain(s, completed) && 0 <= i < |completed|
    ensures s[completed[i]].failed <==> completed[i] in FailedOf(s, completed)
    ensures |FailedOf(s, completed) - {completed[i]}|
         == |FailedOf(s, completed)| - if s[completed[i]].failed then 1 else 0
  {
    assert completed[i] in completed;
  }

  function RetiredHeads(h: Heads, k: int, s: Slot): Heads {
    Heads(k, if h.firstCompleted == k then s.next else h.firstCompleted,
          if h.lastCompleted == k then s.prev else h.lastCompleted,
          h.waiting, h.done - 1, if s.failed then h.exceptions - 1 else h.exceptions)
  }

  lemma ChainLinks(s: seq<Slot>, l: seq<int>, i: int)
    requires Chain(s, l) && 0 <= i < |l|
    ensures Link(s, s[l[i]].prev) && Link(s, s[l[i]].next)
  {
    assert s[l[i]].prev == At(l, i - 1) && s[l[i]].next == At(l, i + 1);
  }

  lemma TestLinks(s: seq<Slot>, free: seq<int>, completed: seq<int>, i: int)
    requires Chain(s, free) && Chain(s, completed) && 0 <= i < |completed|
    ensures Link(s, s[completed[i]].prev) && Link(s, s[completed[i]].next) && Link(s, At(free, 0))
  {
    ChainLinks(s, completed, i);
  }

  lemma TestLinked(s: seq<Slot>, free: seq<int>, completed: seq<int>, h: Heads, i: int)
    requires Linked(s, free, completed, h) && 0 <= i < |completed|
    requires Link(s, s[completed[i]].prev) && Link(s, s[completed[i]].next) && Link(s, h.firstFree)
    ensures Linked(TestedSlots(s, completed[i], h.firstFree), [completed[i]] + free, Without(completed, i),
                   RetiredHeads(h, completed[i], s[completed[i]]))
    ensures FailedOf(TestedSlots(s, completed[i], h.firstFree), Without(completed, i))
         == FailedOf(s, completed) - {completed[i]}
  {
    LaidTest(s, free, completed, i);
    TestEnds(s, completed, i);
    TestSize(s, completed, i);
  }

  lemma TestCounts(s: seq<Slot>, free: seq<int>, completed: seq<int>, h: Heads, i: int)
    requires Linked(s, free, completed, h) && 0 <= i < |completed|
    ensures s[completed[i]].failed <==> completed[i] in FailedOf(s, completed)
    ensures h.done > 0 && (s[completed[i]].failed ==> h.exceptions > 0)
  {
    TestSize(s, completed, i);
  }

  function Least(a: nat, b: nat): nat {
    if a < b then a else b
  }

  lemma NotFailed(s: seq<Slot>, free: seq<int>, completed: seq<int>, i: int)
    requires Laid(s, free, completed) && 0 <= i < |free|
    ensures !s[free[i]].failed
  {
    assert free[i] in free;
  }

  method UnhookIn(a: array<Slot>, k: nat)
    requires k < a.Length && Link(a[..], a[k].prev) && Link(a[..], a[k].next)
    modifies a
    ensures a[..] == Unhook(old(a[..]), k)
  {
    var p, n := a[k].prev, a[k].next;
    if p != -1 {
      a[p] := a[p].(next := n);
    }
    if n != -1 {
      a[n] := a[n].(prev := p);
    }
  }

  method ArmIn(a: array<Slot>, ghost free: seq<int>, ghost completed: seq<int>, ghost h: Heads, ghost i: int,
               k: nat, own: Slot)
    requires Linked(a[..], free, completed, h) && 0 <= i < |free| && free[i] == k
    requires own.status == Waiting && !own.failed
    modifies a
    ensures Linked(a[..], Without(free, i), completed, old(ArmedHeads(h, a[k])))
    ensures FailedOf(a[..], completed) == old(FailedOf(a[..], completed))
  {
    ChainLinks(a[..], free, i);
    ArmLinked(a[..], free, completed, h, i, own);
    UnhookIn(a, k);
    a[k] := own;
  }

  method HookBackIn(a: array<Slot>, k: nat, last: int, failed: bool)
    requires k < a.Length && Link(a[..], last)
    modifies a
    ensures a[..] == CompletedSlots(old(a[..]), k, last, failed)
  {
    a[k] := Slot(-1, last, Completed, failed);
    if last != -1 {
      a[last] := a[last].(next := k);
    }
  }

  method CompleteIn(a: array<Slot>, ghost free: seq<int>, ghost completed: seq<int>, ghost h: Heads, k: nat,
                    last: int, failed: bool)
    requires Linked(a[..], free, completed, h) && k < a.Length && a[k].status == Waiting && last == h.lastCompleted
    modifies a
    ensures Linked(a[..], free, completed + [k], DoneHeads(h, k, failed))
    ensures FailedOf(a[..], completed + [k]) == old(FailedOf(a[..], completed)) + if failed then {k as int} else {}
  {
    CompleteRoom(a[..], free, completed, h, k);
    CompleteLinked(a[..], free, completed, h, k, failed);
    HookBackIn(a, k, last, failed);
  }

  /** Follow the list from `first` to a slot with an exception, or to the end. */
  method FindFailed(a: array<Slot>, first: int, ghost l: seq<int>) returns (slot: int, ghost i: int)
    requires Chain(a[..], l) && first == At(l, 0)
    ensures 0 <= i <= |l| && slot == At(l, i) && (i < |l| ==> a[slot].failed)
    ensures forall j :: 0 <= j < i ==> !a[l[j]].failed
  {
    slot, i := first, 0;
    while slot >= 0 && !a[slot].failed
      invariant 0 <= i <= |l| && slot == At(l, i)
      invariant forall j :: 0 <= j < i ==> !a[l[j]].failed
      decreases |l| - i
    {
      NextOf(a[..], l, i);
      slot, i := a[slot].next, i + 1;
    }
  }

  method TestIn(a: array<Slot>, k: nat, first: int)
    requires k < a.Length && Link(a[..], a[k].prev) && Link(a[..], a[k].next) && Link(a[..], first)
    modifies a
    ensures a[..] == TestedSlots(old(a[..]), k, first)
  {
    UnhookIn(a, k);
    a[k] := a[k].(next := first, prev := -1);
    if first != -1 {
      a[first] := a[first].(prev := k);
    }
    a[k] := a[k].(status := Free, failed := false);
  }

  /** The same on lists: what was a completed slot is a free one. */
  method FreeIn(a: array<Slot>, ghost free: seq<int>, ghost completed: seq<int>, ghost h: Heads, ghost i: int, k: nat,
                first: int)
    requires Linked(a[..], free, completed, h) && 0 <= i < |completed| && completed[i] == k && first == h.firstFree
    modifies a
    ensures Linked(a[..], [completed[i]] + free, Without(completed, i), old(RetiredHeads(h, k, a[k])))
    ensures FailedOf(a[..], Without(completed, i)) == old(FailedOf(a[..], completed)) - {completed[i]}
  {
    TestLinks(a[..], free, completed, i);
    TestLinked(a[..], free, completed, h, i);
    TestIn(a, k, first);
  }

  lemma FreshLinked(size: nat, s: seq<Slot>)
    requires size == |s| > 0
    requires forall k :: 0 <= k < size ==> s[k] == Slot(if k == size - 1 then -1 else k + 1, k - 1, Free, false)
    ensures Linked(s, Numbers(size), [], Heads(0, -1, -1, 0, 0, 0)) && FailedOf(s, []) == {}
  {
    forall k | 0 <= k < size
      ensures k in Numbers(size)
    {
      assert Numbers(size)[k] == k;
    }
  }

  function Numbers(n: nat): (l: seq<int>)
    ensures |l| == n && forall k :: 0 <= k < n ==> l[k] == k
  {
    seq(n, k => k)
  }

  lemma NoneFailed(s: seq<Slot>, completed: seq<int>, i: int)
    requires Chain(s, completed) && 0 <= i <= |completed| && FailedOf(s, completed) != {}
    requires forall j :: 0 <= j < i ==> !s[completed[j]].failed
    ensures i < |completed|
  {
  }

  /** What a call to test some slots comes to. */
  datatype Answer = Slots(slots: seq<int>) | Stuck(slot: int)

  class Completion {
    const slots: array<Slot>
    var slotsWaiting: nat
    var slotsCompleted: nat
    var slotsException: nat
    var firstCompleted: int
    var lastCompleted: int
    var firstFree: int
    var waitingFor: nat
    var cb: Option<nat>
    /** Callbacks taken under the lock by calls that have yet to make them. */
    var due: seq<nat>
    var fired: seq<Fired>
    ghost var free: seq<int>
    ghost var completed: seq<int>

    ghost function View(): View
      reads this, slots
    {
      MultiCompletion.View.View(free, completed, FailedOf(slots[..], completed), waitingFor, cb, due, fired)
    }

    ghost function Ends(): Heads
      reads this
    {
      Heads(firstFree, firstCompleted, lastCompleted, slotsWaiting, slotsCompleted, slotsException)
    }

    ghost predicate Valid()
      reads this, slots
    {
      Linked(slots[..], free, completed, Ends()) && WaitsOpen(View())
    }

    constructor (size: nat)
      requires size > 0
      ensures Valid() && fresh(slots) && slots.Length == size
      ensures View() == Fresh(Numbers(size))
    {
      slots := new Slot[size](i => Slot(i + 1, (i as int) - 1, Free, false));
      slotsWaiting, slotsCompleted, slotsException := 0, 0, 0;
      firstCompleted, lastCompleted, firstFree, waitingFor := -1, -1, 0, 0;
      cb, due, fired := None, [], [];
      free, completed := Numbers(size), [];
      new;
      slots[size - 1] := slots[size - 1].(next := -1);
      FreshLinked(size, slots[..]);
    }

    method ArmSlot(pos: nat, own: Slot, ghost i: int)
      requires Linked(slots[..], free, completed, Ends()) && 0 <= i < |free| && free[i] == pos
      requires own.status == Waiting && !own.failed
      modifies this`firstFree, this`slotsWaiting, slots
      ensures Linked(slots[..], Without(free, i), completed, Ends())
      ensures FailedOf(slots[..], completed) == old(FailedOf(slots[..], completed))
    {
      ghost var h := Ends();
      if slots[pos].prev == -1 {
        firstFree := slots[pos].next;
      }
      slotsWaiting := slotsWaiting + 1;
      ArmIn(slots, free, completed, h, i, pos, own);
    }

    ghost method Relist(free': seq<int>, completed': seq<int>)
      requires Linked(slots[..], free', completed', Ends())
      modifies this`free, this`completed
      ensures Linked(slots[..], free, completed, Ends()) && free == free' && completed == completed'
      ensures FailedOf(slots[..], completed) == old(FailedOf(slots[..], completed'))
    {
      free, completed := free', completed';
    }

    /** Arm the slot `pos`. */
    method ArmAt(pos: nat, ghost i: int)
      requires Valid() && 0 <= i < |free| && free[i] == pos
      modifies this, slots
      ensures Valid() && View() == Armed(old(View()), i)
    {
      NotFailed(slots[..], free, completed, i);
      ArmSlot(pos, slots[pos].(status := Waiting), i);
      Relist(Without(free, i), completed);
    }

    /** Arm the first free slot. */
    method ArmNext() returns (slot: int)
      requires Valid() && free != []
      modifies this, slots
      ensures Valid() && slot == old(free[0]) && View() == Armed(old(View()), 0)
    {
      slot := firstFree;
      ArmSlot(slot, Slot(-1, -1, Waiting, false), 0);
      Relist(Without(free, 0), completed);
    }

    /** A slot completes, with or without an exception. */
    method CompleteSlot(slot: nat, failed: bool)
      requires Valid() && slot < slots.Length && slots[slot].status == Status.Waiting
      modifies this, slots
      ensures Valid() && View() == MultiCompletion.Completed(old(View()), slot, failed)
    {
      CompleteWaits(View(), slot, failed);
      Append(slot, failed);
      Settle();
    }

    method List(slot: nat, failed: bool)
      requires Linked(slots[..], free, completed, Ends()) && slot < slots.Length
      requires slots[slot].status == Status.Waiting && slotsWaiting > 0
      modifies this`slotsCompleted, this`slotsWaiting, this`slotsException
      modifies this`lastCompleted, this`firstCompleted, slots
      ensures Linked(slots[..], free, completed + [slot], Ends())
      ensures FailedOf(slots[..], completed + [slot])
           == old(FailedOf(slots[..], completed)) + if failed then {slot as int} else {}
    {
      ghost var h := Ends();
      var last := lastCompleted;
      slotsCompleted, slotsWaiting := slotsCompleted + 1, slotsWaiting - 1;
      if failed {
        slotsException := slotsException + 1;
      }
      lastCompleted := slot;
      if firstCompleted < 0 {
        firstCompleted := slot;
      }
      CompleteIn(slots, free, completed, h, slot, last, failed);
    }

    method Append(slot: nat, failed: bool)
      requires Linked(slots[..], free, completed, Ends()) && slot < slots.Length
      requires slots[slot].status == Status.Waiting
      modifies this, slots
      ensures Linked(slots[..], free, completed, Ends())
      ensures View() == Added(old(View()), slot, failed)
    {
      CompleteRoom(slots[..], free, completed, Ends(), slot);
      List(slot, failed);
      Relist(free, completed + [slot]);
    }

    /** Take the callback of the pending wait when it is over. */
    method Settle()
      requires Linked(slots[..], free, completed, Ends()) && (cb.Some? <==> waitingFor > 0)
      modifies this`waitingFor, this`cb, this`due
      ensures Linked(slots[..], free, completed, Ends())
      ensures View() == Settled(old(View()))
    {
      if waitingFor == 0 || (waitingFor > slotsCompleted && slotsException == 0) {
        return;
      }
      waitingFor := 0;
      if cb.Some? {
        due, cb := due + [cb.value], None;
      }
    }

    /** The heads and counters after slot `pos`, whose contents were `s`, went free. */
    method Retire(pos: nat, s: Slot)
      requires slotsCompleted > 0 && (s.failed ==> slotsException > 0)
      modifies this`firstCompleted, this`lastCompleted, this`firstFree, this`slotsCompleted, this`slotsException
      ensures Ends() == old(RetiredHeads(Ends(), pos, s))
    {
      if firstCompleted == pos {
        firstCompleted := s.next;
      }
      if lastCompleted == pos {
        lastCompleted := s.prev;
      }
      firstFree := pos;
      slotsCompleted := slotsCompleted - 1;
      if slotsException != 0 && s.failed {
        slotsException := slotsException - 1;
      }
    }

    /** Take slot `pos` out of the completed list and put it in front of the free list. */
    method Unlist(pos: nat, ghost i: int) returns (failed: bool)
      requires Linked(slots[..], free, completed, Ends()) && 0 <= i < |completed| && completed[i] == pos
      requires slotsCompleted > 0 && (slots[pos].failed ==> slotsException > 0)
      modifies this`firstCompleted, this`lastCompleted, this`firstFree, this`slotsCompleted, this`slotsException, slots
      ensures Linked(slots[..], [completed[i]] + free, Without(completed, i), Ends())
      ensures FailedOf(slots[..], Without(completed, i)) == old(FailedOf(slots[..], completed)) - {completed[i]}
      ensures failed == old(slots[pos].failed)
    {
      var s, first := slots[pos], firstFree;
      failed := s.failed;
      ghost var h := Ends();
      Retire(pos, s);
      FreeIn(slots, free, completed, h, i, pos, first);
    }

    method Extract(pos: nat, ghost i: int) returns (failed: bool)
      requires Linked(slots[..], free, completed, Ends()) && 0 <= i < |completed| && completed[i] == pos < slots.Length
      requires slotsCompleted > 0 && (slots[pos].failed ==> slotsException > 0)
      modifies this, slots
      ensures Linked(slots[..], free, completed, Ends())
      ensures View() == Tested(old(View()), i)
      ensures failed == old(slots[pos].failed)
    {
      ghost var v := View();
      failed := Unlist(pos, i);
      ghost var free', completed' := [completed[i]] + free, Without(completed, i);
      ghost var left := FailedOf(slots[..], completed');
      assert left == v.failed - {completed[i]};
      Relist(free', completed');
      assert View().failed == left;
    }

    /** Hand out a completed slot; its exception goes to the caller.  `held` is the
        value of the assertion the code makes afterwards. */
    method RemoveCompleted(pos: nat, ghost i: int) returns (failed: bool, held: bool)
      requires Valid() && 0 <= i < |completed| && completed[i] == pos
      modifies this, slots
      ensures View() == Tested(old(View()), i) && Valid()
      ensures failed <==> pos in old(View().failed)
      ensures held <==> old(View().failed) != {pos}
    {
      TestWaits(View(), i);
      OnlyFailure(View().failed, pos);
      TestCounts(slots[..], free, completed, Ends(), i);
      failed := Extract(pos, i);
      held := slotsException != 0 || !failed;
    }

    /** Hand out the slot that completed first; the exception it failed with is rethrown. */
    method TestAny() returns (slot: int, failed: bool)
      requires Valid()
      modifies this, slots
      ensures Valid()
      ensures old(completed) == [] ==> slot == -1 && View() == old(View())
      ensures old(completed) != [] ==> slot == old(completed[0]) && View() == Tested(old(View()), 0)
      ensures failed <==> slot in old(View().failed)
    {
      if slotsCompleted == 0 {
        return -1, false;
      }
      slot := firstCompleted;
      var held;
      failed, held := RemoveCompleted(slot, 0);
    }

    /** The completed slot that failed first. */
    method FirstException() returns (slot: int, ghost i: int)
      requires Valid() && slotsException > 0
      ensures 0 <= i < |completed| && slot == completed[i] && slot in View().failed
      ensures forall j :: 0 <= j < i ==> completed[j] !in View().failed
    {
      slot, i := FindFailed(slots, firstCompleted, completed);
      NoneFailed(slots[..], completed, i);
    }

    /** Hand out up to `max` slots in the order of their completion; a `max` of zero
        stands for all of them.  With an exception pending the code locates its slot
        and then takes, for the second time, the lock it already holds. */
    method TestSome(max: nat) returns (r: Answer)
      requires Valid()
      modifies this, slots
      ensures Valid() && (r.Slots? <==> old(View().failed) == {})
      ensures r.Stuck? ==> View() == old(View()) && r.slot in View().failed
      ensures var n := if max == 0 then old(|completed|) else Least(max, old(|completed|));
        r.Slots? ==> r.slots == old(completed)[..n] && View() == TestedTimes(old(View()), n)
    {
      if slotsException != 0 {
        var slot, i := FirstException();
        return Stuck(slot);
      }
      var got := HandOut(if max == 0 then slotsCompleted else max);
      return Slots(got);
    }

    method HandOut(limit: nat) returns (got: seq<int>)
      requires Valid() && View().failed == {}
      modifies this, slots
      ensures Valid() && Handing(old(View()), View(), got, |got|) && |got| == Least(limit, old(|completed|))
    {
      ghost var v := View();
      ghost var n := Least(limit, |completed|);
      got := [];
      while |got| < limit && firstCompleted != -1
        invariant Valid() && Handing(v, View(), got, n)
        decreases limit - |got|
      {
        var slot := firstCompleted;
        HandingStep(v, View(), got, n);
        got := got + [slot];
        var failed, held := RemoveCompleted(slot, 0);
      }
    }

    /** Withdraw the pending wait, if there is one. */
    method Cancel() returns (done: bool)
      requires Valid()
      modifies this`waitingFor, this`cb, this`fired
      ensures Valid() && View() == Withdrawn(old(View())) && (done <==> old(cb).Some?)
    {
      WithdrawnWaits(View());
      if waitingFor == 0 {
        return false;
      }
      waitingFor := 0;
      fired := fired + [Fired(cb.value, Cancelled)];
      cb := None;
      return true;
    }

    /** Call `id` back once `count` slots completed or one failed: at once, or later. */
    method Wait(id: nat, count: nat)
      requires Valid() && waitingFor == 0 && !Gone(View(), id)
      modifies this`waitingFor, this`cb, this`due
      ensures Valid() && |free| <= slots.Length && View() == Awaited(slots.Length, old(View()), id, count)
    {
      AwaitedWaits(slots.Length, View(), id, count);
      var n := if count == 0 then slotsWaiting + slotsCompleted else count;
      if n <= slotsCompleted || slotsException != 0 {
        due := due + [id];
      } else {
        waitingFor, cb := n, Some(id);
      }
    }

    /** The end of `CompleteSlot` and of `Wait`, without the lock: make a callback that
        was taken, with the exception count as it is now. */
    method CallBack(i: nat)
      requires Valid() && i < |due|
      modifies this`due, this`fired
      ensures Valid() && View() == Called(old(View()), i)
    {
      CalledWaits(View(), i);
      var id := due[i];
      due := Without(due, i);
      fired := fired + [Fired(id, if slotsException != 0 then SlotException else Ok)];
    }

    /** What the links and flags say is what the machine's invariant asks for. */
    lemma ViewValid()
      requires Valid()
      ensures MultiCompletion.Valid(slots.Length, View())
      ensures forall k :: 0 <= k < slots.Length ==>
        (slots[k].status == Waiting <==> Enabled(slots.Length, View(), Complete(k, false)))
    {
      LaidApart(slots[..], free, completed);
      assert forall k :: 0 <= k < slots.Length ==> slots[..][k] == slots[k];
    }

    /** The number of slots from `pos` on, following the links one way or the other. */
    method CountFrom(pos: int, forwards: bool, ghost l: seq<int>) returns (count: nat)
      requires Chain(slots[..], l) && pos == At(l, if forwards then 0 else |l| - 1)
      ensures count == |l|
    {
      count := 0;
      var p := pos;
      while p >= 0
        invariant count <= |l| && p == At(l, if forwards then count else |l| - 1 - count)
        decreases |l| - count
      {
        NextOf(slots[..], l, if forwards then count else |l| - 1 - count);
        count := count + 1;
        p := if forwards then slots[p].next else slots[p].prev;
      }
    }

    /** The code's own check of the links and counters never fails. */
    method CheckInvariants() returns (ok: bool)
      requires Valid()
      ensures ok
    {
      ok := true;
      if slotsCompleted == 0 {
        ok := lastCompleted == -1 && firstCompleted == -1;
      }
      if slotsCompleted == 1 {
        NextOf(slots[..], completed, 0);
        ok := ok && lastCompleted != -1 && lastCompleted == firstCompleted
              && slots[lastCompleted].prev == -1 && slots[lastCompleted].next == -1;
      }
      var avail := slots.Length - slotsCompleted - slotsWaiting;
      var count := CountFrom(firstCompleted, true, completed);
      ok := ok && slotsCompleted == count;
      count := CountFrom(lastCompleted, false, completed);
      ok := ok && slotsCompleted == count;
      count := CountFrom(firstFree, true, free);
      ok := ok && avail == count;
    }
  }
}
