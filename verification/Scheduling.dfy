/**
 The thread scheduler as a state machine: a table of eight threads, 64 run queues and
 the current slot. The operations here are the ones the kernel performs between two
 interrupts; class `Scheduler` in SchedulerState.dfy carries them out in place.
 */
module Scheduling {
  import opened Bytes

  const MAX_THREADS: nat := 8
  const MAX_PRIORITIES: nat := 64

  datatype Role = NoRole | Bootstrap | Idle | User
  datatype ThreadState = Unused | Runnable | Running | Blocked | Exited
  datatype Thread = Thread(id: nat, process: nat, group: nat, role: Role, state: ThreadState, basePriority: nat)

  datatype State = State(
    initialized: bool,
    nextId: nat,
    count: nat,
    threads: seq<Thread>,
    queues: seq<seq<nat>>,
    current: Option<nat>,
    bootstrapId: nat,
    idleId: nat)

  const EMPTY_THREAD := Thread(0, 0, 0, NoRole, Unused, 0)

  predicate QueueShape(q: seq<nat>) {
    |q| <= MAX_THREADS && forall i | 0 <= i < |q| :: q[i] < MAX_THREADS
  }

  predicate Shape(s: State) {
    && |s.threads| == MAX_THREADS
    && |s.queues| == MAX_PRIORITIES
    && s.count <= MAX_THREADS
    && (s.current.Some? ==> s.current.value < MAX_THREADS)
    && forall p | 0 <= p < MAX_PRIORITIES :: QueueShape(s.queues[p])
  }

  function Priority(t: Thread): (p: nat)
    ensures p < MAX_PRIORITIES
  {
    if t.basePriority > 63 then 63 else t.basePriority
  }

  // ------------------------------------------------------------ building blocks

  function WithState(s: State, slot: nat, state: ThreadState): (after: State)
    requires Shape(s) && slot < MAX_THREADS
    ensures Shape(after)
  {
    s.(threads := s.threads[slot := s.threads[slot].(state := state)])
  }

  predicate QueueFull(s: State, slot: nat)
    requires Shape(s) && slot < MAX_THREADS
  {
    |s.queues[Priority(s.threads[slot])]| >= MAX_THREADS
  }

  /** A full queue refuses the slot and leaves the state alone. */
  function Enqueued(s: State, slot: nat): (after: State)
    requires Shape(s) && slot < MAX_THREADS
    ensures Shape(after)
  {
    var p := Priority(s.threads[slot]);
    if QueueFull(s, slot) then s else s.(queues := s.queues[p := s.queues[p] + [slot]])
  }

  function Without(q: seq<nat>, slot: nat): seq<nat> {
    if q == [] then [] else if q[0] == slot then q[1..] else [q[0]] + Without(q[1..], slot)
  }

  lemma {:induction false} WithoutLength(q: seq<nat>, slot: nat)
    ensures |q| - 1 <= |Without(q, slot)| <= |q|
  {
    if q != [] {
      WithoutLength(q[1..], slot);
    }
  }

  lemma {:induction false} WithoutKeepsShape(q: seq<nat>, slot: nat)
    requires QueueShape(q)
    ensures QueueShape(Without(q, slot))
  {
    WithoutLength(q, slot);
    if q != [] && q[0] != slot {
      WithoutKeepsShape(q[1..], slot);
    }
  }

  /** Takes the first mention of the slot out of the queue of its priority. */
  function Unqueued(s: State, slot: nat): (after: State)
    requires Shape(s) && slot < MAX_THREADS
    ensures Shape(after)
  {
    var p := Priority(s.threads[slot]);
    WithoutKeepsShape(s.queues[p], slot);
    s.(queues := s.queues[p := Without(s.queues[p], slot)])
  }

  /** The lowest-numbered priority from p on with a waiting thread. */
  function BestFrom(queues: seq<seq<nat>>, p: nat): (best: Option<nat>)
    ensures best.Some? ==> p <= best.value < |queues| && |queues[best.value]| > 0
    decreases |queues| - p
  {
    if p >= |queues| then None else if |queues[p]| > 0 then Some(p) else BestFrom(queues, p + 1)
  }

  function Best(s: State): (best: Option<nat>)
    ensures best.Some? ==> best.value < |s.queues| && |s.queues[best.value]| > 0
  {
    BestFrom(s.queues, 0)
  }

  lemma {:induction false} BestIsLeast(queues: seq<seq<nat>>, p: nat)
    ensures forall r | p <= r < |queues| && |queues[r]| > 0 ::
              BestFrom(queues, p).Some? && BestFrom(queues, p).value <= r
    decreases |queues| - p
  {
    if p < |queues| && |queues[p]| == 0 {
      BestIsLeast(queues, p + 1);
    }
  }

  /** The head of queue p leaves it and becomes the running thread. */
  function Dispatched(s: State, p: nat): (after: State)
    requires Shape(s) && p < MAX_PRIORITIES && |s.queues[p]| > 0
    ensures Shape(after)
  {
    var slot := s.queues[p][0];
    WithState(s.(queues := s.queues[p := s.queues[p][1..]], current := Some(slot)), slot, Running)
  }

  /** A running thread goes to the back of its queue; any other is left as it is. */
  function Requeued(s: State, slot: nat): (after: State)
    requires Shape(s) && slot < MAX_THREADS
    ensures Shape(after)
  {
    if s.threads[slot].state == Running then Enqueued(WithState(s, slot, Runnable), slot) else s
  }

  function CurrentRequeued(s: State): (after: State)
    requires Shape(s)
    ensures Shape(after)
  {
    if s.current.Some? then Requeued(s, s.current.value) else s
  }

  // ------------------------------------------------------------- the operations

  function Ticked(s: State): (after: State)
    requires Shape(s)
    ensures Shape(after)
  {
    if !s.initialized || (Best(s).None? && s.current.None?) then s else
    var requeued := CurrentRequeued(s);
    match Best(requeued)
    case None => requeued.(current := None)
    case Some(p) => Dispatched(requeued, p)
  }

  /** The slot a switch would go to: the head of the best queue, unless it is the current one. */
  function NextSwitch(s: State): (next: Option<nat>)
    requires Shape(s)
    ensures next.Some? ==> next.value < MAX_THREADS
  {
    if !s.initialized || Best(s).None? then None else
    var head := s.queues[Best(s).value][0];
    if s.current == Some(head) then None else Some(head)
  }

  function Switched(s: State): (after: State)
    requires Shape(s)
    ensures Shape(after)
  {
    if s.current.None? || NextSwitch(s).None? then s else
    var p := Priority(s.threads[NextSwitch(s).value]);
    var requeued := CurrentRequeued(s);
    if |requeued.queues[p]| == 0 then requeued else Dispatched(requeued, p)
  }

  predicate MayYield(s: State)
    requires Shape(s)
  {
    s.initialized && s.current.Some? && s.threads[s.current.value].role == User && s.threads[s.current.value].state != Exited
  }

  function Yielded(s: State): (after: State)
    requires Shape(s)
    ensures Shape(after)
  {
    if !MayYield(s) then s else
    var requeued := CurrentRequeued(s);
    match Best(requeued)
    case None => requeued
    case Some(p) => Dispatched(requeued, p)
  }

  function CurrentBlocked(s: State): (after: State)
    requires Shape(s)
    ensures Shape(after)
  {
    if s.current.Some? && s.threads[s.current.value].state == Running
    then WithState(s, s.current.value, Blocked) else s
  }

  predicate WaitsAs(t: Thread, process: nat, id: nat) {
    t.process == process && t.id == id && t.state == Blocked
  }

  function FirstWaiting(threads: seq<Thread>, process: nat, id: nat, from: nat): (slot: Option<nat>)
    ensures slot.Some? ==> from <= slot.value < |threads| && WaitsAs(threads[slot.value], process, id)
    ensures slot.None? ==> forall i | from <= i < |threads| :: !WaitsAs(threads[i], process, id)
    decreases |threads| - from
  {
    if from >= |threads| then None
    else if WaitsAs(threads[from], process, id) then Some(from)
    else FirstWaiting(threads, process, id, from + 1)
  }

  function Unblocked(s: State, process: nat, id: nat): (after: State)
    requires Shape(s)
    ensures Shape(after)
  {
    match FirstWaiting(s.threads, process, id, 0)
    case None => s
    case Some(slot) => Enqueued(WithState(s, slot, Runnable), slot)
  }

  /** A new thread takes the slot numbered by the thread count. */
  function Created(s: State, process: nat, group: nat, role: Role): (after: State)
    requires Shape(s) && s.count < MAX_THREADS
    ensures Shape(after)
  {
    s.(threads := s.threads[s.count := Thread(s.nextId, process, group, role, Runnable, 0)],
       nextId := s.nextId + 1, count := s.count + 1)
  }

  function UserCreated(s: State): (after: State)
    requires Shape(s)
    ensures Shape(after)
  {
    if !s.initialized || s.count >= MAX_THREADS then s
    else Enqueued(Created(s, s.nextId, s.nextId, User), s.count)
  }

  function Activated(s: State, target: nat): (after: State)
    requires Shape(s)
    ensures Shape(after)
  {
    if !s.initialized || target >= s.count || s.current == Some(target) then s else
    var requeued := CurrentRequeued(s);
    WithState(Unqueued(requeued, target).(current := Some(target)), target, Running)
  }

  function SlotOfId(s: State, id: nat, from: nat): (slot: Option<nat>)
    requires Shape(s)
    ensures slot.Some? ==> from <= slot.value < s.count && s.threads[slot.value].id == id
    ensures slot.None? ==> forall i | from <= i < s.count :: s.threads[i].id != id
    decreases MAX_THREADS - from
  {
    if from >= s.count then None else if s.threads[from].id == id then Some(from) else SlotOfId(s, id, from + 1)
  }

  function FirstLiveUser(s: State, from: nat): (slot: Option<nat>)
    requires Shape(s)
    ensures slot.Some? ==> from <= slot.value < s.count
    ensures slot.Some? ==> s.threads[slot.value].role == User && s.threads[slot.value].state != Exited
    ensures slot.None? ==> forall i | from <= i < s.count :: s.threads[i].role == User ==> s.threads[i].state == Exited
    decreases MAX_THREADS - from
  {
    if from >= s.count then None
    else if s.threads[from].role == User && s.threads[from].state != Exited then Some(from)
    else FirstLiveUser(s, from + 1)
  }

  /** Leaving the bootstrap thread for good: to the first live user thread, or else to idle. */
  function BootstrapLeft(s: State): (after: State)
    requires Shape(s)
    ensures Shape(after)
  {
    match SlotOfId(s, s.bootstrapId, 0)
    case None => s
    case Some(bootstrap) =>
      var left := WithState(s, bootstrap, Exited);
      var target := if FirstLiveUser(left, 0).Some? then FirstLiveUser(left, 0) else SlotOfId(left, left.idleId, 0);
      if target.None? then left else Activated(left, target.value)
  }

  function RequeuedBelow(s: State, n: nat): (after: State)
    requires Shape(s) && n <= MAX_THREADS
    ensures Shape(after) && after.count == s.count
  {
    if n == 0 then s else Requeued(RequeuedBelow(s, n - 1), n - 1)
  }

  /** After the boot ticks: every running thread is queued again and bootstrap taken back as current. */
  function BootstrapRestored(s: State): (after: State)
    requires Shape(s)
    ensures Shape(after)
  {
    match SlotOfId(s, s.bootstrapId, 0)
    case None => s
    case Some(slot) =>
      WithState(Unqueued(RequeuedBelow(s, s.count), slot).(current := Some(slot)), slot, Running)
  }

  predicate Leaves(t: Thread, group: nat) {
    t.group == group && t.state != Exited
  }

  function SlotExited(s: State, slot: nat, group: nat): (after: State)
    requires Shape(s) && slot < MAX_THREADS
    ensures Shape(after)
  {
    if Leaves(s.threads[slot], group) then Unqueued(WithState(s, slot, Exited), slot) else s
  }

  function GroupExitedBelow(s: State, group: nat, n: nat): (after: State)
    requires Shape(s) && n <= MAX_THREADS
    ensures Shape(after) && after.count == s.count && after.current == s.current && after.initialized == s.initialized
  {
    if n == 0 then s else SlotExited(GroupExitedBelow(s, group, n - 1), n - 1, group)
  }

  predicate MayExit(s: State)
    requires Shape(s)
  {
    && s.initialized && s.current.Some?
    && s.threads[s.current.value].state != Exited && s.threads[s.current.value].group != 0
  }

  function GroupExited(s: State): (after: State)
    requires Shape(s)
    ensures Shape(after)
  {
    if !MayExit(s) then s else
    var group := s.threads[s.current.value].group;
    var left := GroupExitedBelow(s, group, s.count).(current := None);
    match Best(left)
    case None => left
    case Some(p) => Dispatched(left, p)
  }

  datatype Op =
    | Tick | Switch | Yield | Block | Exit | Create | Restore | LeaveBootstrap
    | Unblock(process: nat, id: nat)
    | Activate(slot: nat)

  function Step(s: State, op: Op): (after: State)
    requires Shape(s)
    ensures Shape(after)
  {
    match op
    case Tick => Ticked(s)
    case Switch => Switched(s)
    case Yield => Yielded(s)
    case Block => CurrentBlocked(s)
    case Exit => GroupExited(s)
    case Create => UserCreated(s)
    case Restore => BootstrapRestored(s)
    case LeaveBootstrap => BootstrapLeft(s)
    case Unblock(process, id) => Unblocked(s, process, id)
    case Activate(slot) => Activated(s, slot)
  }

  // -------------------------------------------------------------- the invariant

  predicate WaitsAt(threads: seq<Thread>, slot: nat, p: nat) {
    slot < |threads| && threads[slot].state == Runnable && Priority(threads[slot]) == p
  }

  /** The queue holds exactly the runnable threads of its priority, each once. */
  ghost predicate QueueExact(threads: seq<Thread>, q: seq<nat>, p: nat) {
    NoRepeat(q) && forall slot: nat :: slot in q <==> WaitsAt(threads, slot, p)
  }

  ghost predicate QueuesExact(threads: seq<Thread>, queues: seq<seq<nat>>) {
    forall p | 0 <= p < |queues| :: QueueExact(threads, queues[p], p)
  }

  predicate OnlyCurrentRuns(threads: seq<Thread>, current: Option<nat>) {
    forall slot | 0 <= slot < |threads| && threads[slot].state == Running :: current == Some(slot)
  }

  predicate NoneRuns(threads: seq<Thread>) {
    forall slot | 0 <= slot < |threads| :: threads[slot].state != Running
  }

  /** Slots are handed out in order; the first two are bootstrap and idle. */
  predicate Roster(s: State)
    requires Shape(s)
  {
    && s.initialized && 2 <= s.count && s.nextId == s.count + 1
    && (s.current.Some? ==> s.current.value < s.count)
    && (forall slot | 0 <= slot < MAX_THREADS :: s.threads[slot].state == Unused <==> s.count <= slot)
    && (forall slot | 0 <= slot < s.count :: s.threads[slot].id == slot + 1)
    && (forall slot | 2 <= slot < s.count :: s.threads[slot].role == User && s.threads[slot].group == slot + 1)
    && s.threads[0].role == Bootstrap && s.threads[0].group == 1 && s.bootstrapId == 1
    && s.threads[1].role == Idle && s.threads[1].group == 0 && s.idleId == 2
  }

  ghost predicate Inv(s: State) {
    && Shape(s) && Roster(s)
    && QueuesExact(s.threads, s.queues)
    && OnlyCurrentRuns(s.threads, s.current)
  }

  // ------------------------------------------------- building blocks keep the queues

  lemma {:induction false} WithoutIsExact(q: seq<nat>, slot: nat)
    requires NoRepeat(q)
    ensures NoRepeat(Without(q, slot))
    ensures forall x: nat :: x in Without(q, slot) <==> x in q && x != slot
  {
    if q != [] {
      WithoutIsExact(q[1..], slot);
      assert q == [q[0]] + q[1..];
      assert q[0] !in q[1..];
    }
  }

  /** Which waiting threads there are only depends on what changed. */
  lemma {:induction false} OtherSlotsWait(threads: seq<Thread>, after: seq<Thread>, slot: nat, x: nat, p: nat)
    requires |after| == |threads| && x != slot
    requires forall i | 0 <= i < |threads| && i != slot :: after[i] == threads[i]
    ensures WaitsAt(after, x, p) <==> WaitsAt(threads, x, p)
  {
  }

  lemma {:induction false} AppendedIsExact(threads: seq<Thread>, after: seq<Thread>, queues: seq<seq<nat>>, slot: nat)
    requires QueuesExact(threads, queues) && slot < |threads| && |queues| == MAX_PRIORITIES
    requires threads[slot].state != Runnable
    requires |after| == |threads| && after == threads[slot := after[slot]] && after[slot].state == Runnable
    ensures var p := Priority(after[slot]); QueuesExact(after, queues[p := queues[p] + [slot]])
  {
    hide Priority;
    var p := Priority(after[slot]);
    var updated := queues[p := queues[p] + [slot]];
    forall r | 0 <= r < |updated|
      ensures QueueExact(after, updated[r], r)
    {
      assert QueueExact(threads, queues[r], r);
      assert !WaitsAt(threads, slot, r);
      forall x: nat
        ensures x in updated[r] <==> WaitsAt(after, x, r)
      {
        if x != slot {
          OtherSlotsWait(threads, after, slot, x, r);
        }
      }
    }
  }

  lemma {:induction false} RemovedIsExact(threads: seq<Thread>, after: seq<Thread>, queues: seq<seq<nat>>, slot: nat)
    requires QueuesExact(threads, queues) && slot < |threads| && |queues| == MAX_PRIORITIES
    requires |after| == |threads| && after == threads[slot := after[slot]] && after[slot].state != Runnable
    requires Priority(after[slot]) == Priority(threads[slot])
    ensures var p := Priority(after[slot]); QueuesExact(after, queues[p := Without(queues[p], slot)])
  {
    hide Priority, Without;
    var p := Priority(after[slot]);
    var updated := queues[p := Without(queues[p], slot)];
    forall r | 0 <= r < |updated|
      ensures QueueExact(after, updated[r], r)
    {
      assert QueueExact(threads, queues[r], r);
      WithoutIsExact(queues[p], slot);
      forall x: nat
        ensures x in updated[r] <==> WaitsAt(after, x, r)
      {
        if x != slot {
          OtherSlotsWait(threads, after, slot, x, r);
        }
      }
    }
  }

  /** Changing a thread that was not waiting into another that is not leaves the queues exact. */
  lemma {:induction false} UnwaitingIsExact(threads: seq<Thread>, after: seq<Thread>, queues: seq<seq<nat>>, slot: nat)
    requires QueuesExact(threads, queues) && slot < |threads|
    requires threads[slot].state != Runnable
    requires |after| == |threads| && after == threads[slot := after[slot]] && after[slot].state != Runnable
    ensures QueuesExact(after, queues)
  {
    hide Priority;
    forall r | 0 <= r < |queues|
      ensures QueueExact(after, queues[r], r)
    {
      assert QueueExact(threads, queues[r], r);
      forall x: nat
        ensures x in queues[r] <==> WaitsAt(after, x, r)
      {
        if x != slot {
          OtherSlotsWait(threads, after, slot, x, r);
        }
      }
    }
  }

  lemma {:induction false} HeadIsFirstWithout(q: seq<nat>)
    requires q != []
    ensures Without(q, q[0]) == q[1..]
  {
  }

  /** Distinct numbers below n are at most n. */
  lemma {:induction false} DistinctNumbersFit(q: seq<nat>, n: nat)
    requires NoRepeat(q) && forall x: nat | x in q :: x < n
    ensures |q| <= n
    decreases n
  {
    if q != [] {
      assert q[0] in q;
      WithoutIsExact(q, n - 1);
      WithoutLength(q, n - 1);
      DistinctNumbersFit(Without(q, n - 1), n - 1);
    }
  }

  /** A thread that is not waiting always finds room in the queue of its priority. */
  lemma {:induction false} QueueHasRoom(s: State, slot: nat)
    requires Shape(s) && QueuesExact(s.threads, s.queues) && slot < MAX_THREADS
    requires s.threads[slot].state != Runnable
    ensures |s.queues[Priority(s.threads[slot])]| < MAX_THREADS
  {
    hide Priority;
    var p := Priority(s.threads[slot]);
    assert QueueExact(s.threads, s.queues[p], p);
    assert QueueShape(s.queues[p]);
    assert !WaitsAt(s.threads, slot, p);
    DistinctNumbersFit(s.queues[p] + [slot], MAX_THREADS);
  }

  // ------------------------------------------------ every operation keeps the invariant

  /** Only thread states, queues and the current slot differ, and no slot is taken or given back. */
  predicate SameRoster(s: State, after: State)
    requires Shape(s) && Shape(after)
  {
    && after.initialized == s.initialized && after.nextId == s.nextId && after.count == s.count
    && after.bootstrapId == s.bootstrapId && after.idleId == s.idleId
    && forall slot | 0 <= slot < MAX_THREADS ::
         && after.threads[slot] == s.threads[slot].(state := after.threads[slot].state)
         && (after.threads[slot].state == Unused <==> s.threads[slot].state == Unused)
  }

  lemma {:induction false} RosterFollows(s: State, after: State)
    requires Shape(s) && Shape(after) && Roster(s) && SameRoster(s, after)
    requires after.current.Some? ==> after.current.value < s.count
    ensures Roster(after)
  {
  }

  lemma {:induction false} RequeuedKeepsInv(s: State, slot: nat)
    requires Inv(s) && slot < s.count
    ensures Inv(Requeued(s, slot)) && SameRoster(s, Requeued(s, slot))
    ensures Requeued(s, slot).threads[slot].state != Running
    ensures Requeued(s, slot).current == s.current
    ensures forall i | 0 <= i < MAX_THREADS && i != slot :: Requeued(s, slot).threads[i] == s.threads[i]
    ensures Requeued(s, slot).threads[slot].state ==
              if s.threads[slot].state == Running then Runnable else s.threads[slot].state
  {
    hide Roster, QueuesExact, Priority;
    var after := Requeued(s, slot);
    if s.threads[slot].state == Running {
      AppendedIsExact(s.threads, after.threads, s.queues, slot);
      QueueHasRoom(s, slot);
      assert Priority(after.threads[slot]) == Priority(s.threads[slot]) by { SamePriority(s.threads[slot], Runnable); }
    }
    assert SameRoster(s, after) by { NotUnused(s, slot); }
    RosterFollows(s, after) by { NotUnused(s, slot); }
  }

  lemma {:induction false} SamePriority(t: Thread, state: ThreadState)
    ensures Priority(t.(state := state)) == Priority(t)
  {
  }

  lemma {:induction false} NotUnused(s: State, slot: nat)
    requires Shape(s) && Roster(s) && slot < s.count
    ensures s.threads[slot].state != Unused
    ensures s.current.Some? ==> s.current.value < s.count
  {
  }

  lemma {:induction false} CurrentRequeuedKeepsInv(s: State)
    requires Inv(s)
    ensures Inv(CurrentRequeued(s)) && SameRoster(s, CurrentRequeued(s))
    ensures NoneRuns(CurrentRequeued(s).threads)
    ensures CurrentRequeued(s).current == s.current
    ensures forall i | 0 <= i < MAX_THREADS :: CurrentRequeued(s).threads[i].state ==
              if s.threads[i].state == Running then Runnable else s.threads[i].state
  {
    hide Requeued, QueuesExact;
    if s.current.Some? {
      RequeuedKeepsInv(s, s.current.value);
    }
  }

  lemma {:induction false} QueuedIsWaiting(s: State, p: nat, i: nat)
    requires Inv(s) && p < MAX_PRIORITIES && i < |s.queues[p]|
    ensures s.queues[p][i] < s.count && WaitsAt(s.threads, s.queues[p][i], p)
  {
    assert QueueExact(s.threads, s.queues[p], p);
    assert s.queues[p][i] in s.queues[p];
  }

  lemma {:induction false} DispatchedKeepsInv(s: State, p: nat)
    requires Inv(s) && NoneRuns(s.threads) && p < MAX_PRIORITIES && |s.queues[p]| > 0
    ensures Inv(Dispatched(s, p)) && SameRoster(s, Dispatched(s, p))
    ensures Dispatched(s, p).current == Some(s.queues[p][0])
    ensures Dispatched(s, p).threads[s.queues[p][0]].state == Running
    ensures forall i | 0 <= i < MAX_THREADS && i != s.queues[p][0] :: Dispatched(s, p).threads[i] == s.threads[i]
  {
    hide Roster, QueuesExact, Priority, Without;
    var after, slot := Dispatched(s, p), s.queues[p][0];
    QueuedIsWaiting(s, p, 0);
    HeadIsFirstWithout(s.queues[p]);
    SamePriority(s.threads[slot], Running);
    RemovedIsExact(s.threads, after.threads, s.queues, slot);
    assert SameRoster(s, after) by { NotUnused(s, slot); }
    RosterFollows(s, after) by { NotUnused(s, slot); }
  }

  lemma {:induction false} IdlingKeepsInv(s: State)
    requires Inv(s) && NoneRuns(s.threads)
    ensures Inv(s.(current := None))
  {
  }

  lemma {:induction false} TickKeepsInv(s: State)
    requires Inv(s)
    ensures Inv(Ticked(s)) && SameRoster(s, Ticked(s))
  {
    hide Inv, CurrentRequeued, Dispatched, Best;
    assert Shape(s) by { InvHasShape(s); }
    CurrentRequeuedKeepsInv(s);
    var requeued := CurrentRequeued(s);
    if Best(requeued).Some? {
      DispatchedKeepsInv(requeued, Best(requeued).value);
    } else {
      IdlingKeepsInv(requeued);
    }
  }

  lemma {:induction false} InvHasShape(s: State)
    requires Inv(s)
    ensures Shape(s) && Roster(s)
  {
  }

  lemma {:induction false} YieldKeepsInv(s: State)
    requires Inv(s)
    ensures Inv(Yielded(s)) && SameRoster(s, Yielded(s))
  {
    hide Inv, CurrentRequeued, Dispatched, Best;
    assert Shape(s) by { InvHasShape(s); }
    CurrentRequeuedKeepsInv(s);
    var requeued := CurrentRequeued(s);
    if Best(requeued).Some? {
      DispatchedKeepsInv(requeued, Best(requeued).value);
    }
  }

  lemma {:induction false} SwitchKeepsInv(s: State)
    requires Inv(s)
    ensures Inv(Switched(s)) && SameRoster(s, Switched(s))
  {
    hide Inv, CurrentRequeued, Dispatched, NextSwitch, Priority;
    assert Shape(s) by { InvHasShape(s); }
    CurrentRequeuedKeepsInv(s);
    if s.current.Some? && NextSwitch(s).Some? {
      var p := Priority(s.threads[NextSwitch(s).value]);
      if |CurrentRequeued(s).queues[p]| > 0 {
        DispatchedKeepsInv(CurrentRequeued(s), p);
      }
    }
  }

  /** The thread that a switch dequeues is the one it looked at before queueing the current thread. */
  lemma {:induction false} SwitchGoesToNext(s: State)
    requires Inv(s) && s.current.Some? && NextSwitch(s).Some?
    ensures Switched(s).current == NextSwitch(s)
    ensures Switched(s).threads[NextSwitch(s).value].state == Running
    ensures NextSwitch(s) != s.current
  {
    var best, next := Best(s).value, NextSwitch(s).value;
    QueuedIsWaiting(s, best, 0);
    assert Priority(s.threads[next]) == best;
    RequeueKeepsHead(s, best);
    CurrentRequeuedKeepsInv(s);
    DispatchedKeepsInv(CurrentRequeued(s), best);
  }

  lemma {:induction false} RequeueKeepsHead(s: State, p: nat)
    requires Shape(s) && p < MAX_PRIORITIES
    ensures s.queues[p] <= CurrentRequeued(s).queues[p]
  {
  }

  lemma {:induction false} BlockKeepsInv(s: State)
    requires Inv(s)
    ensures Inv(CurrentBlocked(s)) && SameRoster(s, CurrentBlocked(s))
  {
    hide Roster, QueuesExact, Priority;
    var after := CurrentBlocked(s);
    if s.current.Some? && s.threads[s.current.value].state == Running {
      UnwaitingIsExact(s.threads, after.threads, s.queues, s.current.value);
    }
    RosterFollows(s, after) by { CurrentIsOnRoster(s); }
  }

  lemma {:induction false} CurrentIsOnRoster(s: State)
    requires Shape(s) && Roster(s)
    ensures s.current.Some? ==> s.current.value < s.count && s.threads[s.current.value].state != Unused
  {
  }

  lemma {:induction false} UnblockKeepsInv(s: State, process: nat, id: nat)
    requires Inv(s)
    ensures Inv(Unblocked(s, process, id)) && SameRoster(s, Unblocked(s, process, id))
  {
    hide Roster, QueuesExact, Priority;
    var after := Unblocked(s, process, id);
    if FirstWaiting(s.threads, process, id, 0).Some? {
      var slot := FirstWaiting(s.threads, process, id, 0).value;
      AppendedIsExact(s.threads, after.threads, s.queues, slot);
      QueueHasRoom(s, slot);
      SamePriority(s.threads[slot], Runnable);
    }
    RosterFollows(s, after) by { CurrentIsOnRoster(s); }
  }

  lemma {:induction false} CreateKeepsInv(s: State)
    requires Inv(s)
    ensures Inv(UserCreated(s))
  {
    hide QueuesExact;
    if s.count < MAX_THREADS {
      var created := Created(s, s.nextId, s.nextId, User);
      var after := UserCreated(s);
      AppendedIsExact(s.threads, created.threads, s.queues, s.count);
      QueueZeroHasRoom(s, s.count);
      assert after.threads == created.threads;
    }
  }

  /** Room for a new thread, whose priority is 0 whatever the unused slot says. */
  lemma {:induction false} QueueZeroHasRoom(s: State, slot: nat)
    requires Inv(s) && slot < MAX_THREADS && s.threads[slot].state != Runnable
    ensures |s.queues[0]| < MAX_THREADS
  {
    assert QueueExact(s.threads, s.queues[0], 0);
    assert QueueShape(s.queues[0]);
    assert !WaitsAt(s.threads, slot, 0);
    DistinctNumbersFit(s.queues[0] + [slot], MAX_THREADS);
  }

  /** Taking a slot out of its queue, if it waits there, and making it run. */
  lemma {:induction false} TakenKeepsInv(s: State, slot: nat)
    requires Inv(s) && NoneRuns(s.threads) && slot < s.count
    ensures var after := WithState(Unqueued(s, slot).(current := Some(slot)), slot, Running);
            Inv(after) && SameRoster(s, after)
  {
    hide Roster, QueuesExact, Priority, Without;
    var after := WithState(Unqueued(s, slot).(current := Some(slot)), slot, Running);
    SamePriority(s.threads[slot], Running);
    RemovedIsExact(s.threads, after.threads, s.queues, slot);
    assert SameRoster(s, after) by { NotUnused(s, slot); }
    RosterFollows(s, after) by { NotUnused(s, slot); }
  }

  lemma {:induction false} ActivateKeepsInv(s: State, target: nat)
    requires Inv(s)
    ensures Inv(Activated(s, target)) && SameRoster(s, Activated(s, target))
  {
    hide Inv, CurrentRequeued, WithState, Unqueued;
    assert Shape(s) by { InvHasShape(s); }
    if s.initialized && target < s.count && s.current != Some(target) {
      CurrentRequeuedKeepsInv(s);
      TakenKeepsInv(CurrentRequeued(s), target);
    }
  }

  lemma {:induction false} RequeuedBelowKeepsInv(s: State, n: nat)
    requires Inv(s) && n <= s.count
    ensures Inv(RequeuedBelow(s, n)) && SameRoster(s, RequeuedBelow(s, n))
    ensures RequeuedBelow(s, n).current == s.current
    ensures forall i | 0 <= i < MAX_THREADS :: RequeuedBelow(s, n).threads[i].state ==
              if i < n && s.threads[i].state == Running then Runnable else s.threads[i].state
  {
    hide Inv, Requeued;
    assert Shape(s) by { InvHasShape(s); }
    if n > 0 {
      RequeuedBelowKeepsInv(s, n - 1);
      RequeuedKeepsInv(RequeuedBelow(s, n - 1), n - 1);
    }
  }

  lemma {:induction false} RestoreKeepsInv(s: State)
    requires Inv(s)
    ensures Inv(BootstrapRestored(s)) && SameRoster(s, BootstrapRestored(s))
  {
    hide QueuesExact, RequeuedBelow, WithState, Unqueued, OnlyCurrentRuns;
    RequeuedBelowKeepsInv(s, s.count);
    var requeued := RequeuedBelow(s, s.count);
    assert NoneRuns(requeued.threads);
    assert SlotOfId(s, s.bootstrapId, 0) == Some(0);
    TakenKeepsInv(requeued, 0);
  }

  // ------------------------------------------------------------- leaving bootstrap

  /** Where the kernel goes when it leaves bootstrap: it is on the roster and is not bootstrap. */
  function LeaveTarget(s: State): (target: nat)
    requires Inv(s)
    ensures 0 < target < s.count
    ensures BootstrapLeft(s) == Activated(WithState(s, 0, Exited), target)
    ensures s.threads[target].role == User || target == 1
  {
    var left := WithState(s, 0, Exited);
    assert SlotOfId(s, s.bootstrapId, 0) == Some(0);
    if FirstLiveUser(left, 0).Some? then FirstLiveUser(left, 0).value
    else assert SlotOfId(left, left.idleId, 0) == Some(1); 1
  }

  /** The searches for bootstrap, a live user thread and idle end at bootstrap and the leave target. */
  lemma {:induction false} LeaveTargetIsFound(s: State)
    requires Inv(s)
    ensures s.initialized && SlotOfId(s, s.bootstrapId, 0) == Some(0)
    ensures var left := WithState(s, 0, Exited);
            Some(LeaveTarget(s)) ==
              if FirstLiveUser(left, 0).Some? then FirstLiveUser(left, 0) else SlotOfId(left, left.idleId, 0)
  {
    hide QueuesExact, BootstrapLeft;
    var left := WithState(s, 0, Exited);
    assert SlotOfId(s, s.bootstrapId, 0) == Some(0);
    assert SlotOfId(left, left.idleId, 0) == Some(1);
  }

  lemma {:induction false} ExitingUnqueuedKeepsInv(s: State, slot: nat)
    requires Inv(s) && slot < s.count && s.threads[slot].state != Runnable
    ensures Inv(WithState(s, slot, Exited)) && SameRoster(s, WithState(s, slot, Exited))
  {
    hide Roster, QueuesExact, Priority;
    var after := WithState(s, slot, Exited);
    UnwaitingIsExact(s.threads, after.threads, s.queues, slot);
    assert SameRoster(s, after) by { NotUnused(s, slot); }
    RosterFollows(s, after) by { NotUnused(s, slot); }
  }

  /** A queued slot other than the activated one is still queued afterwards. */
  lemma {:induction false} ActivationKeepsQueued(s: State, target: nat, slot: nat, p: nat)
    requires Shape(s) && target < MAX_THREADS && slot != target && p < MAX_PRIORITIES && slot in s.queues[p]
    ensures slot in Activated(s, target).queues[p]
  {
    if s.initialized && target < s.count && s.current != Some(target) {
      assert slot in CurrentRequeued(s).queues[p];
      WithoutKeepsOthers(CurrentRequeued(s).queues[p], target, slot);
    }
  }

  lemma {:induction false} WithoutKeepsOthers(q: seq<nat>, slot: nat, x: nat)
    requires x in q && x != slot
    ensures x in Without(q, slot)
  {
    if q[0] != slot && q[0] != x {
      WithoutKeepsOthers(q[1..], slot, x);
    }
  }

  lemma {:induction false} ActivationKeepsOthersState(s: State, target: nat, slot: nat)
    requires Shape(s) && slot < MAX_THREADS && slot != target && s.threads[slot].state == Exited
    ensures Activated(s, target).threads[slot].state == Exited
  {
  }

  /**
   Leaving bootstrap does not take it out of a queue, so the invariant survives exactly
   when bootstrap was not waiting in one. The kernel leaves it while it is running.
   */
  lemma {:induction false} LeavingBootstrapKeepsInvIff(s: State)
    requires Inv(s)
    ensures Inv(BootstrapLeft(s)) <==> s.threads[0].state != Runnable
  {
    hide Activated, QueuesExact;
    var target, left, after := LeaveTarget(s), WithState(s, 0, Exited), BootstrapLeft(s);
    if s.threads[0].state != Runnable {
      ExitingUnqueuedKeepsInv(s, 0);
      ActivateKeepsInv(left, target);
    } else {
      var p := Priority(s.threads[0]);
      BootstrapStaysQueued(s, left, target, p);
      if Inv(after) {
        QueuedSlotWaits(after, 0, p);
        ActivationKeepsOthersState(left, target, 0);
      }
    }
  }

  lemma {:induction false} BootstrapStaysQueued(s: State, left: State, target: nat, p: nat)
    requires Inv(s) && s.threads[0].state == Runnable && p == Priority(s.threads[0])
    requires left == WithState(s, 0, Exited) && 0 < target < MAX_THREADS
    ensures 0 in Activated(left, target).queues[p]
  {
    assert QueueExact(s.threads, s.queues[p], p);
    assert WaitsAt(s.threads, 0, p);
    ActivationKeepsQueued(left, target, 0, p);
  }

  lemma {:induction false} QueuedSlotWaits(s: State, slot: nat, p: nat)
    requires Inv(s) && p < MAX_PRIORITIES && slot in s.queues[p]
    ensures WaitsAt(s.threads, slot, p)
  {
    assert QueueExact(s.threads, s.queues[p], p);
  }

  // ------------------------------------------------------------------ exiting a group

  lemma {:induction false} SlotExitedKeepsInv(s: State, slot: nat, group: nat)
    requires Inv(s) && slot < s.count
    ensures Inv(SlotExited(s, slot, group)) && SameRoster(s, SlotExited(s, slot, group))
    ensures SlotExited(s, slot, group).current == s.current
    ensures forall i | 0 <= i < MAX_THREADS :: SlotExited(s, slot, group).threads[i].state ==
              if i == slot && s.threads[i].group == group then Exited else s.threads[i].state
  {
    hide Roster, QueuesExact, Priority, Without;
    var after := SlotExited(s, slot, group);
    if Leaves(s.threads[slot], group) {
      SamePriority(s.threads[slot], Exited);
      RemovedIsExact(s.threads, after.threads, s.queues, slot);
    }
    assert SameRoster(s, after) by { NotUnused(s, slot); }
    RosterFollows(s, after) by { NotUnused(s, slot); }
  }

  /** The loop over the slots: the first n threads of the group are out, the rest is as before. */
  lemma {:induction false} GroupExitedBelowKeepsInv(s: State, group: nat, n: nat)
    requires Inv(s) && n <= s.count
    ensures Inv(GroupExitedBelow(s, group, n)) && SameRoster(s, GroupExitedBelow(s, group, n))
    ensures forall i | 0 <= i < MAX_THREADS :: GroupExitedBelow(s, group, n).threads[i].state ==
              if i < n && s.threads[i].group == group then Exited else s.threads[i].state
  {
    hide Inv, SlotExited;
    assert Shape(s) by { InvHasShape(s); }
    if n > 0 {
      GroupExitedBelowKeepsInv(s, group, n - 1);
      SlotExitedKeepsInv(GroupExitedBelow(s, group, n - 1), n - 1, group);
    }
  }

  lemma {:induction false} GroupLeftKeepsInv(s: State, left: State)
    requires Inv(s) && MayExit(s)
    requires left == GroupExitedBelow(s, s.threads[s.current.value].group, s.count).(current := None)
    ensures Inv(left) && SameRoster(s, left) && NoneRuns(left.threads)
    ensures forall i | 0 <= i < s.count :: left.threads[i].state ==
              if s.threads[i].group == s.threads[s.current.value].group then Exited else s.threads[i].state
  {
    hide QueuesExact, GroupExitedBelow;
    var group := s.threads[s.current.value].group;
    GroupExitedBelowKeepsInv(s, group, s.count);
    assert NoneRuns(left.threads);
    IdlingKeepsInv(GroupExitedBelow(s, group, s.count));
  }

  lemma {:induction false} ExitKeepsInv(s: State)
    requires Inv(s)
    ensures Inv(GroupExited(s)) && SameRoster(s, GroupExited(s))
  {
    hide Inv, GroupExitedBelow, Dispatched, Best;
    assert Shape(s) by { InvHasShape(s); }
    if MayExit(s) {
      var left := GroupExitedBelow(s, s.threads[s.current.value].group, s.count).(current := None);
      GroupLeftKeepsInv(s, left);
      if Best(left).Some? {
        DispatchedKeepsInv(left, Best(left).value);
      }
    }
  }

  /** Exactly the group of the current thread ends, and no thread of it is left in a queue. */
  lemma {:induction false} ExitEndsTheGroup(s: State, slot: nat)
    requires Inv(s) && MayExit(s) && slot < s.count
    ensures s.threads[slot].group == s.threads[s.current.value].group ==>
              GroupExited(s).threads[slot].state == Exited
    ensures s.threads[slot].group != s.threads[s.current.value].group ==>
              || GroupExited(s).threads[slot].state == s.threads[slot].state
              || GroupExited(s).current == Some(slot)
  {
    hide Inv, GroupExitedBelow, Dispatched, Best;
    assert Shape(s) by { InvHasShape(s); }
    var left := GroupExitedBelow(s, s.threads[s.current.value].group, s.count).(current := None);
    GroupLeftKeepsInv(s, left);
    if Best(left).Some? {
      DispatchedKeepsInv(left, Best(left).value);
      QueuedIsWaiting(left, Best(left).value, 0);
    }
  }

  // --------------------------------------------------------------------- whole runs

  function Unstarted(): (s: State)
    ensures Shape(s)
  {
    State(false, 1, 0, seq(MAX_THREADS, _ => EMPTY_THREAD), seq(MAX_PRIORITIES, _ => []), None, 0, 0)
  }

  /** After initialisation bootstrap is running, not current, and still queued. */
  function Initialised(): (s: State)
    ensures Shape(s)
  {
    var two := Created(Created(Unstarted(), 1, 1, Bootstrap), 0, 0, Idle);
    var queued := Enqueued(Enqueued(two, 0), 1);
    WithState(queued, 0, Running).(initialized := true, bootstrapId := 1, idleId := 2)
  }

  /** The first timer tick takes bootstrap out of the queue and makes it current. */
  function Booted(): (s: State)
    ensures Shape(s)
  {
    Ticked(Initialised())
  }

  /** Before initialisation there is nothing to schedule: no operation has an effect. */
  lemma {:induction false} UninitialisedIdles(s: State, op: Op)
    requires Shape(s) && !s.initialized && !op.Block? && !op.Unblock? && !op.Restore? && !op.LeaveBootstrap?
    ensures Step(s, op) == s
  {
    hide Best, QueueShape;
  }

  /** Bootstrap runs under the first id; idle belongs to no process and no group. */
  lemma {:induction false} InitialisedThreads()
    ensures Initialised().threads[0] == Thread(1, 1, 1, Bootstrap, Running, 0)
    ensures Initialised().threads[1] == Thread(2, 0, 0, Idle, Runnable, 0)
  {
    hide QueueShape, Priority;
  }

  lemma {:induction false} InitialisedQueues()
    ensures Initialised().queues[0] == [0, 1]
    ensures forall p | 0 < p < MAX_PRIORITIES :: Initialised().queues[p] == []
    ensures !QueuesExact(Initialised().threads, Initialised().queues)
  {
    var s := Initialised();
    assert s.queues[0] == [0, 1];
    assert 0 in s.queues[0] && !WaitsAt(s.threads, 0, 0);
    assert !QueueExact(s.threads, s.queues[0], 0);
  }

  lemma {:induction false} BootedRoster()
    ensures Roster(Booted()) && OnlyCurrentRuns(Booted().threads, Booted().current)
  {
    InitialisedQueues();
    assert Best(Initialised()) == Some(0);
    hide Best, BestFrom;
  }

  lemma {:induction false} BootedHasInv()
    ensures Inv(Booted())
  {
    hide Booted, Roster, OnlyCurrentRuns;
    BootedRoster();
    forall p | 0 <= p < MAX_PRIORITIES
      ensures QueueExact(Booted().threads, Booted().queues[p], p)
    {
      BootedQueueExact(p);
    }
  }

  lemma {:induction false} BootedQueueExact(p: nat)
    requires p < MAX_PRIORITIES
    ensures QueueExact(Booted().threads, Booted().queues[p], p)
  {
    var s := Booted();
    InitialisedQueues();
    assert Best(Initialised()) == Some(0);
    assert s.queues[p] == if p == 0 then [1] else [];
    forall x: nat
      ensures x in s.queues[p] <==> WaitsAt(s.threads, x, p)
    {
    }
  }

  lemma {:induction false} SecondTickQueuesBootstrap()
    ensures Ticked(Booted()).threads[0].state == Runnable
  {
    InitialisedQueues();
    assert Best(Initialised()) == Some(0);
    var s := Booted();
    assert s.queues[0] == [1] && s.current == Some(0);
    var requeued := CurrentRequeued(s);
    assert requeued.queues[0] == [1, 0];
    assert Best(requeued) == Some(0);
  }

  /** What the kernel's callers observe: bootstrap is left only while it is not queued. */
  predicate Legal(s: State, op: Op)
    requires Shape(s)
  {
    op.LeaveBootstrap? ==> s.threads[0].state != Runnable
  }

  function Run(s: State, ops: seq<Op>): (after: State)
    requires Shape(s)
    ensures Shape(after)
  {
    if ops == [] then s else Step(Run(s, ops[..|ops| - 1]), ops[|ops| - 1])
  }

  predicate LegalRun(s: State, ops: seq<Op>)
    requires Shape(s)
  {
    forall n | 0 <= n < |ops| :: Legal(Run(s, ops[..n]), ops[n])
  }

  /** One tick after boot the bootstrap thread is queued; leaving it then breaks the queues. */
  lemma {:induction false} LeavingQueuedBootstrapBreaksInv()
    ensures LegalRun(Booted(), [Tick]) && Inv(Run(Booted(), [Tick]))
    ensures !Legal(Run(Booted(), [Tick]), LeaveBootstrap) && !Inv(Step(Run(Booted(), [Tick]), LeaveBootstrap))
  {
    hide Inv, BootstrapLeft, Ticked;
    BootedHasInv();
    TickKeepsInv(Booted());
    SecondTickQueuesBootstrap();
    assert [Tick][..0] == [] && Run(Booted(), [Tick][..0]) == Booted();
    assert Run(Booted(), [Tick]) == Ticked(Booted());
    LeavingBootstrapKeepsInvIff(Ticked(Booted()));
  }

  lemma {:induction false} StepKeepsInv(s: State, op: Op)
    requires Inv(s) && Legal(s, op)
    ensures Inv(Step(s, op))
  {
    hide Inv;
    hide Ticked, Switched, Yielded, CurrentBlocked, GroupExited;
    hide UserCreated, BootstrapRestored, BootstrapLeft, Unblocked, Activated;
    match op {
      case Tick => TickKeepsInv(s);
      case Switch => SwitchKeepsInv(s);
      case Yield => YieldKeepsInv(s);
      case Block => BlockKeepsInv(s);
      case Exit => ExitKeepsInv(s);
      case Create => CreateKeepsInv(s);
      case Restore => RestoreKeepsInv(s);
      case LeaveBootstrap => LeavingBootstrapKeepsInvIff(s);
      case Unblock(process, id) => UnblockKeepsInv(s, process, id);
      case Activate(slot) => ActivateKeepsInv(s, slot);
    }
  }

  lemma {:induction false} RunKeepsInv(s: State, ops: seq<Op>)
    requires Inv(s) && LegalRun(s, ops)
    ensures Inv(Run(s, ops))
  {
    hide Inv, Step;
    if ops != [] {
      var front := ops[..|ops| - 1];
      assert Shape(s) by { InvHasShape(s); }
      LegalPrefix(s, ops, |ops| - 1);
      RunKeepsInv(s, front);
      StepKeepsInv(Run(s, front), ops[|ops| - 1]);
    }
  }

  lemma {:induction false} LegalPrefix(s: State, ops: seq<Op>, n: nat)
    requires Shape(s) && LegalRun(s, ops) && n <= |ops|
    ensures LegalRun(s, ops[..n])
    ensures n < |ops| ==> Legal(Run(s, ops[..n]), ops[n])
  {
    hide Run, Legal;
    var front := ops[..n];
    forall m | 0 <= m < n
      ensures Legal(Run(s, front[..m]), front[m])
    {
      assert front[..m] == ops[..m];
    }
  }

  /** From the first tick on, every state of every run has exact queues and one running thread at most. */
  lemma {:induction false} EveryRunKeepsInv(ops: seq<Op>)
    requires LegalRun(Booted(), ops)
    ensures Inv(Run(Booted(), ops))
  {
    hide Inv, Booted, Run;
    BootedHasInv();
    RunKeepsInv(Booted(), ops);
  }

  /** Spelled out: a thread is runnable if and only if it is queued, once, in the queue of its priority. */
  lemma {:induction false} RunnableIffQueuedOnce(ops: seq<Op>, slot: nat, p: nat)
    requires LegalRun(Booted(), ops) && slot < MAX_THREADS && p < MAX_PRIORITIES
    ensures var s := Run(Booted(), ops);
            && (slot in s.queues[p] <==> s.threads[slot].state == Runnable && Priority(s.threads[slot]) == p)
            && multiset(s.queues[p])[slot] <= 1
            && (s.threads[slot].state == Running ==> s.current == Some(slot))
  {
    EveryRunKeepsInv(ops);
    hide Booted, Run;
    var s := Run(Booted(), ops);
    assert QueueExact(s.threads, s.queues[p], p);
    assert WaitsAt(s.threads, slot, p) <==> s.threads[slot].state == Runnable && Priority(s.threads[slot]) == p;
    NoRepeatCounts(s.queues[p], slot);
  }

  lemma {:induction false} NoRepeatCounts(q: seq<nat>, x: nat)
    requires NoRepeat(q)
    ensures multiset(q)[x] <= 1
  {
    if q != [] {
      var front, last := q[..|q| - 1], q[|q| - 1];
      assert q == front + [last];
      NoRepeatCounts(front, x);
      assert last !in front;
    }
  }

  /** A full run queue is never met: any thread the kernel queues again finds room. */
  lemma {:induction false} RunQueueNeverFull(ops: seq<Op>, slot: nat)
    requires LegalRun(Booted(), ops) && slot < MAX_THREADS
    ensures var s := Run(Booted(), ops); s.threads[slot].state != Runnable ==> !QueueFull(s, slot)
  {
    EveryRunKeepsInv(ops);
    hide Booted, Run;
    var s := Run(Booted(), ops);
    if s.threads[slot].state != Runnable {
      QueueHasRoom(s, slot);
    }
  }

  /** While a slot is free, a new user thread is created and waits in queue 0. */
  lemma {:induction false} CreatedThreadIsQueued(s: State)
    requires Inv(s)
    ensures s.count < MAX_THREADS ==>
              UserCreated(s).count == s.count + 1 && s.count in UserCreated(s).queues[0]
  {
    if s.count < MAX_THREADS {
      QueueZeroHasRoom(s, s.count);
    }
  }

  // --------------------------------------------------------- there is always a successor

  predicate Live(t: Thread) {
    t.state == Running || t.state == Runnable
  }

  predicate IdleLives(s: State)
    requires Shape(s)
  {
    Live(s.threads[1])
  }

  /** Only user threads block. */
  predicate Considerate(s: State, op: Op)
    requires Shape(s)
  {
    Legal(s, op) && (op.Block? && s.current.Some? ==> s.threads[s.current.value].role == User)
  }

  lemma {:induction false} RequeueKeepsLive(s: State, slot: nat)
    requires Inv(s) && slot < MAX_THREADS && Live(s.threads[slot])
    ensures Live(CurrentRequeued(s).threads[slot])
  {
    CurrentRequeuedKeepsInv(s);
  }

  lemma {:induction false} ActivateKeepsLive(s: State, target: nat, slot: nat)
    requires Inv(s) && slot < MAX_THREADS && Live(s.threads[slot])
    ensures Live(Activated(s, target).threads[slot])
  {
    hide CurrentRequeued, Without, Priority;
    RequeueKeepsLive(s, slot);
  }

  lemma {:induction false} DispatchKeepsLive(s: State, p: nat, slot: nat)
    requires Shape(s) && p < MAX_PRIORITIES && |s.queues[p]| > 0 && slot < MAX_THREADS && Live(s.threads[slot])
    ensures Live(Dispatched(s, p).threads[slot])
  {
  }

  lemma {:induction false} SwitchingKeepsIdle(s: State, op: Op)
    requires Inv(s) && IdleLives(s) && (op.Tick? || op.Switch? || op.Yield?)
    ensures IdleLives(Step(s, op))
  {
    hide Inv, CurrentRequeued, Dispatched, Best, NextSwitch;
    assert Shape(s) by { InvHasShape(s); }
    RequeueKeepsLive(s, 1);
    var requeued := CurrentRequeued(s);
    if Best(requeued).Some? {
      DispatchKeepsLive(requeued, Best(requeued).value, 1);
    }
    if op.Switch? && NextSwitch(s).Some? {
      var p := Priority(s.threads[NextSwitch(s).value]);
      if |requeued.queues[p]| > 0 {
        DispatchKeepsLive(requeued, p, 1);
      }
    }
  }

  lemma {:induction false} ExitKeepsIdle(s: State)
    requires Inv(s) && IdleLives(s)
    ensures IdleLives(GroupExited(s))
    ensures MayExit(s) ==> GroupExited(s).current.Some?
    ensures MayExit(s) ==> GroupExited(s).threads[GroupExited(s).current.value].state == Running
  {
    hide QueuesExact, GroupExitedBelow, Dispatched, Best, OnlyCurrentRuns;
    if MayExit(s) {
      var left := GroupExitedBelow(s, s.threads[s.current.value].group, s.count).(current := None);
      GroupLeftKeepsInv(s, left);
      assert left.threads[1].state == Runnable;
      WaitingThreadMakesBest(left, 1);
      DispatchedKeepsInv(left, Best(left).value);
    }
  }

  lemma {:induction false} WaitingThreadMakesBest(s: State, slot: nat)
    requires Inv(s) && slot < MAX_THREADS && s.threads[slot].state == Runnable
    ensures Best(s).Some?
  {
    var p := Priority(s.threads[slot]);
    assert QueueExact(s.threads, s.queues[p], p);
    assert WaitsAt(s.threads, slot, p);
    BestIsLeast(s.queues, 0);
  }

  lemma {:induction false} StepKeepsIdle(s: State, op: Op)
    requires Inv(s) && IdleLives(s) && Considerate(s, op)
    ensures IdleLives(Step(s, op))
  {
    match op {
      case Exit => ExitKeepsIdle(s);
      case Restore => RestoreKeepsIdle(s);
      case LeaveBootstrap => LeavingKeepsIdle(s);
      case Activate(slot) => ActivateKeepsLive(s, slot, 1);
      case Block | Create | Unblock(_, _) =>
        hide QueuesExact, OnlyCurrentRuns, Ticked, Switched, Yielded, Activated, GroupExited, BootstrapLeft, BootstrapRestored;
      case _ => SwitchingKeepsIdle(s, op);
    }
  }

  lemma {:induction false} RestoreKeepsIdle(s: State)
    requires Inv(s) && IdleLives(s)
    ensures IdleLives(BootstrapRestored(s))
  {
    hide QueuesExact, RequeuedBelow, Without, Priority;
    RequeuedBelowKeepsInv(s, s.count);
  }

  lemma {:induction false} LeavingKeepsIdle(s: State)
    requires Inv(s) && IdleLives(s) && s.threads[0].state != Runnable
    ensures IdleLives(BootstrapLeft(s))
  {
    hide Activated, QueuesExact, BootstrapLeft;
    ExitingUnqueuedKeepsInv(s, 0);
    ActivateKeepsLive(WithState(s, 0, Exited), LeaveTarget(s), 1);
  }

  predicate ConsiderateRun(s: State, ops: seq<Op>)
    requires Shape(s)
  {
    forall n | 0 <= n < |ops| :: Considerate(Run(s, ops[..n]), ops[n])
  }

  lemma {:induction false} RunKeepsIdle(ops: seq<Op>)
    requires ConsiderateRun(Booted(), ops)
    ensures Inv(Run(Booted(), ops)) && IdleLives(Run(Booted(), ops))
  {
    hide Step, Inv, Booted, IdleLives;
    if ops == [] {
      BootedHasInv();
      assert IdleLives(Booted()) by { BootedIdleLives(); }
    } else {
      var front := ops[..|ops| - 1];
      forall n | 0 <= n < |front|
        ensures Considerate(Run(Booted(), front[..n]), front[n])
      {
        assert front[..n] == ops[..n];
      }
      RunKeepsIdle(front);
      StepKeepsInv(Run(Booted(), front), ops[|front|]);
      StepKeepsIdle(Run(Booted(), front), ops[|front|]);
    }
  }

  lemma {:induction false} BootedIdleLives()
    ensures IdleLives(Booted())
  {
    InitialisedQueues();
    assert Best(Initialised()) == Some(0);
  }

  /**
   If only user threads block, idle always runs or waits, so an exiting group always has a
   successor and a yielding thread always finds one.
   */
  lemma {:induction false} AlwaysASuccessor(ops: seq<Op>)
    requires ConsiderateRun(Booted(), ops)
    ensures var s := Run(Booted(), ops);
            && IdleLives(s)
            && (MayExit(s) ==> GroupExited(s).current.Some?)
            && (MayYield(s) ==> Yielded(s).current.Some? && Yielded(s).threads[Yielded(s).current.value].state == Running)
  {
    RunKeepsIdle(ops);
    hide Booted, Run, GroupExited;
    var s := Run(Booted(), ops);
    ExitKeepsIdle(s);
    if MayYield(s) {
      YieldFindsSuccessor(s);
    }
  }

  lemma {:induction false} YieldFindsSuccessor(s: State)
    requires Inv(s) && IdleLives(s) && MayYield(s)
    ensures Yielded(s).current.Some? && Yielded(s).threads[Yielded(s).current.value].state == Running
  {
    hide CurrentRequeued, Dispatched, Best, QueuesExact;
    CurrentRequeuedKeepsInv(s);
    var requeued := CurrentRequeued(s);
    WaitingThreadMakesBest(requeued, 1);
    DispatchedKeepsInv(requeued, Best(requeued).value);
  }

  // ------------------------------------------------------- first come, first served

  function Place(q: seq<nat>, slot: nat): nat {
    if q == [] || q[0] == slot then 0 else 1 + Place(q[1..], slot)
  }

  lemma {:induction false} PlaceInLonger(q: seq<nat>, r: seq<nat>, slot: nat)
    requires q <= r && slot in q
    ensures Place(r, slot) == Place(q, slot)
  {
    if q[0] != slot {
      assert q[1..] <= r[1..];
      PlaceInLonger(q[1..], r[1..], slot);
    }
  }

  lemma {:induction false} PlaceWithout(q: seq<nat>, gone: nat, slot: nat)
    requires slot in q && slot != gone
    ensures slot in Without(q, gone) && Place(Without(q, gone), slot) <= Place(q, slot)
  {
    if q[0] != gone && q[0] != slot {
      PlaceWithout(q[1..], gone, slot);
    }
  }

  /** The thread of the slot has been dispatched, or its group has ended. */
  predicate Served(s: State, slot: nat)
    requires Shape(s) && slot < MAX_THREADS
  {
    (s.current == Some(slot) && s.threads[slot].state == Running) || s.threads[slot].state == Exited
  }

  /** Still waiting in queue 0, `gain` places nearer to the head than place k. */
  predicate Advanced(s: State, slot: nat, k: nat, gain: nat)
    requires Shape(s)
  {
    slot in s.queues[0] && Place(s.queues[0], slot) + gain <= k
  }

  predicate AdvancesOrServed(s: State, slot: nat, k: nat, gain: nat)
    requires Shape(s) && slot < MAX_THREADS
  {
    Advanced(s, slot, k, gain) || Served(s, slot)
  }

  /** How many threads the operation takes from the head of a queue. */
  function Dequeues(s: State, op: Op): nat
    requires Shape(s)
  {
    match op
    case Tick =>
      if s.initialized && (Best(s).Some? || s.current.Some?) && Best(CurrentRequeued(s)).Some? then 1 else 0
    case Switch => if s.current.Some? && NextSwitch(s).Some? then 1 else 0
    case Yield => if MayYield(s) && Best(CurrentRequeued(s)).Some? then 1 else 0
    case Exit =>
      if MayExit(s) && Best(GroupExitedBelow(s, s.threads[s.current.value].group, s.count)).Some? then 1 else 0
    case _ => 0
  }

  lemma {:induction false} DispatchAdvances(s: State, slot: nat, k: nat)
    requires Inv(s) && Advanced(s, slot, k, 0) && slot < MAX_THREADS
    ensures Best(s) == Some(0) && AdvancesOrServed(Dispatched(s, 0), slot, k, 1)
  {
  }

  lemma {:induction false} RequeueAdvances(s: State, slot: nat, k: nat)
    requires Shape(s) && Advanced(s, slot, k, 0)
    ensures Advanced(CurrentRequeued(s), slot, k, 0)
  {
    RequeueKeepsHead(s, 0);
    PlaceInLonger(s.queues[0], CurrentRequeued(s).queues[0], slot);
  }

  lemma {:induction false} SwitchingAdvances(s: State, op: Op, slot: nat, k: nat)
    requires Inv(s) && slot < MAX_THREADS && Advanced(s, slot, k, 0) && (op.Tick? || op.Yield?)
    ensures AdvancesOrServed(Step(s, op), slot, k, Dequeues(s, op))
  {
    hide Inv, CurrentRequeued, Dispatched, Best, Place;
    assert Shape(s) by { InvHasShape(s); }
    RequeueAdvances(s, slot, k);
    CurrentRequeuedKeepsInv(s);
    DispatchAdvances(CurrentRequeued(s), slot, k);
  }

  lemma {:induction false} SwitchAdvances(s: State, slot: nat, k: nat)
    requires Inv(s) && slot < MAX_THREADS && Advanced(s, slot, k, 0)
    ensures AdvancesOrServed(Switched(s), slot, k, Dequeues(s, Switch))
  {
    hide Inv, CurrentRequeued, Dispatched, Place, Priority;
    assert Shape(s) by { InvHasShape(s); }
    RequeueAdvances(s, slot, k);
    CurrentRequeuedKeepsInv(s);
    DispatchAdvances(CurrentRequeued(s), slot, k);
    QueuedIsWaiting(s, 0, 0);
  }

  predicate AdvancedOrExited(s: State, slot: nat, k: nat)
    requires Shape(s) && slot < MAX_THREADS
  {
    Advanced(s, slot, k, 0) || s.threads[slot].state == Exited
  }

  lemma {:induction false} SlotExitAdvances(s: State, gone: nat, group: nat, slot: nat, k: nat)
    requires Shape(s) && gone < MAX_THREADS && slot < MAX_THREADS && AdvancedOrExited(s, slot, k)
    ensures AdvancedOrExited(SlotExited(s, gone, group), slot, k)
  {
    if gone != slot && s.threads[slot].state != Exited {
      PlaceWithout(s.queues[0], gone, slot);
    }
  }

  lemma {:induction false} GroupExitAdvances(s: State, group: nat, n: nat, slot: nat, k: nat)
    requires Shape(s) && n <= MAX_THREADS && slot < MAX_THREADS && AdvancedOrExited(s, slot, k)
    ensures AdvancedOrExited(GroupExitedBelow(s, group, n), slot, k)
  {
    hide Shape, SlotExited, AdvancedOrExited;
    if n > 0 {
      GroupExitAdvances(s, group, n - 1, slot, k);
      SlotExitAdvances(GroupExitedBelow(s, group, n - 1), n - 1, group, slot, k);
    }
  }

  lemma {:induction false} ExitAdvances(s: State, slot: nat, k: nat)
    requires Inv(s) && slot < MAX_THREADS && Advanced(s, slot, k, 0)
    ensures AdvancesOrServed(GroupExited(s), slot, k, Dequeues(s, Exit))
  {
    hide Inv, GroupExitedBelow, Dispatched, BestFrom, Place;
    assert Shape(s) by { InvHasShape(s); }
    if MayExit(s) {
      var group := s.threads[s.current.value].group;
      var left := GroupExitedBelow(s, group, s.count).(current := None);
      GroupExitAdvances(s, group, s.count, slot, k);
      GroupLeftKeepsInv(s, left);
      if Advanced(left, slot, k, 0) {
        DispatchAdvances(left, slot, k);
      } else if Best(left).Some? {
        QueuedIsWaiting(left, Best(left).value, 0);
        DispatchedKeepsInv(left, Best(left).value);
      }
    }
  }

  lemma {:induction false} ActivateAdvances(s: State, target: nat, slot: nat, k: nat)
    requires Shape(s) && slot < MAX_THREADS && Advanced(s, slot, k, 0)
    ensures AdvancesOrServed(Activated(s, target), slot, k, 0)
  {
    hide CurrentRequeued, Place;
    RequeueAdvances(s, slot, k);
    if s.initialized && target < s.count && s.current != Some(target) && target != slot {
      PlaceWithout(CurrentRequeued(s).queues[0], target, slot);
    }
  }

  lemma {:induction false} RequeuedBelowExtends(s: State, n: nat, p: nat)
    requires Shape(s) && n <= MAX_THREADS && p < MAX_PRIORITIES
    ensures s.queues[p] <= RequeuedBelow(s, n).queues[p]
  {
    if n > 0 {
      RequeuedBelowExtends(s, n - 1, p);
    }
  }

  lemma {:induction false} RestoreAdvances(s: State, slot: nat, k: nat)
    requires Inv(s) && slot < MAX_THREADS && Advanced(s, slot, k, 0)
    ensures AdvancesOrServed(BootstrapRestored(s), slot, k, 0)
  {
    hide QueuesExact, RequeuedBelow, Place;
    assert SlotOfId(s, s.bootstrapId, 0) == Some(0);
    RequeuedBelowExtends(s, s.count, 0);
    PlaceInLonger(s.queues[0], RequeuedBelow(s, s.count).queues[0], slot);
    if slot != 0 {
      PlaceWithout(RequeuedBelow(s, s.count).queues[0], 0, slot);
    }
  }

  lemma {:induction false} QuietStepAdvances(s: State, op: Op, slot: nat, k: nat)
    requires Shape(s) && slot < MAX_THREADS && Advanced(s, slot, k, 0)
    requires op.Block? || op.Create? || op.Unblock?
    ensures Advanced(Step(s, op), slot, k, 0)
  {
    hide Place;
    assert s.queues[0] <= Step(s, op).queues[0];
    PlaceInLonger(s.queues[0], Step(s, op).queues[0], slot);
  }

  lemma {:induction false} StepAdvances(s: State, op: Op, slot: nat, k: nat)
    requires Inv(s) && Legal(s, op) && slot < MAX_THREADS && Advanced(s, slot, k, 0)
    ensures AdvancesOrServed(Step(s, op), slot, k, Dequeues(s, op))
  {
    hide Place, QueuesExact, Best;
    hide Ticked, Switched, Yielded, CurrentBlocked, GroupExited;
    hide UserCreated, BootstrapRestored, BootstrapLeft, Unblocked, Activated;
    match op {
      case Tick => SwitchingAdvances(s, op, slot, k);
      case Yield => SwitchingAdvances(s, op, slot, k);
      case Switch => SwitchAdvances(s, slot, k);
      case Exit => ExitAdvances(s, slot, k);
      case Restore => RestoreAdvances(s, slot, k);
      case LeaveBootstrap => ActivateAdvances(WithState(s, 0, Exited), LeaveTarget(s), slot, k);
      case Activate(target) => ActivateAdvances(s, target, slot, k);
      case _ => QuietStepAdvances(s, op, slot, k);
    }
  }

  function TotalDequeues(s: State, ops: seq<Op>): nat
    requires Shape(s)
  {
    if ops == [] then 0
    else TotalDequeues(s, ops[..|ops| - 1]) + Dequeues(Run(s, ops[..|ops| - 1]), ops[|ops| - 1])
  }

  ghost predicate ServedDuring(s: State, ops: seq<Op>, slot: nat)
    requires Shape(s) && slot < MAX_THREADS
  {
    exists n :: 0 <= n <= |ops| && Served(Run(s, ops[..n]), slot)
  }

  lemma {:induction false} WaitingMovesUp(s: State, ops: seq<Op>, slot: nat)
    requires Inv(s) && LegalRun(s, ops) && slot < MAX_THREADS && slot in s.queues[0]
    ensures ServedDuring(s, ops, slot) || Advanced(Run(s, ops), slot, Place(s.queues[0], slot), TotalDequeues(s, ops))
  {
    hide Inv, Step, Place, Dequeues, Served, Legal;
    assert Shape(s) by { InvHasShape(s); }
    if ops != [] {
      var front, last := ops[..|ops| - 1], ops[|ops| - 1];
      LegalPrefix(s, ops, |ops| - 1);
      WaitingMovesUp(s, front, slot);
      if ServedDuring(s, front, slot) {
        ServedEarlier(s, ops, slot);
      } else {
        RunKeepsInv(s, front);
        var so := TotalDequeues(s, front);
        StepAdvances(Run(s, front), last, slot, Place(s.queues[0], slot) - so);
        assert ops[..|ops|] == ops;
      }
    }
  }

  lemma {:induction false} ServedEarlier(s: State, ops: seq<Op>, slot: nat)
    requires Shape(s) && slot < MAX_THREADS && ops != [] && ServedDuring(s, ops[..|ops| - 1], slot)
    ensures ServedDuring(s, ops, slot)
  {
    hide Run, Served;
    var front := ops[..|ops| - 1];
    var n :| 0 <= n <= |front| && Served(Run(s, front[..n]), slot);
    assert front[..n] == ops[..n];
  }

  /**
   A thread at place k of queue 0 is dispatched, or its group ends, by the time k + 1 threads
   have been taken from queue heads, whatever else is queued meanwhile. All threads the
   kernel creates have priority 0.
   */
  lemma {:induction false} ServedInTurn(s: State, ops: seq<Op>, slot: nat)
    requires Inv(s) && LegalRun(s, ops) && slot < MAX_THREADS && slot in s.queues[0]
    requires TotalDequeues(s, ops) >= Place(s.queues[0], slot) + 1
    ensures ServedDuring(s, ops, slot)
  {
    WaitingMovesUp(s, ops, slot);
  }
}
