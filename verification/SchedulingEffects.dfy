/**
 What each scheduler operation does to the threads and the queues, said without the
 building blocks the operations are made of: which thread changes state, where in which
 queue it joins or leaves, and that everything else stays as it was.
 */
module SchedulingEffects {
  import opened Bytes
  import opened Scheduling

  // ------------------------------------------------------------------- the vocabulary

  /** The named threads have the given states; nothing else about any thread differs. */
  predicate StatesSet(threads: seq<Thread>, after: seq<Thread>, states: map<nat, ThreadState>) {
    && |after| == |threads|
    && forall i | 0 <= i < |threads| ::
         after[i] == if i in states then threads[i].(state := states[i]) else threads[i]
  }

  /** Threads, queues and the current slot are all that may differ. */
  predicate SameBooks(s: State, after: State) {
    after == s.(threads := after.threads, queues := after.queues, current := after.current)
  }

  /** The slot stands last in queue p, which is otherwise as before, like every other queue. */
  predicate JoinsQueue(queues: seq<seq<nat>>, after: seq<seq<nat>>, p: nat, slot: nat)
    requires p < |queues|
  {
    after == queues[p := queues[p] + [slot]]
  }

  /** The slot is gone from queue p if it was there; the others keep their order. */
  ghost predicate LeavesQueue(queues: seq<seq<nat>>, after: seq<seq<nat>>, p: nat, slot: nat)
    requires p < |queues|
  {
    if slot in queues[p]
    then exists n :: 0 <= n < |queues[p]| && queues[p][n] == slot && after == queues[p := queues[p][..n] + queues[p][n + 1..]]
    else after == queues
  }

  /** Queue p is the first one, in order of priority, that is not empty. */
  predicate FirstNonEmpty(queues: seq<seq<nat>>, p: nat) {
    p < |queues| && queues[p] != [] && forall r | 0 <= r < p :: queues[r] == []
  }

  predicate AllEmpty(queues: seq<seq<nat>>) {
    forall r | 0 <= r < |queues| :: queues[r] == []
  }

  predicate Runs(s: State)
    requires Shape(s)
  {
    s.current.Some? && s.threads[s.current.value].state == Running
  }

  /** The queues once the running thread, if there is one, stands at the back of its own. */
  function QueuesWithCurrent(s: State): (queues: seq<seq<nat>>)
    requires Shape(s)
    ensures |queues| == MAX_PRIORITIES
  {
    if !Runs(s) then s.queues else
    var p := Priority(s.threads[s.current.value]);
    s.queues[p := s.queues[p] + [s.current.value]]
  }

  function CurrentNowWaits(s: State): map<nat, ThreadState>
    requires Shape(s)
  {
    if Runs(s) then map[s.current.value := Runnable] else map[]
  }

  /**
   The processor goes to the slot: the running thread queues at the back, the slot leaves
   its queue and runs as the current one.
   */
  ghost predicate HandedTo(s: State, after: State, slot: nat)
    requires Shape(s)
  {
    && SameBooks(s, after) && after.current == Some(slot)
    && slot < MAX_THREADS && LeavesQueue(QueuesWithCurrent(s), after.queues, Priority(s.threads[slot]), slot)
    && StatesSet(s.threads, after.threads, CurrentNowWaits(s)[slot := Running])
  }

  /** The processor goes to the head of the first queue in which somebody waits. */
  ghost predicate HandedToFirst(s: State, after: State, queues: seq<seq<nat>>)
    requires Shape(s)
  {
    exists p: nat :: FirstNonEmpty(queues, p) && HandedTo(s, after, queues[p][0])
  }

  // -------------------------------------------------------------- from the building blocks

  lemma {:induction false} WithoutLeaves(q: seq<nat>, slot: nat) returns (n: nat)
    requires slot in q
    ensures n < |q| && q[n] == slot && Without(q, slot) == q[..n] + q[n + 1..]
  {
    if q[0] == slot {
      n := 0;
    } else {
      var m := WithoutLeaves(q[1..], slot);
      n := m + 1;
      assert q[..n] == [q[0]] + q[1..][..m];
      assert q[n + 1..] == q[1..][m + 1..];
    }
  }

  lemma {:induction false} WithoutAbsent(q: seq<nat>, slot: nat)
    requires slot !in q
    ensures Without(q, slot) == q
  {
    if q != [] {
      WithoutAbsent(q[1..], slot);
    }
  }

  lemma {:induction false} UnqueuedLeaves(queues: seq<seq<nat>>, p: nat, slot: nat)
    requires p < |queues|
    ensures LeavesQueue(queues, queues[p := Without(queues[p], slot)], p, slot)
  {
    hide Without;
    if slot in queues[p] {
      var n := WithoutLeaves(queues[p], slot);
    } else {
      WithoutAbsent(queues[p], slot);
    }
  }

  /** Queueing the running thread again always succeeds. */
  lemma {:induction false} RequeueingCurrent(s: State)
    requires Inv(s)
    ensures var requeued := CurrentRequeued(s);
            && SameBooks(s, requeued) && requeued.current == s.current
            && requeued.queues == QueuesWithCurrent(s)
            && StatesSet(s.threads, requeued.threads, CurrentNowWaits(s))
  {
    hide Priority, QueuesExact, Roster, OnlyCurrentRuns;
    if Runs(s) {
      QueueHasRoom(s, s.current.value);
      SamePriority(s.threads[s.current.value], Runnable);
    }
  }

  lemma {:induction false} BestIsFirst(s: State)
    ensures Best(s).Some? ==> FirstNonEmpty(s.queues, Best(s).value)
    ensures Best(s).None? ==> AllEmpty(s.queues)
  {
    BestIsLeast(s.queues, 0);
    if Best(s).Some? {
      forall r | 0 <= r < Best(s).value
        ensures s.queues[r] == []
      {
        assert |s.queues[r]| == 0;
      }
    } else {
      forall r | 0 <= r < |s.queues|
        ensures s.queues[r] == []
      {
        assert |s.queues[r]| == 0;
      }
    }
  }

  lemma {:induction false} OneFirst(queues: seq<seq<nat>>, p: nat, r: nat)
    requires FirstNonEmpty(queues, p) && FirstNonEmpty(queues, r)
    ensures p == r
  {
  }

  lemma {:induction false} StatesSetTwice(
    threads: seq<Thread>, now: seq<Thread>, after: seq<Thread>, states: map<nat, ThreadState>, slot: nat, state: ThreadState)
    requires StatesSet(threads, now, states) && slot < |threads|
    requires after == now[slot := now[slot].(state := state)]
    ensures StatesSet(threads, after, states[slot := state])
  {
  }

  lemma {:induction false} SamePriorities(threads: seq<Thread>, after: seq<Thread>, states: map<nat, ThreadState>, slot: nat)
    requires StatesSet(threads, after, states) && slot < |threads|
    ensures Priority(after[slot]) == Priority(threads[slot])
  {
  }

  /** Dispatching the head of a queue after the running thread was queued. */
  lemma {:induction false} DispatchHands(s: State, p: nat)
    requires Inv(s) && p < MAX_PRIORITIES && QueuesWithCurrent(s)[p] != []
    ensures CurrentRequeued(s).queues[p] == QueuesWithCurrent(s)[p]
    ensures HandedTo(s, Dispatched(CurrentRequeued(s), p), QueuesWithCurrent(s)[p][0])
  {
    hide Inv, CurrentRequeued, QueuesWithCurrent, Priority, Without, StatesSet, LeavesQueue, CurrentNowWaits;
    assert Shape(s) by { InvHasShape(s); }
    RequeueingCurrent(s);
    CurrentRequeuedKeepsInv(s);
    var requeued, queues := CurrentRequeued(s), QueuesWithCurrent(s);
    var slot := queues[p][0];
    QueuedIsWaiting(requeued, p, 0);
    assert Priority(s.threads[slot]) == p by {
      SamePriorities(s.threads, requeued.threads, CurrentNowWaits(s), slot);
    }
    HeadIsFirstWithout(queues[p]);
    UnqueuedLeaves(queues, p, slot);
    StatesSetTwice(s.threads, requeued.threads, Dispatched(requeued, p).threads, CurrentNowWaits(s), slot, Running);
  }

  /** Taking a slot from wherever it stands after the running thread was queued. */
  lemma {:induction false} TakingHands(s: State, slot: nat)
    requires Inv(s) && slot < s.count
    ensures HandedTo(s, WithState(Unqueued(CurrentRequeued(s), slot).(current := Some(slot)), slot, Running), slot)
  {
    hide Inv, CurrentRequeued, QueuesWithCurrent, Priority, Without, StatesSet, LeavesQueue, CurrentNowWaits;
    assert Shape(s) by { InvHasShape(s); }
    RequeueingCurrent(s);
    var requeued, queues := CurrentRequeued(s), QueuesWithCurrent(s);
    SamePriorities(s.threads, requeued.threads, CurrentNowWaits(s), slot);
    UnqueuedLeaves(queues, Priority(s.threads[slot]), slot);
    var after := WithState(Unqueued(requeued, slot).(current := Some(slot)), slot, Running);
    StatesSetTwice(s.threads, requeued.threads, after.threads, CurrentNowWaits(s), slot, Running);
  }

  // -------------------------------------------------------------------- the operations

  lemma {:induction false} RunningIsInLine(s: State)
    requires Shape(s)
    ensures Runs(s) ==> !AllEmpty(QueuesWithCurrent(s))
  {
    if Runs(s) {
      assert QueuesWithCurrent(s)[Priority(s.threads[s.current.value])] != [];
    }
  }

  lemma {:induction false} NothingToQueue(s: State)
    requires Inv(s) && AllEmpty(QueuesWithCurrent(s))
    ensures !Runs(s) && CurrentRequeued(s) == s
  {
    hide Inv, AllEmpty, QueuesWithCurrent;
    assert Shape(s) by { InvHasShape(s); }
    RunningIsInLine(s);
  }

  /** A timer tick: the running thread queues behind the others and the first in line runs. */
  lemma {:induction false} TickEffect(s: State)
    requires Inv(s)
    ensures !AllEmpty(QueuesWithCurrent(s)) ==> HandedToFirst(s, Ticked(s), QueuesWithCurrent(s))
    ensures AllEmpty(QueuesWithCurrent(s)) ==> Ticked(s) == s.(current := None)
  {
    hide CurrentRequeued, QueuesWithCurrent, Dispatched, Best, HandedTo, QueuesExact, OnlyCurrentRuns;
    RequeueingCurrent(s);
    var requeued, queues := CurrentRequeued(s), QueuesWithCurrent(s);
    BestIsFirst(requeued);
    BestIsFirst(s);
    if AllEmpty(queues) {
      NothingToQueue(s);
    } else {
      TickDispatches(s);
      DispatchHands(s, Best(requeued).value);
    }
  }

  lemma {:induction false} TickDispatches(s: State)
    requires Inv(s) && !AllEmpty(QueuesWithCurrent(s))
    ensures Best(CurrentRequeued(s)).Some? && Ticked(s) == Dispatched(CurrentRequeued(s), Best(CurrentRequeued(s)).value)
  {
    hide CurrentRequeued, Dispatched, Best, QueuesExact, OnlyCurrentRuns;
    RequeueingCurrent(s);
    BestIsFirst(CurrentRequeued(s));
    BestIsFirst(s);
  }

  predicate LiveUser(t: Thread) {
    t.role == User && t.state != Exited
  }

  predicate CurrentIsLiveUser(s: State)
    requires Shape(s)
  {
    s.current.Some? && LiveUser(s.threads[s.current.value])
  }

  /** A yield by a live user thread does what a tick does; by anyone else it does nothing. */
  lemma {:induction false} YieldEffect(s: State)
    requires Inv(s)
    ensures CurrentIsLiveUser(s) && !AllEmpty(QueuesWithCurrent(s)) ==> HandedToFirst(s, Yielded(s), QueuesWithCurrent(s))
    ensures !CurrentIsLiveUser(s) || AllEmpty(QueuesWithCurrent(s)) ==> Yielded(s) == s
  {
    hide CurrentRequeued, QueuesWithCurrent, Dispatched, Best, HandedTo, QueuesExact, OnlyCurrentRuns;
    assert MayYield(s) <==> CurrentIsLiveUser(s);
    hide Roster;
    if MayYield(s) {
      RequeueingCurrent(s);
      var requeued, queues := CurrentRequeued(s), QueuesWithCurrent(s);
      BestIsFirst(requeued);
      if AllEmpty(queues) {
        NothingToQueue(s);
      } else {
        DispatchHands(s, Best(requeued).value);
      }
    }
  }

  /** A switch goes to the thread first in line before the current one is queued, unless that is the current one. */
  lemma {:induction false} SwitchEffect(s: State, p: nat)
    requires Inv(s)
    ensures s.current.Some? && FirstNonEmpty(s.queues, p) && Some(s.queues[p][0]) != s.current ==>
              HandedTo(s, Switched(s), s.queues[p][0])
    ensures s.current.None? || AllEmpty(s.queues) ==> Switched(s) == s
    ensures FirstNonEmpty(s.queues, p) && Some(s.queues[p][0]) == s.current ==> Switched(s) == s
  {
    hide CurrentRequeued, QueuesWithCurrent, Dispatched, Best, HandedTo, QueuesExact, OnlyCurrentRuns, Priority;
    BestIsFirst(s);
    if s.current.Some? && FirstNonEmpty(s.queues, p) {
      OneFirst(s.queues, p, Best(s).value);
      if Some(s.queues[p][0]) != s.current {
        QueuedIsWaiting(s, p, 0);
        RequeueingCurrent(s);
        RequeueKeepsHead(s, p);
        DispatchHands(s, p);
      }
    }
  }

  /** Blocking: the running thread waits in no queue, and nothing else changes. */
  lemma {:induction false} BlockEffect(s: State)
    requires Inv(s)
    ensures var after := CurrentBlocked(s);
            && SameBooks(s, after) && after.current == s.current && after.queues == s.queues
            && StatesSet(s.threads, after.threads, if Runs(s) then map[s.current.value := Blocked] else map[])
  {
    hide QueuesExact, Roster, OnlyCurrentRuns;
  }

  /** The first thread that waits under the process and thread id. */
  predicate WaitsFirst(threads: seq<Thread>, process: nat, id: nat, slot: nat) {
    && slot < |threads| && WaitsAs(threads[slot], process, id)
    && forall i | 0 <= i < slot :: !WaitsAs(threads[i], process, id)
  }

  /** The thread can run again and stands last in the queue of its priority; all else is as before. */
  predicate WokenUp(s: State, after: State, slot: nat)
    requires Shape(s)
  {
    && SameBooks(s, after) && after.current == s.current && slot < MAX_THREADS
    && StatesSet(s.threads, after.threads, map[slot := Runnable])
    && JoinsQueue(s.queues, after.queues, Priority(s.threads[slot]), slot)
  }

  lemma {:induction false} FirstWaitingIsFirst(threads: seq<Thread>, process: nat, id: nat, from: nat)
    ensures FirstWaiting(threads, process, id, from).Some? ==>
              forall i | from <= i < FirstWaiting(threads, process, id, from).value :: !WaitsAs(threads[i], process, id)
    decreases |threads| - from
  {
    if from < |threads| && !WaitsAs(threads[from], process, id) {
      FirstWaitingIsFirst(threads, process, id, from + 1);
    }
  }

  lemma {:induction false} OneWaitsFirst(threads: seq<Thread>, process: nat, id: nat, slot: nat, other: nat)
    requires WaitsFirst(threads, process, id, slot) && WaitsFirst(threads, process, id, other)
    ensures slot == other
  {
  }

  /** Unblocking wakes the first thread that waits under the ids, and only that one. */
  lemma {:induction false} UnblockEffect(s: State, process: nat, id: nat, slot: nat)
    requires Inv(s)
    ensures WaitsFirst(s.threads, process, id, slot) ==> WokenUp(s, Unblocked(s, process, id), slot)
    ensures (forall i | 0 <= i < MAX_THREADS :: !WaitsAs(s.threads[i], process, id)) ==> Unblocked(s, process, id) == s
    ensures (exists i :: 0 <= i < MAX_THREADS && WaitsAs(s.threads[i], process, id)) ==>
              exists first :: WaitsFirst(s.threads, process, id, first)
  {
    hide QueuesExact, Roster, OnlyCurrentRuns, Priority, FirstWaiting;
    FirstWaitingIsFirst(s.threads, process, id, 0);
    if FirstWaiting(s.threads, process, id, 0).Some? {
      var first := FirstWaiting(s.threads, process, id, 0).value;
      assert WaitsFirst(s.threads, process, id, first);
      if WaitsFirst(s.threads, process, id, slot) {
        OneWaitsFirst(s.threads, process, id, slot, first);
        QueueHasRoom(s, slot);
        SamePriority(s.threads[slot], Runnable);
      }
    }
  }

  /** Activating a thread other than the current one runs it, wherever it was; otherwise nothing happens. */
  lemma {:induction false} ActivateEffect(s: State, target: nat)
    requires Inv(s)
    ensures target < s.count && s.current != Some(target) ==> HandedTo(s, Activated(s, target), target)
    ensures target >= s.count || s.current == Some(target) ==> Activated(s, target) == s
  {
    hide CurrentRequeued, HandedTo, WithState, Unqueued, QueuesExact, OnlyCurrentRuns;
    if target < s.count && s.current != Some(target) {
      TakingHands(s, target);
    }
  }

  /** Under the invariant the sweep over all threads queues the running one and no other. */
  lemma {:induction false} SweepRequeuesCurrent(s: State, n: nat)
    requires Inv(s) && n <= s.count
    ensures RequeuedBelow(s, n) == if s.current.Some? && s.current.value < n then CurrentRequeued(s) else s
  {
    hide QueuesExact, Enqueued, Priority, Roster;
    if n > 0 {
      SweepRequeuesCurrent(s, n - 1);
      if s.current == Some(n - 1) {
        assert RequeuedBelow(s, n) == Requeued(s, n - 1);
      } else if s.current.Some? && s.current.value < n - 1 {
        CurrentRequeuedKeepsInv(s);
        assert CurrentRequeued(s).threads[n - 1].state != Running;
      } else {
        assert s.threads[n - 1].state != Running;
      }
    }
  }

  /** Restoring bootstrap runs it in place of whatever thread was running. */
  lemma {:induction false} RestoreEffect(s: State)
    requires Inv(s)
    ensures HandedTo(s, BootstrapRestored(s), 0)
  {
    hide CurrentRequeued, HandedTo, WithState, Unqueued, QueuesExact, OnlyCurrentRuns, RequeuedBelow;
    assert SlotOfId(s, s.bootstrapId, 0) == Some(0);
    SweepRequeuesCurrent(s, s.count);
    if s.current.None? {
      RequeueingNobody(s);
    }
    TakingHands(s, 0);
  }

  lemma {:induction false} RequeueingNobody(s: State)
    requires Shape(s) && s.current.None?
    ensures CurrentRequeued(s) == s
  {
  }

  lemma {:induction false} FirstLiveUserIsFirst(s: State, from: nat)
    requires Shape(s)
    ensures FirstLiveUser(s, from).Some? ==> forall i | from <= i < FirstLiveUser(s, from).value :: !LiveUser(s.threads[i])
    decreases MAX_THREADS - from
  {
    if from < s.count && !LiveUser(s.threads[from]) {
      FirstLiveUserIsFirst(s, from + 1);
    }
  }

  /**
   Leaving bootstrap while it is not queued: bootstrap has ended and the first live user
   thread runs, or idle when there is none.
   */
  lemma {:induction false} LeaveEffect(s: State) returns (target: nat)
    requires Inv(s) && s.threads[0].state != Runnable
    ensures 0 < target < s.count
    ensures LiveUser(s.threads[target]) || target == 1
    ensures target == 1 ==> forall i | 0 <= i < s.count :: !LiveUser(s.threads[i])
    ensures target != 1 ==> forall i | 0 <= i < target :: !LiveUser(s.threads[i])
    ensures s.current != Some(target) ==> HandedTo(WithState(s, 0, Exited), BootstrapLeft(s), target)
    ensures s.current == Some(target) ==> BootstrapLeft(s) == WithState(s, 0, Exited)
  {
    hide HandedTo, QueuesExact, OnlyCurrentRuns, Activated;
    target := LeaveTarget(s);
    LeaveTargetIsFound(s);
    ExitingUnqueuedKeepsInv(s, 0);
    var left := WithState(s, 0, Exited);
    FirstLiveUserIsFirst(left, 0);
    ActivateEffect(left, target);
    assert forall i | 0 <= i < s.count :: LiveUser(left.threads[i]) <==> LiveUser(s.threads[i]);
    assert SlotOfId(left, left.idleId, 0) == Some(1);
  }

  /** A new thread takes the next slot and stands last in queue 0. */
  lemma {:induction false} CreateEffect(s: State)
    requires Inv(s)
    ensures s.count < MAX_THREADS ==>
              var n := s.count;
              && JoinsQueue(s.queues, UserCreated(s).queues, 0, n)
              && UserCreated(s).threads == s.threads[n := Thread(n + 1, n + 1, n + 1, User, Runnable, 0)]
              && UserCreated(s) ==
                   s.(threads := UserCreated(s).threads, queues := UserCreated(s).queues, count := n + 1, nextId := n + 2)
    ensures s.count == MAX_THREADS ==> UserCreated(s) == s
  {
    hide QueuesExact, OnlyCurrentRuns;
    if s.count < MAX_THREADS {
      QueueZeroHasRoom(s, s.count);
    }
  }

  /** No two threads share a group, so the sweep over the group takes out the current thread alone. */
  lemma {:induction false} SweepExitsCurrent(s: State, n: nat)
    requires Inv(s) && MayExit(s) && n <= s.count
    ensures var c := s.current.value; var group := s.threads[c].group;
            GroupExitedBelow(s, group, n) == if c < n then SlotExited(s, c, group) else s
  {
    hide QueuesExact, Unqueued, OnlyCurrentRuns;
    if n > 0 {
      SweepExitsCurrent(s, n - 1);
      var c := s.current.value;
      var group := s.threads[c].group;
      if c < n - 1 {
        SlotExitedKeepsInv(s, c, group);
      }
    }
  }

  /** The current thread is out and the head of queue p runs. */
  predicate ExitedTo(s: State, after: State, left: seq<seq<nat>>, p: nat)
    requires s.current.Some? && p < |left| && left[p] != []
  {
    && after.current == Some(left[p][0]) && after.queues == left[p := left[p][1..]]
    && StatesSet(s.threads, after.threads, map[s.current.value := Exited, left[p][0] := Running])
  }

  /** Any thread but idle, as long as it has not ended. */
  predicate CurrentMayEnd(s: State)
    requires Shape(s)
  {
    s.current.Some? && s.current.value != 1 && s.threads[s.current.value].state != Exited
  }

  lemma {:induction false} MayExitIffLive(s: State)
    requires Inv(s)
    ensures MayExit(s) <==> CurrentMayEnd(s)
  {
  }

  /**
   Exit: the current thread has ended and is out of its queue, and the first thread in line
   runs; with nobody in line, no thread is current.
   */
  lemma {:induction false} ExitEffect(s: State) returns (left: seq<seq<nat>>)
    requires Inv(s)
    ensures !CurrentMayEnd(s) ==> GroupExited(s) == s
    ensures CurrentMayEnd(s) ==> SameBooks(s, GroupExited(s)) && |left| == MAX_PRIORITIES
    ensures CurrentMayEnd(s) ==>
              var c := s.current.value; LeavesQueue(s.queues, left, Priority(s.threads[c]), c)
    ensures CurrentMayEnd(s) && AllEmpty(left) ==>
              var c, after := s.current.value, GroupExited(s);
              after.current == None && after.queues == left && StatesSet(s.threads, after.threads, map[c := Exited])
    ensures CurrentMayEnd(s) && !AllEmpty(left) ==>
              exists p: nat :: FirstNonEmpty(left, p) && ExitedTo(s, GroupExited(s), left, p)
  {
    hide QueuesExact, OnlyCurrentRuns, Roster, Priority, LeavesQueue, GroupExitedBelow, Best, SlotExited, StatesSet, Without;
    left := s.queues;
    MayExitIffLive(s);
    if MayExit(s) {
      var c := s.current.value;
      var gone := SlotExited(s, c, s.threads[c].group);
      SweepExitsCurrent(s, s.count) by { CurrentIsOnRoster(s); }
      assert c < s.count by { CurrentIsOnRoster(s); }
      CurrentLeaves(s);
      left := gone.queues;
      BestIsFirst(gone.(current := None));
      var best := Best(gone.(current := None));
      if best.Some? {
        StatesSetTwice(s.threads, gone.threads, GroupExited(s).threads, map[c := Exited], left[best.value][0], Running);
        assert FirstNonEmpty(left, best.value) && ExitedTo(s, GroupExited(s), left, best.value);
      }
    }
  }

  lemma {:induction false} CurrentLeaves(s: State)
    requires Inv(s) && MayExit(s)
    ensures var c := s.current.value; var gone := SlotExited(s, c, s.threads[c].group);
            && SameBooks(s, gone) && gone.current == s.current
            && LeavesQueue(s.queues, gone.queues, Priority(s.threads[c]), c)
            && StatesSet(s.threads, gone.threads, map[c := Exited])
  {
    hide QueuesExact, OnlyCurrentRuns, Roster, Priority, Without, LeavesQueue;
    var c := s.current.value;
    SamePriority(s.threads[c], Exited);
    UnqueuedLeaves(s.queues, Priority(s.threads[c]), c);
  }

  // ------------------------------------------------------------------------ over runs

  /** Every thread has the priority the kernel creates threads with. */
  predicate OnePriority(s: State)
    requires Shape(s)
  {
    forall slot | 0 <= slot < MAX_THREADS :: s.threads[slot].basePriority == 0
  }

  lemma {:induction false} StepKeepsOnePriority(s: State, op: Op)
    requires Inv(s) && Legal(s, op) && OnePriority(s)
    ensures OnePriority(Step(s, op))
  {
    hide QueuesExact, Roster, OnlyCurrentRuns, Activated, Ticked, Switched, Yielded, CurrentBlocked, GroupExited,
      BootstrapRestored, Unblocked;
    match op
    case Tick => TickKeepsInv(s);
    case Switch => SwitchKeepsInv(s);
    case Yield => YieldKeepsInv(s);
    case Block => BlockKeepsInv(s);
    case Exit => ExitKeepsInv(s);
    case Create =>
    case Restore => RestoreKeepsInv(s);
    case LeaveBootstrap =>
      ExitingUnqueuedKeepsInv(s, 0) by { assert s.count > 0 by { LeaveTargetIsFound(s); } }
      ActivateKeepsInv(WithState(s, 0, Exited), LeaveTarget(s));
    case Unblock(process, id) => UnblockKeepsInv(s, process, id);
    case Activate(slot) => ActivateKeepsInv(s, slot);
  }

  lemma {:induction false} RunKeepsOnePriority(s: State, ops: seq<Op>)
    requires Inv(s) && LegalRun(s, ops) && OnePriority(s)
    ensures OnePriority(Run(s, ops))
  {
    hide Inv, Step, Legal, OnePriority;
    assert Shape(s) by { InvHasShape(s); }
    if ops != [] {
      var front := ops[..|ops| - 1];
      LegalPrefix(s, ops, |ops| - 1);
      RunKeepsOnePriority(s, front);
      RunKeepsInv(s, front);
      StepKeepsOnePriority(Run(s, front), ops[|ops| - 1]);
    }
  }

  lemma {:induction false} LastPlace(q: seq<nat>, slot: nat)
    requires slot !in q
    ensures Place(q + [slot], slot) == |q|
  {
    if q != [] {
      assert (q + [slot])[1..] == q[1..] + [slot];
      LastPlace(q[1..], slot);
    }
  }

  /**
   A thread that is unblocked in any reachable state is dispatched, or its group ends, by the
   time every thread that was in line before it and one more have been dequeued.
   */
  lemma {:induction false} UnblockedIsServed(before: seq<Op>, process: nat, id: nat, slot: nat, ops: seq<Op>)
    requires LegalRun(Booted(), before)
    requires WaitsFirst(Run(Booted(), before).threads, process, id, slot)
    requires var woken := Unblocked(Run(Booted(), before), process, id);
             && LegalRun(woken, ops)
             && TotalDequeues(woken, ops) >= |Run(Booted(), before).queues[0]| + 1
    ensures slot < MAX_THREADS && ServedDuring(Unblocked(Run(Booted(), before), process, id), ops, slot)
  {
    hide LegalRun, Run, TotalDequeues, ServedDuring, QueuesExact, Roster, OnlyCurrentRuns, Unblocked, FirstWaiting, Booted;
    BootedHasInv();
    BootedPriorities();
    RunKeepsInv(Booted(), before);
    RunKeepsOnePriority(Booted(), before);
    var s := Run(Booted(), before);
    UnblockEffect(s, process, id, slot);
    UnblockKeepsInv(s, process, id);
    assert s.threads[slot].basePriority == 0;
    assert slot !in s.queues[0] by { assert QueueExact(s.threads, s.queues[0], 0) by { QueueZeroExact(s); } }
    LastPlace(s.queues[0], slot);
    ServedInTurn(Unblocked(s, process, id), ops, slot);
  }

  lemma {:induction false} QueueZeroExact(s: State)
    requires Inv(s)
    ensures QueueExact(s.threads, s.queues[0], 0)
  {
  }

  lemma {:induction false} TickKeepsPriorities(s: State, slot: nat)
    requires Shape(s) && slot < MAX_THREADS
    ensures Ticked(s).threads[slot].basePriority == s.threads[slot].basePriority
  {
    hide Best, QueueShape, Priority;
  }

  lemma {:induction false} BootedPriorities()
    ensures Shape(Booted()) && OnePriority(Booted())
  {
    hide Ticked, QueueShape, Enqueued;
    assert forall slot | 0 <= slot < MAX_THREADS :: Initialised().threads[slot].basePriority == 0 by {
      InitialPriorities();
    }
    hide Initialised;
    forall slot | 0 <= slot < MAX_THREADS
      ensures Booted().threads[slot].basePriority == 0
    {
      TickKeepsPriorities(Initialised(), slot);
    }
  }

  lemma {:induction false} InitialPriorities()
    ensures forall slot | 0 <= slot < MAX_THREADS :: Initialised().threads[slot].basePriority == 0
  {
    hide QueueShape, Priority;
  }

  /** An operation that does not by itself put the blocked thread of the slot back to work. */
  predicate Passes(t: Thread, slot: nat, op: Op) {
    && !op.LeaveBootstrap? && (op.Restore? ==> slot != 0)
    && (op.Unblock? ==> op.process != t.process || op.id != t.id)
    && (op.Activate? ==> op.slot != slot)
  }

  /** Blocked, or exited with its group; still the same thread. */
  predicate StillOut(t: Thread, now: Thread) {
    now == t.(state := now.state) && (now.state == Blocked || now.state == Exited)
  }

  /** Whoever is first in line was waiting or running. */
  lemma {:induction false} HeadCouldRun(s: State, p: nat)
    requires Inv(s) && p < MAX_PRIORITIES && QueuesWithCurrent(s)[p] != []
    ensures var head := QueuesWithCurrent(s)[p][0];
            head < MAX_THREADS && (s.threads[head].state == Runnable || s.threads[head].state == Running)
  {
    hide Inv, CurrentRequeued, QueuesWithCurrent, Priority;
    assert Shape(s) by { InvHasShape(s); }
    RequeueingCurrent(s);
    CurrentRequeuedKeepsInv(s);
    QueuedIsWaiting(CurrentRequeued(s), p, 0);
  }

  lemma {:induction false} HandingPassesBy(s: State, after: State, to: nat, slot: nat)
    requires Shape(s) && HandedTo(s, after, to)
    requires slot < MAX_THREADS && slot != to && s.threads[slot].state != Running
    ensures |after.threads| == MAX_THREADS && after.threads[slot] == s.threads[slot]
  {
    hide LeavesQueue, QueuesWithCurrent;
  }

  /** Handing the processor to the first in line leaves a thread that is out alone. */
  lemma {:induction false} FirstInLinePassesBy(s: State, after: State, queues: seq<seq<nat>>, slot: nat)
    requires Inv(s) && HandedToFirst(s, after, queues) && queues == QueuesWithCurrent(s)
    requires slot < MAX_THREADS && (s.threads[slot].state == Blocked || s.threads[slot].state == Exited)
    ensures |after.threads| == MAX_THREADS && after.threads[slot] == s.threads[slot]
  {
    hide Inv, HandedTo, QueuesWithCurrent;
    assert Shape(s) by { InvHasShape(s); }
    var p: nat :| FirstNonEmpty(queues, p) && HandedTo(s, after, queues[p][0]);
    HeadCouldRun(s, p);
    HandingPassesBy(s, after, queues[p][0], slot);
  }

  lemma {:induction false} SwitchPassesBy(s: State, slot: nat)
    requires Inv(s) && slot < MAX_THREADS && (s.threads[slot].state == Blocked || s.threads[slot].state == Exited)
    ensures Switched(s).threads[slot] == s.threads[slot]
  {
    hide Inv, HandedTo, Switched, Best;
    assert Shape(s) by { InvHasShape(s); }
    BestIsFirst(s);
    var p := if Best(s).Some? then Best(s).value else 0;
    SwitchEffect(s, p);
    if s.current.Some? && Best(s).Some? && Some(s.queues[p][0]) != s.current {
      QueuedIsWaiting(s, p, 0);
      HandingPassesBy(s, Switched(s), s.queues[p][0], slot);
    }
  }

  lemma {:induction false} ExitLeavesOut(s: State, slot: nat)
    requires Inv(s) && slot < s.count && (s.threads[slot].state == Blocked || s.threads[slot].state == Exited)
    ensures StillOut(s.threads[slot], GroupExited(s).threads[slot])
  {
    hide Inv, GroupExitedBelow, Dispatched, Best;
    assert Shape(s) by { InvHasShape(s); }
    if MayExit(s) {
      var left := GroupExitedBelow(s, s.threads[s.current.value].group, s.count).(current := None);
      GroupLeftKeepsInv(s, left);
      if Best(left).Some? {
        DispatchedKeepsInv(left, Best(left).value);
        QueuedIsWaiting(left, Best(left).value, 0);
      }
    }
  }

  lemma {:induction false} UnblockPassesBy(s: State, process: nat, id: nat, slot: nat)
    requires Inv(s) && slot < MAX_THREADS && !WaitsAs(s.threads[slot], process, id)
    ensures Unblocked(s, process, id).threads[slot] == s.threads[slot]
  {
    hide Inv, Unblocked;
    assert Shape(s) by { InvHasShape(s); }
    UnblockEffect(s, process, id, 0);
    if exists i :: 0 <= i < MAX_THREADS && WaitsAs(s.threads[i], process, id) {
      var first: nat :| WaitsFirst(s.threads, process, id, first);
      UnblockEffect(s, process, id, first);
    }
  }

  lemma {:induction false} StepLeavesOut(s: State, op: Op, t: Thread, slot: nat)
    requires Inv(s) && Legal(s, op) && slot < s.count && StillOut(t, s.threads[slot]) && Passes(t, slot, op)
    ensures slot < Step(s, op).count && StillOut(t, Step(s, op).threads[slot])
  {
    hide Inv, Ticked, Switched, Yielded, GroupExited, BootstrapRestored, Unblocked, Activated, HandedTo, HandedToFirst,
      QueuesWithCurrent, AllEmpty, Roster;
    assert Shape(s) by { InvHasShape(s); }
    match op
    case Tick =>
      TickKeepsInv(s);
      TickEffect(s);
      if !AllEmpty(QueuesWithCurrent(s)) { FirstInLinePassesBy(s, Ticked(s), QueuesWithCurrent(s), slot); }
    case Switch =>
      SwitchKeepsInv(s);
      SwitchPassesBy(s, slot);
    case Yield =>
      YieldKeepsInv(s);
      YieldEffect(s);
      if CurrentIsLiveUser(s) && !AllEmpty(QueuesWithCurrent(s)) {
        FirstInLinePassesBy(s, Yielded(s), QueuesWithCurrent(s), slot);
      }
    case Block =>
    case Exit =>
      ExitKeepsInv(s);
      ExitLeavesOut(s, slot);
    case Create =>
    case Restore =>
      RestoreKeepsInv(s);
      RestoreEffect(s);
      HandingPassesBy(s, BootstrapRestored(s), 0, slot);
    case Unblock(process, id) =>
      UnblockKeepsInv(s, process, id);
      UnblockPassesBy(s, process, id, slot);
    case Activate(target) =>
      ActivateKeepsInv(s, target);
      ActivateEffect(s, target);
      if target < s.count && s.current != Some(target) { HandingPassesBy(s, Activated(s, target), target, slot); }
  }

  /**
   A blocked thread stays out, neither running nor in any queue, until an unblock names it,
   it is activated by slot, bootstrap is left for it, or (bootstrap itself) it is restored.
   */
  lemma {:induction false} BlockedUntilWoken(s: State, ops: seq<Op>, slot: nat)
    requires Inv(s) && LegalRun(s, ops) && slot < s.count && s.threads[slot].state == Blocked
    requires forall i | 0 <= i < |ops| :: Passes(s.threads[slot], slot, ops[i])
    ensures slot < Run(s, ops).count && StillOut(s.threads[slot], Run(s, ops).threads[slot])
    ensures forall p | 0 <= p < MAX_PRIORITIES :: slot !in Run(s, ops).queues[p]
  {
    hide Inv, Step, Legal, Passes;
    assert Shape(s) by { InvHasShape(s); }
    RunKeepsInv(s, ops);
    if ops != [] {
      var front := ops[..|ops| - 1];
      LegalPrefix(s, ops, |ops| - 1);
      BlockedUntilWoken(s, front, slot);
      RunKeepsInv(s, front);
      StepLeavesOut(Run(s, front), ops[|ops| - 1], s.threads[slot], slot);
    }
    OutIsUnqueued(Run(s, ops), slot);
  }

  lemma {:induction false} OutIsUnqueued(s: State, slot: nat)
    requires Inv(s) && slot < MAX_THREADS && s.threads[slot].state != Runnable
    ensures forall p | 0 <= p < MAX_PRIORITIES :: slot !in s.queues[p]
  {
    forall p | 0 <= p < MAX_PRIORITIES
      ensures slot !in s.queues[p]
    {
      assert QueueExact(s.threads, s.queues[p], p);
    }
  }
}
