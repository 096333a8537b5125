/**
 The scheduler as the kernel keeps it: thread records, run queues of fixed size with
 their depths and a bitmap of the queues that are not empty, all updated in place.
 `View` reads off the abstract state, and every method moves it as module Scheduling says.
 */
module SchedulerState {
  import opened Bytes
  import opened Scheduling
  import opened SchedulingEffects

  datatype ExitRecord = ExitRecord(exitedThread: nat, exitedCount: nat, next: Option<nat>)

  class Scheduler {
    var initialized: bool
    var nextId: nat
    var count: nat
    const threads: array<Thread>
    const runQueues: array2<nat>
    const depths: array<nat>
    const bitmap: array<bool>
    var current: Option<nat>
    var bootstrapId: nat
    var idleId: nat
    /** The filled part of each run queue. */
    ghost var queues: seq<seq<nat>>

    ghost predicate Arrays()
      reads this`queues
    {
      && threads.Length == MAX_THREADS
      && runQueues.Length0 == MAX_PRIORITIES && runQueues.Length1 == MAX_THREADS
      && depths.Length == MAX_PRIORITIES && bitmap.Length == MAX_PRIORITIES
      && |queues| == MAX_PRIORITIES
    }

    /** Row p of the run queues holds the queue, and its bit says whether it is empty. */
    ghost predicate RowHolds(p: nat)
      requires Arrays() && p < MAX_PRIORITIES
      reads this`queues, runQueues, depths, bitmap
    {
      && |queues[p]| == depths[p] <= MAX_THREADS
      && (bitmap[p] <==> depths[p] > 0)
      && forall i | 0 <= i < depths[p] :: runQueues[p, i] == queues[p][i]
    }

    ghost function View(): State
      reads this, threads
    {
      State(initialized, nextId, count, threads[..], queues, current, bootstrapId, idleId)
    }

    ghost predicate Valid()
      reads this, threads, runQueues, depths, bitmap
    {
      && Arrays() && Shape(View())
      && forall p | 0 <= p < MAX_PRIORITIES :: RowHolds(p)
    }

    constructor ()
      ensures Valid() && View() == Unstarted()
      ensures fresh(threads) && fresh(runQueues) && fresh(depths) && fresh(bitmap)
    {
      initialized, nextId, count, current, bootstrapId, idleId := false, 1, 0, None, 0, 0;
      threads := new Thread[MAX_THREADS](_ => EMPTY_THREAD);
      runQueues := new nat[MAX_PRIORITIES, MAX_THREADS]((_, _) => 0);
      depths := new nat[MAX_PRIORITIES](_ => 0);
      bitmap := new bool[MAX_PRIORITIES](_ => false);
      queues := seq(MAX_PRIORITIES, _ => []);
      new;
      assert threads[..] == seq(MAX_THREADS, _ => EMPTY_THREAD);
    }

    method SetState(slot: nat, state: ThreadState)
      requires Valid() && slot < MAX_THREADS
      modifies threads
      ensures Valid() && View() == WithState(old(View()), slot, state)
    {
      threads[slot] := threads[slot].(state := state);
      assert threads[..] == old(threads[..])[slot := old(threads[slot]).(state := state)];
    }

    method Enqueue(slot: nat) returns (ok: bool)
      requires Valid() && slot < MAX_THREADS
      modifies this`queues, runQueues, depths, bitmap
      ensures Valid() && View() == Enqueued(old(View()), slot)
      ensures ok <==> !QueueFull(old(View()), slot)
    {
      var p := Priority(threads[slot]);
      assert RowHolds(p);
      var depth := depths[p];
      if depth >= MAX_THREADS {
        return false;
      }
      runQueues[p, depth] := slot;
      depths[p] := depth + 1;
      bitmap[p] := true;
      queues := queues[p := queues[p] + [slot]];
      assert forall r | 0 <= r < MAX_PRIORITIES && r != p :: old(RowHolds(r)) ==> RowHolds(r);
      assert RowHolds(p);
      return true;
    }

    /** Closes the gap at index `from` of row p by moving every later entry one place down. */
    method Shift(p: nat, from: nat)
      requires Valid() && p < MAX_PRIORITIES && from < |queues[p]|
      modifies this`queues, runQueues, depths, bitmap
      ensures Valid()
      ensures View() == old(View()).(queues := old(queues)[p := old(queues[p])[..from] + old(queues[p])[from + 1..]])
    {
      assert RowHolds(p);
      var depth := depths[p];
      for i := from to depth - 1
        invariant forall j | 0 <= j < MAX_THREADS ::
            runQueues[p, j] == if from <= j < i then old(runQueues[p, j + 1]) else old(runQueues[p, j])
        invariant forall r, j | 0 <= r < MAX_PRIORITIES && r != p && 0 <= j < MAX_THREADS ::
            runQueues[r, j] == old(runQueues[r, j])
        invariant depths[..] == old(depths[..]) && bitmap[..] == old(bitmap[..]) && queues == old(queues)
      {
        runQueues[p, i] := runQueues[p, i + 1];
      }
      depths[p] := depth - 1;
      if depths[p] == 0 {
        bitmap[p] := false;
      }
      queues := queues[p := queues[p][..from] + queues[p][from + 1..]];
      assert forall r | 0 <= r < MAX_PRIORITIES && r != p :: old(RowHolds(r)) ==> RowHolds(r);
      assert RowHolds(p);
    }

    method Dequeue(p: nat) returns (slot: Option<nat>)
      requires Valid() && p < MAX_PRIORITIES
      modifies this`queues, runQueues, depths, bitmap
      ensures Valid()
      ensures slot == if |old(queues[p])| == 0 then None else Some(old(queues[p][0]))
      ensures View() == if |old(queues[p])| == 0 then old(View())
                        else old(View()).(queues := old(queues)[p := old(queues[p])[1..]])
    {
      assert RowHolds(p);
      if depths[p] == 0 {
        return None;
      }
      slot := Some(runQueues[p, 0]);
      Shift(p, 0);
      assert old(queues[p])[..0] + old(queues[p])[1..] == old(queues[p])[1..];
    }

    /** Looks for the slot in the queue of its priority and takes it out. */
    method Remove(slot: nat)
      requires Valid() && slot < MAX_THREADS
      modifies this`queues, runQueues, depths, bitmap
      ensures Valid() && View() == Unqueued(old(View()), slot)
    {
      var p := Priority(threads[slot]);
      assert RowHolds(p);
      var i := 0;
      while i < depths[p] && runQueues[p, i] != slot
        invariant i <= depths[p]
        invariant slot !in queues[p][..i]
      {
        i := i + 1;
      }
      ghost var q := queues[p];
      if i < depths[p] {
        Shift(p, i);
        WithoutAt(q, slot, i);
      } else {
        assert q[..i] == q;
        WithoutAbsent(q, slot);
        assert queues[p := q] == queues;
      }
    }

    /** The number of the lowest bit set, or 64. */
    method TrailingZeros() returns (p: nat)
      requires Valid()
      ensures Best(View()) == if p < MAX_PRIORITIES then Some(p) else None
    {
      p := 0;
      while p < MAX_PRIORITIES && !bitmap[p]
        invariant p <= MAX_PRIORITIES
        invariant BestFrom(queues, 0) == BestFrom(queues, p)
      {
        assert RowHolds(p);
        p := p + 1;
      }
      if p < MAX_PRIORITIES {
        assert RowHolds(p);
      }
    }

    /** The head of queue p runs; the source unwraps the dequeued slot. */
    method Dispatch(p: nat) returns (slot: nat)
      requires Valid() && p < MAX_PRIORITIES && |queues[p]| > 0
      modifies this`queues, this`current, threads, runQueues, depths, bitmap
      ensures Valid() && View() == Dispatched(old(View()), p)
      ensures slot == old(queues[p][0]) && current == Some(slot) && slot < MAX_THREADS && threads[slot].state == Running
    {
      var next := Dequeue(p);
      slot := next.value;
      current := Some(slot);
      SetState(slot, Running);
    }

    method RequeueIfRunning(slot: nat)
      requires Valid() && slot < MAX_THREADS
      modifies this`queues, threads, runQueues, depths, bitmap
      ensures Valid() && View() == Requeued(old(View()), slot)
    {
      if threads[slot].state == Running {
        SetState(slot, Runnable);
        var _ := Enqueue(slot);
      }
    }

    method OnTimerTick() returns (dispatched: Option<nat>)
      requires Valid()
      modifies this`queues, this`current, threads, runQueues, depths, bitmap
      ensures Valid() && View() == Ticked(old(View()))
      ensures dispatched.Some? ==> current == dispatched && threads[dispatched.value].state == Running
    {
      hide Requeued, Best, Dispatched;
      ghost var before := View();
      var waiting := TrailingZeros();
      if !initialized || (waiting == MAX_PRIORITIES && current.None?) {
        return None;
      }
      if current.Some? {
        RequeueIfRunning(current.value);
      }
      ghost var requeued := View();
      assert requeued == CurrentRequeued(before);
      var best := TrailingZeros();
      if best >= MAX_PRIORITIES {
        current := None;
        assert View() == requeued.(current := None);
        return None;
      }
      var next := Dispatch(best);
      assert View() == Dispatched(requeued, best);
      return Some(next);
    }

    method NextSwitchIndex() returns (next: Option<nat>)
      requires Valid()
      ensures next == NextSwitch(View())
    {
      var best := TrailingZeros();
      if !initialized || best >= MAX_PRIORITIES {
        return None;
      }
      assert RowHolds(best);
      if depths[best] > 0 {
        var head := runQueues[best, 0];
        if current != Some(head) {
          return Some(head);
        }
      }
      return None;
    }

    /** The slots switched from and to; nothing is answered when there is no one to switch to. */
    method ContextSwitchPair() returns (pair: Option<(nat, nat)>)
      requires Valid()
      modifies this`queues, this`current, threads, runQueues, depths, bitmap
      ensures Valid() && View() == Switched(old(View()))
      ensures pair.Some? ==> Some(pair.value.0) == old(current) && Some(pair.value.1) == current
    {
      hide Requeued, NextSwitch, Dispatched, Priority;
      ghost var before := View();
      var next := NextSwitchIndex();
      if current.None? || next.None? {
        return None;
      }
      var from := current.value;
      var p := Priority(threads[next.value]);
      RequeueIfRunning(from);
      assert View() == CurrentRequeued(before);
      assert RowHolds(p);
      if depths[p] == 0 {
        return None;
      }
      var slot := Dispatch(p);
      return Some((from, slot));
    }

    /** The slot to resume, unless the yielding thread goes on itself. */
    method YieldCurrentUserThread() returns (resume: Option<nat>)
      requires Valid()
      modifies this`queues, this`current, threads, runQueues, depths, bitmap
      ensures Valid() && View() == Yielded(old(View()))
      ensures resume.Some? ==> current == resume != old(current)
    {
      hide Requeued, Best, Dispatched;
      ghost var before := View();
      if !initialized || current.None? {
        return None;
      }
      var from := current.value;
      if threads[from].role != User || threads[from].state == Exited {
        return None;
      }
      RequeueIfRunning(from);
      assert View() == CurrentRequeued(before);
      var best := TrailingZeros();
      if best >= MAX_PRIORITIES {
        return None;
      }
      var next := Dispatch(best);
      return if next == from then None else Some(next);
    }

    method BlockCurrentThread()
      requires Valid()
      modifies threads
      ensures Valid() && View() == CurrentBlocked(old(View()))
    {
      if current.Some? && threads[current.value].state == Running {
        SetState(current.value, Blocked);
      }
    }

    method UnblockThread(process: nat, id: nat) returns (found: bool)
      requires Valid()
      modifies this`queues, threads, runQueues, depths, bitmap
      ensures Valid() && View() == Unblocked(old(View()), process, id)
      ensures found <==> exists i :: 0 <= i < MAX_THREADS && WaitsAs(old(threads[i]), process, id)
      ensures !found ==> View() == old(View())
      ensures found && Inv(old(View())) ==>
                exists slot: nat :: WaitsFirst(old(View()).threads, process, id, slot) && WokenUp(old(View()), View(), slot)
    {
      hide Enqueued;
      ghost var before := View();
      var i := 0;
      while i < MAX_THREADS && !WaitsAs(threads[i], process, id)
        invariant i <= MAX_THREADS
        invariant forall j | 0 <= j < i :: !WaitsAs(threads[j], process, id)
        invariant FirstWaiting(threads[..], process, id, 0) == FirstWaiting(threads[..], process, id, i)
      {
        i := i + 1;
      }
      if i == MAX_THREADS {
        return false;
      }
      assert WaitsFirst(before.threads, process, id, i);
      SetState(i, Runnable);
      var _ := Enqueue(i);
      if Inv(before) {
        UnblockEffect(before, process, id, i);
      }
      return true;
    }

    method CreateThread(process: nat, group: nat, role: Role) returns (slot: Option<nat>)
      requires Valid()
      modifies this`nextId, this`count, threads
      ensures Valid()
      ensures old(count) >= MAX_THREADS ==> slot == None && View() == old(View())
      ensures old(count) < MAX_THREADS ==> slot == Some(old(count)) && View() == Created(old(View()), process, group, role)
    {
      if count >= MAX_THREADS {
        return None;
      }
      slot := Some(count);
      threads[count] := Thread(nextId, process, group, role, Runnable, 0);
      nextId := nextId + 1;
      count := count + 1;
      assert threads[..] == old(threads[..])[slot.value := threads[slot.value]];
    }

    method CreateUserThread() returns (slot: Option<nat>)
      requires Valid()
      modifies this`queues, this`nextId, this`count, threads, runQueues, depths, bitmap
      ensures Valid() && View() == UserCreated(old(View()))
      ensures slot.Some? ==> old(initialized) && slot.value == old(count) < MAX_THREADS
    {
      if !initialized {
        return None;
      }
      slot := CreateThread(nextId, nextId, User);
      if slot.Some? {
        var ok := Enqueue(slot.value);
        if !ok {
          slot := None;
        }
      }
    }

    method Reset()
      requires Valid()
      modifies this, threads, runQueues, depths, bitmap
      ensures Valid() && View() == Unstarted()
    {
      initialized, nextId, count, current, bootstrapId, idleId := false, 1, 0, None, 0, 0;
      forall i | 0 <= i < MAX_THREADS {
        threads[i] := EMPTY_THREAD;
      }
      forall p, i | 0 <= p < MAX_PRIORITIES && 0 <= i < MAX_THREADS {
        runQueues[p, i] := 0;
      }
      forall p | 0 <= p < MAX_PRIORITIES {
        depths[p] := 0;
      }
      forall p | 0 <= p < MAX_PRIORITIES {
        bitmap[p] := false;
      }
      queues := seq(MAX_PRIORITIES, _ => []);
      assert threads[..] == seq(MAX_THREADS, _ => EMPTY_THREAD);
    }

    method CreateBootstrapThreads()
      requires Valid() && View() == Unstarted()
      modifies this`nextId, this`count, threads
      ensures Valid() && View() == Created(Created(Unstarted(), 1, 1, Bootstrap), 0, 0, Idle)
    {
      hide Created, Unstarted;
      CreatedCounts(Unstarted(), 1, 1, Bootstrap);
      var bootstrap := CreateThread(1, 1, Bootstrap);
      var idle := CreateThread(0, 0, Idle);
    }

    method InitializeBootstrapThreads()
      requires Valid()
      modifies this, threads, runQueues, depths, bitmap
      ensures Valid() && View() == Initialised()
    {
      hide Created, Enqueued, WithState, Unstarted;
      Reset();
      CreateBootstrapThreads();
      var _ := Enqueue(0);
      var _ := Enqueue(1);
      SetState(0, Running);
      initialized, bootstrapId, idleId := true, 1, 2;
    }

    /** False when there is no such thread to go to. */
    method ActivateThreadSlot(target: nat) returns (ok: bool)
      requires Valid()
      modifies this`queues, this`current, threads, runQueues, depths, bitmap
      ensures Valid() && View() == Activated(old(View()), target)
      ensures ok <==> old(initialized) && target < old(count)
    {
      hide Requeued, Unqueued, WithState;
      ghost var before := View();
      if !initialized || target >= count {
        return false;
      }
      if current.Some? {
        if current.value == target {
          return true;
        }
        RequeueIfRunning(current.value);
      }
      assert View() == CurrentRequeued(before);
      Remove(target);
      current := Some(target);
      SetState(target, Running);
      return true;
    }

    method SlotWithId(id: nat) returns (slot: Option<nat>)
      requires Valid()
      ensures slot == SlotOfId(View(), id, 0)
    {
      var i := 0;
      while i < count && threads[i].id != id
        invariant i <= count
        invariant SlotOfId(View(), id, 0) == SlotOfId(View(), id, i)
      {
        i := i + 1;
      }
      return if i < count then Some(i) else None;
    }

    method FirstRunnableUserSlot() returns (slot: Option<nat>)
      requires Valid()
      ensures slot == FirstLiveUser(View(), 0)
    {
      var i := 0;
      while i < count && !(threads[i].role == User && threads[i].state != Exited)
        invariant i <= count
        invariant FirstLiveUser(View(), 0) == FirstLiveUser(View(), i)
      {
        i := i + 1;
      }
      return if i < count then Some(i) else None;
    }

    method InitialContextPair() returns (pair: Option<(nat, nat)>)
      requires Valid()
      modifies this`queues, this`current, threads, runQueues, depths, bitmap
      ensures Valid() && View() == BootstrapLeft(old(View()))
      ensures Inv(old(View())) ==> pair == Some((0, LeaveTarget(old(View()))))
    {
      hide WithState, Activated, SlotOfId, FirstLiveUser, LeaveTarget, Inv;
      if Inv(View()) {
        LeaveTargetIsFound(View());
      }
      var bootstrap := SlotWithId(bootstrapId);
      if bootstrap.None? {
        return None;
      }
      SetState(bootstrap.value, Exited);
      var target := FirstRunnableUserSlot();
      if target.None? {
        target := SlotWithId(idleId);
      }
      if target.None? {
        return None;
      }
      var ok := ActivateThreadSlot(target.value);
      return if ok then Some((bootstrap.value, target.value)) else None;
    }

    method RestoreBootstrapAsCurrent()
      requires Valid()
      modifies this`queues, this`current, threads, runQueues, depths, bitmap
      ensures Valid() && View() == BootstrapRestored(old(View()))
    {
      hide WithState, Unqueued, Requeued, SlotOfId;
      var slot := SlotWithId(bootstrapId);
      if slot.None? {
        return;
      }
      for i := 0 to count
        invariant Valid() && View() == RequeuedBelow(old(View()), i)
      {
        RequeueIfRunning(i);
      }
      Remove(slot.value);
      current := slot;
      SetState(slot.value, Running);
    }

    method RequestExitGroup() returns (ended: Option<ExitRecord>)
      requires Valid()
      modifies this`queues, this`current, threads, runQueues, depths, bitmap
      ensures Valid() && View() == GroupExited(old(View()))
      ensures ended.Some? <==> MayExit(old(View()))
      ensures ended.Some? ==> ended.value.next == current && ended.value.exitedThread == old(threads[current.value].id)
      ensures ended.Some? ==> ended.value.exitedCount == Leavers(old(View()), old(threads[current.value].group), old(count))
    {
      hide Dispatched, Best, SlotExited;
      ghost var before := View();
      if !initialized || current.None? {
        return None;
      }
      var thread := threads[current.value];
      if thread.state == Exited || thread.group == 0 {
        return None;
      }
      var exited := 0;
      for i := 0 to count
        invariant Valid() && View() == GroupExitedBelow(before, thread.group, i)
        invariant exited == Leavers(before, thread.group, i)
      {
        NotYetExited(before, thread.group, i, i);
        if Leaves(threads[i], thread.group) {
          exited := exited + 1;
        }
        ExitSlot(i, thread.group);
      }
      current := None;
      assert View() == GroupExitedBelow(before, thread.group, count).(current := None);
      var best := TrailingZeros();
      if best < MAX_PRIORITIES {
        var _ := Dispatch(best);
      }
      return Some(ExitRecord(thread.id, exited, current));
    }

    method ExitSlot(slot: nat, group: nat)
      requires Valid() && slot < MAX_THREADS
      modifies this`queues, threads, runQueues, depths, bitmap
      ensures Valid() && View() == SlotExited(old(View()), slot, group)
    {
      hide Unqueued;
      if Leaves(threads[slot], group) {
        SetState(slot, Exited);
        Remove(slot);
      }
    }
  }

  /** How many of the first n threads an exit of the group ends. */
  function Leavers(s: State, group: nat, n: nat): nat
    requires Shape(s) && n <= MAX_THREADS
  {
    if n == 0 then 0 else Leavers(s, group, n - 1) + if Leaves(s.threads[n - 1], group) then 1 else 0
  }

  lemma {:induction false} NotYetExited(s: State, group: nat, n: nat, slot: nat)
    requires Shape(s) && n <= slot < MAX_THREADS
    ensures GroupExitedBelow(s, group, n).threads[slot] == s.threads[slot]
  {
    if n > 0 {
      NotYetExited(s, group, n - 1, slot);
    }
  }

  lemma {:induction false} CreatedCounts(s: State, process: nat, group: nat, role: Role)
    requires s == Unstarted()
    ensures s.count == 0
    ensures Created(s, process, group, role).count == s.count + 1
    ensures Created(s, process, group, role).nextId == s.nextId + 1
  {
  }

  lemma {:induction false} WithoutAt(q: seq<nat>, slot: nat, i: nat)
    requires i < |q| && q[i] == slot && slot !in q[..i]
    ensures Without(q, slot) == q[..i] + q[i + 1..]
  {
    if i > 0 {
      assert q[..i][0] == q[0];
      assert q[1..][..i - 1] == q[..i][1..];
      WithoutAt(q[1..], slot, i - 1);
    }
  }
}
