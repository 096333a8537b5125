/**
 The lock-free task ring of the heterogeneous scheduler: sixteen cells, each
 with a sequence number and a payload word, shared by any number of submitters
 and dispatchers.

 Every atomic load, store and compare-exchange of the source is one step of a
 machine that interleaves the threads in any order.  A schedule names, for each
 step, the thread that moves and what the environment chooses (the call it
 starts, or whether a weak compare-exchange fails spuriously), so quantifying
 over schedules quantifies over all interleavings.
 */
module TaskRing {
  import opened Bytes

  // ---------------------------------------------------------------- payloads

  /** A `u32` task id and a `u8` lane (0 CPU, 1 GPU, 2 NPU). */
  datatype HardwareTask = HardwareTask(id: nat, target: nat)

  predicate IsHardwareTask(task: HardwareTask) {
    task.id < IDS && task.target < 256
  }

  /** Bit 63 marks the word valid, bits 32 to 39 hold the lane and bits 0 to 31 the id. */
  function Encode(task: HardwareTask): nat {
    HALF + task.target * IDS + task.id
  }

  function Decode(val: nat): Option<HardwareTask> {
    if (val / HALF) % 2 == 0 then None
    else Some(HardwareTask(val % IDS, (val / IDS) % 256))
  }

  /** A payload word fits 64 bits and carries its task faithfully, so distinct tasks get distinct words. */
  lemma {:induction false} DecodeEncode(task: HardwareTask)
    requires IsHardwareTask(task)
    ensures Encode(task) < WORD
    ensures Decode(Encode(task)) == Some(task)
  {
    var val := Encode(task);
    assert val / HALF == 1;
    assert val / IDS == HALF / IDS + task.target;
  }

  // ------------------------------------------------------- machine arithmetic

  const CELLS: nat := 16
  const HALF: nat := 0x8000_0000_0000_0000
  const IDS: nat := 0x1_0000_0000

  /** `a.wrapping_add(b)` on `usize`. */
  function WrapAdd(a: nat, b: nat): nat {
    if a + b < WORD then a + b else a + b - WORD
  }

  lemma {:induction false} WrapAddIsModular(a: nat, b: nat)
    requires a < WORD && b < WORD
    ensures WrapAdd(a, b) == (a + b) % WORD
  {
  }

  /** `a.wrapping_sub(b) as isize`. */
  function SignedDiff(a: nat, b: nat): int {
    var d := if b <= a then a - b else a - b + WORD;
    if d < HALF then d else d - WORD
  }

  // ------------------------------------------------------------------- states

  datatype Cell = Cell(sequence: nat, data: nat)

  /** What a submitter carries: its ticket (the `u32` drawn from `next_id`), its lane and its payload word. */
  datatype Submission = Submission(ticket: nat, target: nat, payload: nat)

  function Prepare(ticket: nat, target: nat): Submission {
    Submission(ticket, target, Encode(HardwareTask(ticket, target)))
  }

  /** Where a thread stands: each constructor names the atomic operation it performs next. */
  datatype Pc =
    | Idle
      // submit_workload
    | LoadTail(sub: Submission)
    | LoadFreeSeq(sub: Submission, pos: nat)
    | CasTail(sub: Submission, pos: nat)
    | StoreData(sub: Submission, pos: nat)
    | Publish(sub: Submission, pos: nat)
      // dispatch_pending
    | LoadHead
    | LoadReadySeq(pos: nat)
    | CasHead(pos: nat)
    | LoadData(pos: nat)
    | Release(pos: nat, val: nat)

  /**
   The shared words, the threads, and what an observer has seen so far.  No step
   reads the observer's part: `claimed[p]` and `writer[p]` record who won
   position p at the tail, `refusedBefore[p]` how many submissions had been
   refused by then, `reader[p]` who won p at the head, and `received` the word
   each dispatcher read.
   */
  datatype State = State(
    cells: seq<Cell>,
    head: nat,
    tail: nat,
    nextId: nat,
    threads: seq<Pc>,
    claimed: seq<Submission>,
    writer: seq<nat>,
    refusedBefore: seq<nat>,
    reader: seq<nat>,
    received: map<nat, nat>,
    refused: nat
  )

  datatype Choice = Submit(target: nat) | Dispatch | Go(spurious: bool)

  datatype Move = Move(thread: nat, choice: Choice)

  function Init(threadCount: nat): State {
    State(seq(CELLS, i requires 0 <= i => Cell(i, 0)), 0, 0, 1, seq(threadCount, i => Idle),
          [], [], [], [], map[], 0)
  }

  function Goto(s: State, t: nat, pc: Pc): State
    requires t < |s.threads|
  {
    s.(threads := s.threads[t := pc])
  }

  function CellAt(s: State, pos: nat): Cell
    requires |s.cells| == CELLS
  {
    s.cells[pos % CELLS]
  }

  function SetCell(s: State, pos: nat, cell: Cell): State
    requires |s.cells| == CELLS
  {
    s.(cells := s.cells[pos % CELLS := cell])
  }

  /** One atomic step of thread `t`. */
  function Step(s: State, t: nat, choice: Choice): State
    requires |s.cells| == CELLS && t < |s.threads|
    ensures |Step(s, t, choice).cells| == CELLS
    ensures |Step(s, t, choice).threads| == |s.threads|
  {
    match s.threads[t]
    case Idle => StartCall(s, t, choice)
    case LoadTail(sub) => Goto(s, t, LoadFreeSeq(sub, s.tail))
    case LoadFreeSeq(sub, pos) => StepLoadFreeSeq(s, t, sub, pos)
    case CasTail(sub, pos) => StepCasTail(s, t, sub, pos, choice)
    case StoreData(sub, pos) =>
      Goto(SetCell(s, pos, CellAt(s, pos).(data := sub.payload)), t, Publish(sub, pos))
    case Publish(sub, pos) =>
      Goto(SetCell(s, pos, CellAt(s, pos).(sequence := WrapAdd(pos, 1))), t, Idle)
    case LoadHead => Goto(s, t, LoadReadySeq(s.head))
    case LoadReadySeq(pos) => StepLoadReadySeq(s, t, pos)
    case CasHead(pos) => StepCasHead(s, t, pos, choice)
    case LoadData(pos) =>
      Goto(s.(received := s.received[pos := CellAt(s, pos).data]), t, Release(pos, CellAt(s, pos).data))
    case Release(pos, val) =>
      Goto(SetCell(s, pos, CellAt(s, pos).(sequence := WrapAdd(pos, 16))), t, LoadReadySeq(WrapAdd(pos, 1)))
  }

  /** An idle thread enters a call; a submission first draws its ticket with `fetch_add`. */
  function StartCall(s: State, t: nat, choice: Choice): State
    requires t < |s.threads|
  {
    match choice
    case Submit(target) =>
      Goto(s, t, LoadTail(Prepare(s.nextId, target % 256))).(nextId := if s.nextId + 1 < IDS then s.nextId + 1 else 0)
    case Dispatch => Goto(s, t, LoadHead)
    case Go(_) => s
  }

  function StepLoadFreeSeq(s: State, t: nat, sub: Submission, pos: nat): State
    requires |s.cells| == CELLS && t < |s.threads|
  {
    var dif := SignedDiff(CellAt(s, pos).sequence, pos);
    if dif == 0 then Goto(s, t, CasTail(sub, pos))
    else if dif < 0 then Goto(s, t, Idle).(refused := s.refused + 1)
    else Goto(s, t, LoadTail(sub))
  }

  function StepCasTail(s: State, t: nat, sub: Submission, pos: nat, choice: Choice): State
    requires t < |s.threads|
  {
    if s.tail == pos && choice != Go(true) then
      Goto(s, t, StoreData(sub, pos)).(
        tail := WrapAdd(pos, 1),
        claimed := s.claimed + [sub],
        writer := s.writer + [t],
        refusedBefore := s.refusedBefore + [s.refused])
    else Goto(s, t, LoadFreeSeq(sub, s.tail))
  }

  function StepLoadReadySeq(s: State, t: nat, pos: nat): State
    requires |s.cells| == CELLS && t < |s.threads|
  {
    var dif := SignedDiff(CellAt(s, pos).sequence, WrapAdd(pos, 1));
    if dif == 0 then Goto(s, t, CasHead(pos))
    else if dif < 0 then Goto(s, t, Idle)
    else Goto(s, t, LoadHead)
  }

  function StepCasHead(s: State, t: nat, pos: nat, choice: Choice): State
    requires t < |s.threads|
  {
    if s.head == pos && choice != Go(true) then
      Goto(s, t, LoadData(pos)).(head := WrapAdd(pos, 1), reader := s.reader + [t])
    else Goto(s, t, LoadReadySeq(s.head))
  }

  type Schedule = seq<Move>

  /** A run of `threadCount` threads; a move that names no thread changes nothing. */
  function Run(threadCount: nat, schedule: Schedule): (s: State)
    ensures |s.cells| == CELLS
    ensures |s.threads| == threadCount
  {
    if schedule == [] then Init(threadCount)
    else
      var s := Run(threadCount, schedule[..|schedule| - 1]);
      var move := schedule[|schedule| - 1];
      if move.thread < threadCount then Step(s, move.thread, move.choice) else s
  }

  // --------------------------------------------------------------- invariants

  /** Position p is waiting between tail and head: published, or still being written by its winner. */
  ghost predicate Pending(s: State, p: nat)
    requires |s.cells| == CELLS && p < |s.claimed| == |s.writer|
  {
    || (CellAt(s, p).sequence == p + 1 && CellAt(s, p).data == s.claimed[p].payload)
    || (CellAt(s, p).sequence == p && WriterAt(s, p))
  }

  ghost predicate WriterAt(s: State, p: nat)
    requires p < |s.claimed| == |s.writer|
  {
    var t := s.writer[p];
    t < |s.threads| &&
    (s.threads[t] == StoreData(s.claimed[p], p) || s.threads[t] == Publish(s.claimed[p], p))
  }

  /** Position p is open for a future claim: free, or its previous occupant is being read out. */
  ghost predicate Vacant(s: State, p: nat)
    requires |s.cells| == CELLS && |s.reader| == s.head
  {
    || CellAt(s, p).sequence == p
    || (CellAt(s, p).sequence == p - 15 && p >= CELLS && p - CELLS < s.head && ReaderAt(s, p - CELLS))
  }

  ghost predicate ReaderAt(s: State, p: nat)
    requires p < s.head == |s.reader|
  {
    var t := s.reader[p];
    t < |s.threads| && match s.threads[t]
    case LoadData(pos) => pos == p
    case Release(pos, _) => pos == p
    case _ => false
  }

  /** What thread t's local position still guarantees. */
  ghost predicate PcOk(s: State, t: nat)
    requires |s.cells| == CELLS && t < |s.threads|
    requires s.tail == |s.claimed| == |s.writer| && s.head == |s.reader| && s.head <= s.tail
  {
    match s.threads[t]
    case Idle => true
    case LoadTail(_) => true
    case LoadFreeSeq(_, pos) => pos <= s.tail
    case CasTail(_, pos) => pos <= s.tail && pos <= CellAt(s, pos).sequence
    case StoreData(sub, pos) =>
      s.head <= pos < s.tail && s.writer[pos] == t && s.claimed[pos] == sub &&
      CellAt(s, pos).sequence == pos
    case Publish(sub, pos) =>
      s.head <= pos < s.tail && s.writer[pos] == t && s.claimed[pos] == sub &&
      CellAt(s, pos) == Cell(pos, sub.payload)
    case LoadHead => true
    case LoadReadySeq(pos) => pos <= s.head
    case CasHead(pos) => pos <= s.head && pos < CellAt(s, pos).sequence
    case LoadData(pos) =>
      pos < s.head && s.tail <= pos + CELLS && s.reader[pos] == t &&
      CellAt(s, pos) == Cell(pos + 1, s.claimed[pos].payload)
    case Release(pos, val) =>
      pos < s.head && s.tail <= pos + CELLS && s.reader[pos] == t &&
      CellAt(s, pos).sequence == pos + 1 && val == s.claimed[pos].payload
  }

  /** Exactly the positions past their dispatcher's load have been received, each with its own word. */
  ghost predicate ReceivedOk(s: State)
    requires s.tail == |s.claimed| && s.head == |s.reader| && s.head <= s.tail
  {
    && (forall p <- s.received :: p < s.head && s.received[p] == s.claimed[p].payload)
    && (forall p | 0 <= p < s.head ::
          p in s.received || (s.reader[p] < |s.threads| && s.threads[s.reader[p]] == LoadData(p)))
    && (forall t | 0 <= t < |s.threads| && s.threads[t].LoadData? :: s.threads[t].pos !in s.received)
  }

  ghost predicate Shape(s: State) {
    && |s.cells| == CELLS
    && s.tail == |s.claimed| == |s.writer| == |s.refusedBefore|
    && s.head == |s.reader|
    && s.head <= s.tail <= s.head + CELLS
  }

  ghost predicate Inv(s: State) {
    && Shape(s)
    && (forall p | s.head <= p < s.tail :: Pending(s, p))
    && (forall p | s.tail <= p < s.head + CELLS :: Vacant(s, p))
    && (forall t | 0 <= t < |s.threads| :: PcOk(s, t))
    && ReceivedOk(s)
  }

  // ------------------------------------------------------ every step keeps them

  lemma {:induction false} InitInv(threadCount: nat)
    ensures Inv(Init(threadCount))
  {
    var s := Init(threadCount);
    assert forall p | s.tail <= p < s.head + CELLS :: Vacant(s, p);
  }

  /** The position a thread is about to win at the tail is free, and the ring has room for it. */
  lemma {:induction false} TailClaimIsFree(s: State, t: nat)
    requires Inv(s) && t < |s.threads|
    requires s.threads[t].CasTail? && s.threads[t].pos == s.tail
    ensures s.tail < s.head + CELLS && CellAt(s, s.tail).sequence == s.tail
  {
    assert PcOk(s, t);
    assert s.tail == s.head + CELLS ==> Pending(s, s.head);
    assert s.tail < s.head + CELLS ==> Vacant(s, s.tail);
  }

  /** The position a thread is about to win at the head has been published. */
  lemma {:induction false} HeadClaimIsPublished(s: State, t: nat)
    requires Inv(s) && t < |s.threads|
    requires s.threads[t].CasHead? && s.threads[t].pos == s.head
    ensures s.head < s.tail
    ensures CellAt(s, s.head) == Cell(s.head + 1, s.claimed[s.head].payload)
  {
    assert PcOk(s, t);
    assert s.head == s.tail ==> Vacant(s, s.head);
    assert s.head < s.tail ==> Pending(s, s.head);
  }

  /** The premises every step lemma shares: `s` satisfies the invariant and no counter is about to wrap. */
  ghost predicate CanStep(s: State, t: nat) {
    Inv(s) && t < |s.threads| && |s.claimed| + 1 + CELLS < WORD
  }

  lemma {:induction false} SlotsApart(p: nat, q: nat)
    ensures p != q && p < q + CELLS && q < p + CELLS ==> p % CELLS != q % CELLS
  {
  }

  predicate Owns(pc: Pc) {
    pc.StoreData? || pc.Publish? || pc.LoadData? || pc.Release?
  }

  /** A step that moves one thread, none of whose old or new positions owns a cell, keeps everything. */
  lemma {:induction false} LocalStepKeeps(s: State, t: nat, s': State)
    requires Inv(s) && t < |s.threads|
    requires |s'.threads| == |s.threads| && s'.threads == s.threads[t := s'.threads[t]]
    requires s' == s.(threads := s'.threads, nextId := s'.nextId, refused := s'.refused)
    requires !Owns(s.threads[t]) && !Owns(s'.threads[t])
    requires PcOk(s', t)
    ensures Inv(s')
  {
    forall p | s'.head <= p < s'.tail ensures Pending(s', p) {
      assert Pending(s, p);
    }
    forall p | s'.tail <= p < s'.head + CELLS ensures Vacant(s', p) {
      assert Vacant(s, p);
    }
    forall u | 0 <= u < |s'.threads| ensures PcOk(s', u) {
      assert PcOk(s, u);
    }
  }

  lemma {:induction false} LocalStepsKeep(s: State, t: nat, choice: Choice)
    requires CanStep(s, t)
    requires var pc := s.threads[t];
      !Owns(pc) && (pc.CasTail? ==> pc.pos != s.tail || choice == Go(true))
      && (pc.CasHead? ==> pc.pos != s.head || choice == Go(true))
    ensures Inv(Step(s, t, choice))
  {
    assert PcOk(s, t);
    LocalStepKeeps(s, t, Step(s, t, choice));
  }

  // A submitter wins the tail.

  lemma {:induction false} CasTailKeepsPositions(s: State, t: nat, choice: Choice, p: nat)
    requires CanStep(s, t) && s.threads[t].CasTail? && s.threads[t].pos == s.tail && choice != Go(true)
    ensures var s' := Step(s, t, choice);
      && Shape(s')
      && (s'.head <= p < s'.tail ==> Pending(s', p))
      && (s'.tail <= p < s'.head + CELLS ==> Vacant(s', p))
  {
    TailClaimIsFree(s, t);
    if s.head <= p < s.tail {
      assert Pending(s, p);
    } else if s.tail <= p < s.head + CELLS {
      assert Vacant(s, p);
    }
  }

  lemma {:induction false} CasTailKeepsPc(s: State, t: nat, choice: Choice, u: nat)
    requires CanStep(s, t) && s.threads[t].CasTail? && s.threads[t].pos == s.tail && choice != Go(true)
    requires u < |s.threads|
    ensures Shape(Step(s, t, choice)) && PcOk(Step(s, t, choice), u)
  {
    TailClaimIsFree(s, t);
    assert PcOk(s, u);
  }

  lemma {:induction false} CasTailKeepsReceived(s: State, t: nat, choice: Choice)
    requires CanStep(s, t) && s.threads[t].CasTail? && s.threads[t].pos == s.tail && choice != Go(true)
    ensures Shape(Step(s, t, choice)) && ReceivedOk(Step(s, t, choice))
  {
    TailClaimIsFree(s, t);
  }

  // The winner writes its payload.

  lemma {:induction false} StoreDataKeepsPositions(s: State, t: nat, choice: Choice, p: nat)
    requires CanStep(s, t) && s.threads[t].StoreData?
    ensures var s' := Step(s, t, choice);
      && Shape(s')
      && (s'.head <= p < s'.tail ==> Pending(s', p))
      && (s'.tail <= p < s'.head + CELLS ==> Vacant(s', p))
  {
    assert PcOk(s, t);
    if s.head <= p < s.tail {
      assert Pending(s, p);
    } else if s.tail <= p < s.head + CELLS {
      assert Vacant(s, p);
    }
  }

  lemma {:induction false} StoreDataKeepsPc(s: State, t: nat, choice: Choice, u: nat)
    requires CanStep(s, t) && s.threads[t].StoreData?
    requires u < |s.threads|
    ensures Shape(Step(s, t, choice)) && PcOk(Step(s, t, choice), u)
  {
    assert PcOk(s, t);
    assert PcOk(s, u);
    if Owns(s.threads[u]) {
      SlotsApart(s.threads[t].pos, s.threads[u].pos);
    }
  }

  lemma {:induction false} StoreDataKeepsReceived(s: State, t: nat, choice: Choice)
    requires CanStep(s, t) && s.threads[t].StoreData?
    ensures Shape(Step(s, t, choice)) && ReceivedOk(Step(s, t, choice))
  {
    assert PcOk(s, t);
  }

  // The winner publishes the cell.

  lemma {:induction false} PublishKeepsPositions(s: State, t: nat, choice: Choice, p: nat)
    requires CanStep(s, t) && s.threads[t].Publish?
    ensures var s' := Step(s, t, choice);
      && Shape(s')
      && (s'.head <= p < s'.tail ==> Pending(s', p))
      && (s'.tail <= p < s'.head + CELLS ==> Vacant(s', p))
  {
    assert PcOk(s, t);
    SlotsApart(s.threads[t].pos, p);
    if s.head <= p < s.tail {
      assert Pending(s, p);
    } else if s.tail <= p < s.head + CELLS {
      assert Vacant(s, p);
    }
  }

  lemma {:induction false} PublishKeepsPc(s: State, t: nat, choice: Choice, u: nat)
    requires CanStep(s, t) && s.threads[t].Publish?
    requires u < |s.threads|
    ensures Shape(Step(s, t, choice)) && PcOk(Step(s, t, choice), u)
  {
    assert PcOk(s, t);
    assert PcOk(s, u);
    if Owns(s.threads[u]) {
      SlotsApart(s.threads[t].pos, s.threads[u].pos);
    }
  }

  lemma {:induction false} PublishKeepsReceived(s: State, t: nat, choice: Choice)
    requires CanStep(s, t) && s.threads[t].Publish?
    ensures Shape(Step(s, t, choice)) && ReceivedOk(Step(s, t, choice))
  {
    assert PcOk(s, t);
  }

  // A dispatcher wins the head.

  lemma {:induction false} CasHeadKeepsPositions(s: State, t: nat, choice: Choice, p: nat)
    requires CanStep(s, t) && s.threads[t].CasHead? && s.threads[t].pos == s.head && choice != Go(true)
    ensures var s' := Step(s, t, choice);
      && Shape(s')
      && (s'.head <= p < s'.tail ==> Pending(s', p))
      && (s'.tail <= p < s'.head + CELLS ==> Vacant(s', p))
  {
    HeadClaimIsPublished(s, t);
    if s.head <= p < s.tail {
      assert Pending(s, p);
    } else if s.tail <= p < s.head + CELLS {
      assert Vacant(s, p);
    }
  }

  lemma {:induction false} CasHeadKeepsPc(s: State, t: nat, choice: Choice, u: nat)
    requires CanStep(s, t) && s.threads[t].CasHead? && s.threads[t].pos == s.head && choice != Go(true)
    requires u < |s.threads|
    ensures Shape(Step(s, t, choice)) && PcOk(Step(s, t, choice), u)
  {
    HeadClaimIsPublished(s, t);
    assert PcOk(s, u);
  }

  lemma {:induction false} CasHeadKeepsReceived(s: State, t: nat, choice: Choice)
    requires CanStep(s, t) && s.threads[t].CasHead? && s.threads[t].pos == s.head && choice != Go(true)
    ensures Shape(Step(s, t, choice)) && ReceivedOk(Step(s, t, choice))
  {
    HeadClaimIsPublished(s, t);
  }

  // The dispatcher reads the payload.

  lemma {:induction false} LoadDataKeepsPositions(s: State, t: nat, choice: Choice, p: nat)
    requires CanStep(s, t) && s.threads[t].LoadData?
    ensures var s' := Step(s, t, choice);
      && Shape(s')
      && (s'.head <= p < s'.tail ==> Pending(s', p))
      && (s'.tail <= p < s'.head + CELLS ==> Vacant(s', p))
  {
    assert PcOk(s, t);
    if s.head <= p < s.tail {
      assert Pending(s, p);
    } else if s.tail <= p < s.head + CELLS {
      assert Vacant(s, p);
    }
  }

  lemma {:induction false} LoadDataKeepsPc(s: State, t: nat, choice: Choice, u: nat)
    requires CanStep(s, t) && s.threads[t].LoadData?
    requires u < |s.threads|
    ensures Shape(Step(s, t, choice)) && PcOk(Step(s, t, choice), u)
  {
    assert PcOk(s, t);
    assert PcOk(s, u);
  }

  lemma {:induction false} LoadDataKeepsReceived(s: State, t: nat, choice: Choice)
    requires CanStep(s, t) && s.threads[t].LoadData?
    ensures Shape(Step(s, t, choice)) && ReceivedOk(Step(s, t, choice))
  {
    assert PcOk(s, t);
    assert forall u | 0 <= u < |s.threads| && s.threads[u].LoadData? :: PcOk(s, u);
  }

  // The dispatcher releases the cell for position p + 16.

  lemma {:induction false} ReleaseKeepsPositions(s: State, t: nat, choice: Choice, p: nat)
    requires CanStep(s, t) && s.threads[t].Release?
    ensures var s' := Step(s, t, choice);
      && Shape(s')
      && (s'.head <= p < s'.tail ==> Pending(s', p))
      && (s'.tail <= p < s'.head + CELLS ==> Vacant(s', p))
  {
    assert PcOk(s, t);
    SlotsApart(s.threads[t].pos, p);
    SlotsApart(s.threads[t].pos + CELLS, p);
    if s.head <= p < s.tail {
      assert Pending(s, p);
    } else if s.tail <= p < s.head + CELLS {
      assert Vacant(s, p);
    }
  }

  lemma {:induction false} ReleaseKeepsPc(s: State, t: nat, choice: Choice, u: nat)
    requires CanStep(s, t) && s.threads[t].Release?
    requires u < |s.threads|
    ensures Shape(Step(s, t, choice)) && PcOk(Step(s, t, choice), u)
  {
    assert PcOk(s, t);
    assert PcOk(s, u);
    if Owns(s.threads[u]) {
      SlotsApart(s.threads[t].pos, s.threads[u].pos);
    }
  }

  lemma {:induction false} ReleaseKeepsReceived(s: State, t: nat, choice: Choice)
    requires CanStep(s, t) && s.threads[t].Release?
    ensures Shape(Step(s, t, choice)) && ReceivedOk(Step(s, t, choice))
  {
    assert PcOk(s, t);
  }

  /** Every atomic step of every thread keeps the invariant. */
  lemma {:induction false} StepKeepsInv(s: State, t: nat, choice: Choice)
    requires CanStep(s, t)
    ensures Inv(Step(s, t, choice))
  {
    var s' := Step(s, t, choice);
    var pc := s.threads[t];
    if pc.CasTail? && pc.pos == s.tail && choice != Go(true) {
      CasTailKeepsReceived(s, t, choice);
      forall p: nat { CasTailKeepsPositions(s, t, choice, p); }
      forall u: nat | u < |s.threads| { CasTailKeepsPc(s, t, choice, u); }
    } else if pc.StoreData? {
      StoreDataKeepsReceived(s, t, choice);
      forall p: nat { StoreDataKeepsPositions(s, t, choice, p); }
      forall u: nat | u < |s.threads| { StoreDataKeepsPc(s, t, choice, u); }
    } else if pc.Publish? {
      PublishKeepsReceived(s, t, choice);
      forall p: nat { PublishKeepsPositions(s, t, choice, p); }
      forall u: nat | u < |s.threads| { PublishKeepsPc(s, t, choice, u); }
    } else if pc.CasHead? && pc.pos == s.head && choice != Go(true) {
      CasHeadKeepsReceived(s, t, choice);
      forall p: nat { CasHeadKeepsPositions(s, t, choice, p); }
      forall u: nat | u < |s.threads| { CasHeadKeepsPc(s, t, choice, u); }
    } else if pc.LoadData? {
      LoadDataKeepsReceived(s, t, choice);
      forall p: nat { LoadDataKeepsPositions(s, t, choice, p); }
      forall u: nat | u < |s.threads| { LoadDataKeepsPc(s, t, choice, u); }
    } else if pc.Release? {
      ReleaseKeepsReceived(s, t, choice);
      forall p: nat { ReleaseKeepsPositions(s, t, choice, p); }
      forall u: nat | u < |s.threads| { ReleaseKeepsPc(s, t, choice, u); }
    } else {
      LocalStepsKeep(s, t, choice);
    }
  }

  // ------------------------------------------------------------------ theorems

  /** The observer's record of claims only grows. */
  lemma {:induction false} ClaimsOnlyGrow(s: State, t: nat, choice: Choice)
    requires |s.cells| == CELLS && t < |s.threads|
    ensures s.claimed <= Step(s, t, choice).claimed
  {
  }

  /** Fewer than 2^64 - 17 positions were ever claimed. */
  predicate Unwrapped(s: State) {
    |s.claimed| + 1 + CELLS < WORD
  }

  /** The invariant holds in every state of every interleaving of any number of threads. */
  lemma {:induction false} RunKeepsInv(threadCount: nat, schedule: Schedule)
    requires Unwrapped(Run(threadCount, schedule))
    ensures Inv(Run(threadCount, schedule))
  {
    if schedule == [] {
      InitInv(threadCount);
    } else {
      var before := schedule[..|schedule| - 1];
      var s := Run(threadCount, before);
      var move := schedule[|schedule| - 1];
      if move.thread < threadCount {
        ClaimsOnlyGrow(s, move.thread, move.choice);
        RunKeepsInv(threadCount, before);
        StepKeepsInv(s, move.thread, move.choice);
      } else {
        RunKeepsInv(threadCount, before);
      }
    }
  }

  /** The submission a thread is carrying, if any. */
  function Carried(pc: Pc): Option<Submission> {
    match pc
    case LoadTail(sub) => Some(sub)
    case LoadFreeSeq(sub, _) => Some(sub)
    case CasTail(sub, _) => Some(sub)
    case StoreData(sub, _) => Some(sub)
    case Publish(sub, _) => Some(sub)
    case _ => None
  }

  ghost predicate IsPrepared(sub: Submission) {
    sub.ticket < IDS && sub.target < 256 && sub == Prepare(sub.ticket, sub.target)
  }

  ghost predicate AllPrepared(s: State) {
    && s.nextId < IDS
    && (forall p | 0 <= p < |s.claimed| :: IsPrepared(s.claimed[p]))
    && (forall t | 0 <= t < |s.threads| :: CarriesPrepared(s.threads[t]))
  }

  ghost predicate CarriesPrepared(pc: Pc) {
    Carried(pc).Some? ==> IsPrepared(Carried(pc).value)
  }

  /** What a moving thread carries is what it carried before, unless it is starting a submission. */
  lemma {:induction false} StepCarries(s: State, t: nat, choice: Choice)
    requires |s.cells| == CELLS && t < |s.threads| && CarriesPrepared(s.threads[t]) && s.nextId < IDS
    ensures Step(s, t, choice).nextId < IDS
    ensures CarriesPrepared(Step(s, t, choice).threads[t])
  {
    hide CellAt, SignedDiff, WrapAdd, Encode, IsPrepared;
    FreshIsPrepared(s.nextId, choice);
  }

  lemma {:induction false} FreshIsPrepared(ticket: nat, choice: Choice)
    requires ticket < IDS
    ensures choice.Submit? ==> IsPrepared(Prepare(ticket, choice.target % 256))
  {
  }

  lemma {:induction false} StepClaims(s: State, t: nat, choice: Choice)
    requires |s.cells| == CELLS && t < |s.threads|
    ensures || Step(s, t, choice).claimed == s.claimed
            || (Carried(s.threads[t]).Some? &&
                Step(s, t, choice).claimed == s.claimed + [Carried(s.threads[t]).value])
  {
  }

  lemma {:induction false} RunKeepsPrepared(threadCount: nat, schedule: Schedule)
    ensures AllPrepared(Run(threadCount, schedule))
  {
    if schedule != [] {
      var before := schedule[..|schedule| - 1];
      var s := Run(threadCount, before);
      var move := schedule[|schedule| - 1];
      RunKeepsPrepared(threadCount, before);
      if move.thread < threadCount {
        StepCarries(s, move.thread, move.choice);
        StepClaims(s, move.thread, move.choice);
        OthersStay(s, move.thread, move.choice);
      }
    }
  }

  lemma {:induction false} OthersStay(s: State, t: nat, choice: Choice)
    requires |s.cells| == CELLS && t < |s.threads|
    ensures forall u | 0 <= u < |s.threads| && u != t :: Step(s, t, choice).threads[u] == s.threads[u]
  {
  }

  /** States some interleaving reaches while fewer than 2^64 - 17 positions have been claimed. */
  ghost predicate Reachable(s: State) {
    Unwrapped(s) && exists threadCount: nat, schedule: Schedule :: s == Run(threadCount, schedule)
  }

  lemma {:induction false} ReachableInv(s: State)
    requires Reachable(s)
    ensures Inv(s) && AllPrepared(s)
  {
    var threadCount: nat, schedule: Schedule :| s == Run(threadCount, schedule);
    RunKeepsInv(threadCount, schedule);
    RunKeepsPrepared(threadCount, schedule);
  }

  /** Position p has been accepted but its cell is not yet free for position p + 16. */
  ghost predicate Unreleased(s: State, p: nat)
    requires s.head == |s.reader|
  {
    p < s.tail && (s.head <= p || ReaderAt(s, p))
  }

  /** What was accepted at position p is still in the ring: its writer holds it, or its cell does. */
  ghost predicate Held(s: State, p: nat)
    requires |s.cells| == CELLS && p < |s.claimed| == |s.writer|
  {
    WriterAt(s, p) || CellAt(s, p) == Cell(p + 1, s.claimed[p].payload)
  }

  /** The ring never holds more than sixteen positions, and every accepted task is read or still held intact. */
  lemma {:induction false} NothingIsLost(s: State, p: nat)
    requires Reachable(s)
    ensures |s.cells| == CELLS
    ensures s.head <= s.tail <= s.head + CELLS
    ensures |s.claimed| == s.tail == |s.writer|
    ensures p < s.tail ==> p in s.received || Held(s, p)
  {
    ReachableInv(s);
    if p < s.head && p !in s.received {
      assert PcOk(s, s.reader[p]);
    } else if s.head <= p < s.tail {
      assert Pending(s, p);
    }
  }

  /**
   Whatever a dispatcher read at position p is the word of the one submission
   that won p at the tail, and decodes to that submission's ticket and lane.
   */
  lemma {:induction false} DispatchersReadWhatWasSubmitted(s: State, p: nat)
    requires Reachable(s) && p in s.received
    ensures p < s.head <= |s.claimed|
    ensures Decode(s.received[p]) == Some(HardwareTask(s.claimed[p].ticket, s.claimed[p].target))
  {
    ReachableInv(s);
    assert IsPrepared(s.claimed[p]);
    PreparedDecodes(s.claimed[p]);
  }

  lemma {:induction false} PreparedDecodes(sub: Submission)
    requires IsPrepared(sub)
    ensures Decode(sub.payload) == Some(HardwareTask(sub.ticket, sub.target))
  {
    DecodeEncode(HardwareTask(sub.ticket, sub.target));
  }

  // --------------------------------------------------- from the call to the dispatcher

  /** Move k of the schedule is the call of idle thread t that asked for this submission: its id and its lane. */
  ghost predicate Asked(threadCount: nat, schedule: Schedule, k: nat, t: nat, sub: Submission) {
    && k < |schedule| && t < threadCount
    && Run(threadCount, schedule[..k]).threads[t] == Idle
    && schedule[k].thread == t && schedule[k].choice.Submit? && sub.target == schedule[k].choice.target % 256
    && sub.ticket == Run(threadCount, schedule[..k]).nextId
  }

  ghost predicate WasAsked(threadCount: nat, schedule: Schedule, t: nat, sub: Submission) {
    exists k: nat :: Asked(threadCount, schedule, k, t, sub)
  }

  /** Everything carried or accepted was asked for by the thread that carries it or won its position. */
  ghost predicate AllAsked(threadCount: nat, schedule: Schedule, s: State) {
    && |s.threads| == threadCount && |s.writer| == |s.claimed|
    && (forall t | 0 <= t < threadCount && Carried(s.threads[t]).Some? ::
          WasAsked(threadCount, schedule, t, Carried(s.threads[t]).value))
    && forall p | 0 <= p < |s.claimed| :: WasAsked(threadCount, schedule, s.writer[p], s.claimed[p])
  }

  lemma {:induction false} AskedStays(threadCount: nat, schedule: Schedule, t: nat, sub: Submission)
    requires schedule != [] && WasAsked(threadCount, schedule[..|schedule| - 1], t, sub)
    ensures WasAsked(threadCount, schedule, t, sub)
  {
    hide Run;
    var front := schedule[..|schedule| - 1];
    var k: nat :| Asked(threadCount, front, k, t, sub);
    assert front[..k] == schedule[..k] && front[k] == schedule[k];
    assert Asked(threadCount, schedule, k, t, sub);
  }

  /** A step of thread t carries on what it carried, or takes up what it is asked for now. */
  lemma {:induction false} StepTakesUp(s: State, t: nat, choice: Choice)
    requires |s.cells| == CELLS && t < |s.threads|
    ensures var carried := Carried(Step(s, t, choice).threads[t]);
            carried.Some? ==>
              if s.threads[t] == Idle then
                choice.Submit? && carried.value.ticket == s.nextId && carried.value.target == choice.target % 256
              else carried == Carried(s.threads[t])
  {
    hide CellAt, SignedDiff, WrapAdd, Encode;
  }

  lemma {:induction false} StepWins(s: State, t: nat, choice: Choice)
    requires |s.cells| == CELLS && t < |s.threads|
    ensures var after := Step(s, t, choice);
            || (after.claimed == s.claimed && after.writer == s.writer)
            || (Carried(s.threads[t]).Some? &&
                after.claimed == s.claimed + [Carried(s.threads[t]).value] && after.writer == s.writer + [t])
  {
    hide CellAt, SignedDiff, WrapAdd, Encode;
  }

  lemma {:induction false} RunAsked(threadCount: nat, schedule: Schedule)
    ensures AllAsked(threadCount, schedule, Run(threadCount, schedule))
  {
    if schedule != [] {
      var n := |schedule| - 1;
      var front, move := schedule[..n], schedule[n];
      var s := Run(threadCount, front);
      RunAsked(threadCount, front);
      if move.thread < threadCount {
        StepTakesUp(s, move.thread, move.choice);
        StepWins(s, move.thread, move.choice);
        OthersStay(s, move.thread, move.choice);
      }
      AskedAfter(threadCount, schedule, s, Run(threadCount, schedule));
    }
  }

  lemma {:induction false} AskedAfter(threadCount: nat, schedule: Schedule, s: State, after: State)
    requires schedule != [] && s == Run(threadCount, schedule[..|schedule| - 1]) && AllAsked(threadCount, schedule[..|schedule| - 1], s)
    requires |after.threads| == threadCount
    requires var move := schedule[|schedule| - 1]; var t := move.thread;
             if t >= threadCount then after == s else
             && (forall u | 0 <= u < threadCount && u != t :: after.threads[u] == s.threads[u])
             && (Carried(after.threads[t]).Some? ==>
                   if s.threads[t] == Idle then
                     move.choice.Submit? && Carried(after.threads[t]).value.ticket == s.nextId
                     && Carried(after.threads[t]).value.target == move.choice.target % 256
                   else Carried(after.threads[t]) == Carried(s.threads[t]))
             && (|| (after.claimed == s.claimed && after.writer == s.writer)
                 || (Carried(s.threads[t]).Some? &&
                     after.claimed == s.claimed + [Carried(s.threads[t]).value] && after.writer == s.writer + [t]))
    ensures AllAsked(threadCount, schedule, after)
  {
    hide Run, WasAsked;
    var n := |schedule| - 1;
    var move := schedule[n];
    forall t | 0 <= t < threadCount && Carried(after.threads[t]).Some?
      ensures WasAsked(threadCount, schedule, t, Carried(after.threads[t]).value)
    {
      if t == move.thread && s.threads[t] == Idle {
        JustAsked(threadCount, schedule, Carried(after.threads[t]).value);
      } else {
        AskedStays(threadCount, schedule, t, Carried(after.threads[t]).value);
      }
    }
    forall p | 0 <= p < |after.claimed|
      ensures WasAsked(threadCount, schedule, after.writer[p], after.claimed[p])
    {
      AskedStays(threadCount, schedule, after.writer[p], after.claimed[p]);
    }
  }

  lemma {:induction false} JustAsked(threadCount: nat, schedule: Schedule, sub: Submission)
    requires schedule != []
    requires var move := schedule[|schedule| - 1]; var s := Run(threadCount, schedule[..|schedule| - 1]);
             && move.thread < threadCount && s.threads[move.thread] == Idle && move.choice.Submit?
             && sub.ticket == s.nextId && sub.target == move.choice.target % 256
    ensures WasAsked(threadCount, schedule, schedule[|schedule| - 1].thread, sub)
  {
    hide Run;
    var k := |schedule| - 1;
    assert Asked(threadCount, schedule, k, schedule[k].thread, sub);
  }

  /**
   From the call to the dispatcher, in every interleaving: the word received for position p
   decodes to the id drawn and the lane asked for by one call in the schedule, made by the
   thread that won p.
   */
  lemma {:induction false} ReceivedIsWhatACallAskedFor(threadCount: nat, schedule: Schedule, p: nat) returns (k: nat, lane: nat)
    requires Unwrapped(Run(threadCount, schedule)) && p in Run(threadCount, schedule).received
    ensures var s := Run(threadCount, schedule);
            && k < |schedule| && p < |s.writer| && s.writer[p] < threadCount
            && schedule[k] == Move(s.writer[p], Submit(lane))
            && Run(threadCount, schedule[..k]).threads[s.writer[p]] == Idle
            && Decode(s.received[p]) == Some(HardwareTask(Run(threadCount, schedule[..k]).nextId, lane % 256))
  {
    var s := Run(threadCount, schedule);
    assert Reachable(s);
    DispatchersReadWhatWasSubmitted(s, p);
    RunAsked(threadCount, schedule);
    hide Run;
    assert WasAsked(threadCount, schedule, s.writer[p], s.claimed[p]);
    k :| Asked(threadCount, schedule, k, s.writer[p], s.claimed[p]);
    lane := schedule[k].choice.target;
  }

  /** Different positions come from different calls. */
  lemma {:induction false} OneCallPerPosition(threadCount: nat, schedule: Schedule, p: nat, q: nat, k: nat)
    requires Drawn(threadCount, schedule) + 2 < IDS && p < |Run(threadCount, schedule).claimed| && q < |Run(threadCount, schedule).claimed|
    requires var s := Run(threadCount, schedule);
             && |s.writer| == |s.claimed| && Asked(threadCount, schedule, k, s.writer[p], s.claimed[p])
             && Asked(threadCount, schedule, k, s.writer[q], s.claimed[q])
    ensures p == q
  {
    hide Run;
    RunKeepsTicketsDistinct(threadCount, schedule);
  }

  /** A position is read once: the read adds a new entry and disturbs no earlier one. */
  lemma {:induction false} EachPositionIsReadOnce(s: State, t: nat, choice: Choice)
    requires Reachable(s) && t < |s.threads|
    requires s.threads[t].LoadData?
    ensures |s.cells| == CELLS
    ensures s.threads[t].pos < |s.claimed|
    ensures s.threads[t].pos !in s.received
    ensures Step(s, t, choice).received ==
            s.received[s.threads[t].pos := s.claimed[s.threads[t].pos].payload]
  {
    ReachableInv(s);
    assert PcOk(s, t);
  }

  /** Once every call has returned, exactly the positions below the head have been read, and the rest are ready. */
  lemma {:induction false} QuiescentRingHasLostNothing(s: State)
    requires Reachable(s)
    requires forall t | 0 <= t < |s.threads| :: s.threads[t].Idle?
    ensures |s.cells| == CELLS && |s.claimed| == s.tail
    ensures forall p: nat :: p in s.received <==> p < s.head
    ensures forall p | s.head <= p < s.tail :: CellAt(s, p) == Cell(p + 1, s.claimed[p].payload)
  {
    ReachableInv(s);
    forall p | s.head <= p < s.tail ensures CellAt(s, p) == Cell(p + 1, s.claimed[p].payload) {
      assert Pending(s, p);
    }
  }

  /** A cell's sequence number only moves forward, through p, p + 1 and p + 16. */
  lemma {:induction false} SequencesOnlyAdvance(s: State, t: nat, choice: Choice, i: nat)
    requires Reachable(s) && t < |s.threads| && i < CELLS
    ensures |s.cells| == CELLS
    ensures var before, after := s.cells[i].sequence, Step(s, t, choice).cells[i].sequence;
      || after == before
      || (before % CELLS == i && after == before + 1)
      || (before >= 1 && (before - 1) % CELLS == i && after == before - 1 + CELLS)
  {
    hide Reachable;
    HolderKnowsSequence(s, t);
    if s.threads[t].Publish? || s.threads[t].Release? {
      var pos := s.threads[t].pos;
      assert i != pos % CELLS ==> Step(s, t, choice).cells[i] == s.cells[i];
    } else {
      assert Step(s, t, choice).cells[i].sequence == s.cells[i].sequence;
    }
  }

  lemma {:induction false} HolderKnowsSequence(s: State, t: nat)
    requires Reachable(s) && t < |s.threads|
    ensures |s.cells| == CELLS
    ensures var pc := s.threads[t]; pc.Publish? ==> CellAt(s, pc.pos).sequence == pc.pos && pc.pos + CELLS < WORD
    ensures var pc := s.threads[t]; pc.Release? ==> CellAt(s, pc.pos).sequence == pc.pos + 1 && pc.pos + CELLS < WORD
  {
    hide Run;
    ReachableInv(s);
    assert PcOk(s, t);
  }

  /**
   "Task queue is full" is returned exactly when, at the moment the sequence
   number was loaded, the submitter's position was the tail and the cell was
   still occupied by the position sixteen places before.
   */
  lemma {:induction false} RefusedExactlyWhenCellUnreleased(s: State, t: nat, choice: Choice)
    requires Reachable(s) && |s.claimed| + CELLS < HALF
    requires t < |s.threads| && s.threads[t].LoadFreeSeq?
    ensures |s.cells| == CELLS && s.head == |s.reader|
    ensures Step(s, t, choice).refused > s.refused
            <==> s.threads[t].pos == s.tail && s.tail >= CELLS && Unreleased(s, s.tail - CELLS)
  {
    hide Inv, Step, Reachable, Unreleased;
    ReachableInv(s);
    SubmitterFacts(s, t);
    SequenceAgainstPosition(s, s.threads[t].pos);
    RefusesOnSmallerSequence(s, t, choice);
  }

  lemma {:induction false} SubmitterFacts(s: State, t: nat)
    requires Inv(s) && t < |s.threads| && s.threads[t].LoadFreeSeq?
    ensures |s.cells| == CELLS && s.head == |s.reader|
    ensures s.threads[t].pos <= s.tail == |s.claimed|
  {
    assert PcOk(s, t);
  }

  lemma {:induction false} RefusesOnSmallerSequence(s: State, t: nat, choice: Choice)
    requires |s.cells| == CELLS && t < |s.threads| && s.threads[t].LoadFreeSeq?
    requires s.threads[t].pos < HALF && CellAt(s, s.threads[t].pos).sequence < HALF
    ensures Step(s, t, choice).refused > s.refused
            <==> CellAt(s, s.threads[t].pos).sequence < s.threads[t].pos
  {
  }

  /** How a cell's sequence number compares with any position a submitter may hold. */
  lemma {:induction false} SequenceAgainstPosition(s: State, pos: nat)
    requires Inv(s) && pos <= s.tail
    ensures CellAt(s, pos).sequence <= s.tail + CELLS
    ensures CellAt(s, pos).sequence < pos
            <==> pos == s.tail && pos >= CELLS && Unreleased(s, pos - CELLS)
  {
    if pos == s.tail {
      SequenceAtTail(s);
    } else if s.head <= pos {
      assert Pending(s, pos);
    } else {
      hide Inv;
      StalePositionWasPassed(s, pos);
    }
  }

  lemma {:induction false} SequenceAtTail(s: State)
    requires Inv(s)
    ensures CellAt(s, s.tail).sequence <= s.tail + CELLS
    ensures CellAt(s, s.tail).sequence < s.tail <==> s.tail >= CELLS && Unreleased(s, s.tail - CELLS)
  {
    assert Shape(s) && s.head <= s.tail <= s.head + CELLS;
    if s.tail < s.head + CELLS {
      assert Vacant(s, s.tail);
      if s.tail >= CELLS && ReaderAt(s, s.tail - CELLS) {
        assert PcOk(s, s.reader[s.tail - CELLS]);
      }
      hide Inv;
      SequenceOfVacantTail(s);
    } else {
      assert Pending(s, s.head);
      hide Inv;
      SequenceOfFullTail(s);
    }
  }

  lemma {:induction false} SequenceOfVacantTail(s: State)
    requires Shape(s) && s.tail < s.head + CELLS && Vacant(s, s.tail)
    requires s.tail >= CELLS && ReaderAt(s, s.tail - CELLS) ==> PcOk(s, s.reader[s.tail - CELLS])
    ensures CellAt(s, s.tail).sequence <= s.tail + CELLS
    ensures CellAt(s, s.tail).sequence < s.tail <==> s.tail >= CELLS && Unreleased(s, s.tail - CELLS)
  {
  }

  lemma {:induction false} SequenceOfFullTail(s: State)
    requires Shape(s) && s.tail == s.head + CELLS && Pending(s, s.head)
    ensures CellAt(s, s.tail).sequence <= s.tail + CELLS
    ensures CellAt(s, s.tail).sequence < s.tail <==> s.tail >= CELLS && Unreleased(s, s.tail - CELLS)
  {
  }

  /** A position the head has passed never looks unclaimed again. */
  lemma {:induction false} StalePositionWasPassed(s: State, pos: nat)
    requires Inv(s) && pos < s.head
    ensures pos < CellAt(s, pos).sequence <= s.tail + CELLS
  {
    var q := s.head + (pos - s.head) % CELLS;
    SameCellFromHead(s.head, pos);
    assert Shape(s) && s.head <= s.tail <= s.head + CELLS;
    if q < s.tail {
      assert Pending(s, q);
    } else {
      assert Vacant(s, q);
    }
    hide Inv, PcOk, ReceivedOk;
  }

  /** The position from the head on that has the same cell. */
  lemma {:induction false} SameCellFromHead(head: nat, pos: nat)
    requires pos < head
    ensures var q := head + (pos - head) % CELLS; head <= q < head + CELLS && q % CELLS == pos % CELLS && pos + CELLS <= q
  {
    var q := head + (pos - head) % CELLS;
    assert q == pos - (pos - head) / CELLS * CELLS;
  }

  // ------------------------------------------------------------------- polling

  /** `sys_heterexec_poll` for a non-zero task id: complete once the head has reached the id. */
  predicate PollReportsComplete(s: State, taskId: nat) {
    taskId <= s.head
  }

  /** A submission that has drawn its ticket but has neither won a position nor been refused. */
  predicate IsDrawing(pc: Pc) {
    pc.LoadTail? || pc.LoadFreeSeq? || pc.CasTail?
  }

  ghost predicate NobodyDraws(s: State) {
    forall t | 0 <= t < |s.threads| :: !IsDrawing(s.threads[t])
  }

  /** No submission draws its ticket while another one is still looking for a position. */
  ghost predicate SubmissionsDoNotOverlap(threadCount: nat, schedule: Schedule) {
    schedule == [] ||
    var before := schedule[..|schedule| - 1];
    var move := schedule[|schedule| - 1];
    && SubmissionsDoNotOverlap(threadCount, before)
    && (move.thread < threadCount && Run(threadCount, before).threads[move.thread].Idle? && move.choice.Submit?
        ==> NobodyDraws(Run(threadCount, before)))
  }

  /** Tickets issued in turn: the next one counts every submission decided or under way. */
  ghost predicate TicketsInTurn(s: State) {
    && |s.claimed| == |s.refusedBefore|
    && (forall p | 0 <= p < |s.claimed| ::
          s.claimed[p].ticket == p + 1 + s.refusedBefore[p] && s.refusedBefore[p] <= s.refused)
    && (forall t, u | 0 <= t < |s.threads| && 0 <= u < |s.threads| ::
          IsDrawing(s.threads[t]) && IsDrawing(s.threads[u]) ==> t == u)
    && (forall t | 0 <= t < |s.threads| && IsDrawing(s.threads[t]) ::
          s.threads[t].sub.ticket + 1 == s.nextId == |s.claimed| + s.refused + 2)
    && (NobodyDraws(s) ==> s.nextId == |s.claimed| + s.refused + 1)
  }

  function Decided(s: State): nat { |s.claimed| + s.refused }

  /** What a step means for tickets: a draw, a search that goes on, a win, a refusal, or nothing. */
  ghost predicate TicketsMove(s: State, s': State, t: nat, choice: Choice)
    requires t < |s.threads| == |s'.threads|
  {
    var pc, pc' := s.threads[t], s'.threads[t];
    && (s'.refused == s.refused || (s'.refused == s.refused + 1 && IsDrawing(pc) && !IsDrawing(pc')))
    && (IsDrawing(pc') ==> IsDrawing(pc) || (pc.Idle? && choice.Submit?))
    && (IsDrawing(pc) && IsDrawing(pc') ==> pc'.sub == pc.sub && s'.refused == s.refused)
    && (if pc.Idle? && choice.Submit?
        then IsDrawing(pc') && pc'.sub.ticket == s.nextId && s'.nextId == s.nextId + 1
        else s'.nextId == s.nextId)
  }

  lemma {:induction false} TicketEffects(s: State, t: nat, choice: Choice)
    requires |s.cells| == CELLS && t < |s.threads| && s.nextId + 1 < IDS
    ensures TicketsMove(s, Step(s, t, choice), t, choice)
  {
    hide TicketsMove;
    if s.threads[t].Idle? {
      DrawEffects(s, t, choice);
    } else if IsDrawing(s.threads[t]) {
      SearchEffects(s, t, choice);
    } else {
      OtherEffects(s, t, choice);
    }
  }

  lemma {:induction false} DrawEffects(s: State, t: nat, choice: Choice)
    requires |s.cells| == CELLS && t < |s.threads| && s.nextId + 1 < IDS && s.threads[t].Idle?
    ensures TicketsMove(s, Step(s, t, choice), t, choice)
  {
    hide CellAt, SignedDiff, WrapAdd;
  }

  lemma {:induction false} SearchEffects(s: State, t: nat, choice: Choice)
    requires |s.cells| == CELLS && t < |s.threads| && IsDrawing(s.threads[t])
    ensures TicketsMove(s, Step(s, t, choice), t, choice)
  {
    hide CellAt, SignedDiff, WrapAdd;
  }

  lemma {:induction false} OtherEffects(s: State, t: nat, choice: Choice)
    requires |s.cells| == CELLS && t < |s.threads| && !s.threads[t].Idle? && !IsDrawing(s.threads[t])
    ensures TicketsMove(s, Step(s, t, choice), t, choice)
  {
    hide SignedDiff, WrapAdd;
  }

  lemma {:induction false} ClaimEffects(s: State, t: nat, choice: Choice)
    requires |s.cells| == CELLS && t < |s.threads|
    ensures var s', pc := Step(s, t, choice), s.threads[t]; var pc' := s'.threads[t];
      || (s'.claimed == s.claimed && s'.refusedBefore == s.refusedBefore
          && (IsDrawing(pc) && !IsDrawing(pc') ==> s'.refused == s.refused + 1))
      || (IsDrawing(pc) && !IsDrawing(pc') && s'.refused == s.refused
          && s'.claimed == s.claimed + [pc.sub] && s'.refusedBefore == s.refusedBefore + [s.refused])
  {
    hide SignedDiff, WrapAdd;
  }

  lemma {:induction false} StepKeepsTicketsInTurn(s: State, t: nat, choice: Choice)
    requires |s.cells| == CELLS && t < |s.threads| && TicketsInTurn(s) && Decided(s) + 3 < IDS
    requires s.threads[t].Idle? && choice.Submit? ==> NobodyDraws(s)
    ensures TicketsInTurn(Step(s, t, choice))
  {
    var s' := Step(s, t, choice);
    assert s.nextId <= Decided(s) + 2;
    TicketEffects(s, t, choice);
    ClaimEffects(s, t, choice);
    OthersStay(s, t, choice);
    InTurnAfter(s, s', t);
  }

  lemma {:induction false} InTurnAfter(s: State, s': State, t: nat)
    requires TicketsInTurn(s) && t < |s.threads| == |s'.threads|
    requires forall u | 0 <= u < |s.threads| && u != t :: s'.threads[u] == s.threads[u]
    requires var pc, pc' := s.threads[t], s'.threads[t];
      || (!IsDrawing(pc) && IsDrawing(pc') && NobodyDraws(s) && pc'.sub.ticket == s.nextId
          && s'.nextId == s.nextId + 1 && s'.refused == s.refused
          && s'.claimed == s.claimed && s'.refusedBefore == s.refusedBefore)
      || (s'.nextId == s.nextId && IsDrawing(pc) && !IsDrawing(pc') && s'.refused == s.refused + 1
          && s'.claimed == s.claimed && s'.refusedBefore == s.refusedBefore)
      || (s'.nextId == s.nextId && IsDrawing(pc) && !IsDrawing(pc') && s'.refused == s.refused
          && s'.claimed == s.claimed + [pc.sub] && s'.refusedBefore == s.refusedBefore + [s.refused])
      || (s'.nextId == s.nextId && IsDrawing(pc) == IsDrawing(pc') && s'.refused == s.refused
          && (IsDrawing(pc) ==> pc'.sub == pc.sub)
          && s'.claimed == s.claimed && s'.refusedBefore == s.refusedBefore)
    ensures TicketsInTurn(s')
  {
    if IsDrawing(s.threads[t]) && !IsDrawing(s'.threads[t]) {
      assert forall u | 0 <= u < |s.threads| && u != t :: !IsDrawing(s.threads[u]);
    } else if NobodyDraws(s') {
      assert NobodyDraws(s);
    }
  }

  lemma {:induction false} SerialRunKeepsTicketsInTurn(threadCount: nat, schedule: Schedule)
    requires SubmissionsDoNotOverlap(threadCount, schedule)
    requires Decided(Run(threadCount, schedule)) + 3 < IDS
    ensures TicketsInTurn(Run(threadCount, schedule))
  {
    if schedule != [] {
      var before := schedule[..|schedule| - 1];
      var s := Run(threadCount, before);
      var move := schedule[|schedule| - 1];
      if move.thread < threadCount {
        DecidedOnlyGrows(s, move.thread, move.choice);
        SerialRunKeepsTicketsInTurn(threadCount, before);
        StepKeepsTicketsInTurn(s, move.thread, move.choice);
      } else {
        SerialRunKeepsTicketsInTurn(threadCount, before);
      }
    }
  }

  lemma {:induction false} DecidedOnlyGrows(s: State, t: nat, choice: Choice)
    requires |s.cells| == CELLS && t < |s.threads|
    ensures Decided(s) <= Decided(Step(s, t, choice))
  {
  }

  /**
   When submissions do not overlap, an accepted submission at position p polls
   complete exactly when the head has passed p by as many places as submissions
   had been refused before it.  So a task is never reported complete before a
   dispatcher claims it, and the report is exact if nothing was refused.
   */
  lemma {:induction false} PollOfAnAcceptedTask(threadCount: nat, schedule: Schedule, p: nat)
    requires SubmissionsDoNotOverlap(threadCount, schedule)
    requires Decided(Run(threadCount, schedule)) + 3 < IDS
    requires p < |Run(threadCount, schedule).claimed|
    ensures var s := Run(threadCount, schedule);
      && |s.refusedBefore| == |s.claimed|
      && s.claimed[p].ticket > 0
      && (PollReportsComplete(s, s.claimed[p].ticket) <==> p + s.refusedBefore[p] < s.head)
      && (PollReportsComplete(s, s.claimed[p].ticket) ==> p < s.head)
      && (s.refusedBefore[p] == 0 ==> (PollReportsComplete(s, s.claimed[p].ticket) <==> p < s.head))
  {
    SerialRunKeepsTicketsInTurn(threadCount, schedule);
  }

  // ------------------------------------------------ polling under any interleaving

  /** How many tickets a run has drawn. */
  function Drawn(threadCount: nat, schedule: Schedule): nat {
    if schedule == [] then 0 else
    var before := schedule[..|schedule| - 1];
    var move := schedule[|schedule| - 1];
    Drawn(threadCount, before) +
      if move.thread < threadCount && Run(threadCount, before).threads[move.thread].Idle? && move.choice.Submit? then 1 else 0
  }

  /** No ticket is held twice, by accepted tasks or by submissions still looking for a position. */
  ghost predicate TicketsDistinct(s: State) {
    && (forall p | 0 <= p < |s.claimed| :: 0 < s.claimed[p].ticket < s.nextId)
    && (forall p, q | 0 <= p < q < |s.claimed| :: s.claimed[p].ticket != s.claimed[q].ticket)
    && (forall t | 0 <= t < |s.threads| && IsDrawing(s.threads[t]) :: DrawsAlone(s, t))
    && (forall t, u | 0 <= t < u < |s.threads| && IsDrawing(s.threads[t]) && IsDrawing(s.threads[u]) ::
          s.threads[t].sub.ticket != s.threads[u].sub.ticket)
  }

  ghost predicate DrawsAlone(s: State, t: nat)
    requires t < |s.threads| && IsDrawing(s.threads[t])
  {
    0 < s.threads[t].sub.ticket < s.nextId &&
    forall p | 0 <= p < |s.claimed| :: s.claimed[p].ticket != s.threads[t].sub.ticket
  }

  lemma {:induction false} StepKeepsTicketsDistinct(s: State, t: nat, choice: Choice)
    requires |s.cells| == CELLS && t < |s.threads| && TicketsDistinct(s) && 0 < s.nextId && s.nextId + 1 < IDS
    ensures TicketsDistinct(Step(s, t, choice))
  {
    hide Step;
    var s' := Step(s, t, choice);
    TicketEffects(s, t, choice);
    ClaimEffects(s, t, choice);
    OthersStay(s, t, choice);
    forall u | 0 <= u < |s'.threads| && IsDrawing(s'.threads[u])
      ensures DrawsAlone(s', u)
    {
      if u != t || IsDrawing(s.threads[t]) {
        assert DrawsAlone(s, u);
      }
    }
  }

  /** Without wrap-around of the 32-bit id, tickets count the draws and no two are alike. */
  lemma {:induction false} RunKeepsTicketsDistinct(threadCount: nat, schedule: Schedule)
    requires Drawn(threadCount, schedule) + 2 < IDS
    ensures TicketsDistinct(Run(threadCount, schedule))
    ensures Run(threadCount, schedule).nextId == Drawn(threadCount, schedule) + 1
  {
    hide Step, TicketsDistinct;
    if schedule == [] {
      assert TicketsDistinct(Run(threadCount, [])) by { InitTicketsDistinct(threadCount); }
    } else {
      var before := schedule[..|schedule| - 1];
      var s := Run(threadCount, before);
      var move := schedule[|schedule| - 1];
      RunKeepsTicketsDistinct(threadCount, before);
      if move.thread < threadCount {
        TicketEffects(s, move.thread, move.choice);
        StepKeepsTicketsDistinct(s, move.thread, move.choice);
      }
    }
  }

  lemma {:induction false} InitTicketsDistinct(threadCount: nat)
    ensures TicketsDistinct(Init(threadCount))
  {
  }

  // ------------------------------------------------------------------ overtaking

  predicate IsTicket(claimed: seq<Submission>, n: nat, k: nat)
    requires n <= |claimed|
  {
    exists q :: 0 <= q < n && claimed[q].ticket == k
  }

  /** The earlier positions taken by later tickets than k. */
  ghost function Overtakers(claimed: seq<Submission>, n: nat, k: nat): set<nat>
    requires n <= |claimed|
  {
    set q: nat | q < n && claimed[q].ticket > k
  }

  /** The earlier tickets than k that have none of the earlier positions: refused, still looking, or placed later. */
  ghost function Missing(claimed: seq<Submission>, n: nat, k: nat): set<nat>
    requires n <= |claimed|
  {
    set j: nat | 1 <= j < k && !IsTicket(claimed, n, j)
  }

  predicate DistinctBefore(claimed: seq<Submission>, n: nat, k: nat)
    requires n <= |claimed|
  {
    && (forall q | 0 <= q < n :: claimed[q].ticket > 0 && claimed[q].ticket != k)
    && forall q, r | 0 <= q < r < n :: claimed[q].ticket != claimed[r].ticket
  }

  /** Among n distinct tickets other than k: those above k plus the n that remain account for all below k. */
  lemma {:induction false} TicketsAccountedFor(claimed: seq<Submission>, n: nat, k: nat)
    requires n <= |claimed| && k > 0 && DistinctBefore(claimed, n, k)
    ensures n + |Missing(claimed, n, k)| == k - 1 + |Overtakers(claimed, n, k)|
  {
    hide Overtakers, Missing;
    if n == 0 {
      NothingPlaced(claimed, k);
    } else {
      TicketsAccountedFor(claimed, n - 1, k);
      OvertakersStep(claimed, n, k);
      MissingStep(claimed, n, k);
    }
  }

  lemma {:induction false} NothingPlaced(claimed: seq<Submission>, k: nat)
    requires k > 0
    ensures |Missing(claimed, 0, k)| == k - 1 && |Overtakers(claimed, 0, k)| == 0
  {
    assert Missing(claimed, 0, k) == Below(k);
    assert Overtakers(claimed, 0, k) == {};
  }

  lemma {:induction false} OvertakersStep(claimed: seq<Submission>, n: nat, k: nat)
    requires 0 < n <= |claimed|
    ensures |Overtakers(claimed, n, k)| == |Overtakers(claimed, n - 1, k)| + if claimed[n - 1].ticket > k then 1 else 0
  {
    var more := if claimed[n - 1].ticket > k then {n - 1} else {};
    assert Overtakers(claimed, n, k) == Overtakers(claimed, n - 1, k) + more;
  }

  lemma {:induction false} MissingStep(claimed: seq<Submission>, n: nat, k: nat)
    requires 0 < n <= |claimed| && DistinctBefore(claimed, n, k)
    ensures |Missing(claimed, n, k)| == |Missing(claimed, n - 1, k)| - if claimed[n - 1].ticket < k then 1 else 0
  {
    var before, t := Missing(claimed, n - 1, k), claimed[n - 1].ticket;
    TicketStep(claimed, n);
    assert Missing(claimed, n, k) == before - {t};
    assert t < k ==> t in before;
  }

  lemma {:induction false} TicketStep(claimed: seq<Submission>, n: nat)
    requires 0 < n <= |claimed|
    ensures forall j: nat :: IsTicket(claimed, n, j) <==> IsTicket(claimed, n - 1, j) || j == claimed[n - 1].ticket
  {
  }

  ghost function Below(k: nat): (numbers: set<nat>)
    ensures forall j: nat :: j in numbers <==> 1 <= j < k
    ensures k > 0 ==> |numbers| == k - 1
  {
    if k <= 1 then {} else Below(k - 1) + {k - 1}
  }

  /** More later tickets got ahead of position p than earlier tickets are missing before it. */
  ghost predicate Overtaken(s: State, p: nat)
    requires p < |s.claimed|
  {
    |Overtakers(s.claimed, p, s.claimed[p].ticket)| > |Missing(s.claimed, p, s.claimed[p].ticket)|
  }

  /** A task's ticket is at most its position exactly when it was overtaken. */
  lemma {:induction false} SmallTicketIffOvertaken(s: State, p: nat)
    requires TicketsDistinct(s) && p < |s.claimed|
    ensures s.claimed[p].ticket <= p <==> Overtaken(s, p)
  {
    hide Overtakers, Missing;
    TicketsAccountedFor(s.claimed, p, s.claimed[p].ticket);
  }

  /** The poll says complete, but no dispatcher has claimed the task. */
  predicate PolledEarly(s: State, p: nat) {
    p < |s.claimed| && PollReportsComplete(s, s.claimed[p].ticket) && s.head <= p
  }

  /** In every state of every run: which accepted tasks a poll reports too early at that moment. */
  lemma {:induction false} PolledEarlyIff(threadCount: nat, schedule: Schedule, p: nat)
    requires Drawn(threadCount, schedule) + 2 < IDS
    requires p < |Run(threadCount, schedule).claimed|
    ensures var s := Run(threadCount, schedule);
      PolledEarly(s, p) <==> Overtaken(s, p) && s.claimed[p].ticket <= s.head <= p
  {
    hide Run, TicketsDistinct, Overtaken;
    RunKeepsTicketsDistinct(threadCount, schedule);
    SmallTicketIffOvertaken(Run(threadCount, schedule), p);
  }

  /** Positions and tickets of accepted tasks never change. */
  lemma {:induction false} AcceptedForGood(threadCount: nat, schedule: Schedule, n: nat)
    requires n <= |schedule|
    ensures Run(threadCount, schedule[..n]).claimed <= Run(threadCount, schedule).claimed
    decreases |schedule| - n
  {
    hide Step;
    if n == |schedule| {
      assert schedule[..n] == schedule;
    } else {
      assert schedule[..n + 1][..n] == schedule[..n];
      var move := schedule[n];
      if move.thread < threadCount {
        ClaimsOnlyGrow(Run(threadCount, schedule[..n]), move.thread, move.choice);
      }
      AcceptedForGood(threadCount, schedule, n + 1);
    }
  }

  lemma {:induction false} DrawnOnlyGrows(threadCount: nat, schedule: Schedule, n: nat)
    requires n <= |schedule|
    ensures Drawn(threadCount, schedule[..n]) <= Drawn(threadCount, schedule)
    decreases |schedule| - n
  {
    hide Run;
    if n == |schedule| {
      assert schedule[..n] == schedule;
    } else {
      assert schedule[..n + 1][..n] == schedule[..n];
      DrawnOnlyGrows(threadCount, schedule, n + 1);
    }
  }

  /** Whether a task was overtaken is settled when it is accepted. */
  lemma {:induction false} OvertakenForGood(s: State, s': State, p: nat)
    requires p < |s.claimed| && s.claimed <= s'.claimed
    ensures Overtaken(s, p) <==> Overtaken(s', p)
  {
    var k := s.claimed[p].ticket;
    assert s'.claimed[p] == s.claimed[p];
    assert forall q | 0 <= q < p :: s'.claimed[q] == s.claimed[q];
    assert Overtakers(s.claimed, p, k) == Overtakers(s'.claimed, p, k);
    forall j: nat
      ensures IsTicket(s.claimed, p, j) <==> IsTicket(s'.claimed, p, j)
    {
      if IsTicket(s.claimed, p, j) {
        var q :| 0 <= q < p && s.claimed[q].ticket == j;
        assert s'.claimed[q].ticket == j;
      }
    }
    assert Missing(s.claimed, p, k) == Missing(s'.claimed, p, k);
  }

  /** The head passes a position in one step, out of a state in which the position is accepted. */
  lemma {:induction false} HeadPasses(s: State, t: nat, choice: Choice, p: nat)
    requires Inv(s) && Unwrapped(s) && t < |s.threads| && s.head <= p < Step(s, t, choice).head
    ensures s.head == p < |s.claimed|
  {
    HeadMoves(s, t, choice);
    hide Step, Inv;
    assert s.threads[t].CasHead? && s.threads[t].pos == s.head;
    HeadClaimIsPublished(s, t);
    TailIsClaims(s);
  }

  lemma {:induction false} TailIsClaims(s: State)
    requires Inv(s)
    ensures s.tail == |s.claimed|
  {
  }

  lemma {:induction false} HeadMoves(s: State, t: nat, choice: Choice)
    requires |s.cells| == CELLS && t < |s.threads|
    ensures var after := Step(s, t, choice).head;
      after == s.head || (s.threads[t].CasHead? && s.threads[t].pos == s.head && after == WrapAdd(s.head, 1))
  {
    hide SignedDiff, WrapAdd, CellAt;
  }

  /** Just before a dispatcher claims a position, the head stands at it. */
  lemma {:induction false} ClaimedFromTheHead(threadCount: nat, schedule: Schedule, p: nat)
    requires Unwrapped(Run(threadCount, schedule)) && p < Run(threadCount, schedule).head
    ensures exists n :: 0 <= n <= |schedule| && AtHead(Run(threadCount, schedule[..n]), p)
  {
    hide Step, Inv, AtHead;
    if schedule != [] {
      var n := |schedule| - 1;
      var before := schedule[..n];
      var s, move := Run(threadCount, before), schedule[n];
      AcceptedForGood(threadCount, schedule, n);
      if p < s.head {
        ClaimedFromTheHead(threadCount, before, p);
        var m :| 0 <= m <= n && AtHead(Run(threadCount, before[..m]), p);
        assert before[..m] == schedule[..m];
      } else {
        RunKeepsInv(threadCount, before);
        HeadPasses(s, move.thread, move.choice, p);
        assert AtHead(s, p) by { AtHeadHolds(s, p); }
      }
    }
  }

  predicate AtHead(s: State, p: nat) {
    s.head == p < |s.claimed|
  }

  lemma {:induction false} AtHeadHolds(s: State, p: nat)
    requires s.head == p < |s.claimed|
    ensures AtHead(s, p)
  {
  }

  ghost predicate PolledEarlyDuring(threadCount: nat, schedule: Schedule, p: nat) {
    exists n :: 0 <= n <= |schedule| && PolledEarly(Run(threadCount, schedule[..n]), p)
  }

  /**
   The exact condition, over whole runs: for a task whose position some dispatcher has
   claimed, a poll was too early at some moment if and only if the task was overtaken. For
   any accepted task a poll is too early only if it was overtaken.
   */
  lemma {:induction false} PolledEarlyIffOvertaken(threadCount: nat, schedule: Schedule, p: nat)
    requires Drawn(threadCount, schedule) + 2 < IDS && Unwrapped(Run(threadCount, schedule))
    requires p < |Run(threadCount, schedule).claimed|
    ensures PolledEarlyDuring(threadCount, schedule, p) ==> Overtaken(Run(threadCount, schedule), p)
    ensures p < Run(threadCount, schedule).head && Overtaken(Run(threadCount, schedule), p) ==>
              PolledEarlyDuring(threadCount, schedule, p)
  {
    hide Run, Overtaken, Unwrapped, Drawn, PolledEarly, AtHead;
    var s := Run(threadCount, schedule);
    if n :| 0 <= n <= |schedule| && PolledEarly(Run(threadCount, schedule[..n]), p) {
      EarlyMomentIsOvertaken(threadCount, schedule, p, n);
    }
    if p < s.head && Overtaken(s, p) {
      ClaimedFromTheHead(threadCount, schedule, p);
      var n :| 0 <= n <= |schedule| && AtHead(Run(threadCount, schedule[..n]), p);
      OvertakenAtHeadIsEarly(threadCount, schedule, p, n);
    }
  }

  lemma {:induction false} EarlyMomentIsOvertaken(threadCount: nat, schedule: Schedule, p: nat, n: nat)
    requires Drawn(threadCount, schedule) + 2 < IDS && n <= |schedule|
    requires PolledEarly(Run(threadCount, schedule[..n]), p)
    ensures p < |Run(threadCount, schedule).claimed| && Overtaken(Run(threadCount, schedule), p)
  {
    hide Run, Overtaken, Drawn;
    DrawnOnlyGrows(threadCount, schedule, n);
    PolledEarlyIff(threadCount, schedule[..n], p);
    AcceptedForGood(threadCount, schedule, n);
    OvertakenForGood(Run(threadCount, schedule[..n]), Run(threadCount, schedule), p);
  }

  lemma {:induction false} OvertakenAtHeadIsEarly(threadCount: nat, schedule: Schedule, p: nat, n: nat)
    requires Drawn(threadCount, schedule) + 2 < IDS && n <= |schedule|
    requires AtHead(Run(threadCount, schedule[..n]), p) && p < |Run(threadCount, schedule).claimed|
    requires Overtaken(Run(threadCount, schedule), p)
    ensures PolledEarly(Run(threadCount, schedule[..n]), p)
  {
    hide Run, Overtaken, Drawn, TicketsDistinct;
    DrawnOnlyGrows(threadCount, schedule, n);
    RunKeepsTicketsDistinct(threadCount, schedule[..n]);
    AcceptedForGood(threadCount, schedule, n);
    OvertakenForGood(Run(threadCount, schedule[..n]), Run(threadCount, schedule), p);
    SmallTicketIffOvertaken(Run(threadCount, schedule[..n]), p);
  }

  /** A task no later ticket got ahead of is never reported early; when submissions do not overlap that is every task. */
  lemma {:induction false} NotOvertakenNeverEarly(threadCount: nat, schedule: Schedule, p: nat)
    requires Drawn(threadCount, schedule) + 2 < IDS && Unwrapped(Run(threadCount, schedule))
    requires p < |Run(threadCount, schedule).claimed|
    requires var c := Run(threadCount, schedule).claimed; forall q | 0 <= q < p :: c[q].ticket < c[p].ticket
    ensures !PolledEarlyDuring(threadCount, schedule, p)
  {
    hide Run, Unwrapped, Drawn, PolledEarlyDuring;
    var c := Run(threadCount, schedule).claimed;
    PolledEarlyIffOvertaken(threadCount, schedule, p);
    assert Overtakers(c, p, c[p].ticket) == {};
  }

  /**
   Two overlapping submissions: the second wins position 0 and is dispatched while the
   first still looks for a place; then the first wins position 1 and returns.
   */
  function OverlappingSchedule(): Schedule {
    [Move(0, Submit(0)), Move(1, Submit(1)),
     Move(1, Go(false)), Move(1, Go(false)), Move(1, Go(false)), Move(1, Go(false)), Move(1, Go(false)),
     Move(1, Dispatch), Move(1, Go(false)), Move(1, Go(false)), Move(1, Go(false)),
     Move(0, Go(false)), Move(0, Go(false)), Move(0, Go(false)), Move(0, Go(false)), Move(0, Go(false))]
  }

  lemma {:induction false} RunLast(threadCount: nat, schedule: Schedule, move: Move)
    requires move.thread < threadCount
    ensures Run(threadCount, schedule + [move]) == Step(Run(threadCount, schedule), move.thread, move.choice)
  {
    assert (schedule + [move])[..|schedule|] == schedule;
  }

  function AfterSearch(): State {
    Init(2).(threads := [LoadTail(Prepare(1, 0)), CasTail(Prepare(2, 1), 0)], nextId := 3)
  }

  function AfterSecondSubmission(): State {
    var second := Prepare(2, 1);
    Init(2).(cells := Init(2).cells[0 := Cell(1, second.payload)], tail := 1, nextId := 3,
             threads := [LoadTail(Prepare(1, 0)), Idle],
             claimed := [second], writer := [1], refusedBefore := [0])
  }

  lemma {:induction false} RunNothing(threadCount: nat)
    ensures Run(threadCount, []) == Init(threadCount)
  {
  }

  function AfterDraws(): State {
    Init(2).(threads := [LoadTail(Prepare(1, 0)), LoadTail(Prepare(2, 1))], nextId := 3)
  }

  lemma {:induction false} OverlapUpToDraws()
    ensures Run(2, OverlappingSchedule()[..2]) == AfterDraws()
  {
    hide Encode, Run;
    var m := OverlappingSchedule();
    RunNothing(2);
    assert m[..1] == [] + [m[0]];
    RunLast(2, [], m[0]);
    assert m[..2] == m[..1] + [m[1]];
    RunLast(2, m[..1], m[1]);
  }

  lemma {:induction false} OverlapUpToSearch()
    ensures Run(2, OverlappingSchedule()[..4]) == AfterSearch()
  {
    hide Encode, Run;
    var m := OverlappingSchedule();
    OverlapUpToDraws();
    assert m[..3] == m[..2] + [m[2]];
    RunLast(2, m[..2], m[2]);
    assert m[..4] == m[..3] + [m[3]];
    RunLast(2, m[..3], m[3]);
  }

  function AfterSecondClaim(): State {
    var second := Prepare(2, 1);
    Init(2).(tail := 1, nextId := 3, threads := [LoadTail(Prepare(1, 0)), StoreData(second, 0)],
             claimed := [second], writer := [1], refusedBefore := [0])
  }

  lemma {:induction false} OverlapUpToClaim()
    ensures Run(2, OverlappingSchedule()[..5]) == AfterSecondClaim()
  {
    hide Encode, Run;
    var m := OverlappingSchedule();
    OverlapUpToSearch();
    assert m[..5] == m[..4] + [m[4]];
    RunLast(2, m[..4], m[4]);
  }

  lemma {:induction false} OverlapUpToPublication()
    ensures Run(2, OverlappingSchedule()[..7]) == AfterSecondSubmission()
  {
    hide Encode, Run;
    var m := OverlappingSchedule();
    OverlapUpToClaim();
    assert m[..6] == m[..5] + [m[5]];
    RunLast(2, m[..5], m[5]);
    assert m[..7] == m[..6] + [m[6]];
    RunLast(2, m[..6], m[6]);
  }

  function AfterDispatchClaim(): State {
    AfterSecondSubmission().(head := 1, threads := [LoadTail(Prepare(1, 0)), LoadData(0)], reader := [1])
  }

  lemma {:induction false} OverlapUpToDispatch()
    ensures Run(2, OverlappingSchedule()[..11]) == AfterDispatchClaim()
  {
    hide Encode, Run;
    var m := OverlappingSchedule();
    OverlapUpToPublication();
    assert m[..8] == m[..7] + [m[7]];
    RunLast(2, m[..7], m[7]);
    assert m[..9] == m[..8] + [m[8]];
    RunLast(2, m[..8], m[8]);
    assert m[..10] == m[..9] + [m[9]];
    RunLast(2, m[..9], m[9]);
    assert m[..11] == m[..10] + [m[10]];
    RunLast(2, m[..10], m[10]);
  }

  function AfterFirstWins(): State {
    AfterDispatchClaim().(tail := 2, threads := [StoreData(Prepare(1, 0), 1), LoadData(0)],
      claimed := [Prepare(2, 1), Prepare(1, 0)], writer := [1, 0], refusedBefore := [0, 0])
  }

  lemma {:induction false} OverlapUpToWin()
    ensures Run(2, OverlappingSchedule()[..14]) == AfterFirstWins()
  {
    hide Encode, Run;
    var m := OverlappingSchedule();
    OverlapUpToDispatch();
    assert m[..12] == m[..11] + [m[11]];
    RunLast(2, m[..11], m[11]);
    assert m[..13] == m[..12] + [m[12]];
    RunLast(2, m[..12], m[12]);
    assert m[..14] == m[..13] + [m[13]];
    RunLast(2, m[..13], m[13]);
  }

  /** The first submission has been accepted, at position 1, and its call has returned; a poll of it says complete. */
  lemma {:induction false} OverlapMisleadsPoll()
    ensures var s := Run(2, OverlappingSchedule());
      && |s.claimed| == 2 && s.claimed[1] == Prepare(1, 0) && s.threads[0] == Idle
      && PollReportsComplete(s, 1) && s.head <= 1
      && PolledEarly(s, 1)
  {
    hide Encode, Run;
    var m := OverlappingSchedule();
    OverlapUpToWin();
    assert m[..15] == m[..14] + [m[14]];
    RunLast(2, m[..14], m[14]);
    assert m == m[..15] + [m[15]];
    RunLast(2, m[..15], m[15]);
  }
}
