/**
 Native memory regions of processes: a table of 64 process records with 128 region
 records each, and the first-fit search that places a region when the caller gives no
 address.
 */
module NativeRegions {
  import opened Bytes

  const SEARCH_BASE: nat := 0x4000_0000_0000
  const MAX_PROCESSES: nat := 64
  const MAX_REGIONS: nat := 128

  datatype Region = Region(start: nat, end: nat, flags: nat, used: bool)
  datatype Process = Process(id: nat, active: bool, regions: seq<Region>)
  datatype Call = Call(pid: nat, hint: nat, len: nat, flags: nat)

  /** `process` and `region` name the records that were used. */
  datatype Outcome =
    | Mapped(process: nat, region: nat, address: nat)
    | OutOfMemory(process: nat)
    | NoProcessSlot

  // ------------------------------------------------------------ a single process

  /** The test of the search loop: the record is used and meets [address, address + len). */
  predicate Blocks(r: Region, address: nat, len: nat) {
    r.used && r.start < address + len && r.end > address
  }

  predicate Free(regions: seq<Region>, address: nat, len: nat) {
    forall k | 0 <= k < |regions| :: !Blocks(regions[k], address, len)
  }

  ghost predicate LeastFree(regions: seq<Region>, len: nat, address: nat) {
    && SEARCH_BASE <= address
    && Free(regions, address, len)
    && forall a | SEARCH_BASE <= a < address :: !Free(regions, a, len)
  }

  predicate Crosses(r: Region, s: Region) {
    r.start < s.end && s.start < r.end
  }

  /** Distinct used records share no address. */
  predicate Apart(regions: seq<Region>) {
    forall i, j | 0 <= i < |regions| && 0 <= j < |regions| && i != j && regions[i].used && regions[j].used ::
      !Crosses(regions[i], regions[j])
  }

  predicate Aligned(regions: seq<Region>) {
    forall k | 0 <= k < |regions| && regions[k].used ::
      regions[k].start <= regions[k].end && regions[k].start % PAGE_BYTES == 0 && regions[k].end % PAGE_BYTES == 0
  }

  predicate Tidy(regions: seq<Region>) {
    Aligned(regions) && Apart(regions)
  }

  predicate Holds(r: Region, address: nat) {
    r.used && r.start <= address < r.end
  }

  /** No address belongs to two used regions. */
  lemma {:induction false} TidyRegionsShareNothing(regions: seq<Region>, i: nat, j: nat, address: nat)
    requires Tidy(regions) && i < |regions| && j < |regions| && Holds(regions[i], address) && Holds(regions[j], address)
    ensures i == j
  {
    var r, s := regions[i], regions[j];
    assert Crosses(r, s);
  }

  /** The region of a faulting address: the first one found, and the only one among tidy records. */
  method RegionAt(regions: seq<Region>, address: nat) returns (found: Option<nat>)
    ensures found.None? <==> forall k | 0 <= k < |regions| :: !Holds(regions[k], address)
    ensures found.Some? ==> found.value < |regions| && Holds(regions[found.value], address)
    ensures found.Some? ==> forall k | 0 <= k < found.value :: !Holds(regions[k], address)
    ensures found.Some? && Tidy(regions) ==> forall k | 0 <= k < |regions| && Holds(regions[k], address) :: k == found.value
  {
    hide Tidy;
    for i := 0 to |regions|
      invariant forall k | 0 <= k < i :: !Holds(regions[k], address)
    {
      if Holds(regions[i], address) {
        if Tidy(regions) {
          forall k | 0 <= k < |regions| && Holds(regions[k], address)
            ensures k == i
          {
            TidyRegionsShareNothing(regions, i, k, address);
          }
        }
        return Some(i);
      }
    }
    return None;
  }

  /** The used records alone decide where the search ends, not their order or their flags. */
  lemma {:induction false} OrderDoesNotMatter(p: seq<Region>, q: seq<Region>, len: nat, a: nat, b: nat)
    requires forall k | 0 <= k < |p| && p[k].used :: exists m :: 0 <= m < |q| && SameRange(p[k], q[m])
    requires forall m | 0 <= m < |q| && q[m].used :: exists k :: 0 <= k < |p| && SameRange(q[m], p[k])
    requires LeastFree(p, len, a) && LeastFree(q, len, b)
    ensures a == b
  {
    FreeInBoth(p, q, len, b);
    FreeInBoth(q, p, len, a);
  }

  predicate SameRange(r: Region, s: Region) {
    r.used && s.used && r.start == s.start && r.end == s.end
  }

  lemma {:induction false} FreeInBoth(p: seq<Region>, q: seq<Region>, len: nat, address: nat)
    requires forall k | 0 <= k < |p| && p[k].used :: exists m :: 0 <= m < |q| && SameRange(p[k], q[m])
    requires Free(q, address, len)
    ensures Free(p, address, len)
  {
    forall k | 0 <= k < |p|
      ensures !Blocks(p[k], address, len)
    {
      if p[k].used {
        var m :| 0 <= m < |q| && SameRange(p[k], q[m]);
        assert !Blocks(q[m], address, len);
      }
    }
  }

  /** Every address skipped by moving to the end of a blocking record is itself blocked. */
  lemma {:induction false} SkippedAddressesAreBlocked(regions: seq<Region>, k: nat, len: nat, from: nat)
    requires k < |regions| && Blocks(regions[k], from, len)
    ensures forall a | from <= a < regions[k].end :: !Free(regions, a, len)
  {
    forall a | from <= a < regions[k].end
      ensures !Free(regions, a, len)
    {
      assert Blocks(regions[k], a, len);
    }
  }

  function Highest(regions: seq<Region>): nat {
    if |regions| == 0 then SEARCH_BASE else
    var rest := Highest(regions[..|regions| - 1]);
    if regions[|regions| - 1].end > rest then regions[|regions| - 1].end else rest
  }

  lemma {:induction false} EndsBelowHighest(regions: seq<Region>, k: nat)
    requires k < |regions|
    ensures SEARCH_BASE <= regions[k].end ==> regions[k].end <= Highest(regions)
    ensures SEARCH_BASE <= Highest(regions)
  {
    if k < |regions| - 1 {
      EndsBelowHighest(regions[..|regions| - 1], k);
    } else {
      BaseBelowHighest(regions[..|regions| - 1]);
    }
  }

  lemma {:induction false} BaseBelowHighest(regions: seq<Region>)
    ensures SEARCH_BASE <= Highest(regions)
  {
    if |regions| > 0 {
      BaseBelowHighest(regions[..|regions| - 1]);
    }
  }

  method FirstBlocking(regions: seq<Region>, address: nat, len: nat) returns (k: nat)
    ensures k <= |regions|
    ensures k < |regions| ==> Blocks(regions[k], address, len)
    ensures k == |regions| <==> Free(regions, address, len)
  {
    k := 0;
    while k < |regions|
      invariant k <= |regions|
      invariant forall j | 0 <= j < k :: !Blocks(regions[j], address, len)
    {
      if Blocks(regions[k], address, len) {
        return;
      }
      k := k + 1;
    }
  }

  predicate EndsFit(regions: seq<Region>, len: nat) {
    SEARCH_BASE + len < WORD && forall k | 0 <= k < |regions| && regions[k].used :: regions[k].end + len < WORD
  }

  /** The search ends, at the least free address, without a sum leaving 64 bits. */
  method Search(regions: seq<Region>, len: nat) returns (address: nat)
    requires EndsFit(regions, len)
    ensures LeastFree(regions, len, address)
    ensures address + len < WORD
    ensures address == SEARCH_BASE || exists k :: 0 <= k < |regions| && regions[k].used && regions[k].end == address
  {
    hide Highest, Free, EndsFit;
    address := SEARCH_BASE;
    BaseBelowHighest(regions);
    assert address + len < WORD by { AddressFits(regions, len, address); }
    while true
      invariant SEARCH_BASE <= address <= Highest(regions)
      invariant address + len < WORD
      invariant forall a | SEARCH_BASE <= a < address :: !Free(regions, a, len)
      invariant address == SEARCH_BASE || exists k :: 0 <= k < |regions| && regions[k].used && regions[k].end == address
      decreases Highest(regions) - address
    {
      var k := FirstBlocking(regions, address, len);
      if k == |regions| {
        return;
      }
      SkippedAddressesAreBlocked(regions, k, len, address);
      EndsBelowHighest(regions, k);
      address := regions[k].end;
      AddressFits(regions, len, address);
    }
  }

  lemma {:induction false} AddressFits(regions: seq<Region>, len: nat, address: nat)
    requires EndsFit(regions, len)
    requires address == SEARCH_BASE || exists k :: 0 <= k < |regions| && regions[k].used && regions[k].end == address
    ensures address + len < WORD
  {
  }

  predicate FirstUnused(regions: seq<Region>, k: nat) {
    k < |regions| && !regions[k].used && forall j | 0 <= j < k :: regions[j].used
  }

  predicate AllUsed(regions: seq<Region>) {
    forall k | 0 <= k < |regions| :: regions[k].used
  }

  method FindUnused(regions: seq<Region>) returns (k: nat)
    ensures k <= |regions|
    ensures k < |regions| ==> FirstUnused(regions, k)
    ensures k == |regions| <==> AllUsed(regions)
  {
    k := 0;
    while k < |regions| && regions[k].used
      invariant k <= |regions|
      invariant forall j | 0 <= j < k :: regions[j].used
    {
      k := k + 1;
    }
  }

  /**
   Recording a page-aligned range keeps the records apart if and only if the range was
   free. Nothing in the source tests this for a caller's own address.
   */
  lemma {:induction false} RecordingKeepsTidyIffFree(regions: seq<Region>, k: nat, start: nat, len: nat, flags: nat)
    requires Tidy(regions) && k < |regions| && !regions[k].used
    requires start % PAGE_BYTES == 0 && len % PAGE_BYTES == 0
    ensures Tidy(regions[k := Region(start, start + len, flags, true)]) <==> Free(regions, start, len)
  {
    var entry := Region(start, start + len, flags, true);
    var after := regions[k := entry];
    assert Aligned(after);
    if Free(regions, start, len) {
      forall i, j | 0 <= i < |after| && 0 <= j < |after| && i != j && after[i].used && after[j].used
        ensures !Crosses(after[i], after[j])
      {
        if i == k {
          assert !Blocks(regions[j], start, len);
        } else if j == k {
          assert !Blocks(regions[i], start, len);
        }
      }
    }
    if Apart(after) {
      forall i | 0 <= i < |regions|
        ensures !Blocks(regions[i], start, len)
      {
        if regions[i].used {
          assert after[i] == regions[i] && after[k] == entry;
          assert !Crosses(after[i], after[k]);
        }
      }
    }
  }

  // ------------------------------------------------------------- all processes

  predicate Matches(p: Process, pid: nat) {
    p.active && p.id == pid
  }

  predicate FoundAt(table: seq<Process>, pid: nat, i: nat) {
    i < |table| && Matches(table[i], pid) && forall j | 0 <= j < i :: !Matches(table[j], pid)
  }

  predicate FreshAt(table: seq<Process>, pid: nat, i: nat) {
    && i < |table| && !table[i].active
    && (forall j | 0 <= j < |table| :: !Matches(table[j], pid))
    && forall j | 0 <= j < i :: table[j].active
  }

  predicate NoneLeft(table: seq<Process>, pid: nat) {
    forall j | 0 <= j < |table| :: table[j].active && table[j].id != pid
  }

  function Cleared(regions: seq<Region>): (r: seq<Region>)
    ensures |r| == |regions|
    ensures forall k | 0 <= k < |r| :: r[k] == regions[k].(used := false)
  {
    seq(|regions|, k requires 0 <= k < |regions| => regions[k].(used := false))
  }

  /** The table once the record of the process is there. */
  function Opened(table: seq<Process>, pid: nat, i: nat): (ready: seq<Process>)
    requires i < |table|
    ensures |ready| == |table|
  {
    if Matches(table[i], pid) then table
    else table[i := Process(pid, true, Cleared(table[i].regions))]
  }

  predicate OpensAt(table: seq<Process>, pid: nat, i: nat) {
    FoundAt(table, pid, i) || FreshAt(table, pid, i)
  }

  /** No sum of the call leaves 64 bits, whichever record the search stops at. */
  predicate NoOverflow(table: seq<Process>, call: Call) {
    && call.len + (PAGE_BYTES - 1) < WORD
    && RoundDown(call.hint) + RoundUp(call.len) < WORD
    && (call.hint == 0 ==>
          && SEARCH_BASE + RoundUp(call.len) < WORD
          && forall i | 0 <= i < |table| && Matches(table[i], call.pid) :: EndsFit(table[i].regions, RoundUp(call.len)))
  }

  ghost predicate PlacedAt(regions: seq<Region>, call: Call, address: nat) {
    if call.hint == 0 then LeastFree(regions, RoundUp(call.len), address) else address == RoundDown(call.hint)
  }

  function Entry(call: Call, address: nat): Region {
    Region(address, address + RoundUp(call.len), call.flags, true)
  }

  /** What one call does to the table and what it answers. */
  ghost predicate Maps(table: seq<Process>, call: Call, after: seq<Process>, outcome: Outcome) {
    match outcome
    case NoProcessSlot => NoneLeft(table, call.pid) && after == table
    case OutOfMemory(i) =>
      && OpensAt(table, call.pid, i)
      && after == Opened(table, call.pid, i)
      && AllUsed(after[i].regions)
    case Mapped(i, k, address) =>
      && OpensAt(table, call.pid, i)
      && var ready := Opened(table, call.pid, i);
      && FirstUnused(ready[i].regions, k)
      && PlacedAt(ready[i].regions, call, address)
      && after == ready[i := ready[i].(regions := ready[i].regions[k := Entry(call, address)])]
  }

  /** The value handed back: the address as a signed word, or the error number. */
  function ReturnValue(outcome: Outcome): int {
    match outcome
    case Mapped(_, _, address) => if address < WORD / 2 then address else address - WORD
    case OutOfMemory(_) => -12
    case NoProcessSlot => 0
  }

  /** The address can be read off the returned word, and a page-aligned one is never mistaken for the error number. */
  lemma {:induction false} AddressIsNotAnError(i: nat, k: nat, address: nat)
    requires address < WORD && address % PAGE_BYTES == 0
    ensures ReturnValue(Mapped(i, k, address)) != -12
    ensures var r := ReturnValue(Mapped(i, k, address)); r % WORD == address && r < WORD / 2 && 0 <= r + WORD / 2
  {
  }

  predicate TableTidy(table: seq<Process>) {
    forall i | 0 <= i < |table| && table[i].active :: Tidy(table[i].regions)
  }

  predicate OneRecordEach(table: seq<Process>) {
    forall i, j | 0 <= i < j < |table| && table[i].active && table[j].active :: table[i].id != table[j].id
  }

  lemma {:induction false} OpeningKeepsTidy(table: seq<Process>, pid: nat, i: nat)
    requires TableTidy(table) && OneRecordEach(table) && OpensAt(table, pid, i)
    ensures TableTidy(Opened(table, pid, i)) && OneRecordEach(Opened(table, pid, i))
    ensures Matches(Opened(table, pid, i)[i], pid)
  {
  }

  /** Where the search puts a region is page-aligned whenever the records are. */
  lemma {:induction false} LeastFreeIsAligned(regions: seq<Region>, len: nat, address: nat)
    requires Aligned(regions) && LeastFree(regions, len, address) && len % PAGE_BYTES == 0
    ensures address % PAGE_BYTES == 0
  {
    if address != SEARCH_BASE {
      assert !Free(regions, address - 1, len);
      var k :| 0 <= k < |regions| && Blocks(regions[k], address - 1, len);
      assert !Blocks(regions[k], address, len);
    }
  }

  /** The caller can tell: the error number is returned exactly when the region table was full. */
  lemma {:induction false} ErrorIffFull(table: seq<Process>, call: Call, after: seq<Process>, outcome: Outcome)
    requires TableTidy(table) && OneRecordEach(table) && Maps(table, call, after, outcome)
    requires outcome.Mapped? ==> outcome.address < WORD
    ensures ReturnValue(outcome) == -12 <==> outcome.OutOfMemory?
  {
    hide Tidy, LeastFree, ReturnValue;
    if outcome.Mapped? {
      var i := outcome.process;
      OpeningKeepsTidy(table, call.pid, i);
      PlaceIsAligned(Opened(table, call.pid, i)[i].regions, call, outcome.address);
      AddressIsNotAnError(i, outcome.region, outcome.address);
    } else {
      OtherValues(outcome);
    }
  }

  lemma {:induction false} PlaceIsAligned(regions: seq<Region>, call: Call, address: nat)
    requires Tidy(regions) && PlacedAt(regions, call, address)
    ensures address % PAGE_BYTES == 0
  {
    hide LeastFree;
    if call.hint == 0 {
      LeastFreeIsAligned(regions, RoundUp(call.len), address);
    }
  }

  lemma {:induction false} OtherValues(outcome: Outcome)
    requires !outcome.Mapped?
    ensures ReturnValue(outcome) == -12 <==> outcome.OutOfMemory?
  {
  }

  /** A call without a hint keeps every process's records page-aligned and apart. */
  lemma {:induction false} ZeroHintKeepsTidy(table: seq<Process>, call: Call, after: seq<Process>, outcome: Outcome)
    requires TableTidy(table) && OneRecordEach(table)
    requires Maps(table, call, after, outcome) && call.hint == 0
    ensures TableTidy(after) && OneRecordEach(after)
  {
    hide Tidy, LeastFree;
    if !outcome.NoProcessSlot? {
      var i := outcome.process;
      OpeningKeepsTidy(table, call.pid, i);
      if outcome.Mapped? {
        var regions := Opened(table, call.pid, i)[i].regions;
        SearchedRegionKeepsTidy(regions, outcome.region, call, outcome.address);
      }
    }
  }

  lemma {:induction false} SearchedRegionKeepsTidy(regions: seq<Region>, k: nat, call: Call, address: nat)
    requires Tidy(regions) && FirstUnused(regions, k) && LeastFree(regions, RoundUp(call.len), address)
    ensures Tidy(regions[k := Entry(call, address)])
  {
    LeastFreeIsAligned(regions, RoundUp(call.len), address);
    RecordingKeepsTidyIffFree(regions, k, address, RoundUp(call.len), call.flags);
  }

  /** With a hint, the process's records stay apart exactly when the rounded range was free. */
  lemma {:induction false} HintKeepsTidyIffFree(table: seq<Process>, call: Call, after: seq<Process>, outcome: Outcome)
    requires TableTidy(table) && OneRecordEach(table)
    requires Maps(table, call, after, outcome) && call.hint != 0 && outcome.Mapped?
    ensures TableTidy(after) <==>
              Free(Opened(table, call.pid, outcome.process)[outcome.process].regions, RoundDown(call.hint), RoundUp(call.len))
  {
    hide Tidy, Free;
    var i := outcome.process;
    OpeningKeepsTidy(table, call.pid, i);
    var ready := Opened(table, call.pid, i);
    RecordingKeepsTidyIffFree(ready[i].regions, outcome.region, RoundDown(call.hint), RoundUp(call.len), call.flags);
    assert after[i].regions == ready[i].regions[outcome.region := Entry(call, outcome.address)];
    assert after[i].active;
  }

  function FreshTable(): (table: seq<Process>)
    ensures |table| == MAX_PROCESSES && TableTidy(table) && OneRecordEach(table)
    ensures forall i | 0 <= i < |table| :: |table[i].regions| == MAX_REGIONS
  {
    seq(MAX_PROCESSES, _ => Process(0, false, FreshRegions()))
  }

  function FreshRegions(): (regions: seq<Region>)
    ensures |regions| == MAX_REGIONS && forall k | 0 <= k < |regions| :: !regions[k].used
  {
    seq(MAX_REGIONS, _ => Region(0, 0, 0, false))
  }

  /** One page at 0x10000, asked for by its address. */
  const HINTED_CALL := Call(1, 0x10000, 1, 0)

  lemma {:induction false} FirstHintedCall() returns (table: seq<Process>)
    ensures Maps(FreshTable(), HINTED_CALL, table, Mapped(0, 0, 0x10000))
    ensures |table| == MAX_PROCESSES && TableTidy(table) && OneRecordEach(table) && FoundAt(table, 1, 0)
    ensures |table[0].regions| == MAX_REGIONS && table[0].regions[0] == Region(0x10000, 0x11000, 0, true)
    ensures forall k | 1 <= k < MAX_REGIONS :: !table[0].regions[k].used
  {
    var ready := Opened(FreshTable(), 1, 0);
    assert FreshAt(FreshTable(), 1, 0);
    assert RoundDown(0x10000) == 0x10000 && RoundUp(1) == 0x1000;
    table := ready[0 := ready[0].(regions := ready[0].regions[0 := Entry(HINTED_CALL, 0x10000)])];
    assert Maps(FreshTable(), HINTED_CALL, table, Mapped(0, 0, 0x10000));
    HintKeepsTidyIffFree(FreshTable(), HINTED_CALL, table, Mapped(0, 0, 0x10000));
  }

  /** From the table at boot, the same hint given twice leaves two records of one range. */
  lemma {:induction false} HintedRegionsCanOverlap() returns (once: seq<Process>, twice: seq<Process>)
    ensures Maps(FreshTable(), HINTED_CALL, once, Mapped(0, 0, 0x10000)) && TableTidy(once)
    ensures Maps(once, HINTED_CALL, twice, Mapped(0, 1, 0x10000)) && !TableTidy(twice)
  {
    hide TableTidy, OneRecordEach, FreshTable;
    once := FirstHintedCall();
    assert RoundDown(0x10000) == 0x10000 && RoundUp(1) == 0x1000;
    var regions := once[0].regions;
    assert Opened(once, 1, 0) == once && FirstUnused(regions, 1);
    twice := once[0 := once[0].(regions := regions[1 := Entry(HINTED_CALL, 0x10000)])];
    assert Blocks(regions[0], 0x10000, 0x1000);
    HintKeepsTidyIffFree(once, HINTED_CALL, twice, Mapped(0, 1, 0x10000));
  }

  /** Page-aligned and apart in every state of every run of calls without hints. */
  lemma {:induction false} ZeroHintRunKeepsTidy(tables: seq<seq<Process>>, calls: seq<Call>, outcomes: seq<Outcome>)
    requires |tables| == |calls| + 1 && |outcomes| == |calls|
    requires TableTidy(tables[0]) && OneRecordEach(tables[0])
    requires forall n | 0 <= n < |calls| :: calls[n].hint == 0
    requires forall n | 0 <= n < |calls| :: Maps(tables[n], calls[n], tables[n + 1], outcomes[n])
    ensures forall n | 0 <= n < |tables| :: TableTidy(tables[n]) && OneRecordEach(tables[n])
    decreases |calls|
  {
    hide TableTidy, OneRecordEach, Maps;
    if |calls| > 0 {
      var last := |calls| - 1;
      ZeroHintRunKeepsTidy(tables[..last + 1], calls[..last], outcomes[..last]);
      assert tables[..last + 1][last] == tables[last];
      ZeroHintKeepsTidy(tables[last], calls[last], tables[last + 1], outcomes[last]);
      forall n | 0 <= n < |tables|
        ensures TableTidy(tables[n]) && OneRecordEach(tables[n])
      {
        if n <= last {
          assert tables[..last + 1][n] == tables[n];
        }
      }
    }
  }

  class VmmTable {
    const table: array<Process>

    ghost predicate Valid()
      reads this
    {
      table.Length == MAX_PROCESSES
    }

    constructor ()
      ensures Valid() && fresh(table) && table[..] == FreshTable()
    {
      table := new Process[MAX_PROCESSES](_ => Process(0, false, FreshRegions()));
      new;
      assert table[..] == FreshTable();
    }

    /** The record of the process, taken from the first inactive one if there is none yet. */
    method GetProcessVmm(pid: nat) returns (found: Option<nat>)
      requires Valid()
      modifies table
      ensures found.None? ==> NoneLeft(old(table[..]), pid) && table[..] == old(table[..])
      ensures found.Some? ==> OpensAt(old(table[..]), pid, found.value)
      ensures found.Some? ==> table[..] == Opened(old(table[..]), pid, found.value)
    {
      for i := 0 to MAX_PROCESSES
        invariant table[..] == old(table[..])
        invariant forall j | 0 <= j < i :: !Matches(table[j], pid)
      {
        if Matches(table[i], pid) {
          return Some(i);
        }
      }
      for i := 0 to MAX_PROCESSES
        invariant table[..] == old(table[..])
        invariant forall j | 0 <= j < i :: table[j].active
      {
        if !table[i].active {
          table[i] := Process(pid, true, Cleared(table[i].regions));
          return Some(i);
        }
      }
      return None;
    }

    /** Where a page fault of the process falls; the record of the process is opened on the way. */
    method FaultRegion(pid: nat, address: nat) returns (process: Option<nat>, region: Option<nat>)
      requires Valid()
      modifies table
      ensures process.None? ==> NoneLeft(old(table[..]), pid) && table[..] == old(table[..]) && region == None
      ensures process.Some? ==> OpensAt(old(table[..]), pid, process.value) && table[..] == Opened(old(table[..]), pid, process.value)
      ensures process.Some? ==>
                (region.Some? <==> exists k :: 0 <= k < |table[process.value].regions| && Holds(table[process.value].regions[k], address))
      ensures process.Some? && region.Some? && TableTidy(old(table[..])) && OneRecordEach(old(table[..])) ==>
                forall k | 0 <= k < |table[process.value].regions| :: Holds(table[process.value].regions[k], address) <==> k == region.value
    {
      hide Tidy;
      process := GetProcessVmm(pid);
      if process.None? {
        return None, None;
      }
      region := RegionAt(table[process.value].regions, address);
      if TableTidy(old(table[..])) && OneRecordEach(old(table[..])) {
        OpeningKeepsTidy(old(table[..]), pid, process.value);
      }
    }

    method MapNativeRegion(call: Call) returns (outcome: Outcome)
      requires Valid()
      requires NoOverflow(table[..], call)
      modifies table
      ensures Maps(old(table[..]), call, table[..], outcome)
      ensures outcome.Mapped? ==> outcome.address + RoundUp(call.len) < WORD
    {
      hide LeastFree, EndsFit, Free;
      var found := GetProcessVmm(call.pid);
      if found.None? {
        return NoProcessSlot;
      }
      var i := found.value;
      ghost var ready := table[..];
      var regions := table[i].regions;
      var len := RoundUp(call.len);
      var address := RoundDown(call.hint);
      if call.hint == 0 {
        OpenedEndsFit(old(table[..]), call, i);
        address := Search(regions, len);
      }
      var k := FindUnused(regions);
      if k == |regions| {
        return OutOfMemory(i);
      }
      table[i] := table[i].(regions := regions[k := Region(address, address + len, call.flags, true)]);
      assert table[..] == ready[i := ready[i].(regions := regions[k := Entry(call, address)])];
      return Mapped(i, k, address);
    }
  }

  lemma {:induction false} OpenedEndsFit(table: seq<Process>, call: Call, i: nat)
    requires NoOverflow(table, call) && call.hint == 0 && OpensAt(table, call.pid, i)
    ensures EndsFit(Opened(table, call.pid, i)[i].regions, RoundUp(call.len))
  {
  }
}
