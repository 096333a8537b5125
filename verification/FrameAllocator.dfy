/**
 The physical frame allocator: a bump allocator over the usable regions of the
 boot memory map.  Frames are never returned.
 */
module FrameAllocator {
  import opened Bytes

  const RESERVED_END: nat := 0x10_0000
  const MAX_REGIONS: nat := 64

  function SatMul(a: nat, b: nat): nat {
    if a * b < WORD then a * b else WORD - 1
  }

  /** Rounds up with a saturating add, so it rounds DOWN within one page of 2^64. */
  function AlignUp(v: nat): nat {
    RoundDown(SatAdd(v, PAGE_BYTES - 1))
  }

  // ------------------------------------------------------------------ regions

  datatype MapEntry = MapEntry(base: nat, length: nat, usable: bool)

  datatype Region = Region(start: nat, end: nat, next: nat)

  function Remaining(r: Region): (bytes: nat)
    ensures r.next <= r.end ==> r.next + bytes == r.end
  {
    SatSub(r.end, r.next)
  }

  predicate IsMapEntry(e: MapEntry) {
    e.base < WORD && e.length < WORD
  }

  /** The allocatable part of a usable entry. */
  function RegionOf(e: MapEntry): Region {
    var start := AlignUp(if e.base < RESERVED_END then RESERVED_END else e.base);
    Region(start, RoundDown(SatAdd(e.base, e.length)), start)
  }

  predicate WorthKeeping(e: MapEntry) {
    e.usable && RegionOf(e).start < RegionOf(e).end
  }

  ghost predicate WellFormedRegion(r: Region) {
    && RESERVED_END <= r.start <= r.next <= r.end < WORD
    && r.start % PAGE_BYTES == 0 && r.end % PAGE_BYTES == 0 && r.next % PAGE_BYTES == 0
  }

  /** Whatever survives the size test is page-aligned, above 1 MiB and inside its entry: saturation does no harm. */
  lemma {:induction false} KeptRegionIsInside(e: MapEntry)
    requires IsMapEntry(e) && WorthKeeping(e)
    ensures WellFormedRegion(RegionOf(e))
    ensures e.base <= RegionOf(e).start && RegionOf(e).end <= e.base + e.length
  {
  }

  /** And it is the largest such range below 2^64 - 1: no whole page of the entry is forgotten. */
  lemma {:induction false} KeptRegionIsMaximal(e: MapEntry, page: nat)
    requires IsMapEntry(e) && e.usable
    requires page % PAGE_BYTES == 0 && RESERVED_END <= page && e.base <= page
    requires page + PAGE_BYTES <= e.base + e.length && page + PAGE_BYTES < WORD
    ensures WorthKeeping(e) && RegionOf(e).start <= page && page + PAGE_BYTES <= RegionOf(e).end
  {
  }

  ghost predicate Apart(a: Region, b: Region) {
    a.end <= b.start || b.end <= a.start
  }

  ghost predicate WellFormedRegions(regions: seq<Region>) {
    && |regions| <= MAX_REGIONS
    && (forall i | 0 <= i < |regions| :: WellFormedRegion(regions[i]))
    && (forall i, j | 0 <= i < j < |regions| :: Apart(regions[i], regions[j]))
  }

  // -------------------------------------------------------- what is left to give

  /** The frames one region still has, lowest first. */
  function FramesOf(r: Region): seq<nat> {
    seq(Remaining(r) / PAGE_BYTES, i requires 0 <= i => r.next + i * PAGE_BYTES)
  }

  /** They are all pages between the next one to give and the end. */
  lemma {:induction false} FramesOfAreThePages(r: Region, page: nat)
    requires WellFormedRegion(r)
    ensures page in FramesOf(r) <==> page % PAGE_BYTES == 0 && r.next <= page && page + PAGE_BYTES <= r.end
  {
    var frames := FramesOf(r);
    if page % PAGE_BYTES == 0 && r.next <= page && page + PAGE_BYTES <= r.end {
      var k := (page - r.next) / PAGE_BYTES;
      assert frames[k] == page;
    }
    if page in frames {
      var k :| 0 <= k < |frames| && frames[k] == page;
    }
  }

  /** Every frame a run of single allocations would return from here on, in order. */
  function FreeFrames(regions: seq<Region>): seq<nat> {
    if regions == [] then [] else FramesOf(regions[0]) + FreeFrames(regions[1..])
  }

  lemma {:induction false} FreeFrameIsInARegion(regions: seq<Region>, k: nat) returns (i: nat)
    requires forall i | 0 <= i < |regions| :: WellFormedRegion(regions[i])
    requires k < |FreeFrames(regions)|
    ensures i < |regions|
    ensures var f := FreeFrames(regions)[k];
      regions[i].next <= f && f + PAGE_BYTES <= regions[i].end && f % PAGE_BYTES == 0
  {
    var first := FramesOf(regions[0]);
    if k < |first| {
      i := 0;
      var r := regions[0];
      assert first[k] == r.next + k * PAGE_BYTES;
    } else {
      i := FreeFrameIsInARegion(regions[1..], k - |first|);
      i := i + 1;
    }
  }

  /** Distinct allocations get distinct frames. */
  lemma {:induction false} FreeFramesAreDistinct(regions: seq<Region>, k: nat, l: nat)
    requires WellFormedRegions(regions)
    requires k < l < |FreeFrames(regions)|
    ensures FreeFrames(regions)[k] != FreeFrames(regions)[l]
  {
    var first := FramesOf(regions[0]);
    var rest := regions[1..];
    assert forall i, j | 0 <= i < j < |rest| :: Apart(rest[i], rest[j]) by {
      forall i, j | 0 <= i < j < |rest| ensures Apart(rest[i], rest[j]) {
        assert Apart(regions[i + 1], regions[j + 1]);
      }
    }
    if l < |first| {
      assert first[k] == regions[0].next + k * PAGE_BYTES && first[l] == regions[0].next + l * PAGE_BYTES;
    } else if k >= |first| {
      FreeFramesAreDistinct(rest, k - |first|, l - |first|);
    } else {
      var i := FreeFrameIsInARegion(rest, l - |first|);
      assert Apart(regions[0], regions[i + 1]);
      assert first[k] == regions[0].next + k * PAGE_BYTES;
    }
  }

  function Take(regions: seq<Region>, i: nat, bytes: nat): seq<Region>
    requires i < |regions|
  {
    regions[i := regions[i].(next := SatAdd(regions[i].next, bytes))]
  }

  /** Taking the next frame of the first region that has one takes the first free frame. */
  lemma {:induction false} TakeFirstFree(regions: seq<Region>, i: nat)
    requires forall j | 0 <= j < |regions| :: WellFormedRegion(regions[j])
    requires i < |regions| && Remaining(regions[i]) >= PAGE_BYTES
    requires forall j | 0 <= j < i :: Remaining(regions[j]) < PAGE_BYTES
    ensures FreeFrames(regions) == [regions[i].next] + FreeFrames(Take(regions, i, PAGE_BYTES))
  {
    var r := regions[0];
    var taken := Take(regions, i, PAGE_BYTES);
    if i == 0 {
      var r' := taken[0];
      assert Remaining(r) / PAGE_BYTES == Remaining(r') / PAGE_BYTES + 1;
      assert FramesOf(r) == [r.next] + FramesOf(r');
      assert taken[1..] == regions[1..];
    } else {
      assert Remaining(regions[0]) < PAGE_BYTES;
      assert FramesOf(r) == [];
      TakeFirstFree(regions[1..], i - 1);
      assert taken[1..] == Take(regions[1..], i - 1, PAGE_BYTES);
    }
  }

  lemma {:induction false} NothingFree(regions: seq<Region>)
    requires forall j | 0 <= j < |regions| :: Remaining(regions[j]) < PAGE_BYTES
    ensures FreeFrames(regions) == []
  {
    if regions != [] {
      assert Remaining(regions[0]) < PAGE_BYTES;
      NothingFree(regions[1..]);
    }
  }

  // ------------------------------------------------------------ what was given

  /** A handed-out range of `count` frames starting at `start`. */
  datatype Range = Range(start: nat, count: nat)

  function RangeEnd(r: Range): nat {
    r.start + r.count * PAGE_BYTES
  }

  ghost predicate InsideUsed(regions: seq<Region>, range: Range) {
    exists i :: 0 <= i < |regions| && regions[i].start <= range.start && RangeEnd(range) <= regions[i].next
  }

  ghost predicate RangesApart(a: Range, b: Range) {
    RangeEnd(a) <= b.start || RangeEnd(b) <= a.start
  }

  /** The ranges handed out are aligned, lie in the consumed parts of the regions, and never overlap. */
  ghost predicate HandedOut(regions: seq<Region>, handed: seq<Range>) {
    && (forall k | 0 <= k < |handed| :: handed[k].start % PAGE_BYTES == 0 && handed[k].count > 0 && InsideUsed(regions, handed[k]))
    && (forall k, l | 0 <= k < l < |handed| :: RangesApart(handed[k], handed[l]))
  }

  function FramesHanded(handed: seq<Range>): nat {
    if handed == [] then 0 else FramesHanded(handed[..|handed| - 1]) + handed[|handed| - 1].count
  }

  /** Frames already consumed, region by region. */
  function Consumed(regions: seq<Region>): nat {
    if regions == [] then 0 else SatSub(regions[0].next, regions[0].start) / PAGE_BYTES + Consumed(regions[1..])
  }

  lemma {:induction false} ConsumedAfterTake(regions: seq<Region>, i: nat, count: nat)
    requires forall j | 0 <= j < |regions| :: WellFormedRegion(regions[j])
    requires i < |regions| && count * PAGE_BYTES <= Remaining(regions[i])
    ensures Consumed(Take(regions, i, count * PAGE_BYTES)) == Consumed(regions) + count
  {
    var taken := Take(regions, i, count * PAGE_BYTES);
    if i == 0 {
      assert WellFormedRegion(regions[0]);
      assert taken[1..] == regions[1..];
      assert (regions[0].next + count * PAGE_BYTES - regions[0].start) / PAGE_BYTES == (regions[0].next - regions[0].start) / PAGE_BYTES + count;
    } else {
      ConsumedAfterTake(regions[1..], i - 1, count);
      assert taken[1..] == Take(regions[1..], i - 1, count * PAGE_BYTES);
    }
  }

  lemma {:induction false} ConsumedBound(regions: seq<Region>)
    requires forall j | 0 <= j < |regions| :: WellFormedRegion(regions[j])
    ensures Consumed(regions) <= |regions| * (WORD / PAGE_BYTES)
  {
    if regions != [] {
      assert WellFormedRegion(regions[0]);
      ConsumedBound(regions[1..]);
    }
  }

  /** Handing out the next `count` frames of region i. */
  lemma {:induction false} TakeKeepsRegions(regions: seq<Region>, i: nat, count: nat)
    requires WellFormedRegions(regions) && i < |regions|
    requires 0 < count && count * PAGE_BYTES <= Remaining(regions[i])
    ensures Take(regions, i, count * PAGE_BYTES)[i].next == regions[i].next + count * PAGE_BYTES
    ensures WellFormedRegions(Take(regions, i, count * PAGE_BYTES))
  {
    var taken := Take(regions, i, count * PAGE_BYTES);
    assert WellFormedRegion(regions[i]);
    assert (regions[i].next + count * PAGE_BYTES) % PAGE_BYTES == 0;
    forall k, l | 0 <= k < l < |taken| ensures Apart(taken[k], taken[l]) {
      assert Apart(regions[k], regions[l]);
    }
  }

  lemma {:induction false} TakeHandsOutFresh(regions: seq<Region>, handed: seq<Range>, i: nat, count: nat)
    requires WellFormedRegions(regions) && HandedOut(regions, handed) && i < |regions|
    requires 0 < count && count * PAGE_BYTES <= Remaining(regions[i])
    ensures HandedOut(Take(regions, i, count * PAGE_BYTES), handed + [Range(regions[i].next, count)])
  {
    var taken := Take(regions, i, count * PAGE_BYTES);
    var range := Range(regions[i].next, count);
    TakeKeepsRegions(regions, i, count);
    assert WellFormedRegion(regions[i]);
    forall k | 0 <= k < |handed| ensures InsideUsed(taken, handed[k]) && RangesApart(handed[k], range) {
      var j :| 0 <= j < |regions| && regions[j].start <= handed[k].start && RangeEnd(handed[k]) <= regions[j].next;
      assert taken[j].start <= handed[k].start && RangeEnd(handed[k]) <= taken[j].next;
      if j < i {
        assert Apart(regions[j], regions[i]) && WellFormedRegion(regions[j]);
      } else if i < j {
        assert Apart(regions[i], regions[j]) && WellFormedRegion(regions[j]);
      }
    }
    assert taken[i].start <= range.start && RangeEnd(range) <= taken[i].next;
  }

  // ---------------------------------------------------------------- allocator

  datatype InitError = AlreadyInitialized | NoUsableRegions | TooManyRegions

  /** The entries that give a region, in map order. */
  function Kept(memoryMap: seq<MapEntry>): seq<MapEntry> {
    if memoryMap == [] then []
    else
      var last := |memoryMap| - 1;
      Kept(memoryMap[..last]) + (if WorthKeeping(memoryMap[last]) then [memoryMap[last]] else [])
  }

  ghost predicate EntriesApart(a: MapEntry, b: MapEntry) {
    a.base + a.length <= b.base || b.base + b.length <= a.base
  }

  ghost predicate UsableEntriesDisjoint(memoryMap: seq<MapEntry>) {
    && (forall i | 0 <= i < |memoryMap| :: IsMapEntry(memoryMap[i]))
    && (forall i, j | 0 <= i < j < |memoryMap| && memoryMap[i].usable && memoryMap[j].usable ::
          EntriesApart(memoryMap[i], memoryMap[j]))
  }

  /** Kept entries come from the map, in order, so they are pairwise apart. */
  lemma {:induction false} KeptEntries(memoryMap: seq<MapEntry>, i: nat)
    requires UsableEntriesDisjoint(memoryMap) && i < |Kept(memoryMap)|
    ensures |Kept(memoryMap)| <= |memoryMap|
    ensures WorthKeeping(Kept(memoryMap)[i]) && Kept(memoryMap)[i] in memoryMap && IsMapEntry(Kept(memoryMap)[i])
  {
    var last := |memoryMap| - 1;
    var front := memoryMap[..last];
    if i < |Kept(front)| {
      KeptEntries(front, i);
    } else if Kept(front) != [] {
      KeptEntries(front, 0);
    }
  }

  lemma {:induction false} KeptEntriesApart(memoryMap: seq<MapEntry>, i: nat, j: nat)
    requires UsableEntriesDisjoint(memoryMap) && i < j < |Kept(memoryMap)|
    ensures EntriesApart(Kept(memoryMap)[i], Kept(memoryMap)[j])
  {
    var last := |memoryMap| - 1;
    var front := memoryMap[..last];
    if j < |Kept(front)| {
      KeptEntriesApart(front, i, j);
    } else {
      KeptEntries(front, i);
      var k :| 0 <= k < |front| && front[k] == Kept(front)[i];
      assert EntriesApart(memoryMap[k], memoryMap[last]);
    }
  }

  /** The regions an initialised allocator starts from. */
  function RegionsOf(entries: seq<MapEntry>): (regions: seq<Region>)
    ensures |regions| == |entries|
  {
    seq(|entries|, i requires 0 <= i < |entries| => RegionOf(entries[i]))
  }

  lemma {:induction false} KeptRegionsAreWellFormed(memoryMap: seq<MapEntry>)
    requires UsableEntriesDisjoint(memoryMap) && |Kept(memoryMap)| <= MAX_REGIONS
    ensures WellFormedRegions(RegionsOf(Kept(memoryMap)))
  {
    hide Kept;
    var kept := Kept(memoryMap);
    var regions := RegionsOf(kept);
    forall i | 0 <= i < |regions| ensures WellFormedRegion(regions[i]) {
      KeptEntries(memoryMap, i);
      KeptRegionIsInside(kept[i]);
    }
    forall i, j | 0 <= i < j < |regions| ensures Apart(regions[i], regions[j]) {
      KeptEntries(memoryMap, i);
      KeptEntries(memoryMap, j);
      KeptRegionIsInside(kept[i]);
      KeptRegionIsInside(kept[j]);
      KeptEntriesApart(memoryMap, i, j);
    }
  }

  lemma {:induction false} NothingConsumed(regions: seq<Region>)
    requires forall i | 0 <= i < |regions| :: regions[i].next == regions[i].start
    ensures Consumed(regions) == 0
  {
    if regions != [] {
      NothingConsumed(regions[1..]);
    }
  }

  /** Region i is the allocatable part of entry i. */
  ghost predicate Serves(regions: seq<Region>, entries: seq<MapEntry>) {
    && |entries| == |regions|
    && forall i | 0 <= i < |regions| ::
         IsMapEntry(entries[i]) && WorthKeeping(entries[i]) &&
         regions[i].start == RegionOf(entries[i]).start && regions[i].end == RegionOf(entries[i]).end
  }

  lemma {:induction false} FoundRegionsServe(all: seq<MapEntry>, n: nat)
    requires UsableEntriesDisjoint(all) && n <= |all| && |Kept(all[..n])| <= MAX_REGIONS
    ensures WellFormedRegions(RegionsOf(Kept(all[..n]))) && Serves(RegionsOf(Kept(all[..n])), Kept(all[..n]))
    ensures Consumed(RegionsOf(Kept(all[..n]))) == 0 && HandedOut(RegionsOf(Kept(all[..n])), [])
  {
    hide Kept, WorthKeeping, RegionOf, WellFormedRegions;
    var entries := Kept(all[..n]);
    KeptRegionsAreWellFormed(all[..n]);
    NothingConsumedAtFirst(entries);
    forall i | 0 <= i < |entries|
      ensures IsMapEntry(entries[i]) && WorthKeeping(entries[i])
    {
      KeptEntries(all[..n], i);
    }
  }

  lemma {:induction false} NothingFoundYet(regions: seq<Region>, entries: seq<MapEntry>, memoryMap: seq<MapEntry>)
    requires WellFormedRegions(regions) && Serves(regions, entries) && regions == RegionsOf(entries)
    ensures |entries| <= MAX_REGIONS && Consumed(regions) == 0
    ensures Kept((entries + memoryMap)[..|entries|]) == entries
  {
    hide WorthKeeping, Kept;
    NothingConsumedAtFirst(entries);
    KeptAgain(entries);
    assert (entries + memoryMap)[..|entries|] == entries;
  }

  lemma {:induction false} KeptOneMore(all: seq<MapEntry>, n: nat)
    requires n < |all|
    ensures Kept(all[..n + 1]) == Kept(all[..n]) + if WorthKeeping(all[n]) then [all[n]] else []
  {
    hide WorthKeeping;
    assert all[..n + 1][..n] == all[..n];
  }

  lemma {:induction false} RegionsOfOneMore(entries: seq<MapEntry>, entry: MapEntry)
    ensures RegionsOf(entries + [entry]) == RegionsOf(entries) + [RegionOf(entry)]
  {
    hide RegionOf;
  }

  lemma {:induction false} NothingConsumedAtFirst(entries: seq<MapEntry>)
    ensures Consumed(RegionsOf(entries)) == 0
  {
    NothingConsumed(RegionsOf(entries));
  }

  class Allocator {
    var initialized: bool
    var regions: seq<Region>
    var allocatedFrames: nat
    ghost var handed: seq<Range>
    ghost var entries: seq<MapEntry>

    ghost predicate Valid()
      reads this
    {
      && WellFormedRegions(regions)
      && Serves(regions, entries)
      && HandedOut(regions, handed)
      && allocatedFrames == Consumed(regions) == FramesHanded(handed)
      && (!initialized ==> regions == RegionsOf(entries) && handed == [])
    }

    constructor ()
      ensures Valid() && !initialized && regions == [] && handed == [] && entries == []
    {
      initialized, regions, allocatedFrames, handed, entries := false, [], 0, [], [];
    }

    /**
     Adds exactly the usable ranges; refused twice, with no usable range, and with more than
     64 of them. A refused call leaves behind the regions it had found, so that a later call
     goes on from them.
     */
    method Initialize(memoryMap: seq<MapEntry>) returns (r: Result<(), InitError>)
      requires Valid() && (!initialized ==> UsableEntriesDisjoint(entries + memoryMap))
      modifies this
      ensures Valid()
      ensures old(initialized) ==>
        r == Err(AlreadyInitialized) && initialized && regions == old(regions) && entries == old(entries) && handed == old(handed)
      ensures !old(initialized) ==>
        && var found := Kept(old(entries) + memoryMap);
        && r == (if |found| > MAX_REGIONS then Err(TooManyRegions) else if found == [] then Err(NoUsableRegions) else Ok(()))
        && initialized == r.Ok?
        && entries == (if |found| > MAX_REGIONS then found[..MAX_REGIONS] else found)
        && regions == RegionsOf(entries) && handed == []
    {
      hide Consumed, WellFormedRegions, HandedOut, WorthKeeping, RegionOf, Kept, RegionsOf, Serves, UsableEntriesDisjoint;
      if initialized {
        return Err(AlreadyInitialized);
      }
      ghost var n, all := |entries|, entries + memoryMap;
      NothingFoundYet(regions, entries, memoryMap);
      for i := 0 to |memoryMap|
        invariant entries == Kept(all[..n + i]) && regions == RegionsOf(entries) && |entries| <= MAX_REGIONS
        invariant handed == [] && allocatedFrames == 0 && !initialized
      {
        var entry := memoryMap[i];
        KeptOneMore(all, n + i);
        if WorthKeeping(entry) {
          RegionsOfOneMore(entries, entry);
          if |regions| >= MAX_REGIONS {
            KeptOnlyGrows(all, n + i + 1);
            FoundRegionsServe(all, n + i);
            return Err(TooManyRegions);
          }
          regions := regions + [RegionOf(entry)];
          entries := entries + [entry];
        }
      }
      assert all[..|all|] == all;
      FoundRegionsServe(all, |all|);
      if regions == [] {
        return Err(NoUsableRegions);
      }
      initialized := true;
      return Ok(());
    }

    /** The lowest free frame of the first region that has one; fails exactly when nothing is left. */
    method Allocate() returns (r: Option<nat>)
      requires Valid()
      modifies this
      ensures Valid() && initialized == old(initialized) && entries == old(entries)
      ensures r.None? <==> !initialized || FreeFrames(old(regions)) == []
      ensures r.None? ==> regions == old(regions) && handed == old(handed)
      ensures r.Some? ==> FreeFrames(old(regions)) == [r.value] + FreeFrames(regions)
      ensures r.Some? ==> handed == old(handed) + [Range(r.value, 1)]
    {
      if !initialized {
        return None;
      }
      for i := 0 to |regions|
        invariant forall j | 0 <= j < i :: Remaining(regions[j]) < PAGE_BYTES
        invariant regions == old(regions) && handed == old(handed)
      {
        if Remaining(regions[i]) >= PAGE_BYTES {
          TakeFirstFree(regions, i);
          r := Some(regions[i].next);
          HandOut(i, 1);
          return;
        }
      }
      NothingFree(regions);
      return None;
    }

    method HandOut(i: nat, count: nat)
      requires Valid() && initialized && i < |regions|
      requires 0 < count && count * PAGE_BYTES <= Remaining(regions[i])
      modifies this`regions, this`allocatedFrames, this`handed
      ensures Valid()
      ensures regions == Take(old(regions), i, count * PAGE_BYTES)
      ensures handed == old(handed) + [Range(old(regions)[i].next, count)]
    {
      hide Consumed, FramesHanded, HandedOut, WorthKeeping, RegionOf;
      TakeKeepsRegions(regions, i, count);
      TakeHandsOutFresh(regions, handed, i, count);
      ConsumedAfterTake(regions, i, count);
      ConsumedBound(Take(regions, i, count * PAGE_BYTES));
      HandedOneMore(handed, Range(regions[i].next, count));
      handed := handed + [Range(regions[i].next, count)];
      regions := regions[i := regions[i].(next := SatAdd(regions[i].next, count * PAGE_BYTES))];
      allocatedFrames := SatAdd(allocatedFrames, count);
    }

    /** The next `count` frames of the first region with that many left. */
    method AllocateContiguous(count: nat) returns (r: Option<nat>)
      requires Valid() && count < WORD
      modifies this
      ensures Valid() && initialized == old(initialized) && entries == old(entries)
      ensures r.None? <==> !initialized || count == 0 ||
                           forall i | 0 <= i < |old(regions)| :: Remaining(old(regions)[i]) < count * PAGE_BYTES
      ensures r.None? ==> regions == old(regions) && handed == old(handed)
      ensures r.Some? ==> handed == old(handed) + [Range(r.value, count)]
      ensures r.Some? ==> exists i ::
                && 0 <= i < |old(regions)|
                && r.value == old(regions)[i].next
                && regions == Take(old(regions), i, count * PAGE_BYTES)
                && forall j | 0 <= j < i :: Remaining(old(regions)[j]) < count * PAGE_BYTES
    {
      hide Consumed, FramesHanded, HandedOut, WorthKeeping, RegionOf, Kept;
      if !initialized || count == 0 {
        return None;
      }
      var requested := SatMul(count, PAGE_BYTES);
      for i := 0 to |regions|
        invariant forall j | 0 <= j < i :: Remaining(regions[j]) < count * PAGE_BYTES
        invariant regions == old(regions) && handed == old(handed)
      {
        assert WellFormedRegion(regions[i]);
        if Remaining(regions[i]) >= requested {
          r := Some(regions[i].next);
          HandOut(i, count);
          return;
        }
      }
      return None;
    }
  }

  lemma {:induction false} HandedOneMore(handed: seq<Range>, range: Range)
    ensures FramesHanded(handed + [range]) == FramesHanded(handed) + range.count
  {
    assert (handed + [range])[..|handed|] == handed;
  }

  lemma {:induction false} KeptOnlyGrows(memoryMap: seq<MapEntry>, k: nat)
    requires k <= |memoryMap|
    ensures Kept(memoryMap[..k]) <= Kept(memoryMap)
    decreases |memoryMap|
  {
    if k == |memoryMap| {
      assert memoryMap[..k] == memoryMap;
    } else {
      var front := memoryMap[..|memoryMap| - 1];
      KeptOnlyGrows(front, k);
      assert front[..k] == memoryMap[..k];
    }
  }

  lemma {:induction false} KeptAgain(entries: seq<MapEntry>)
    requires forall i | 0 <= i < |entries| :: WorthKeeping(entries[i])
    ensures Kept(entries) == entries
  {
    if entries != [] {
      KeptAgain(entries[..|entries| - 1]);
    }
  }

  /**
   Whatever was ever handed out is page-aligned, at or above 1 MiB, inside one
   usable entry of the boot map, and apart from everything else handed out.
   */
  lemma {:induction false} HandedRangesAreSafe(memoryMap: seq<MapEntry>, regions: seq<Region>, entries: seq<MapEntry>, handed: seq<Range>, k: nat, l: nat)
    requires WellFormedRegions(regions) && HandedOut(regions, handed) && Serves(regions, entries)
    requires UsableEntriesDisjoint(memoryMap) && entries <= Kept(memoryMap)
    requires k < |handed| && l < |handed|
    ensures handed[k].start % PAGE_BYTES == 0 && RESERVED_END <= handed[k].start
    ensures exists e :: e in memoryMap && e.usable && e.base <= handed[k].start && RangeEnd(handed[k]) <= e.base + e.length
    ensures k != l ==> RangesApart(handed[k], handed[l])
  {
    hide Kept;
    var i :| 0 <= i < |regions| && regions[i].start <= handed[k].start && RangeEnd(handed[k]) <= regions[i].next;
    assert WellFormedRegion(regions[i]);
    KeptRegionIsInside(entries[i]);
    KeptEntries(memoryMap, i);
    assert entries[i] in memoryMap && entries[i].usable;
    if k < l {
      assert RangesApart(handed[k], handed[l]);
    } else if l < k {
      assert RangesApart(handed[l], handed[k]);
    }
  }
}
