/**
 The frame allocator as the page-table code sees it: a list of frame numbers, taken from
 the front. This justifies the field `free` of `UserMapping.PhysicalMemory`.
 */
module FrameSupply {
  import opened Bytes
  import opened FrameAllocator
  import UserMapping

  function Supply(regions: seq<Region>): (frames: seq<nat>)
    ensures |frames| == |FreeFrames(regions)|
    ensures forall k | 0 <= k < |frames| :: frames[k] == FreeFrames(regions)[k] / PAGE_BYTES
  {
    seq(|FreeFrames(regions)|, k requires 0 <= k < |FreeFrames(regions)| => FreeFrames(regions)[k] / PAGE_BYTES)
  }

  /** No frame number is supplied twice. */
  lemma {:induction false} SupplyHasNoRepeat(regions: seq<Region>)
    requires WellFormedRegions(regions)
    ensures NoRepeat(Supply(regions))
  {
    hide FreeFrames, Supply;
    var frames := FreeFrames(regions);
    forall i, j | 0 <= i < j < |Supply(regions)|
      ensures Supply(regions)[i] != Supply(regions)[j]
    {
      FreeFramesAreDistinct(regions, i, j);
      var _ := FreeFrameIsInARegion(regions, i);
      var _ := FreeFrameIsInARegion(regions, j);
      AlignedQuotients(frames[i], frames[j]);
    }
  }

  lemma {:induction false} AlignedQuotients(a: nat, b: nat)
    requires a % PAGE_BYTES == 0 && b % PAGE_BYTES == 0 && a != b
    ensures a / PAGE_BYTES != b / PAGE_BYTES
  {
  }

  /** A single allocation, as `Allocator.Allocate` performs it, takes the front of the supply. */
  lemma {:induction false} AllocationTakesTheFront(before: seq<Region>, after: seq<Region>, address: nat)
    requires FreeFrames(before) == [address] + FreeFrames(after)
    ensures Supply(before) != [] && Supply(before)[0] == address / PAGE_BYTES && Supply(after) == Supply(before)[1..]
  {
    hide FreeFrames, Supply;
    assert |FreeFrames(before)| == 1 + |FreeFrames(after)|;
    forall k | 0 <= k < |Supply(after)|
      ensures Supply(after)[k] == Supply(before)[1..][k]
    {
      assert FreeFrames(before)[k + 1] == FreeFrames(after)[k];
    }
  }

  /** What an allocator has to offer: nothing before it is initialised. */
  ghost function Offered(allocator: Allocator): seq<nat>
    reads allocator
  {
    if allocator.initialized then Supply(allocator.regions) else []
  }

  /** Taking a frame from both leaves them in step: both have one, the same, or neither. */
  method PopFrame(allocator: Allocator, m: UserMapping.PhysicalMemory) returns (address: Option<nat>, frame: Option<nat>)
    requires allocator.Valid() && m.free == Offered(allocator)
    modifies allocator, m`free
    ensures allocator.Valid() && m.free == Offered(allocator)
    ensures address.Some? <==> frame.Some?
    ensures address.Some? ==> frame.value == address.value / PAGE_BYTES
  {
    hide FreeFrames, Supply;
    ghost var before := allocator.regions;
    address := allocator.Allocate();
    frame := m.AllocateFrame();
    if address.Some? {
      AllocationTakesTheFront(before, allocator.regions, address.value);
    }
  }
}
