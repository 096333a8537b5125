/**
 Spawning a program: from the bytes of its file to an address space in which it finds
 its segments and its stack.
 */
module Spawn {
  import opened Bytes
  import opened PageTables
  import opened UserMapping
  import opened Loader
  import opened Elf
  import S = UserStack

  // ------------------------------------------------------------ what the file asks for

  /** The program headers as they stand in the file. */
  function HeadersOf(file: seq<byte>): (headers: seq<Header>)
    requires |file| >= EHDR_BYTES
    ensures |headers| == CountOf(file)
  {
    seq(CountOf(file), k requires 0 <= k => HeaderIn(file, EntryOffset(TableOf(file), EntrySizeOf(file), k)))
  }

  function HeaderIn(file: seq<byte>, at: nat): Header {
    if at + PHDR_BYTES <= |file| then HeaderAt(file, at) else Header(0, 0, 0, 0, 0, 0)
  }

  function PlanFor(headers: seq<Header>): (plan: seq<PlanEntry>)
    ensures IsPlan(headers, plan)
  {
    var load := LoadIndices(headers);
    seq(|load|, i requires 0 <= i < |load| => PlanOf(headers[load[i]], load[i]))
  }

  /** Load segments in ascending order without overlap that end in the lower half once moved. */
  predicate InOrder(plan: seq<PlanEntry>) {
    PlanAscends(plan) && (plan != [] ==> Highest(plan) + Shift(plan) <= USER_SPACE_LIMIT)
  }

  /** Byte n of the segment reads as the file's byte below the file size, and as zero above. */
  predicate SegmentInPlace(mem: Frames, root: nat, file: seq<byte>, h: Header, shift: int) {
    forall n | 0 <= n < h.memorySize :: ByteInPlace(mem, root, file, h, shift, n)
  }

  predicate ByteInPlace(mem: Frames, root: nat, file: seq<byte>, h: Header, shift: int, n: nat) {
    && 0 <= h.address + shift + n < USER_SPACE_LIMIT
    && (n < h.fileSize ==> h.offset + n < |file| && UserByte(mem, root, h.address + shift + n) == Some(file[h.offset + n]))
    && (n >= h.fileSize ==> UserByte(mem, root, h.address + shift + n) == Some(0))
  }

  predicate ImageInPlace(mem: Frames, root: nat, file: seq<byte>)
    requires |file| >= EHDR_BYTES
  {
    var headers := HeadersOf(file);
    forall k | 0 <= k < |headers| && headers[k].kind == PT_LOAD ::
      SegmentInPlace(mem, root, file, headers[k], Shift(PlanFor(headers)))
  }

  /** The page holds part of the header's segment, once moved and rounded to pages. */
  predicate HeaderTouches(h: Header, shift: int, page: nat) {
    RoundDown(h.address) + shift <= page * PAGE_BYTES < RoundUp(h.address + h.memorySize) + shift
  }

  /** Some load segment with the flag PF_W reaches into the page. */
  predicate WritableByHeaders(headers: seq<Header>, shift: int, page: nat) {
    exists k :: 0 <= k < |headers| && headers[k].kind == PT_LOAD && headers[k].flags / 2 % 2 == 1 && HeaderTouches(headers[k], shift, page)
  }

  predicate PageAllows(mem: Frames, root: nat, headers: seq<Header>, shift: int, page: nat) {
    var t := Walk(mem, root, PathOf(page));
    page < LOWER_PAGES && t.Mapped? && Grant(t) == Rights(WritableByHeaders(headers, shift, page), true, true)
  }

  /** Every page of a load segment may be read and executed, and written exactly where PF_W asks for it. */
  ghost predicate RightsInPlace(mem: Frames, root: nat, file: seq<byte>)
    requires |file| >= EHDR_BYTES
  {
    var headers := HeadersOf(file);
    var shift := Shift(PlanFor(headers));
    forall k, page: nat | 0 <= k < |headers| && headers[k].kind == PT_LOAD && HeaderTouches(headers[k], shift, page) ::
      PageAllows(mem, root, headers, shift, page)
  }

  // ------------------------------------------------------------------- loading the file

  lemma {:induction false} HeadersAreOfFile(file: seq<byte>, headers: seq<Header>)
    requires |file| >= EHDR_BYTES && |headers| == CountOf(file)
    requires HeadersRead(file, TableOf(file), EntrySizeOf(file), headers)
    ensures headers == HeadersOf(file) && forall k | 0 <= k < |headers| :: Sound(headers[k], |file|)
  {
    hide HeaderAt, EntryOffset, Sound, ReadLe16, ReadLe64;
    forall k | 0 <= k < |headers|
      ensures headers[k] == HeadersOf(file)[k] && Sound(headers[k], |file|)
    {
      assert HeaderRead(file, EntryOffset(TableOf(file), EntrySizeOf(file), k), headers[k]);
    }
  }

  lemma {:induction false} PlanIsUnique(headers: seq<Header>, plan: seq<PlanEntry>)
    requires IsPlan(headers, plan)
    ensures plan == PlanFor(headers)
  {
    hide LoadIndices, PlanOf;
  }

  lemma {:induction false} LoadHeaderIsPlanned(headers: seq<Header>, k: nat) returns (i: nat)
    requires k < |headers| && headers[k].kind == PT_LOAD
    ensures i < |LoadIndices(headers)| && LoadIndices(headers)[i] == k
  {
    var n := |headers| - 1;
    if k == n {
      i := |LoadIndices(headers[..n])|;
    } else {
      i := LoadHeaderIsPlanned(headers[..n], k);
    }
  }

  lemma {:induction false} LoadedImageInPlace(mem: Frames, root: nat, free: seq<nat>, pages: PageMap, file: seq<byte>, segments: seq<Segment>)
    requires |file| >= EHDR_BYTES && PlanFor(HeadersOf(file)) != []
    requires forall i | 0 <= i < |PlanFor(HeadersOf(file))| :: PlanFits(PlanFor(HeadersOf(file))[i], |file|)
    requires InOrder(PlanFor(HeadersOf(file))) && Loaded(mem, root, free, pages, segments)
    requires AllShifted(PlanFor(HeadersOf(file)), segments, Shift(PlanFor(HeadersOf(file))), file)
    ensures ImageInPlace(mem, root, file)
  {
    hide HeadersOf, LoadIndices, Loaded, AllShifted, PlanFits, Shift, Highest, UserByte;
    var headers := HeadersOf(file);
    var plan := PlanFor(headers);
    forall k, n | 0 <= k < |headers| && headers[k].kind == PT_LOAD && 0 <= n < headers[k].memorySize
      ensures ByteInPlace(mem, root, file, headers[k], Shift(plan), n)
    {
      var i := LoadHeaderIsPlanned(headers, k);
      assert plan[i] == PlanOf(headers[k], k);
      ProgramReadsItsFile(mem, root, free, pages, plan, segments, file, i, n);
      PlannedByteIsInFile(plan, i, file, n);
    }
  }

  lemma {:induction false} PlannedByteIsInFile(plan: seq<PlanEntry>, i: nat, file: seq<byte>, n: nat)
    requires i < |plan| && PlanFits(plan[i], |file|) && n < plan[i].memoryBytes && InOrder(plan)
    ensures n < plan[i].fileBytes ==> plan[i].fileOffset + n < |file|
    ensures plan[i].virtualStart + Shift(plan) + n < USER_SPACE_LIMIT
  {
    hide Shift, Lowest, Highest;
    PlanOrder(plan, i, |file|);
  }

  lemma {:induction false} SamePages(h: Header, index: nat, s: Segment, shift: int, file: seq<byte>, page: nat)
    requires IsShifted(PlanOf(h, index), s, shift, file) && shift % PAGE_BYTES == 0
    ensures Touches(s, page) <==> HeaderTouches(h, shift, page)
    ensures s.writable <==> h.flags / 2 % 2 == 1
  {
    hide RoundDown, RoundUp;
    PagesMove(RoundDown(h.address), shift);
    PagesMove(RoundUp(h.address + h.memorySize), shift);
    PageOrder(s.mapStart, page);
    PageOrder(s.mapEnd, page);
  }

  lemma {:induction false} SameWritable(headers: seq<Header>, segments: seq<Segment>, shift: int, file: seq<byte>, page: nat)
    requires AllShifted(PlanFor(headers), segments, shift, file) && shift % PAGE_BYTES == 0
    ensures WritableOn(segments, page) <==> WritableByHeaders(headers, shift, page)
  {
    hide Touches, HeaderTouches, IsShifted, PlanOf;
    var plan, load := PlanFor(headers), LoadIndices(headers);
    if WritableOn(segments, page) {
      var i :| 0 <= i < |segments| && segments[i].writable && Touches(segments[i], page);
      assert IsShifted(plan[i], segments[i], shift, file);
      SamePages(headers[load[i]], load[i], segments[i], shift, file, page);
      IndexIsLoad(headers, i);
    }
    if WritableByHeaders(headers, shift, page) {
      var k :| 0 <= k < |headers| && headers[k].kind == PT_LOAD && headers[k].flags / 2 % 2 == 1 && HeaderTouches(headers[k], shift, page);
      var i := LoadHeaderIsPlanned(headers, k);
      assert IsShifted(plan[i], segments[i], shift, file);
      SamePages(headers[k], k, segments[i], shift, file, page);
    }
  }

  lemma {:induction false} IndexIsLoad(headers: seq<Header>, i: nat)
    requires i < |LoadIndices(headers)|
    ensures headers[LoadIndices(headers)[i]].kind == PT_LOAD
  {
    var n := |headers| - 1;
    if i < |LoadIndices(headers[..n])| {
      IndexIsLoad(headers[..n], i);
    }
  }

  lemma {:induction false} LoadedRightsInPlace(mem: Frames, root: nat, free: seq<nat>, pages: PageMap, file: seq<byte>, segments: seq<Segment>)
    requires |file| >= EHDR_BYTES && PlanFor(HeadersOf(file)) != []
    requires forall i | 0 <= i < |PlanFor(HeadersOf(file))| :: PlanFits(PlanFor(HeadersOf(file))[i], |file|)
    requires Loaded(mem, root, free, pages, segments)
    requires AllShifted(PlanFor(HeadersOf(file)), segments, Shift(PlanFor(HeadersOf(file))), file)
    ensures RightsInPlace(mem, root, file)
  {
    hide HeadersOf, LoadIndices, Loaded, PlanFits, Shift, Walk, PathOf, HeaderTouches, Touches, WritableByHeaders, WritableOn, IsShifted, PlanOf;
    var headers := HeadersOf(file);
    var plan := PlanFor(headers);
    var shift := Shift(plan);
    ShiftFacts(plan, |file|);
    forall k, page: nat | 0 <= k < |headers| && headers[k].kind == PT_LOAD && HeaderTouches(headers[k], shift, page)
      ensures PageAllows(mem, root, headers, shift, page)
    {
      var i := LoadHeaderIsPlanned(headers, k);
      assert plan[i] == PlanOf(headers[k], k) && IsShifted(plan[i], segments[i], shift, file);
      SamePages(headers[k], k, segments[i], shift, file, page);
      LoadedProgramMay(mem, root, free, pages, segments, i, page);
      SameWritable(headers, segments, shift, file, page);
    }
  }

  datatype Refusal = NotParsed(objection: ParseError) | NotActivated(reason: ActivateError)

  /** The activation moves the file's load segments and entry point by one constant. */
  predicate ActivationOf(file: seq<byte>, activation: Activation) {
    && FileHeaderOk(file)
    && var plan := PlanFor(HeadersOf(file));
    && plan != [] && (forall i | 0 <= i < |plan| :: PlanFits(plan[i], |file|))
    && AllShifted(plan, activation.segments, Shift(plan), file)
    && activation.entry == ReadLe64(file, 24) + Shift(plan) && StartsInside(plan, activation)
    && activation.headersAt == LoadBase(plan) + EHDR_BYTES && activation.headerCount == CountOf(file)
  }

  /** The entry point lies in a moved executable segment. */
  predicate StartsInside(plan: seq<PlanEntry>, activation: Activation) {
    exists i :: 0 <= i < |plan| && i < |activation.segments| && plan[i].executable &&
                activation.segments[i].virtualStart <= activation.entry < activation.segments[i].virtualEnd
  }

  lemma {:induction false} ActivationStartsInside(plan: seq<PlanEntry>, activation: Activation, file: seq<byte>, entry: nat)
    requires AllShifted(plan, activation.segments, Shift(plan), file) && activation.entry == entry + Shift(plan)
    requires exists i :: 0 <= i < |plan| && EntryIn(plan[i], entry) && plan[i].index == activation.entryHeader
    ensures StartsInside(plan, activation)
  {
    hide Shift;
    var i :| 0 <= i < |plan| && EntryIn(plan[i], entry) && plan[i].index == activation.entryHeader;
    EntryStaysInside(plan, activation.segments, file, entry, i);
    assert |activation.segments| == |plan|;
  }

  method ActivateFile(file: seq<byte>) returns (r: Result<Activation, Refusal>)
    requires |file| < WORD
    ensures r.Ok? ==> ActivationOf(file, r.value)
  {
    hide FileHeaderObjection, HeadersRead, HeadersOf, FirstToObject, PlanFor, IsPlan, LoadIndices, PlanFits, AllShifted, Shift, LoadBase;
    hide ReadLe16, ReadLe64, Sound, RoundsOver, RangeOk, EntryIn, Highest;
    var parsed := ParseElf64(file);
    if parsed.Err? {
      return Err(NotParsed(parsed.error));
    }
    var headers := parsed.value.headers;
    HeadersAreOfFile(file, headers);
    var planned := BuildLoadPlan(headers, |file|);
    if planned.Err? {
      return Err(NotParsed(planned.error));
    }
    PlanIsUnique(headers, planned.value);
    var activated := BuildActivation(parsed.value.entry, planned.value, |headers|, file);
    if activated.Err? {
      return Err(NotActivated(activated.error));
    }
    ActivationStartsInside(planned.value, activated.value, file, parsed.value.entry);
    return Ok(activated.value);
  }

  datatype Outcome = Refused(refusal: Refusal) | OutOfFrames | InPlace(root: nat, activation: Activation)

  /** The file's bytes alone decide what the program will read, wherever its frames lie. */
  method LoadImage(m: PhysicalMemory, kernel: nat, file: seq<byte>) returns (r: Outcome, ghost pages: PageMap)
    requires Ready(m.frames, kernel, m.free) && AllFit(m.free) && |file| < WORD
    requires FileHeaderOk(file) ==> InOrder(PlanFor(HeadersOf(file)))
    modifies m
    ensures r.Refused? ==> m.frames == old(m.frames) && m.free == old(m.free)
    ensures r.OutOfFrames? ==> m.free == []
    ensures r.InPlace? ==> ActivationOf(file, r.activation) && ImageInPlace(m.frames, r.root, file) && RightsInPlace(m.frames, r.root, file)
    ensures r.InPlace? ==> Holds(m.frames, r.root, m.free, pages) && AllFit(m.free) && BelowTop(pages, PlanFor(HeadersOf(file)))
  {
    hide Ready, AllFit, Holds, Loaded, HeadersOf, PlanFor, ImageInPlace, RightsInPlace, AllShifted, PlanFits, BelowTop, Creates, FitsPages, Ascending;
    hide InOrder, WithinSegments, ActivationOf, FileHeaderOk;
    pages := map[];
    var activated := ActivateFile(file);
    if activated.Err? {
      return Refused(activated.error), pages;
    }
    var segments := activated.value.segments;
    ActivationLoads(file, activated.value);
    var root := m.CreateUserPageTable(kernel);
    if root.None? {
      return OutOfFrames, pages;
    }
    ReadyForLoading(old(m.frames), m.frames, kernel, root.value, old(m.free));
    var ok := LoadSegments(m, root.value, segments);
    if !ok {
      return OutOfFrames, pages;
    }
    pages :| Loaded(m.frames, root.value, m.free, pages, segments) && WithinSegments(pages, segments);
    ActivationIsLoaded(m.frames, root.value, m.free, pages, file, activated.value);
    return InPlace(root.value, activated.value), pages;
  }

  predicate BelowTop(pages: PageMap, plan: seq<PlanEntry>) {
    Highest(plan) + Shift(plan) >= 0 && Below(pages, Highest(plan) + Shift(plan))
  }

  lemma {:induction false} ActivationLoads(file: seq<byte>, activation: Activation)
    requires ActivationOf(file, activation) && (FileHeaderOk(file) ==> InOrder(PlanFor(HeadersOf(file))))
    ensures |file| >= EHDR_BYTES && InOrder(PlanFor(HeadersOf(file))) && Ascending(activation.segments)
    ensures forall k | 0 <= k < |activation.segments| :: FitsPages(activation.segments[k])
  {
    hide HeadersOf, PlanFor, PlanFits, AllShifted, Highest, Shift, PlanAscends, FitsPages, Ascending, ReadLe16, ReadLe32, ReadLe64;
    ActivatedSegmentsLoad(PlanFor(HeadersOf(file)), activation.segments, file);
  }

  lemma {:induction false} ActivationIsLoaded(mem: Frames, root: nat, free: seq<nat>, pages: PageMap, file: seq<byte>, activation: Activation)
    requires ActivationOf(file, activation) && InOrder(PlanFor(HeadersOf(file)))
    requires Loaded(mem, root, free, pages, activation.segments) && WithinSegments(pages, activation.segments)
    ensures ImageInPlace(mem, root, file) && Holds(mem, root, free, pages) && BelowTop(pages, PlanFor(HeadersOf(file)))
    ensures RightsInPlace(mem, root, file)
  {
    hide RightsInPlace, HeadersOf, PlanFor, PlanFits, AllShifted, Highest, Shift, InOrder, WithinSegments, ImageInPlace, ReadLe16, ReadLe32, ReadLe64;
    hide Loaded, Holds;
    LoadedHolds(mem, root, free, pages, activation.segments);
    LoadedImageInPlace(mem, root, free, pages, file, activation.segments);
    LoadedRightsInPlace(mem, root, free, pages, file, activation.segments);
    PagesBelowTop(pages, PlanFor(HeadersOf(file)), activation.segments, file);
  }

  lemma {:induction false} ReadyForLoading(mem: Frames, after: Frames, kernel: nat, root: nat, free: seq<nat>)
    requires Ready(mem, kernel, free) && AllFit(free) && Creates(mem, after, kernel, root, free)
    ensures Holds(after, root, free[1..], map[]) && AllFit(free[1..])
  {
    hide Holds, TreeShaped, UserRoot;
    NewSpaceIsEmpty(mem, after, kernel, root, free);
    forall f | f in free[1..]
      ensures f < MAX_FRAMES
    {
      assert f in free;
    }
  }

  lemma {:induction false} LoadedHolds(mem: Frames, root: nat, free: seq<nat>, pages: PageMap, segments: seq<Segment>)
    requires Loaded(mem, root, free, pages, segments)
    ensures Holds(mem, root, free, pages)
  {
    hide Holds;
  }

  lemma {:induction false} PagesBelowTop(pages: PageMap, plan: seq<PlanEntry>, segments: seq<Segment>, file: seq<byte>)
    requires plan != [] && forall i | 0 <= i < |plan| :: PlanFits(plan[i], |file|)
    requires AllShifted(plan, segments, Shift(plan), file) && WithinSegments(pages, segments)
    ensures BelowTop(pages, plan)
  {
    hide Highest, Shift, PlanFits;
    var last := |plan| - 1;
    assert IsShifted(plan[last], segments[last], Shift(plan), file);
    PlanOrder(plan, last, |file|);
  }

  // --------------------------------------------------------------- mapping the stack

  const STACK_PAGE: nat := S.STACK_BOTTOM / PAGE_BYTES
  const STACK_FLAGS := Flags(USER | WRITABLE, 0)

  /** A cleared frame that no page has and the allocator will not hand out again. */
  predicate Spare(mem: Frames, free: seq<nat>, pages: PageMap, f: nat) {
    && f in mem && mem[f] == Data(ZeroPage()) && f !in free && f < MAX_FRAMES
    && forall p | p in pages :: pages[p] != f
  }

  predicate AllSpare(mem: Frames, free: seq<nat>, pages: PageMap, frames: seq<nat>) {
    forall i | 0 <= i < |frames| :: Spare(mem, free, pages, frames[i])
  }

  predicate SameFramesOf(mem: Frames, after: Frames, pages: PageMap) {
    forall p | p in pages :: SameFrame(mem, after, pages[p])
  }

  predicate WalksOf(mem: Frames, after: Frames, root: nat, pages: PageMap) {
    forall p | p in pages :: Walk(after, root, PathOf(p)) == Walk(mem, root, PathOf(p))
  }

  /** The program may do everything with the page. */
  predicate FullyUsable(mem: Frames, root: nat, page: nat) {
    var t := Walk(mem, root, PathOf(page));
    t.Mapped? && Grant(t) == ALL_RIGHTS
  }

  lemma {:induction false} OneMoreSpare(mem: Frames, root: nat, free: seq<nat>, pages: PageMap, taken: seq<nat>)
    requires Holds(mem, root, free, pages) && AllFit(free) && free != [] && STACK_PAGE !in pages
    requires AllSpare(mem, free, pages, taken)
    ensures var after := mem[free[0] := Data(ZeroPage())];
            && Holds(after, root, free[1..], pages) && AllFit(free[1..]) && SameFramesOf(mem, after, pages) && WalksOf(mem, after, root, pages)
            && AllSpare(after, free[1..], pages, taken + [free[0]]) && free[0] !in taken
  {
    hide Holds, Walk, PathOf;
    var f, after := free[0], mem[free[0] := Data(ZeroPage())];
    assert f in free;
    FreshFrameIsStaged(mem, root, free, pages, STACK_PAGE, ZeroPage());
    forall p | p in pages
      ensures SameFrame(mem, after, pages[p])
    {
      HeldFrame(mem, root, free, pages, p);
    }
    assert forall g | g in free[1..] :: g in free;
    assert forall i | 0 <= i < |taken| :: taken[i] !in free;
  }

  /** Sixteen frames, cleared as they are taken. */
  method TakeStackFrames(m: PhysicalMemory, root: nat, ghost pages: PageMap) returns (taken: Option<seq<nat>>)
    requires Holds(m.frames, root, m.free, pages) && AllFit(m.free) && STACK_PAGE !in pages
    modifies m
    ensures taken.None? ==> m.free == []
    ensures taken.Some? ==> |taken.value| == S.STACK_PAGES && NoRepeat(taken.value) && old(m.free) == taken.value + m.free
    ensures taken.Some? ==> Holds(m.frames, root, m.free, pages) && AllSpare(m.frames, m.free, pages, taken.value)
    ensures taken.Some? ==> SameFramesOf(old(m.frames), m.frames, pages) && WalksOf(old(m.frames), m.frames, root, pages)
  {
    hide Holds, Spare, AllFit, Walk, PathOf;
    var frames: seq<nat> := [];
    assert SameFramesOf(m.frames, m.frames, pages) by { SameFrames(m.frames, root, m.free, pages); }
    for i := 0 to S.STACK_PAGES
      invariant |frames| == i && NoRepeat(frames) && old(m.free) == frames + m.free
      invariant Holds(m.frames, root, m.free, pages) && AllSpare(m.frames, m.free, pages, frames) && AllFit(m.free)
      invariant SameFramesOf(old(m.frames), m.frames, pages) && WalksOf(old(m.frames), m.frames, root, pages)
    {
      ghost var mem, free := m.frames, m.free;
      var frame := m.AllocateFrame();
      if frame.None? {
        return None;
      }
      m.ClearFrame(frame.value);
      OneMoreSpare(mem, root, free, pages, frames);
      frames := frames + [frame.value];
    }
    return Some(frames);
  }

  lemma {:induction false} SpareIsStaged(mem: Frames, root: nat, free: seq<nat>, pages: PageMap, page: nat, f: nat)
    requires Holds(mem, root, free, pages) && Spare(mem, free, pages, f) && page < LOWER_PAGES && page !in pages
    ensures Staged(mem, root, free, pages, page, f)
  {
    hide Holds;
  }

  lemma {:induction false} SpareStays(mem: Frames, free: seq<nat>, after: Frames, rest: seq<nat>, pages: PageMap, page: nat, frame: nat, f: nat)
    requires Spare(mem, free, pages, f) && DataKept(mem, after, free) && Drawn(free, rest) && f != frame
    ensures Spare(after, rest, pages[page := frame], f)
  {
    assert forall g | g in rest :: g in free;
  }

  method MapSpare(m: PhysicalMemory, root: nat, page: nat, frame: nat, ghost pages: PageMap) returns (ok: bool)
    requires Holds(m.frames, root, m.free, pages) && Spare(m.frames, m.free, pages, frame)
    requires page < LOWER_PAGES && page !in pages
    modifies m
    ensures Drawn(old(m.free), m.free) && DataKept(old(m.frames), m.frames, old(m.free)) && (!ok ==> m.free == [])
    ensures ok ==> Holds(m.frames, root, m.free, pages[page := frame])
    ensures ok ==> SameFramesOf(old(m.frames), m.frames, pages) && SameFrame(old(m.frames), m.frames, frame)
    ensures ok ==> WalksOf(old(m.frames), m.frames, root, pages) && FullyUsable(m.frames, root, page)
  {
    hide WalksOf, FullyUsable;
    hide Holds, Spare, RunGranted, Ready, DataKept, PageMapped, OneFrameEach, Staged;
    ghost var mem, free := m.frames, m.free;
    SpareIsStaged(mem, root, free, pages, page, frame);
    StagedIsReady(mem, root, free, pages, page, frame);
    OnePage(page);
    var result, mapped := m.MapUserRegion(root, page * PAGE_BYTES, frame * PAGE_BYTES, PAGE_BYTES, STACK_FLAGS);
    if result != MapOk {
      return false;
    }
    OneRun(mem, free, m.frames, m.free, root, page, frame, STACK_FLAGS);
    MappingHolds(mem, free, m.frames, m.free, root, pages, page, frame, STACK_FLAGS);
    StackPageMapped(mem, free, m.frames, m.free, root, pages, page, frame);
    ok := true;
  }

  lemma {:induction false} StackPageMapped(mem: Frames, free: seq<nat>, after: Frames, rest: seq<nat>, root: nat, pages: PageMap, page: nat, f: nat)
    requires Staged(mem, root, free, pages, page, f) && page !in pages
    requires PageMapped(mem, free, after, rest, root, page, f, STACK_FLAGS)
    ensures WalksOf(mem, after, root, pages) && FullyUsable(after, root, page)
  {
    hide Walk, PathOf, RunGranted, Ready, Ahead, Masked, Drawn, DataKept, RightsOf;
    forall p | p in pages
      ensures Walk(after, root, PathOf(p)) == Walk(mem, root, PathOf(p))
    {
      assert PageHeld(mem, root, free, pages, p);
      OneAhead(page, p, f);
      OutsideRunIsKept(mem, after, root, page, 1, f, STACK_FLAGS, p);
    }
    assert PageHeld(mem, root, free, pages, page);
    OneAhead(page, page, f);
    NewPageGrants(mem, after, root, page, 1, f, STACK_FLAGS, page);
    StackFlagsAllowAll();
  }

  lemma {:induction false} StackFlagsAllowAll()
    ensures FlagRights(STACK_FLAGS) == ALL_RIGHTS
  {
  }

  /** The first n stack pages have their frames; the other pages are as before. */
  predicate StackMapped(pages: PageMap, now: PageMap, frames: seq<nat>, n: nat)
    requires n <= |frames|
  {
    && (forall p | p in now :: p in pages || STACK_PAGE <= p < STACK_PAGE + n)
    && (forall p | p in pages :: p in now && now[p] == pages[p])
    && forall p | STACK_PAGE <= p < STACK_PAGE + n :: p in now && now[p] == frames[p - STACK_PAGE]
  }

  lemma {:induction false} NextStackPage(pages: PageMap, now: PageMap, frames: seq<nat>, n: nat)
    requires n < |frames| && StackMapped(pages, now, frames, n) && forall p | p in pages :: p < STACK_PAGE
    ensures STACK_PAGE + n !in now && StackMapped(pages, now[STACK_PAGE + n := frames[n]], frames, n + 1)
  {
  }

  method MapStackFrames(m: PhysicalMemory, root: nat, frames: seq<nat>, ghost pages: PageMap) returns (ok: bool, ghost now: PageMap)
    requires Holds(m.frames, root, m.free, pages) && AllSpare(m.frames, m.free, pages, frames) && NoRepeat(frames)
    requires |frames| == S.STACK_PAGES && forall p | p in pages :: p < STACK_PAGE
    modifies m
    ensures !ok ==> m.free == []
    ensures ok ==> Holds(m.frames, root, m.free, now) && StackMapped(pages, now, frames, |frames|)
    ensures ok ==> SameFramesOf(old(m.frames), m.frames, pages) && WalksOf(old(m.frames), m.frames, root, pages)
    ensures ok ==> forall p | STACK_PAGE <= p < STACK_PAGE + |frames| :: FullyUsable(m.frames, root, p)
  {
    hide Holds, Spare, DataKept, StackMapped, Walk, PathOf, Grant;
    now := pages;
    assert StackMapped(pages, now, frames, 0) by { NoStackYet(pages, frames); }
    assert SameFramesOf(m.frames, m.frames, pages) by { SameFrames(m.frames, root, m.free, pages); }
    for i := 0 to |frames|
      invariant Holds(m.frames, root, m.free, now) && StackMapped(pages, now, frames, i)
      invariant forall j | i <= j < |frames| :: Spare(m.frames, m.free, now, frames[j])
      invariant SameFramesOf(old(m.frames), m.frames, pages) && WalksOf(old(m.frames), m.frames, root, pages)
      invariant forall p | STACK_PAGE <= p < STACK_PAGE + i :: FullyUsable(m.frames, root, p)
    {
      ghost var mem, free, held := m.frames, m.free, now;
      NextStackPage(pages, now, frames, i);
      ok := MapSpare(m, root, STACK_PAGE + i, frames[i], now);
      if !ok {
        return;
      }
      now := now[STACK_PAGE + i := frames[i]];
      forall j | i + 1 <= j < |frames|
        ensures Spare(m.frames, m.free, now, frames[j])
      {
        SpareStays(mem, free, m.frames, m.free, held, STACK_PAGE + i, frames[i], frames[j]);
      }
      KeptTwice(old(m.frames), mem, m.frames, root, pages, held, frames, i);
    }
    ok := true;
  }

  lemma {:induction false} NoStackYet(pages: PageMap, frames: seq<nat>)
    ensures StackMapped(pages, pages, frames, 0)
  {
  }

  lemma {:induction false} KeptTwice(mem: Frames, now: Frames, after: Frames, root: nat, pages: PageMap, held: PageMap, frames: seq<nat>, n: nat)
    requires n <= |frames| && StackMapped(pages, held, frames, n)
    requires SameFramesOf(mem, now, pages) && SameFramesOf(now, after, held)
    requires WalksOf(mem, now, root, pages) && WalksOf(now, after, root, held)
    requires forall p | STACK_PAGE <= p < STACK_PAGE + n :: FullyUsable(now, root, p)
    ensures SameFramesOf(mem, after, pages) && WalksOf(mem, after, root, pages)
    ensures forall p | STACK_PAGE <= p < STACK_PAGE + n :: FullyUsable(after, root, p)
  {
    hide Walk, PathOf, Grant;
    forall p | p in pages
      ensures SameFrame(mem, after, pages[p]) && Walk(after, root, PathOf(p)) == Walk(mem, root, PathOf(p))
    {
      assert SameFrame(mem, now, pages[p]) && SameFrame(now, after, held[p]);
      assert p in held;
    }
    forall p | STACK_PAGE <= p < STACK_PAGE + n
      ensures FullyUsable(after, root, p)
    {
      assert p in held && FullyUsable(now, root, p);
    }
  }

  // ------------------------------------------------- one memory, seen in two ways

  /** Physical memory byte by byte, as the kernel writes it through its own window. */
  function MemoryOf(mem: Frames): S.Memory {
    (a: nat) =>
      var f := a / PAGE_BYTES;
      if f in mem && mem[f].Data? && a % PAGE_BYTES < |mem[f].bytes| then mem[f].bytes[a % PAGE_BYTES] else 0
  }

  /** The data frames once physical memory holds these bytes. */
  function Reflected(mem: Frames, memory: S.Memory): (after: Frames)
    ensures after.Keys == mem.Keys
  {
    map f | f in mem :: FrameWith(mem[f], f, memory)
  }

  function FrameWith(content: Content, f: nat, memory: S.Memory): Content {
    if content.Table? then content else Data(S.LoadBytes(memory, f * PAGE_BYTES, |content.bytes|))
  }

  lemma {:induction false} ReflectedWalk(mem: Frames, memory: S.Memory, table: nat, path: seq<nat>)
    ensures Walk(Reflected(mem, memory), table, path) == Walk(mem, table, path)
    decreases |path|
  {
    if path != [] && IsTable(mem, table) && path[0] < ENTRIES {
      ReflectedWalk(mem, memory, mem[table].entries[path[0]].frame, path[1..]);
    }
  }

  /** A page in place shows the bytes that physical memory holds in its frame. */
  lemma {:induction false} PageShowsMemory(mem: Frames, root: nat, free: seq<nat>, pages: PageMap, memory: S.Memory, address: nat)
    requires Holds(mem, root, free, pages) && address / PAGE_BYTES in pages
    ensures UserByte(Reflected(mem, memory), root, address) ==
              Some(memory(pages[address / PAGE_BYTES] * PAGE_BYTES + address % PAGE_BYTES))
  {
    hide Holds, Walk, PathOf;
    var page := address / PAGE_BYTES;
    HeldFrame(mem, root, free, pages, page);
    ReflectedWalk(mem, memory, root, PathOf(page));
  }

  lemma {:induction false} PageShowsItself(mem: Frames, root: nat, free: seq<nat>, pages: PageMap, address: nat)
    requires Holds(mem, root, free, pages) && address / PAGE_BYTES in pages
    ensures UserByte(mem, root, address) == Some(MemoryOf(mem)(pages[address / PAGE_BYTES] * PAGE_BYTES + address % PAGE_BYTES))
  {
    hide Holds, Walk, PathOf;
    var page := address / PAGE_BYTES;
    HeldFrame(mem, root, free, pages, page);
    var at := pages[page] * PAGE_BYTES + address % PAGE_BYTES;
    assert at / PAGE_BYTES == pages[page] && at % PAGE_BYTES == address % PAGE_BYTES;
  }

  lemma {:induction false} UnmappedReadsNothing(mem: Frames, root: nat, free: seq<nat>, pages: PageMap, address: nat)
    requires Holds(mem, root, free, pages) && address < USER_SPACE_LIMIT && address / PAGE_BYTES !in pages
    ensures UserByte(mem, root, address) == None
  {
    assert USER_SPACE_LIMIT == LOWER_PAGES * PAGE_BYTES;
    assert PageHeld(mem, root, free, pages, address / PAGE_BYTES);
  }

  /** Physical addresses of the stack's frames. */
  function Bases(frames: seq<nat>): (bases: seq<nat>)
    ensures |bases| == |frames|
    ensures forall i | 0 <= i < |frames| :: bases[i] == frames[i] * PAGE_BYTES
  {
    seq(|frames|, i requires 0 <= i < |frames| => frames[i] * PAGE_BYTES)
  }

  lemma {:induction false} BasesAreFrames(frames: seq<nat>)
    requires |frames| == S.STACK_PAGES && NoRepeat(frames)
    ensures S.Frames16(Bases(frames))
  {
    forall i, j | 0 <= i < j < S.STACK_PAGES
      ensures Bases(frames)[i] != Bases(frames)[j]
    {
      assert frames[i] != frames[j];
    }
  }

  /** On the stack, the walk through the page tables ends where the kernel's writer put the byte. */
  lemma {:induction false} StackThroughTables(mem: Frames, root: nat, free: seq<nat>, pages: PageMap, now: PageMap, frames: seq<nat>, memory: S.Memory, address: nat)
    requires Holds(mem, root, free, now) && |frames| == S.STACK_PAGES && StackMapped(pages, now, frames, |frames|)
    requires S.Frames16(Bases(frames)) && S.OnStack(address)
    ensures UserByte(Reflected(mem, memory), root, address) == Some(S.UserByte(memory, Bases(frames), address))
  {
    hide Holds, UserByte, Reflected, S.Frames16;
    var i := (address - S.STACK_BOTTOM) / PAGE_BYTES;
    StackAddress(address);
    assert STACK_PAGE + i in now;
    PageShowsMemory(mem, root, free, now, memory, address);
    assert STACK_PAGE + i in now && now[STACK_PAGE + i] == frames[i];
  }

  lemma {:induction false} StackAddress(address: nat)
    requires S.OnStack(address)
    ensures var offset := address - S.STACK_BOTTOM;
            && 0 <= offset / PAGE_BYTES < S.STACK_PAGES && address / PAGE_BYTES == STACK_PAGE + offset / PAGE_BYTES
            && address % PAGE_BYTES == offset % PAGE_BYTES
  {
  }

  /** A byte of the program outlives the mapping of a stack, and any writing that stays within its frames. */
  lemma {:induction false} ProgramByteStays(before: Frames, mem: Frames, root: nat, free: seq<nat>, rest: seq<nat>, pages: PageMap, now: PageMap,
                                            frames: seq<nat>, memory: S.Memory, address: nat)
    requires Holds(before, root, free, pages) && Holds(mem, root, rest, now) && SameFramesOf(before, mem, pages)
    requires |frames| == S.STACK_PAGES && StackMapped(pages, now, frames, |frames|) && forall p | p in pages :: p < STACK_PAGE
    requires S.Frames16(Bases(frames)) && S.KeptAbove(MemoryOf(mem), memory, Bases(frames), S.STACK_TOP)
    requires address < USER_SPACE_LIMIT && UserByte(before, root, address).Some?
    ensures UserByte(Reflected(mem, memory), root, address) == UserByte(before, root, address)
  {
    hide Holds, UserByte, Reflected, MemoryOf, S.Frames16;
    var page := address / PAGE_BYTES;
    if page !in pages {
      UnmappedReadsNothing(before, root, free, pages, address);
    } else {
      PageShowsItself(before, root, free, pages, address);
      PageShowsMemory(mem, root, rest, now, memory, address);
      var at := pages[page] * PAGE_BYTES + address % PAGE_BYTES;
      assert SameFrame(before, mem, pages[page]);
      SameByte(before, mem, pages[page], address % PAGE_BYTES);
      OffTheStack(mem, root, rest, pages, now, frames, page, address % PAGE_BYTES);
    }
  }

  lemma {:induction false} SameByte(before: Frames, mem: Frames, f: nat, offset: nat)
    requires SameFrame(before, mem, f) && offset < PAGE_BYTES
    ensures MemoryOf(before)(f * PAGE_BYTES + offset) == MemoryOf(mem)(f * PAGE_BYTES + offset)
  {
    assert (f * PAGE_BYTES + offset) / PAGE_BYTES == f;
  }

  lemma {:induction false} NotAStackFrame(mem: Frames, root: nat, free: seq<nat>, pages: PageMap, now: PageMap, frames: seq<nat>, page: nat, i: nat)
    requires Holds(mem, root, free, now) && StackMapped(pages, now, frames, |frames|)
    requires page in now && page < STACK_PAGE && i < |frames|
    ensures now[page] != frames[i]
  {
    assert OneFrameEach(now);
    assert STACK_PAGE + i in now && now[STACK_PAGE + i] == frames[i];
  }

  lemma {:induction false} OffTheStack(mem: Frames, root: nat, free: seq<nat>, pages: PageMap, now: PageMap, frames: seq<nat>, page: nat, offset: nat)
    requires Holds(mem, root, free, now) && StackMapped(pages, now, frames, |frames|)
    requires page in now && page < STACK_PAGE && offset < PAGE_BYTES
    ensures S.OffFrames(Bases(frames), now[page] * PAGE_BYTES + offset)
  {
    hide Holds, StackMapped;
    forall i | 0 <= i < |frames|
      ensures !(Bases(frames)[i] <= now[page] * PAGE_BYTES + offset < Bases(frames)[i] + PAGE_BYTES)
    {
      NotAStackFrame(mem, root, free, pages, now, frames, page, i);
      AwayFromFrame(now[page], frames[i], offset);
    }
  }

  lemma {:induction false} AwayFromFrame(f: nat, g: nat, offset: nat)
    requires f != g && offset < PAGE_BYTES
    ensures !(g * PAGE_BYTES <= f * PAGE_BYTES + offset < g * PAGE_BYTES + PAGE_BYTES)
  {
  }

  // ------------------------------------------------------------------ the whole program

  datatype Spawned =
    | SpawnRefused(refusal: Refusal)
    | NoFramesLeft
    | Running(root: nat, entry: nat, sp: nat, stack: seq<nat>)

  /** The load segments are in order and end below the stack. */
  predicate ClearOfStack(file: seq<byte>)
    requires |file| >= EHDR_BYTES
  {
    var plan := PlanFor(HeadersOf(file));
    InOrder(plan) && (plan != [] ==> Highest(plan) + Shift(plan) <= S.STACK_BOTTOM)
  }

  /** Every byte of the stack reads, through the page tables, as the writer's memory has it. */
  ghost predicate StackShows(mem: Frames, root: nat, stack: seq<nat>, memory: S.Memory)
    requires S.Frames16(Bases(stack))
  {
    forall a: nat | S.OnStack(a) :: UserByte(mem, root, a) == Some(S.UserByte(memory, Bases(stack), a))
  }

  lemma {:induction false} StackIsShown(mem: Frames, root: nat, free: seq<nat>, pages: PageMap, now: PageMap, frames: seq<nat>, memory: S.Memory)
    requires Holds(mem, root, free, now) && |frames| == S.STACK_PAGES && StackMapped(pages, now, frames, |frames|)
    requires S.Frames16(Bases(frames))
    ensures StackShows(Reflected(mem, memory), root, frames, memory)
  {
    hide Holds, UserByte, Reflected, S.Frames16, StackMapped;
    forall a: nat | S.OnStack(a)
      ensures UserByte(Reflected(mem, memory), root, a) == Some(S.UserByte(memory, Bases(frames), a))
    {
      StackThroughTables(mem, root, free, pages, now, frames, memory, a);
    }
  }

  /** Whatever the program could read it still reads. */
  ghost predicate BytesKept(before: Frames, after: Frames, root: nat) {
    forall a: nat | a < USER_SPACE_LIMIT && UserByte(before, root, a).Some? :: UserByte(after, root, a) == UserByte(before, root, a)
  }

  lemma {:induction false} ProgramStays(before: Frames, mem: Frames, root: nat, free: seq<nat>, rest: seq<nat>, pages: PageMap, now: PageMap,
                                        frames: seq<nat>, memory: S.Memory)
    requires Holds(before, root, free, pages) && Holds(mem, root, rest, now) && SameFramesOf(before, mem, pages)
    requires |frames| == S.STACK_PAGES && StackMapped(pages, now, frames, |frames|) && forall p | p in pages :: p < STACK_PAGE
    requires S.Frames16(Bases(frames)) && S.KeptAbove(MemoryOf(mem), memory, Bases(frames), S.STACK_TOP)
    ensures BytesKept(before, Reflected(mem, memory), root)
  {
    hide Holds, UserByte, Reflected, S.Frames16, StackMapped, S.KeptAbove, SameFramesOf;
    forall a: nat | a < USER_SPACE_LIMIT && UserByte(before, root, a).Some?
      ensures UserByte(Reflected(mem, memory), root, a) == UserByte(before, root, a)
    {
      ProgramByteStays(before, mem, root, free, rest, pages, now, frames, memory, a);
    }
  }

  lemma {:induction false} ImageStaysInPlace(before: Frames, after: Frames, root: nat, file: seq<byte>)
    requires |file| >= EHDR_BYTES && ImageInPlace(before, root, file) && BytesKept(before, after, root)
    ensures ImageInPlace(after, root, file)
  {
    hide UserByte, HeadersOf, PlanFor, Shift;
    var headers := HeadersOf(file);
    var shift := Shift(PlanFor(headers));
    forall k, n | 0 <= k < |headers| && headers[k].kind == PT_LOAD && 0 <= n < headers[k].memorySize
      ensures ByteInPlace(after, root, file, headers[k], shift, n)
    {
      assert SegmentInPlace(before, root, file, headers[k], shift);
      assert ByteInPlace(before, root, file, headers[k], shift, n);
    }
  }

  lemma {:induction false} KeptInTurn(mem: Frames, now: Frames, after: Frames, root: nat, pages: PageMap)
    requires SameFramesOf(mem, now, pages) && SameFramesOf(now, after, pages)
    requires WalksOf(mem, now, root, pages) && WalksOf(now, after, root, pages)
    ensures SameFramesOf(mem, after, pages) && WalksOf(mem, after, root, pages)
  {
    hide Walk, PathOf;
    forall p | p in pages
      ensures SameFrame(mem, after, pages[p]) && Walk(after, root, PathOf(p)) == Walk(mem, root, PathOf(p))
    {
      assert SameFrame(mem, now, pages[p]) && SameFrame(now, after, pages[p]);
    }
  }

  /** Pages of the lower half that were mapped are mapped as before. */
  ghost predicate MappingsKept(before: Frames, after: Frames, root: nat) {
    forall p: nat | p < LOWER_PAGES && Walk(before, root, PathOf(p)).Mapped? ::
      Walk(after, root, PathOf(p)) == Walk(before, root, PathOf(p))
  }

  predicate StackUsable(mem: Frames, root: nat) {
    forall p | STACK_PAGE <= p < STACK_PAGE + S.STACK_PAGES :: FullyUsable(mem, root, p)
  }

  lemma {:induction false} MappingsStay(before: Frames, mem: Frames, root: nat, free: seq<nat>, pages: PageMap, memory: S.Memory)
    requires Holds(before, root, free, pages) && WalksOf(before, mem, root, pages)
    requires forall p | STACK_PAGE <= p < STACK_PAGE + S.STACK_PAGES :: FullyUsable(mem, root, p)
    ensures MappingsKept(before, Reflected(mem, memory), root) && StackUsable(Reflected(mem, memory), root)
  {
    hide Walk, PathOf, Grant, Reflected;
    forall p: nat | p < LOWER_PAGES && Walk(before, root, PathOf(p)).Mapped?
      ensures Walk(Reflected(mem, memory), root, PathOf(p)) == Walk(before, root, PathOf(p))
    {
      assert PageHeld(before, root, free, pages, p);
      ReflectedWalk(mem, memory, root, PathOf(p));
    }
    forall p | STACK_PAGE <= p < STACK_PAGE + S.STACK_PAGES
      ensures FullyUsable(Reflected(mem, memory), root, p)
    {
      assert FullyUsable(mem, root, p);
      ReflectedWalk(mem, memory, root, PathOf(p));
    }
  }

  lemma {:induction false} RightsStayInPlace(before: Frames, after: Frames, root: nat, file: seq<byte>)
    requires |file| >= EHDR_BYTES && RightsInPlace(before, root, file) && MappingsKept(before, after, root)
    ensures RightsInPlace(after, root, file)
  {
    hide Walk, PathOf, HeadersOf, PlanFor, Shift, HeaderTouches, WritableByHeaders, Grant;
    var headers := HeadersOf(file);
    var shift := Shift(PlanFor(headers));
    forall k, page: nat | 0 <= k < |headers| && headers[k].kind == PT_LOAD && HeaderTouches(headers[k], shift, page)
      ensures PageAllows(after, root, headers, shift, page)
    {
      assert PageAllows(before, root, headers, shift, page);
    }
  }

  /** Maps and writes the stack; what the kernel writes by physical address the program reads by its own. */
  method BuildStack(m: PhysicalMemory, root: nat, entry: nat, headersAt: nat, headerCount: nat, argv: seq<seq<byte>>, envp: seq<seq<byte>>, ghost pages: PageMap)
    returns (stack: Option<seq<nat>>, sp: nat, ghost memory: S.Memory, ghost argvAt: seq<nat>, ghost envpAt: seq<nat>)
    requires Holds(m.frames, root, m.free, pages) && AllFit(m.free) && forall p | p in pages :: p < STACK_PAGE
    requires 0 <= S.StackPointer(argv, envp) && entry < WORD && headersAt < WORD && headerCount < WORD
    modifies m
    ensures stack.None? ==> m.free == []
    ensures stack.Some? ==> S.Frames16(Bases(stack.value)) && sp == S.StackPointer(argv, envp)
    ensures stack.Some? && S.Fits(argv, envp) ==>
              S.WordsAt(memory, Bases(stack.value), sp, S.Layout(argvAt, envpAt, S.Auxiliary(entry, headersAt, headerCount)))
    ensures stack.Some? && S.Fits(argv, envp) && S.AllWhole(Bases(stack.value), argv, envp) ==>
              S.TextsAt(memory, Bases(stack.value), argvAt, argv) && S.TextsAt(memory, Bases(stack.value), envpAt, envp)
    ensures stack.Some? && S.AllWhole(Bases(stack.value), argv, envp) ==>
              StackShows(m.frames, root, stack.value, memory) && BytesKept(old(m.frames), m.frames, root)
    ensures stack.Some? && S.AllWhole(Bases(stack.value), argv, envp) ==>
              StackUsable(m.frames, root) && MappingsKept(old(m.frames), m.frames, root)
  {
    hide StackUsable, MappingsKept, WalksOf, FullyUsable;
    hide Holds, AllFit, AllSpare, S.Frames16, S.AllWhole, S.StringsIn, S.StringBottom, S.WordsAt, S.TextsAt, S.Layout, S.Auxiliary, S.AreAddresses, S.KeptAbove, S.StackPointer;
    hide S.Fits, StackShows, BytesKept, StackMapped, SameFramesOf, Reflected;
    stack, sp, memory, argvAt, envpAt := None, 0, MemoryOf(m.frames), [], [];
    ghost var before, free := m.frames, m.free;
    var taken := TakeStackFrames(m, root, pages);
    if taken.None? {
      return;
    }
    ghost var mid := m.frames;
    var ok, now := MapStackFrames(m, root, taken.value, pages);
    if !ok {
      return;
    }
    KeptInTurn(before, mid, m.frames, root, pages);
    BasesAreFrames(taken.value);
    var w := new S.StackWriter(MemoryOf(m.frames), Bases(taken.value));
    argvAt, envpAt := w.Setup(entry, headersAt, headerCount, argv, envp);
    ghost var mapped := m.frames;
    m.frames := Reflected(m.frames, w.memory);
    stack, sp, memory := taken, w.sp, w.memory;
    if S.AllWhole(Bases(taken.value), argv, envp) {
      StackIsShown(mapped, root, m.free, pages, now, taken.value, memory);
      ProgramStays(before, mapped, root, free, m.free, pages, now, taken.value, memory);
      MappingsStay(before, mapped, root, free, pages, memory);
    }
  }

  lemma {:induction false} PagesBelowStack(pages: PageMap, plan: seq<PlanEntry>)
    requires BelowTop(pages, plan) && Highest(plan) + Shift(plan) <= S.STACK_BOTTOM
    ensures forall p | p in pages :: p < STACK_PAGE
  {
    hide Highest, Shift;
    assert S.STACK_BOTTOM == STACK_PAGE * PAGE_BYTES;
  }

  lemma {:induction false} ActivationFits(file: seq<byte>, activation: Activation)
    requires ActivationOf(file, activation)
    ensures activation.entry < WORD && activation.headersAt < WORD && activation.headerCount < WORD
  {
    hide Lowest, Highest, PlanFits, AllShifted, HeadersOf, PlanFor, ReadLe64, ReadLe32, ReadLe16;
    var plan := PlanFor(HeadersOf(file));
    ShiftFacts(plan, |file|);
    assert LoadBase(plan) < USER_SPACE_LIMIT;
  }

  /**
   From a file and its arguments to a running program: if every string of its stack lies
   whole in physical memory, it finds its file's bytes in its segments and its arguments on
   its stack, both through its own page tables.
   */
  method SpawnImage(m: PhysicalMemory, kernel: nat, file: seq<byte>, argv: seq<seq<byte>>, envp: seq<seq<byte>>)
    returns (r: Spawned, ghost memory: S.Memory, ghost argvAt: seq<nat>, ghost envpAt: seq<nat>)
    requires Ready(m.frames, kernel, m.free) && AllFit(m.free) && |file| < WORD
    requires FileHeaderOk(file) ==> ClearOfStack(file)
    requires 0 <= S.StackPointer(argv, envp)
    modifies m
    ensures r.SpawnRefused? ==> m.frames == old(m.frames) && m.free == old(m.free)
    ensures r.NoFramesLeft? ==> m.free == []
    ensures r.Running? ==> FileHeaderOk(file) && r.entry == ReadLe64(file, 24) + Shift(PlanFor(HeadersOf(file)))
    ensures r.Running? ==> S.Frames16(Bases(r.stack)) && r.sp == S.StackPointer(argv, envp)
    ensures r.Running? && S.AllWhole(Bases(r.stack), argv, envp) ==>
              ImageInPlace(m.frames, r.root, file) && StackShows(m.frames, r.root, r.stack, memory)
    ensures r.Running? && S.AllWhole(Bases(r.stack), argv, envp) ==>
              RightsInPlace(m.frames, r.root, file) && StackUsable(m.frames, r.root)
    ensures r.Running? && S.Fits(argv, envp) ==>
              S.WordsAt(memory, Bases(r.stack), r.sp,
                S.Layout(argvAt, envpAt, S.Auxiliary(r.entry, LoadBase(PlanFor(HeadersOf(file))) + EHDR_BYTES, CountOf(file))))
    ensures r.Running? && S.Fits(argv, envp) && S.AllWhole(Bases(r.stack), argv, envp) ==>
              S.TextsAt(memory, Bases(r.stack), argvAt, argv) && S.TextsAt(memory, Bases(r.stack), envpAt, envp)
  {
    hide Ready, AllFit, Holds, HeadersOf, PlanFor, ImageInPlace, RightsInPlace, StackUsable, MappingsKept, BelowTop, Highest, Shift, LoadBase, AllShifted, PlanFits, InOrder;
    hide S.Frames16, S.AllWhole, S.StringsIn, S.StringBottom, S.WordsAt, S.TextsAt, S.Layout, S.Auxiliary, S.StackPointer, S.Fits, StackShows, BytesKept, ReadLe16, ReadLe64;
    memory, argvAt, envpAt := MemoryOf(m.frames), [], [];
    var loaded, pages := LoadImage(m, kernel, file);
    if loaded.Refused? {
      r := SpawnRefused(loaded.refusal);
      return;
    }
    if loaded.OutOfFrames? {
      r := NoFramesLeft;
      return;
    }
    var a := loaded.activation;
    PagesBelowStack(pages, PlanFor(HeadersOf(file)));
    ActivationFits(file, a);
    ghost var before := m.frames;
    var stack, sp;
    stack, sp, memory, argvAt, envpAt := BuildStack(m, loaded.root, a.entry, a.headersAt, a.headerCount, argv, envp, pages);
    if stack.None? {
      r := NoFramesLeft;
      return;
    }
    if S.AllWhole(Bases(stack.value), argv, envp) {
      ImageStaysInPlace(before, m.frames, loaded.root, file);
      RightsStayInPlace(before, m.frames, loaded.root, file);
    }
    r := Running(loaded.root, a.entry, sp, stack.value);
  }
}
