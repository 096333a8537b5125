/**
 Loading a program into an empty user address space: segment after segment, page after
 page, with a page that two neighbouring segments share allocated once.
 */
module Loader {
  import opened Bytes
  import opened PageTables
  import opened UserMapping

  /** Frames whose addresses fit the physical address width. */
  const MAX_FRAMES: nat := 0xff_ffff_ffff

  /** A segment at its user address; `bytes` is its file part, the rest up to virtualEnd is zero. */
  datatype Segment = Segment(virtualStart: nat, virtualEnd: nat, mapStart: nat, mapEnd: nat, writable: bool, bytes: seq<byte>)

  predicate FitsPages(s: Segment) {
    && s.virtualStart + |s.bytes| <= s.virtualEnd
    && s.mapStart <= s.virtualStart < s.mapStart + PAGE_BYTES
    && s.virtualEnd <= s.mapEnd < s.virtualEnd + PAGE_BYTES
    && s.mapStart % PAGE_BYTES == 0 && s.mapEnd % PAGE_BYTES == 0
    && s.mapEnd <= LOWER_PAGES * PAGE_BYTES
  }

  /** In ascending order without overlap, as the System V gABI (chapter 5, Program Header) has it. */
  predicate Ascending(segments: seq<Segment>) {
    forall i, j | 0 <= i < j < |segments| :: segments[i].virtualEnd <= segments[j].virtualStart
  }

  predicate InFile(s: Segment, address: nat) {
    s.virtualStart <= address < s.virtualStart + |s.bytes|
  }

  /** The byte a program should find at an address: the last segment's file byte that lies there, or zero. */
  function Want(segments: seq<Segment>, address: nat): byte {
    if segments == [] then 0 else
    var last := segments[|segments| - 1];
    if InFile(last, address) then last.bytes[address - last.virtualStart]
    else Want(segments[..|segments| - 1], address)
  }

  // ------------------------------------------------------------ pages and their frames

  /** The user pages in place and the frame of each. */
  type PageMap = map<nat, nat>

  predicate PageHeld(mem: Frames, root: nat, free: seq<nat>, pages: PageMap, page: nat) {
    if page in pages then
      && page < LOWER_PAGES
      && Walk(mem, root, PathOf(page)).Mapped? && Walk(mem, root, PathOf(page)).entry.frame == pages[page]
      && Walk(mem, root, PathOf(page)).way == ALL_RIGHTS
      && pages[page] in mem && mem[pages[page]].Data? && |mem[pages[page]].bytes| == PAGE_BYTES
      && pages[page] !in free && pages[page] < MAX_FRAMES
    else
      page < LOWER_PAGES ==> Walk(mem, root, PathOf(page)) == NotMapped(ALL_RIGHTS)
  }

  predicate OneFrameEach(pages: PageMap) {
    forall p, q | p in pages && q in pages && p != q :: pages[p] != pages[q]
  }

  ghost predicate Holds(mem: Frames, root: nat, free: seq<nat>, pages: PageMap) {
    && Ready(mem, root, free) && OneFrameEach(pages)
    && forall page: nat :: PageHeld(mem, root, free, pages, page)
  }

  /** Writing data to a frame that is not a table of the tree changes no translation. */
  lemma {:induction false} DataWriteKeepsTree(mem: Frames, root: nat, free: seq<nat>, f: nat, data: seq<byte>)
    requires TreeShaped(mem, root, free) && (f in free || (f in mem && mem[f].Data?))
    ensures TreeShaped(mem[f := Data(data)], root, free)
    ensures SameWalks(mem, mem[f := Data(data)], root)
  {
    var after := mem[f := Data(data)];
    assert TableAt(mem, root, []) == Some(root);
    forall p | |p| <= 3 && TableAt(mem, root, p).Some?
      ensures TableKept(mem, after, TableAt(mem, root, p).value, root, ENTRIES)
    {
      TableAtIsTable(mem, root, p);
    }
    forall q: seq<nat> | |q| <= 4
      ensures q != [] ==> Walk(after, root, q) == Walk(mem, root, q)
      ensures |q| <= 3 ==> TableAt(after, root, q) == TableAt(mem, root, q)
    {
      SameTreeWalks(mem, after, root, free, q);
    }
    forall p: seq<nat>, i: nat | |p| <= 2 && TableAt(after, root, p).Some? && 0 <= i < ENTRIES
      ensures EntryClosed(after, TableAt(after, root, p).value, i)
    {
      TableAtIsTable(mem, root, p);
      assert EntryClosed(mem, TableAt(mem, root, p).value, i);
      if Leads(mem, TableAt(mem, root, p).value, i) {
        TableAtStep(mem, root, p, i);
        assert TableAt(mem, root, p + [i]).Some?;
      }
    }
  }

  lemma {:induction false} SameTreeWalks(mem: Frames, after: Frames, root: nat, free: seq<nat>, q: seq<nat>)
    requires TreeShaped(mem, root, free) && |q| <= 4 && TableAt(mem, root, []) == Some(root)
    requires OnlyEntryDiffers(mem, after, root, root, ENTRIES)
    ensures q != [] ==> Walk(after, root, q) == Walk(mem, root, q)
    ensures |q| <= 3 ==> TableAt(after, root, q) == TableAt(mem, root, q)
  {
    if q == [] || q[0] < ENTRIES {
      ElsewhereIsSame(mem, after, root, free, [], ENTRIES, q);
    } else {
      ElsewhereIsSame(mem, after, root, free, [], ENTRIES, []);
    }
  }

  /** Memory before a page is mapped: the frame holds data and is no longer up for allocation. */
  ghost predicate Staged(mem: Frames, root: nat, free: seq<nat>, pages: PageMap, page: nat, f: nat) {
    && Holds(mem, root, free, pages) && page < LOWER_PAGES && f !in free && f < MAX_FRAMES
    && f in mem && mem[f].Data? && |mem[f].bytes| == PAGE_BYTES
    && (if page in pages then pages[page] == f else forall p | p in pages :: pages[p] != f)
  }

  /** The mapping of one page took place. */
  ghost predicate PageMapped(mem: Frames, free: seq<nat>, after: Frames, rest: seq<nat>, root: nat, page: nat, f: nat, flags: Flags) {
    && Ready(after, root, rest) && Drawn(free, rest) && DataKept(mem, after, free)
    && RunGranted(mem, after, root, page, 1, f, flags)
  }

  predicate SameFrame(mem: Frames, after: Frames, f: nat) {
    f in mem && f in after && after[f] == mem[f]
  }

  lemma {:induction false} StagedIsHeld(mem: Frames, free: seq<nat>, after: Frames, rest: seq<nat>, root: nat, pages: PageMap, page: nat, f: nat, flags: Flags, other: nat)
    requires Staged(mem, root, free, pages, page, f) && PageMapped(mem, free, after, rest, root, page, f, flags)
    ensures PageHeld(after, root, rest, pages[page := f], other)
  {
    hide Walk, PathOf, Ready, RunGranted, Ahead, Masked;
    assert PageHeld(mem, root, free, pages, other);
    if other < LOWER_PAGES {
      OneAhead(page, other, f);
      if other != page {
        OutsideRunIsKept(mem, after, root, page, 1, f, flags, other);
      } else if page in pages {
        MappedRunKeepsFrame(mem, after, root, page, 1, f, flags, page);
      } else {
        UnmappedRunTranslates(mem, after, root, page, 1, f, flags, page);
      }
    }
  }

  lemma {:induction false} OneAhead(page: nat, other: nat, f: nat)
    requires page < LOWER_PAGES && other < LOWER_PAGES && f < MAX_FRAMES
    ensures Ahead(page, other) < 1 <==> other == page
    ensures Masked(f + Ahead(page, page)) == f
  {
  }

  lemma {:induction false} MappingHolds(mem: Frames, free: seq<nat>, after: Frames, rest: seq<nat>, root: nat, pages: PageMap, page: nat, f: nat, flags: Flags)
    requires Staged(mem, root, free, pages, page, f) && PageMapped(mem, free, after, rest, root, page, f, flags)
    ensures Holds(after, root, rest, pages[page := f])
    ensures forall p | p in pages :: SameFrame(mem, after, pages[p])
    ensures SameFrame(mem, after, f)
  {
    hide PageHeld, Ready, RunGranted;
    var now := pages[page := f];
    forall other: nat
      ensures PageHeld(after, root, rest, now, other)
    {
      StagedIsHeld(mem, free, after, rest, root, pages, page, f, flags, other);
    }
    forall p | p in pages
      ensures SameFrame(mem, after, pages[p])
    {
      HeldFrame(mem, root, free, pages, p);
    }
  }

  lemma {:induction false} HeldFrame(mem: Frames, root: nat, free: seq<nat>, pages: PageMap, page: nat)
    requires Holds(mem, root, free, pages) && page in pages
    ensures page < LOWER_PAGES && pages[page] in mem && mem[pages[page]].Data? && |mem[pages[page]].bytes| == PAGE_BYTES
    ensures pages[page] !in free && pages[page] < MAX_FRAMES
    ensures Walk(mem, root, PathOf(page)).Mapped? && Walk(mem, root, PathOf(page)).entry.frame == pages[page]
    ensures Walk(mem, root, PathOf(page)).way == ALL_RIGHTS
  {
    assert PageHeld(mem, root, free, pages, page);
  }

  /** Taking the next free frame and clearing it. */
  lemma {:induction false} FreshFrameIsStaged(mem: Frames, root: nat, free: seq<nat>, pages: PageMap, page: nat, data: seq<byte>)
    requires Holds(mem, root, free, pages) && page < LOWER_PAGES && page !in pages && free != [] && |data| == PAGE_BYTES
    requires free[0] < MAX_FRAMES
    ensures Staged(mem[free[0] := Data(data)], root, free[1..], pages, page, free[0])
    ensures SameWalks(mem, mem[free[0] := Data(data)], root)
    ensures forall p | p in pages :: pages[p] != free[0]
  {
    hide Walk, PathOf;
    var after := mem[free[0] := Data(data)];
    assert free[0] in free;
    DataWriteKeepsTree(mem, root, free, free[0], data);
    FirstIsNotRepeated(free);
    assert TreeShaped(after, root, free[1..]);
    forall p | p in pages
      ensures pages[p] != free[0]
    {
      HeldFrame(mem, root, free, pages, p);
    }
    forall other: nat
      ensures PageHeld(after, root, free[1..], pages, other)
    {
      assert PageHeld(mem, root, free, pages, other);
    }
  }

  lemma {:induction false} HeldFrameIsStaged(mem: Frames, root: nat, free: seq<nat>, pages: PageMap, page: nat)
    requires Holds(mem, root, free, pages) && page in pages
    ensures Staged(mem, root, free, pages, page, pages[page])
  {
    HeldFrame(mem, root, free, pages, page);
  }

  /** New contents for the frame of a page. */
  lemma {:induction false} WritingHolds(mem: Frames, root: nat, free: seq<nat>, pages: PageMap, page: nat, data: seq<byte>)
    requires Holds(mem, root, free, pages) && page in pages && |data| == PAGE_BYTES
    ensures Holds(mem[pages[page] := Data(data)], root, free, pages)
    ensures SameWalks(mem, mem[pages[page] := Data(data)], root)
    ensures forall p | p in pages && p != page :: SameFrame(mem, mem[pages[page] := Data(data)], pages[p])
  {
    hide Walk, TreeShaped, PathOf, NoRepeat;
    var after := mem[pages[page] := Data(data)];
    HeldFrame(mem, root, free, pages, page);
    DataWriteKeepsTree(mem, root, free, pages[page], data);
    forall other: nat
      ensures PageHeld(after, root, free, pages, other)
    {
      assert PageHeld(mem, root, free, pages, other);
    }
    forall p | p in pages && p != page
      ensures SameFrame(mem, after, pages[p])
    {
      HeldFrame(mem, root, free, pages, p);
    }
  }

  // --------------------------------------------------------------------- page contents

  predicate Shows(mem: Frames, f: nat, page: nat, segments: seq<Segment>) {
    && f in mem && mem[f].Data? && |mem[f].bytes| == PAGE_BYTES
    && forall i | 0 <= i < PAGE_BYTES :: mem[f].bytes[i] == Want(segments, page * PAGE_BYTES + i)
  }

  predicate Covers(pages: PageMap, s: Segment) {
    forall p | s.mapStart / PAGE_BYTES <= p < s.mapEnd / PAGE_BYTES :: p in pages
  }

  predicate CoversAll(pages: PageMap, segments: seq<Segment>) {
    forall k | 0 <= k < |segments| :: Covers(pages, segments[k])
  }

  predicate Below(pages: PageMap, bound: nat) {
    forall p | p in pages :: p * PAGE_BYTES < bound
  }

  lemma {:induction false} FilePageInRange(s: Segment, address: nat)
    requires FitsPages(s)
    ensures s.virtualStart <= address < s.virtualEnd ==>
              s.mapStart / PAGE_BYTES <= address / PAGE_BYTES < s.mapEnd / PAGE_BYTES
  {
  }

  lemma {:induction false} NothingWanted(pages: PageMap, segments: seq<Segment>, address: nat)
    requires CoversAll(pages, segments) && address / PAGE_BYTES !in pages
    requires forall k | 0 <= k < |segments| :: FitsPages(segments[k])
    ensures Want(segments, address) == 0
  {
    if segments != [] {
      var n := |segments| - 1;
      NothingWanted(pages, segments[..n], address);
      FilePageInRange(segments[n], address);
      assert Covers(pages, segments[n]);
    }
  }

  lemma {:induction false} WantOneMore(done: seq<Segment>, s: Segment, address: nat)
    ensures Want(done + [s], address) ==
              if InFile(s, address) then s.bytes[address - s.virtualStart] else Want(done, address)
  {
    assert (done + [s])[..|done|] == done;
  }

  /** A cleared frame shows what is wanted of a page no segment has reached. */
  lemma {:induction false} ClearedShows(mem: Frames, f: nat, page: nat, pages: PageMap, done: seq<Segment>)
    requires f in mem && mem[f] == Data(ZeroPage()) && page !in pages && CoversAll(pages, done)
    requires forall k | 0 <= k < |done| :: FitsPages(done[k])
    ensures Shows(mem, f, page, done)
  {
    hide Want;
    forall i | 0 <= i < PAGE_BYTES
      ensures mem[f].bytes[i] == Want(done, page * PAGE_BYTES + i)
    {
      assert (page * PAGE_BYTES + i) / PAGE_BYTES == page;
      NothingWanted(pages, done, page * PAGE_BYTES + i);
    }
  }

  function Max(a: nat, b: nat): nat {
    if a < b then b else a
  }

  function Min(a: nat, b: nat): nat {
    if a < b then a else b
  }

  /** The part of the segment's file bytes that falls into a page, and where. */
  function CopyStart(s: Segment, page: nat): nat {
    Max(page * PAGE_BYTES, s.virtualStart)
  }

  function CopyEnd(s: Segment, page: nat): nat {
    Min((page + 1) * PAGE_BYTES, s.virtualStart + |s.bytes|)
  }

  lemma {:induction false} CopiedShows(mem: Frames, after: Frames, f: nat, page: nat, done: seq<Segment>, s: Segment)
    requires Shows(mem, f, page, done)
    requires CopyStart(s, page) < CopyEnd(s, page)
    requires after == mem[f := Data(Overwritten(mem[f].bytes, CopyStart(s, page) - page * PAGE_BYTES,
                        s.bytes[CopyStart(s, page) - s.virtualStart..CopyEnd(s, page) - s.virtualStart]))]
    ensures Shows(after, f, page, done + [s])
  {
    hide Want, Overwritten;
    forall i | 0 <= i < PAGE_BYTES
      ensures after[f].bytes[i] == Want(done + [s], page * PAGE_BYTES + i)
    {
      WantOneMore(done, s, page * PAGE_BYTES + i);
    }
  }

  lemma {:induction false} NothingToCopyShows(mem: Frames, f: nat, page: nat, done: seq<Segment>, s: Segment)
    requires Shows(mem, f, page, done) && !(CopyStart(s, page) < CopyEnd(s, page))
    ensures Shows(mem, f, page, done + [s])
  {
    hide Want;
    forall i | 0 <= i < PAGE_BYTES
      ensures mem[f].bytes[i] == Want(done + [s], page * PAGE_BYTES + i)
    {
      WantOneMore(done, s, page * PAGE_BYTES + i);
    }
  }

  // ---------------------------------------------------------------- what a page allows

  predicate Touches(s: Segment, page: nat) {
    s.mapStart / PAGE_BYTES <= page < s.mapEnd / PAGE_BYTES
  }

  /** Some segment that may be written reaches into the page. */
  predicate WritableOn(segments: seq<Segment>, page: nat) {
    exists k :: 0 <= k < |segments| && segments[k].writable && Touches(segments[k], page)
  }

  /** The leaf lets user code in, lets it execute, and lets it write exactly for writable segments. */
  predicate Allows(mem: Frames, root: nat, page: nat, segments: seq<Segment>) {
    var t := Walk(mem, root, PathOf(page));
    t.Mapped? && RightsOf(t.entry) == Rights(WritableOn(segments, page), true, true)
  }

  predicate AllAllow(mem: Frames, root: nat, pages: PageMap, segments: seq<Segment>) {
    forall p | p in pages :: Allows(mem, root, p, segments)
  }

  /** Pages before `page` already allow what the new segment asks for, the others only what the segments before it do. */
  predicate AllowSoFar(mem: Frames, root: nat, pages: PageMap, done: seq<Segment>, s: Segment, page: nat) {
    forall p | p in pages :: Allows(mem, root, p, if p < page then done + [s] else done)
  }

  lemma {:induction false} WritableOneMore(done: seq<Segment>, s: Segment, page: nat)
    ensures WritableOn(done + [s], page) <==> WritableOn(done, page) || (s.writable && Touches(s, page))
  {
    if WritableOn(done, page) {
      var k :| 0 <= k < |done| && done[k].writable && Touches(done[k], page);
      assert (done + [s])[k] == done[k];
    }
    if s.writable && Touches(s, page) {
      assert (done + [s])[|done|] == s;
    }
    if WritableOn(done + [s], page) {
      var k :| 0 <= k < |done + [s]| && (done + [s])[k].writable && Touches((done + [s])[k], page);
      assert k < |done| ==> done[k] == (done + [s])[k];
    }
  }

  lemma {:induction false} AllowBegins(mem: Frames, root: nat, pages: PageMap, done: seq<Segment>, s: Segment, page: nat)
    requires AllAllow(mem, root, pages, done) && page <= s.mapStart / PAGE_BYTES
    ensures AllowSoFar(mem, root, pages, done, s, page)
  {
    hide WritableOn, Walk, PathOf, RightsOf;
    forall p | p in pages
      ensures Allows(mem, root, p, if p < page then done + [s] else done)
    {
      assert Allows(mem, root, p, done);
      WritableOneMore(done, s, p);
    }
  }

  lemma {:induction false} AllowEnds(mem: Frames, root: nat, pages: PageMap, done: seq<Segment>, s: Segment, page: nat)
    requires AllowSoFar(mem, root, pages, done, s, page) && forall p | p in pages :: p < page
    ensures AllAllow(mem, root, pages, done + [s])
  {
    hide Allows;
  }

  lemma {:induction false} AllowStays(mem: Frames, after: Frames, root: nat, pages: PageMap, done: seq<Segment>, s: Segment, page: nat)
    requires AllowSoFar(mem, root, pages, done, s, page) && SameWalks(mem, after, root)
    ensures AllowSoFar(after, root, pages, done, s, page)
  {
    hide WritableOn, Walk, PathOf, RightsOf;
    forall p | p in pages
      ensures Allows(after, root, p, if p < page then done + [s] else done)
    {
      assert Allows(mem, root, p, if p < page then done + [s] else done);
    }
  }

  lemma {:induction false} FlagsOfSegment(s: Segment)
    ensures SegmentFlags(s).low & WRITABLE != 0 <==> s.writable
    ensures SegmentFlags(s).low & USER != 0 && SegmentFlags(s).high & NO_EXECUTE == 0
  {
  }

  lemma {:induction false} NotWritableYet(pages: PageMap, done: seq<Segment>, page: nat)
    requires CoversAll(pages, done) && page !in pages
    ensures !WritableOn(done, page)
  {
  }

  /** The page just mapped allows what it allowed and what the segment asks for. */
  lemma {:induction false} MappedAllows(mem: Frames, free: seq<nat>, after: Frames, rest: seq<nat>, root: nat, pages: PageMap, page: nat, f: nat, done: seq<Segment>, s: Segment)
    requires Staged(mem, root, free, pages, page, f) && PageMapped(mem, free, after, rest, root, page, f, SegmentFlags(s))
    requires CoversAll(pages, done) && Touches(s, page) && (page in pages ==> Allows(mem, root, page, done))
    ensures Allows(after, root, page, done + [s])
  {
    hide WritableOn, Walk, PathOf, RunGranted, Ready, Ahead, Masked, SegmentFlags, Touches, Drawn, DataKept;
    var flags := SegmentFlags(s);
    OneAhead(page, page, f);
    FlagsOfSegment(s);
    WritableOneMore(done, s, page);
    assert PageHeld(mem, root, free, pages, page);
    if page in pages {
      OldPageGrants(mem, after, root, page, 1, f, flags, page);
    } else {
      NewPageGrants(mem, after, root, page, 1, f, flags, page);
      NotWritableYet(pages, done, page);
    }
  }

  lemma {:induction false} MappingAllows(mem: Frames, free: seq<nat>, after: Frames, rest: seq<nat>, root: nat, pages: PageMap, page: nat, f: nat, done: seq<Segment>, s: Segment)
    requires Staged(mem, root, free, pages, page, f) && PageMapped(mem, free, after, rest, root, page, f, SegmentFlags(s))
    requires CoversAll(pages, done) && Touches(s, page) && AllowSoFar(mem, root, pages, done, s, page)
    ensures AllowSoFar(after, root, pages[page := f], done, s, page + 1)
  {
    hide WritableOn, Walk, PathOf, RunGranted, Ready, Ahead, Masked, SegmentFlags, Touches, Drawn, DataKept, RightsOf, CoversAll;
    MappedAllows(mem, free, after, rest, root, pages, page, f, done, s);
    var now := pages[page := f];
    forall p | p in now && p != page
      ensures Allows(after, root, p, if p < page + 1 then done + [s] else done)
    {
      assert Allows(mem, root, p, if p < page then done + [s] else done);
      assert PageHeld(mem, root, free, pages, p);
      OneAhead(page, p, f);
      OutsideRunIsKept(mem, after, root, page, 1, f, SegmentFlags(s), p);
    }
  }

  // -------------------------------------------------------------------- mapping a segment

  /** Pages before `page` already show the new segment, the others only the segments before it. */
  ghost predicate Progress(mem: Frames, pages: PageMap, done: seq<Segment>, s: Segment, page: nat) {
    forall p | p in pages :: Shows(mem, pages[p], p, if p < page then done + [s] else done)
  }

  ghost predicate Loaded(mem: Frames, root: nat, free: seq<nat>, pages: PageMap, segments: seq<Segment>) {
    && Holds(mem, root, free, pages) && CoversAll(pages, segments)
    && (forall p | p in pages :: Shows(mem, pages[p], p, segments))
    && (forall k | 0 <= k < |segments| :: FitsPages(segments[k]))
    && AllAllow(mem, root, pages, segments)
  }

  /** The loader's memory of the last page it allocated is the highest page there is. */
  predicate LastIsHighest(pages: PageMap, lastPage: Option<nat>, lastFrame: Option<nat>) {
    match lastPage
    case None => pages == map[]
    case Some(last) =>
      && last in pages && lastFrame == Some(pages[last])
      && forall p | p in pages :: p <= last
  }

  predicate AllFit(free: seq<nat>) {
    forall f | f in free :: f < MAX_FRAMES
  }

  lemma {:induction false} ProgressBegins(mem: Frames, root: nat, free: seq<nat>, pages: PageMap, done: seq<Segment>, s: Segment)
    requires Loaded(mem, root, free, pages, done) && FitsPages(s) && Below(pages, s.virtualStart)
    ensures Progress(mem, pages, done, s, s.mapStart / PAGE_BYTES)
    ensures forall p | p in pages :: p <= s.mapStart / PAGE_BYTES
  {
    hide Holds, Shows, AllAllow, CoversAll, FitsPages;
    forall p | p in pages
      ensures Shows(mem, pages[p], p, if p < s.mapStart / PAGE_BYTES then done + [s] else done)
      ensures p <= s.mapStart / PAGE_BYTES
    {
      PageBelowStart(s, p);
      if p < s.mapStart / PAGE_BYTES {
        NothingToCopyShows(mem, pages[p], p, done, s);
      }
    }
  }

  lemma {:induction false} PageBelowStart(s: Segment, page: nat)
    requires FitsPages(s) && page * PAGE_BYTES < s.virtualStart
    ensures page <= s.mapStart / PAGE_BYTES
    ensures page < s.mapStart / PAGE_BYTES ==> (page + 1) * PAGE_BYTES <= s.virtualStart
  {
  }

  /** A page in place keeps showing what it showed while other frames change. */
  lemma {:induction false} ShowsStill(mem: Frames, after: Frames, f: nat, page: nat, segments: seq<Segment>)
    requires Shows(mem, f, page, segments) && SameFrame(mem, after, f)
    ensures Shows(after, f, page, segments)
  {
    hide Want;
  }

  lemma {:induction false} ProgressStays(mem: Frames, after: Frames, pages: PageMap, done: seq<Segment>, s: Segment, page: nat)
    requires Progress(mem, pages, done, s, page)
    requires forall p | p in pages :: SameFrame(mem, after, pages[p])
    ensures Progress(after, pages, done, s, page)
  {
    hide Shows;
    forall p | p in pages
      ensures Shows(after, pages[p], p, if p < page then done + [s] else done)
    {
      ShowsStill(mem, after, pages[p], p, if p < page then done + [s] else done);
    }
  }

  lemma {:induction false} ProgressMoves(mem: Frames, after: Frames, pages: PageMap, done: seq<Segment>, s: Segment, page: nat)
    requires Progress(mem, pages, done, s, page) && page in pages
    requires Shows(after, pages[page], page, done + [s])
    requires forall p | p in pages && p != page :: SameFrame(mem, after, pages[p])
    ensures Progress(after, pages, done, s, page + 1)
  {
    hide Shows;
    forall p | p in pages
      ensures Shows(after, pages[p], p, if p < page + 1 then done + [s] else done)
    {
      if p != page {
        ShowsStill(mem, after, pages[p], p, if p < page then done + [s] else done);
      }
    }
  }

  lemma {:induction false} ProgressEnds(mem: Frames, root: nat, free: seq<nat>, pages: PageMap, done: seq<Segment>, s: Segment, page: nat)
    requires Holds(mem, root, free, pages) && Progress(mem, pages, done, s, page) && FitsPages(s)
    requires forall p | p in pages :: p < page
    requires CoversAll(pages, done) && Covers(pages, s) && forall k | 0 <= k < |done| :: FitsPages(done[k])
    requires AllowSoFar(mem, root, pages, done, s, page)
    ensures Loaded(mem, root, free, pages, done + [s])
  {
    hide Shows, Holds, AllAllow, AllowSoFar;
    AllowEnds(mem, root, pages, done, s, page);
  }

  /** The frame behind the page: the one used last if the page is the same, else a new, cleared one. */
  method FrameForPage(m: PhysicalMemory, root: nat, page: nat, lastPage: Option<nat>, lastFrame: Option<nat>,
                      ghost pages: PageMap, ghost done: seq<Segment>, ghost s: Segment)
    returns (frame: Option<nat>)
    requires Holds(m.frames, root, m.free, pages) && LastIsHighest(pages, lastPage, lastFrame) && AllFit(m.free)
    requires page < LOWER_PAGES && Progress(m.frames, pages, done, s, page)
    requires forall p | p in pages :: p <= page
    requires CoversAll(pages, done) && forall k | 0 <= k < |done| :: FitsPages(done[k])
    modifies m
    ensures Drawn(old(m.free), m.free) && (frame.None? ==> m.free == [])
    ensures frame.Some? ==> Staged(m.frames, root, m.free, pages, page, frame.value)
    ensures frame.Some? ==> Progress(m.frames, pages, done, s, page) && Shows(m.frames, frame.value, page, done)
    ensures SameWalks(old(m.frames), m.frames, root)
    ensures frame.Some? && lastPage == Some(page) ==> frame == lastFrame && page in pages
    ensures frame.Some? && lastPage != Some(page) ==> page !in pages
  {
    hide Holds, Shows, Staged;
    if lastPage == Some(page) {
      HeldFrameIsStaged(m.frames, root, m.free, pages, page);
      return lastFrame;
    }
    ghost var mem, free := m.frames, m.free;
    frame := m.AllocateFrame();
    if frame.Some? {
      m.ClearFrame(frame.value);
      assert free[0] in free;
      FreshFrameIsStaged(mem, root, free, pages, page, ZeroPage());
      ClearedShows(m.frames, frame.value, page, pages, done);
      forall p | p in pages
        ensures SameFrame(mem, m.frames, pages[p])
      {
        HeldFrame(mem, root, free, pages, p);
      }
      ProgressStays(mem, m.frames, pages, done, s, page);
    }
  }

  function SegmentFlags(s: Segment): Flags {
    Flags(if s.writable then USER | WRITABLE else USER, 0)
  }

  /** Maps the frame at the page and copies the file bytes that fall into it. */
  method FillPage(m: PhysicalMemory, root: nat, page: nat, frame: nat, s: Segment, ghost pages: PageMap, ghost done: seq<Segment>)
    returns (ok: bool)
    requires Staged(m.frames, root, m.free, pages, page, frame) && Progress(m.frames, pages, done, s, page)
    requires Shows(m.frames, frame, page, done)
    requires CoversAll(pages, done) && Touches(s, page) && AllowSoFar(m.frames, root, pages, done, s, page)
    modifies m
    ensures Drawn(old(m.free), m.free) && (!ok ==> m.free == [])
    ensures ok ==> Holds(m.frames, root, m.free, pages[page := frame])
    ensures ok ==> Progress(m.frames, pages[page := frame], done, s, page + 1)
    ensures ok ==> AllowSoFar(m.frames, root, pages[page := frame], done, s, page + 1)
  {
    hide AllowSoFar, CoversAll, Touches, SameWalks, Walk, PathOf;
    hide Holds, Shows, RunGranted, Ready, DataKept, PageMapped, Progress, OneFrameEach;
    ghost var mem, free, now := m.frames, m.free, pages[page := frame];
    StagedIsReady(mem, root, free, pages, page, frame);
    OnePage(page);
    var result, mapped := m.MapUserRegion(root, page * PAGE_BYTES, frame * PAGE_BYTES, PAGE_BYTES, SegmentFlags(s));
    if result != MapOk {
      return false;
    }
    assert PageMapped(mem, free, m.frames, m.free, root, page, frame, SegmentFlags(s)) by {
      OneRun(mem, free, m.frames, m.free, root, page, frame, SegmentFlags(s));
    }
    MappingHolds(mem, free, m.frames, m.free, root, pages, page, frame, SegmentFlags(s));
    MappingAllows(mem, free, m.frames, m.free, root, pages, page, frame, done, s);
    ProgressWith(mem, m.frames, pages, done, s, page, frame);
    ShowsStill(mem, m.frames, frame, page, done);
    ghost var mapped' := m.frames;
    HeldFrame(mapped', root, m.free, now, page);
    var copyStart, copyEnd := CopyStart(s, page), CopyEnd(s, page);
    if copyStart < copyEnd {
      m.CopyBytes(frame, copyStart - page * PAGE_BYTES, s.bytes[copyStart - s.virtualStart..copyEnd - s.virtualStart]);
      CopiedShows(mapped', m.frames, frame, page, done, s);
      WritingHolds(mapped', root, m.free, now, page, m.frames[frame].bytes);
      AllowStays(mapped', m.frames, root, now, done, s, page + 1);
    } else {
      NothingToCopyShows(mapped', frame, page, done, s);
      SameFrames(mapped', root, m.free, now);
    }
    ProgressMoves(mapped', m.frames, now, done, s, page);
    ok := true;
  }

  lemma {:induction false} StagedIsReady(mem: Frames, root: nat, free: seq<nat>, pages: PageMap, page: nat, f: nat)
    requires Staged(mem, root, free, pages, page, f)
    ensures Ready(mem, root, free) && page < LOWER_PAGES && f < MAX_FRAMES
  {
  }

  lemma {:induction false} OnePage(page: nat)
    requires page < LOWER_PAGES
    ensures page * PAGE_BYTES < WORD
    ensures PagesTouched(page * PAGE_BYTES, PAGE_BYTES) == 1 && page * PAGE_BYTES / PAGE_BYTES == page
  {
  }

  lemma {:induction false} OneRun(mem: Frames, free: seq<nat>, after: Frames, rest: seq<nat>, root: nat, page: nat, f: nat, flags: Flags)
    requires Ready(after, root, rest) && Drawn(free, rest) && DataKept(mem, after, free)
    requires RunGranted(mem, after, root, page * PAGE_BYTES / PAGE_BYTES, 1, f * PAGE_BYTES / PAGE_BYTES, flags)
    ensures PageMapped(mem, free, after, rest, root, page, f, flags)
  {
    hide RunGranted, Ready, DataKept;
    assert f * PAGE_BYTES / PAGE_BYTES == f && page * PAGE_BYTES / PAGE_BYTES == page;
  }

  lemma {:induction false} ProgressWith(mem: Frames, after: Frames, pages: PageMap, done: seq<Segment>, s: Segment, page: nat, frame: nat)
    requires Progress(mem, pages, done, s, page) && Shows(mem, frame, page, done)
    requires forall p | p in pages :: SameFrame(mem, after, pages[p])
    requires SameFrame(mem, after, frame)
    ensures Progress(after, pages[page := frame], done, s, page)
  {
    hide Shows;
    var now := pages[page := frame];
    forall p | p in now
      ensures Shows(after, now[p], p, if p < page then done + [s] else done)
    {
      ShowsStill(mem, after, now[p], p, if p < page then done + [s] else done);
    }
  }

  lemma {:induction false} SameFrames(mem: Frames, root: nat, free: seq<nat>, pages: PageMap)
    requires Holds(mem, root, free, pages)
    ensures forall p | p in pages :: SameFrame(mem, mem, pages[p])
  {
    hide Holds;
    forall p | p in pages
      ensures SameFrame(mem, mem, pages[p])
    {
      HeldFrame(mem, root, free, pages, p);
    }
  }

  /** Maps all pages of one segment; `now` is the page map afterwards. */
  method MapSegmentPages(m: PhysicalMemory, root: nat, s: Segment, lastPage: Option<nat>, lastFrame: Option<nat>,
                         ghost pages: PageMap, ghost done: seq<Segment>)
    returns (ok: bool, newLastPage: Option<nat>, newLastFrame: Option<nat>, ghost now: PageMap)
    requires Loaded(m.frames, root, m.free, pages, done) && LastIsHighest(pages, lastPage, lastFrame) && AllFit(m.free)
    requires FitsPages(s) && Below(pages, s.virtualStart)
    modifies m
    ensures ok ==> Loaded(m.frames, root, m.free, now, done + [s]) && LastIsHighest(now, newLastPage, newLastFrame)
    ensures ok ==> Below(now, s.virtualEnd) && AllFit(m.free)
    ensures !ok ==> m.free == []
  {
    hide Holds, Shows, Progress, Staged, FitsPages, AllowSoFar, AllAllow, SameWalks, Walk;
    newLastPage, newLastFrame, now := lastPage, lastFrame, pages;
    ProgressBegins(m.frames, root, m.free, pages, done, s);
    PagesOf(s);
    AllowBegins(m.frames, root, pages, done, s, s.mapStart / PAGE_BYTES);
    var page, end := s.mapStart / PAGE_BYTES, s.mapEnd / PAGE_BYTES;
    while page < end
      invariant s.mapStart / PAGE_BYTES <= page <= end || page == s.mapStart / PAGE_BYTES
      invariant Holds(m.frames, root, m.free, now) && LastIsHighest(now, newLastPage, newLastFrame) && AllFit(m.free)
      invariant Progress(m.frames, now, done, s, page) && AllowSoFar(m.frames, root, now, done, s, page)
      invariant forall p | p in now :: p in pages || s.mapStart / PAGE_BYTES <= p < page
      invariant forall p | p in now :: p <= page && (page > s.mapStart / PAGE_BYTES ==> p < page)
      invariant forall p | p in pages || s.mapStart / PAGE_BYTES <= p < page :: p in now
    {
      ghost var before, was := m.free, m.frames;
      CoversGrown(pages, now, done);
      var frame := FrameForPage(m, root, page, newLastPage, newLastFrame, now, done, s);
      DrawnFits(before, m.free);
      if frame.None? {
        return false, newLastPage, newLastFrame, now;
      }
      newLastPage, newLastFrame := Some(page), frame;
      AllowStays(was, m.frames, root, now, done, s, page);
      before := m.free;
      var filled := FillPage(m, root, page, frame.value, s, now, done);
      DrawnFits(before, m.free);
      if !filled {
        return false, newLastPage, newLastFrame, now;
      }
      now := now[page := frame.value];
      page := page + 1;
    }
    CoversGrown(pages, now, done);
    StillBelow(pages, now, s);
    AllProgressed(m.frames, root, m.free, now, done, s, page);
    ok := true;
  }

  lemma {:induction false} PagesOf(s: Segment)
    requires FitsPages(s)
    ensures s.mapStart / PAGE_BYTES <= s.mapEnd / PAGE_BYTES <= LOWER_PAGES
  {
    var first, end := s.mapStart / PAGE_BYTES, s.mapEnd / PAGE_BYTES;
    assert first * PAGE_BYTES == s.mapStart <= s.mapEnd == end * PAGE_BYTES;
  }

  lemma {:induction false} CoversGrown(pages: PageMap, now: PageMap, segments: seq<Segment>)
    requires CoversAll(pages, segments) && forall p | p in pages :: p in now
    ensures CoversAll(now, segments)
  {
    forall k | 0 <= k < |segments|
      ensures Covers(now, segments[k])
    {
      assert Covers(pages, segments[k]);
    }
  }

  lemma {:induction false} DrawnFits(free: seq<nat>, rest: seq<nat>)
    requires AllFit(free) && Drawn(free, rest)
    ensures AllFit(rest)
  {
    forall f | f in rest
      ensures f < MAX_FRAMES
    {
      assert f in free[|free| - |rest|..];
      assert f in free;
    }
  }

  lemma {:induction false} StillBelow(pages: PageMap, now: PageMap, s: Segment)
    requires Below(pages, s.virtualStart) && FitsPages(s)
    requires forall p | p in now :: p in pages || s.mapStart / PAGE_BYTES <= p < s.mapEnd / PAGE_BYTES
    ensures Below(now, s.virtualEnd)
  {
    forall p | p in now
      ensures p * PAGE_BYTES < s.virtualEnd
    {
      assert p < s.mapEnd / PAGE_BYTES ==> p * PAGE_BYTES + PAGE_BYTES <= s.mapEnd;
    }
  }

  lemma {:induction false} AllProgressed(mem: Frames, root: nat, free: seq<nat>, now: PageMap, done: seq<Segment>, s: Segment, page: nat)
    requires forall k | 0 <= k < |done| :: FitsPages(done[k])
    requires Holds(mem, root, free, now) && Progress(mem, now, done, s, page) && FitsPages(s) && page == s.mapEnd / PAGE_BYTES
    requires CoversAll(now, done) && Below(now, s.virtualEnd)
    requires forall p | s.mapStart / PAGE_BYTES <= p < page :: p in now
    requires AllowSoFar(mem, root, now, done, s, page)
    ensures Loaded(mem, root, free, now, done + [s])
  {
    hide Holds, Shows, Progress, AllowSoFar;
    forall p | p in now
      ensures p < page
    {
      assert p * PAGE_BYTES < s.mapEnd;
    }
    ProgressEnds(mem, root, free, now, done, s, page);
  }

  // ------------------------------------------------------------------ the whole program

  /** What a program reads at an address of its lower half. */
  function UserByte(mem: Frames, root: nat, address: nat): Option<byte> {
    var t := Walk(mem, root, PathOf(address / PAGE_BYTES));
    if t.Mapped? && t.entry.frame in mem && mem[t.entry.frame].Data? && address % PAGE_BYTES < |mem[t.entry.frame].bytes|
    then Some(mem[t.entry.frame].bytes[address % PAGE_BYTES]) else None
  }

  /** No page above the last segment. */
  predicate WithinSegments(pages: PageMap, segments: seq<Segment>) {
    if segments == [] then pages == map[] else Below(pages, segments[|segments| - 1].virtualEnd)
  }

  method LoadSegments(m: PhysicalMemory, root: nat, segments: seq<Segment>) returns (ok: bool)
    requires Holds(m.frames, root, m.free, map[]) && AllFit(m.free) && Ascending(segments)
    requires forall k | 0 <= k < |segments| :: FitsPages(segments[k])
    modifies m
    ensures ok ==> exists pages: PageMap :: Loaded(m.frames, root, m.free, pages, segments) && WithinSegments(pages, segments)
    ensures ok ==> AllFit(m.free)
    ensures !ok ==> m.free == []
  {
    hide Loaded, LastIsHighest, Holds, FitsPages;
    ghost var pages: PageMap := map[];
    var lastPage: Option<nat>, lastFrame: Option<nat> := None, None;
    NothingLoaded(m.frames, root, m.free);
    for k := 0 to |segments|
      invariant Loaded(m.frames, root, m.free, pages, segments[..k]) && LastIsHighest(pages, lastPage, lastFrame)
      invariant k < |segments| ==> Below(pages, segments[k].virtualStart)
      invariant AllFit(m.free) && WithinSegments(pages, segments[..k])
    {
      ghost var now: PageMap;
      ok, lastPage, lastFrame, now := MapSegmentPages(m, root, segments[k], lastPage, lastFrame, pages, segments[..k]);
      if !ok {
        return;
      }
      pages := now;
      assert segments[..k] + [segments[k]] == segments[..k + 1];
      if k + 1 < |segments| {
        BelowNext(pages, segments, k);
      }
    }
    assert segments[..|segments|] == segments;
    ok := true;
  }

  lemma {:induction false} NothingLoaded(mem: Frames, root: nat, free: seq<nat>)
    requires Holds(mem, root, free, map[])
    ensures Loaded(mem, root, free, map[], []) && LastIsHighest(map[], None, None)
  {
    hide Holds;
  }

  lemma {:induction false} BelowNext(pages: PageMap, segments: seq<Segment>, k: nat)
    requires Ascending(segments) && k + 1 < |segments| && Below(pages, segments[k].virtualEnd)
    ensures Below(pages, segments[k + 1].virtualStart)
  {
    forall p | p in pages
      ensures p * PAGE_BYTES < segments[k + 1].virtualStart
    {
      assert segments[k].virtualEnd <= segments[k + 1].virtualStart;
    }
  }

  /** Without overlap, the byte wanted inside a segment is that segment's own. */
  lemma {:induction false} WantedInSegment(segments: seq<Segment>, k: nat, address: nat)
    requires Ascending(segments) && k < |segments| && forall j | 0 <= j < |segments| :: FitsPages(segments[j])
    requires segments[k].virtualStart <= address < segments[k].virtualEnd
    ensures Want(segments, address) ==
              if InFile(segments[k], address) then segments[k].bytes[address - segments[k].virtualStart] else 0
  {
    var n := |segments| - 1;
    if k < n {
      assert segments[k].virtualEnd <= segments[n].virtualStart;
      WantedInSegment(segments[..n], k, address);
    } else {
      WantedNowhere(segments[..n], address, segments[n].virtualStart);
    }
  }

  lemma {:induction false} WantedNowhere(segments: seq<Segment>, address: nat, bound: nat)
    requires bound <= address
    requires forall j | 0 <= j < |segments| :: FitsPages(segments[j]) && segments[j].virtualEnd <= bound
    ensures Want(segments, address) == 0
  {
    if segments != [] {
      WantedNowhere(segments[..|segments| - 1], address, bound);
    }
  }

  /**
   Every byte of every segment reads as its file byte, or as zero past the file part, also
   on pages that neighbouring segments share.
   */
  lemma {:induction false} LoadedProgramReads(mem: Frames, root: nat, free: seq<nat>, pages: PageMap, segments: seq<Segment>, k: nat, address: nat)
    requires Loaded(mem, root, free, pages, segments) && Ascending(segments) && k < |segments|
    requires segments[k].virtualStart <= address < segments[k].virtualEnd
    ensures UserByte(mem, root, address) == Some(
              if address < segments[k].virtualStart + |segments[k].bytes|
              then segments[k].bytes[address - segments[k].virtualStart] else 0)
  {
    hide Want, Holds, Walk, PathOf;
    var page := address / PAGE_BYTES;
    FilePageInRange(segments[k], address);
    assert Covers(pages, segments[k]);
    HeldFrame(mem, root, free, pages, page);
    assert Shows(mem, pages[page], page, segments);
    assert mem[pages[page]].bytes[address % PAGE_BYTES] == Want(segments, address) by {
      assert page * PAGE_BYTES + address % PAGE_BYTES == address;
    }
    WantedInSegment(segments, k, address);
  }

  /** On the pages of a loaded segment the program may execute, and write exactly where some writable segment reaches. */
  lemma {:induction false} LoadedProgramMay(mem: Frames, root: nat, free: seq<nat>, pages: PageMap, segments: seq<Segment>, k: nat, page: nat)
    requires Loaded(mem, root, free, pages, segments) && k < |segments| && Touches(segments[k], page)
    ensures page in pages && page < LOWER_PAGES && Walk(mem, root, PathOf(page)).Mapped?
    ensures Grant(Walk(mem, root, PathOf(page))) == Rights(WritableOn(segments, page), true, true)
  {
    hide Want, Holds, Walk, PathOf, Shows, WritableOn, RightsOf;
    assert Covers(pages, segments[k]);
    HeldFrame(mem, root, free, pages, page);
    assert Allows(mem, root, page, segments);
  }

  /** Two segments that meet inside page 0, the first of them read-only: the page is writable. */
  lemma {:induction false} ReadOnlyPageCanBeWritable()
    ensures var segments := [Segment(0, 100, 0, 4096, false, []), Segment(100, 200, 0, 4096, true, [])];
            && Ascending(segments) && FitsPages(segments[0]) && FitsPages(segments[1])
            && Touches(segments[0], 0) && !segments[0].writable && WritableOn(segments, 0)
  {
    var segments := [Segment(0, 100, 0, 4096, false, []), Segment(100, 200, 0, 4096, true, [])];
    assert segments[1].writable && Touches(segments[1], 0);
  }

  /** A new address space is an empty one to load into. */
  lemma {:induction false} NewSpaceIsEmpty(mem: Frames, after: Frames, kernel: nat, root: nat, free: seq<nat>)
    requires Creates(mem, after, kernel, root, free) && NoRepeat(free)
    ensures Holds(after, root, free[1..], map[])
  {
    hide TreeShaped, Walk;
    NewSpaceIsTree(mem, after, kernel, root, free);
    FirstIsNotRepeated(free);
    forall page: nat
      ensures PageHeld(after, root, free[1..], map[], page)
    {
      if page < LOWER_PAGES {
        LowerPagePath(page);
        NewSpaceTranslates(mem, after, kernel, root, free, PathOf(page));
      }
    }
  }

  lemma {:induction false} LowerPagePath(page: nat)
    requires page < LOWER_PAGES
    ensures PathOf(page)[0] < UPPER_HALF
  {
  }
}
