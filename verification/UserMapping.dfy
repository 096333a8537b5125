/**
 Mapping user pages in place: the table walk that creates missing tables, the mapping of
 one page and of a run of pages, and the creation of an empty user address space.
 */
module UserMapping {
  import opened Bytes
  import opened PageTables

  /** Entries hold 40 bits of frame number. */
  const FRAME_NUMBERS: nat := 0x100_0000_0000

  /** A frame number as it fits into an entry. */
  function Masked(frame: nat): nat {
    frame % FRAME_NUMBERS
  }

  datatype MapResult = MapOk | AddressOverflow | AllocationFailed
  datatype Next = NextTable(frame: nat) | NextHuge | NextFailed

  lemma {:induction false} HugeWalk(mem: Frames, root: nat, at: seq<nat>, i: nat, rest: seq<nat>)
    requires TableAt(mem, root, at).Some? && IsTable(mem, TableAt(mem, root, at).value) && i < ENTRIES && rest != []
    requires Present(EntryAt(mem, TableAt(mem, root, at).value, i)) && Huge(EntryAt(mem, TableAt(mem, root, at).value, i))
    ensures Walk(mem, root, at + ([i] + rest)).HugePage?
  {
    WalkThrough(mem, root, at, [i] + rest);
  }

  /** A walk that ends in a huge page is left as it is, and so mapping it has nothing to do. */
  lemma {:induction false} HugeIsGranted(mem: Frames, after: Frames, root: nat, path: seq<nat>, frame: nat, flags: Flags)
    requires SameWalks(mem, after, root) && |path| == 4 && Walk(after, root, path).HugePage?
    ensures PageGranted(mem, after, root, path, frame, flags)
  {
    hide Walk;
  }

  // ------------------------------------------------------- a new address space

  /** A root whose lower half is empty and whose upper half is that of the kernel's. */
  predicate UserRoot(kernel: Content, user: Content) {
    && kernel.Table? && |kernel.entries| == ENTRIES && user.Table? && |user.entries| == ENTRIES
    && (forall i | 0 <= i < UPPER_HALF :: user.entries[i] == ZERO_ENTRY)
    && forall i | UPPER_HALF <= i < ENTRIES :: user.entries[i] == kernel.entries[i]
  }

  ghost predicate Creates(mem: Frames, after: Frames, kernel: nat, root: nat, free: seq<nat>) {
    && TreeShaped(mem, kernel, free) && free != [] && root == free[0] && root !in free[1..]
    && root in after && UserRoot(mem[kernel], after[root]) && after == mem[root := after[root]]
  }

  lemma {:induction false} KernelTreeIsKept(mem: Frames, after: Frames, kernel: nat, root: nat, free: seq<nat>, q: seq<nat>)
    requires Creates(mem, after, kernel, root, free) && |q| <= 4 && (q != [] ==> q[0] < ENTRIES)
    ensures q != [] ==> Walk(after, kernel, q) == Walk(mem, kernel, q)
    ensures |q| <= 3 ==> TableAt(after, kernel, q) == TableAt(mem, kernel, q)
  {
    assert TableAt(mem, kernel, []) == Some(kernel);
    forall p | |p| <= 3 && TableAt(mem, kernel, p).Some?
      ensures TableKept(mem, after, TableAt(mem, kernel, p).value, kernel, ENTRIES)
    {
      TableAtIsTable(mem, kernel, p);
      assert TableAt(mem, kernel, p).value != root;
    }
    ElsewhereIsSame(mem, after, kernel, free, [], ENTRIES, q);
  }

  /** The lower half of a new address space is empty, the upper half translates as the kernel's. */
  lemma {:induction false} NewSpaceTranslates(mem: Frames, after: Frames, kernel: nat, root: nat, free: seq<nat>, q: seq<nat>)
    requires Creates(mem, after, kernel, root, free) && 0 < |q| <= 4 && q[0] < ENTRIES
    ensures q[0] < UPPER_HALF ==> Walk(after, root, q) == NotMapped(ALL_RIGHTS)
    ensures q[0] >= UPPER_HALF ==> Walk(after, root, q) == Walk(mem, kernel, q)
  {
    KernelTreeIsKept(mem, after, kernel, root, free, q);
    assert after[kernel] == mem[kernel] by { KernelIsNotRoot(mem, after, kernel, root, free); }
  }

  lemma {:induction false} KernelIsNotRoot(mem: Frames, after: Frames, kernel: nat, root: nat, free: seq<nat>)
    requires Creates(mem, after, kernel, root, free)
    ensures kernel != root && kernel in after && after[kernel] == mem[kernel]
  {
    assert TableAt(mem, kernel, []) == Some(kernel);
  }

  lemma {:induction false} NewSpaceTables(mem: Frames, after: Frames, kernel: nat, root: nat, free: seq<nat>, q: seq<nat>)
    requires Creates(mem, after, kernel, root, free) && 0 < |q| <= 3
    ensures TableAt(after, root, q) == if q[0] < UPPER_HALF then None else TableAt(mem, kernel, q)
  {
    KernelIsNotRoot(mem, after, kernel, root, free);
    if q[0] < ENTRIES {
      KernelTreeIsKept(mem, after, kernel, root, free, q);
    }
  }

  lemma {:induction false} NewSpaceIsTree(mem: Frames, after: Frames, kernel: nat, root: nat, free: seq<nat>)
    requires Creates(mem, after, kernel, root, free)
    ensures TreeShaped(after, root, free[1..])
  {
    forall q | |q| <= 3
      ensures TableAt(after, root, q) ==
                if q == [] then Some(root) else if q[0] < UPPER_HALF then None else TableAt(mem, kernel, q)
    {
      if q != [] {
        NewSpaceTables(mem, after, kernel, root, free, q);
      }
    }
    forall p, i | |p| <= 2 && TableAt(after, root, p).Some? && 0 <= i < ENTRIES
      ensures EntryClosed(after, TableAt(after, root, p).value, i)
    {
      NewSpaceEntryClosed(mem, after, kernel, root, free, p, i);
    }
  }

  lemma {:induction false} NewSpaceEntryClosed(mem: Frames, after: Frames, kernel: nat, root: nat, free: seq<nat>, p: seq<nat>, i: nat)
    requires Creates(mem, after, kernel, root, free) && |p| <= 2 && i < ENTRIES && TableAt(after, root, p).Some?
    ensures EntryClosed(after, TableAt(after, root, p).value, i)
  {
    assert TableAt(mem, kernel, []) == Some(kernel);
    if p != [] {
      NewSpaceTables(mem, after, kernel, root, free, p);
    }
    var t := TableAt(mem, kernel, p).value;
    if p == [] && i < UPPER_HALF {
      assert !Present(ZERO_ENTRY);
    } else {
      assert EntryClosed(mem, t, i);
    }
  }

  // --------------------------------------------------------- a run of pages

  /** How far a page lies ahead of `first`; page numbers come round after 2^36. */
  function Ahead(first: nat, page: nat): (n: nat)
    ensures n < ALL_PAGES
  {
    (page - first) % ALL_PAGES
  }

  predicate InRun(q: seq<nat>, first: nat, n: nat) {
    InTable(q) && Ahead(first, PageOf(q)) < n
  }

  /** The n pages from `first` on are granted the consecutive frames from `frame` on, masked; no other page changes. */
  ghost predicate RunGranted(mem: Frames, after: Frames, root: nat, first: nat, n: nat, frame: nat, flags: Flags) {
    forall q | |q| == 4 :: Walk(after, root, q) ==
      if InRun(q, first, n) then Granted(Walk(mem, root, q), Masked(frame + Ahead(first, PageOf(q))), flags) else Walk(mem, root, q)
  }

  /** Mapping a page again with the same flags changes nothing, whatever the frame. */
  lemma {:induction false} GrantedTwice(t: Translation, frame: nat, again: nat, flags: Flags)
    ensures Granted(Granted(t, frame, flags), again, flags) == Granted(t, frame, flags)
  {
    if t.Mapped? {
      assert t.entry.low | flags.low | flags.low == t.entry.low | flags.low;
      assert t.entry.high | flags.high | flags.high == t.entry.high | flags.high;
    } else if t.NotMapped? {
      assert PRESENT | USER | flags.low | flags.low == PRESENT | USER | flags.low;
      assert flags.high | flags.high == flags.high;
    }
  }

  lemma {:induction false} NthAhead(first: nat, n: nat)
    ensures PathOf(first + n) == PathOf((first + n) % ALL_PAGES)
    ensures PageOf(PathOf(first + n)) == (first + n) % ALL_PAGES && Ahead(first, (first + n) % ALL_PAGES) == n % ALL_PAGES
  {
    hide PathOf, PageOf;
    PathComesRound(first + n);
    PageOfPath((first + n) % ALL_PAGES);
  }

  lemma {:induction false} SameAhead(first: nat, p: nat, q: nat)
    requires p < ALL_PAGES && q < ALL_PAGES && Ahead(first, p) == Ahead(first, q)
    ensures p == q
  {
    assert (p - first) - (p - first) % ALL_PAGES == (p - first) / ALL_PAGES * ALL_PAGES;
    assert (q - first) - (q - first) % ALL_PAGES == (q - first) / ALL_PAGES * ALL_PAGES;
  }

  lemma {:induction false} RunGrows(mem: Frames, now: Frames, after: Frames, root: nat, first: nat, n: nat, frame: nat, flags: Flags)
    requires RunGranted(mem, now, root, first, n, frame, flags)
    requires PageGranted(now, after, root, PathOf(first + n), Masked(frame + n), flags)
    ensures RunGranted(mem, after, root, first, n + 1, frame, flags)
  {
    hide Walk, Granted, PathOf, PageOf, Masked, Ahead;
    NthAhead(first, n);
    var path := PathOf(first + n);
    forall q | |q| == 4
      ensures Walk(after, root, q) ==
                if InRun(q, first, n + 1) then Granted(Walk(mem, root, q), Masked(frame + Ahead(first, PageOf(q))), flags)
                else Walk(mem, root, q)
    {
      if q == path {
        if n >= ALL_PAGES {
          GrantedTwice(Walk(mem, root, q), Masked(frame + n % ALL_PAGES), Masked(frame + n), flags);
        }
      } else if InTable(q) {
        assert Ahead(first, PageOf(q)) != n by { OnlyPathAhead(first, n, q); }
      }
    }
  }

  lemma {:induction false} OnlyPathAhead(first: nat, n: nat, q: seq<nat>)
    requires InTable(q) && q != PathOf(first + n)
    ensures Ahead(first, PageOf(q)) != n
  {
    hide PathOf, PageOf, Ahead;
    NthAhead(first, n);
    PathOfPage(q);
    if Ahead(first, PageOf(q)) == n {
      SameAhead(first, PageOf(q), (first + n) % ALL_PAGES);
    }
  }

  lemma {:induction false} RunPage(mem: Frames, after: Frames, root: nat, first: nat, n: nat, frame: nat, flags: Flags, page: nat)
    requires RunGranted(mem, after, root, first, n, frame, flags) && page < ALL_PAGES
    ensures Ahead(first, page) < n ==>
              Walk(after, root, PathOf(page)) == Granted(Walk(mem, root, PathOf(page)), Masked(frame + Ahead(first, page)), flags)
    ensures Ahead(first, page) >= n ==> Walk(after, root, PathOf(page)) == Walk(mem, root, PathOf(page))
  {
    hide Walk, PathOf, PageOf, Granted, Masked, Ahead;
    PageOfPath(page);
  }

  lemma {:induction false} GrantedToUnmapped(way: Rights, frame: nat, flags: Flags)
    ensures Granted(NotMapped(way), frame, flags) == Mapped(Entry(PRESENT | USER | flags.low, frame, flags.high), way)
  {
  }

  lemma {:induction false} GrantedToMapped(was: Translation, frame: nat, flags: Flags)
    requires was.Mapped?
    ensures Granted(was, frame, flags) == Mapped(Entry(was.entry.low | flags.low, was.entry.frame, was.entry.high | flags.high), was.way)
  {
  }

  /** On pages that were not mapped, page i of the run translates to the i-th frame. */
  lemma {:induction false} UnmappedRunTranslates(mem: Frames, after: Frames, root: nat, first: nat, n: nat, frame: nat, flags: Flags, page: nat)
    requires RunGranted(mem, after, root, first, n, frame, flags) && page < ALL_PAGES && Ahead(first, page) < n
    requires Walk(mem, root, PathOf(page)).NotMapped?
    ensures Walk(after, root, PathOf(page)) ==
              Mapped(Entry(PRESENT | USER | flags.low, Masked(frame + Ahead(first, page)), flags.high), Walk(mem, root, PathOf(page)).way)
  {
    hide *;
    RunPage(mem, after, root, first, n, frame, flags, page);
    GrantedToUnmapped(Walk(mem, root, PathOf(page)).way, Masked(frame + Ahead(first, page)), flags);
  }

  /** A page of the run that was already mapped keeps its frame and gains the flags. */
  lemma {:induction false} MappedRunKeepsFrame(mem: Frames, after: Frames, root: nat, first: nat, n: nat, frame: nat, flags: Flags, page: nat)
    requires RunGranted(mem, after, root, first, n, frame, flags) && page < ALL_PAGES && Ahead(first, page) < n
    requires Walk(mem, root, PathOf(page)).Mapped?
    ensures var e := Walk(mem, root, PathOf(page)).entry;
            Walk(after, root, PathOf(page)) ==
              Mapped(Entry(e.low | flags.low, e.frame, e.high | flags.high), Walk(mem, root, PathOf(page)).way)
  {
    hide *;
    RunPage(mem, after, root, first, n, frame, flags, page);
    GrantedToMapped(Walk(mem, root, PathOf(page)), Masked(frame + Ahead(first, page)), flags);
  }

  /** Whether the flags of a mapping let a program write and execute. */
  function FlagRights(flags: Flags): Rights {
    Rights(flags.low & WRITABLE != 0, true, flags.high & NO_EXECUTE == 0)
  }

  /**
   What a program may do with a page mapped anew: what the flags say, as far as the tables
   that were already there let it through; those that were not take nothing away.
   */
  lemma {:induction false} NewPageGrants(mem: Frames, after: Frames, root: nat, first: nat, n: nat, frame: nat, flags: Flags, page: nat)
    requires RunGranted(mem, after, root, first, n, frame, flags) && page < ALL_PAGES && Ahead(first, page) < n
    requires Walk(mem, root, PathOf(page)).NotMapped?
    ensures Walk(after, root, PathOf(page)).Mapped? && RightsOf(Walk(after, root, PathOf(page)).entry) == FlagRights(flags)
    ensures Grant(Walk(after, root, PathOf(page))) == Both(Walk(mem, root, PathOf(page)).way, FlagRights(flags))
  {
    hide RunGranted, Walk, PathOf, Ahead, Masked;
    UnmappedRunTranslates(mem, after, root, first, n, frame, flags, page);
    UserIsSet(flags);
  }

  lemma {:induction false} UserIsSet(flags: Flags)
    ensures (PRESENT | USER | flags.low) & USER != 0
    ensures (PRESENT | USER | flags.low) & WRITABLE != 0 <==> flags.low & WRITABLE != 0
  {
  }

  /** A page mapped before gains the right to write the flags give, and loses that to execute they take. */
  lemma {:induction false} OldPageGrants(mem: Frames, after: Frames, root: nat, first: nat, n: nat, frame: nat, flags: Flags, page: nat)
    requires RunGranted(mem, after, root, first, n, frame, flags) && page < ALL_PAGES && Ahead(first, page) < n
    requires Walk(mem, root, PathOf(page)).Mapped?
    ensures Walk(after, root, PathOf(page)).Mapped? && Walk(after, root, PathOf(page)).way == Walk(mem, root, PathOf(page)).way
    ensures var was, now := RightsOf(Walk(mem, root, PathOf(page)).entry), RightsOf(Walk(after, root, PathOf(page)).entry);
            && now.write == (was.write || flags.low & WRITABLE != 0) && now.user == (was.user || flags.low & USER != 0)
            && now.execute == (was.execute && flags.high & NO_EXECUTE == 0)
  {
    hide RunGranted, Walk, PathOf, Ahead, Masked;
    MappedRunKeepsFrame(mem, after, root, first, n, frame, flags, page);
    JoinedBits(Walk(mem, root, PathOf(page)).entry, flags);
  }

  lemma {:induction false} JoinedBits(e: Entry, flags: Flags)
    ensures (e.low | flags.low) & WRITABLE != 0 <==> e.low & WRITABLE != 0 || flags.low & WRITABLE != 0
    ensures (e.low | flags.low) & USER != 0 <==> e.low & USER != 0 || flags.low & USER != 0
    ensures (e.high | flags.high) & NO_EXECUTE == 0 <==> e.high & NO_EXECUTE == 0 && flags.high & NO_EXECUTE == 0
  {
  }

  /** Pages outside the run keep their translation. */
  lemma {:induction false} OutsideRunIsKept(mem: Frames, after: Frames, root: nat, first: nat, n: nat, frame: nat, flags: Flags, page: nat)
    requires RunGranted(mem, after, root, first, n, frame, flags) && page < ALL_PAGES && Ahead(first, page) >= n
    ensures Walk(after, root, PathOf(page)) == Walk(mem, root, PathOf(page))
  {
    hide *;
    RunPage(mem, after, root, first, n, frame, flags, page);
  }

  function ZeroPage(): (page: seq<byte>)
    ensures |page| == PAGE_BYTES && forall i | 0 <= i < PAGE_BYTES :: page[i] == 0
  {
    seq(PAGE_BYTES, _ => 0)
  }

  function Overwritten(bytes: seq<byte>, offset: nat, source: seq<byte>): (after: seq<byte>)
    requires offset + |source| <= |bytes|
    ensures |after| == |bytes|
    ensures forall i | 0 <= i < |bytes| ::
              after[i] == if offset <= i < offset + |source| then source[i - offset] else bytes[i]
  {
    bytes[..offset] + source + bytes[offset + |source|..]
  }

  class PhysicalMemory {
    var frames: Frames
    /** What the frame allocator will hand out, in order. */
    var free: seq<nat>

    constructor (frames: Frames, free: seq<nat>)
      ensures this.frames == frames && this.free == free
    {
      this.frames, this.free := frames, free;
    }

    method AllocateFrame() returns (frame: Option<nat>)
      modifies this`free
      ensures old(free) == [] ==> frame == None && free == []
      ensures old(free) != [] ==> frame == Some(old(free)[0]) && free == old(free)[1..]
    {
      if free == [] {
        return None;
      }
      frame, free := Some(free[0]), free[1..];
    }

    method ZeroFrame(frame: nat)
      modifies this`frames
      ensures frames == old(frames)[frame := ZeroTable()]
    {
      frames := frames[frame := ZeroTable()];
    }

    method CopyFrame(from: nat, to: nat)
      requires from in frames
      modifies this`frames
      ensures frames == old(frames)[to := old(frames)[from]]
    {
      frames := frames[to := frames[from]];
    }

    /** Copies bytes into a data frame, starting at an offset. */
    method CopyBytes(frame: nat, offset: nat, source: seq<byte>)
      requires frame in frames && frames[frame].Data? && offset + |source| <= |frames[frame].bytes|
      modifies this`frames
      ensures frames == old(frames)[frame := Data(Overwritten(old(frames)[frame].bytes, offset, source))]
    {
      frames := frames[frame := Data(Overwritten(frames[frame].bytes, offset, source))];
    }

    method ClearFrame(frame: nat)
      modifies this`frames
      ensures frames == old(frames)[frame := Data(ZeroPage())]
    {
      frames := frames[frame := Data(ZeroPage())];
    }

    method WriteTable(frame: nat, entries: seq<Entry>)
      modifies this`frames
      ensures frames == old(frames)[frame := Table(entries)]
    {
      frames := frames[frame := Table(entries)];
    }

    method WriteEntry(table: nat, i: nat, e: Entry)
      requires IsTable(frames, table) && i < ENTRIES
      modifies this`frames
      ensures frames == WithEntry(old(frames), table, i, e)
    {
      frames := frames[table := Table(frames[table].entries[i := e])];
    }

    method CreateUserPageTable(kernel: nat) returns (root: Option<nat>)
      requires Ready(frames, kernel, free)
      modifies this
      ensures root.None? <==> old(free) == []
      ensures root.None? ==> frames == old(frames) && free == old(free)
      ensures root.Some? ==> Creates(old(frames), frames, kernel, root.value, old(free)) && free == old(free)[1..]
    {
      KernelIsTable(frames, kernel, free);
      var frame := AllocateFrame();
      if frame.None? {
        return None;
      }
      ZeroFrame(frame.value);
      var entries := frames[frame.value].entries;
      for i := UPPER_HALF to ENTRIES
        invariant free == old(free)[1..]
        invariant frames == old(frames)[frame.value := Table(entries)] && |entries| == ENTRIES
        invariant forall j | 0 <= j < ENTRIES ::
            entries[j] == if UPPER_HALF <= j < i then old(frames)[kernel].entries[j] else ZERO_ENTRY
      {
        WriteEntry(frame.value, i, frames[kernel].entries[i]);
        entries := frames[frame.value].entries;
      }
      assert UserRoot(old(frames)[kernel], frames[frame.value]);
      FirstIsNotRepeated(old(free));
      return frame;
    }

    /**
     The table one level down, created if the entry is absent. `at` is the way from the
     root to this table; `mem` and `start` are the memory and allocator of the whole call.
     */
    method NextTableUser(table: nat, index: nat, ghost root: nat, ghost at: seq<nat>, ghost mem: Frames, ghost start: seq<nat>)
      returns (next: Next)
      requires index < ENTRIES && |at| <= 2
      requires Prepared(mem, frames, root, start, free) && TableAt(frames, root, at) == Some(table)
      modifies this
      ensures Prepared(mem, frames, root, start, free)
      ensures next.NextTable? ==> TableAt(frames, root, at + [index]) == Some(next.frame)
      ensures next.NextHuge? ==> forall rest | rest != [] :: Walk(frames, root, at + ([index] + rest)).HugePage?
      ensures next.NextFailed? ==> free == []
    {
      hide TreeShaped, Walk, Prepared;
      TableAtIsTable(frames, root, at);
      var entry := frames[table].entries[index];
      if !Present(entry) {
        ghost var before, rest := frames, free;
        var frame := AllocateFrame();
        if frame.None? {
          return NextFailed;
        }
        AbsentIsInstallable(mem, before, root, start, rest, at, index);
        ZeroFrame(frame.value);
        WriteEntry(table, index, Entry(PRESENT | WRITABLE | USER, frame.value, 0));
        assert frames == AfterInstall(before, root, rest, at, index);
        InstallPrepares(mem, before, root, start, rest, at, index);
        InstalledTableAt(before, root, rest, at, index);
        return NextTable(frame.value);
      }
      if Huge(entry) {
        forall rest | rest != []
          ensures Walk(frames, root, at + ([index] + rest)).HugePage?
        {
          HugeWalk(frames, root, at, index, rest);
        }
        return NextHuge;
      }
      PresentLeadsToTable(mem, frames, root, start, free, at, index);
      return NextTable(entry.frame);
    }

    method MapUserPage(root: nat, page: nat, frame: nat, flags: Flags) returns (result: MapResult)
      requires Ready(frames, root, free)
      modifies this
      ensures Ready(frames, root, free) && Drawn(old(free), free) && DataKept(old(frames), frames, old(free))
      ensures result == MapOk ==> PageGranted(old(frames), frames, root, PathOf(page), frame, flags)
      ensures result != MapOk ==> result == AllocationFailed && free == [] && SameWalks(old(frames), frames, root)
    {
      hide Ready, Prepared, PageGranted, Walk;
      ghost var mem, start := frames, free;
      NothingYet(mem, root, start);
      var path := PathOf(page);
      var pdpt := NextTableUser(root, path[0], root, [], mem, start);
      assert [] + [path[0]] == path[..1] && [] + ([path[0]] + path[1..]) == path;
      if !pdpt.NextTable? {
        result := Stopped(pdpt, root, path, 0, frame, flags, mem, start);
        return;
      }
      var pd := NextTableUser(pdpt.frame, path[1], root, path[..1], mem, start);
      assert path[..1] + [path[1]] == path[..2] && path[..1] + ([path[1]] + path[2..]) == path;
      if !pd.NextTable? {
        result := Stopped(pd, root, path, 1, frame, flags, mem, start);
        return;
      }
      var pt := NextTableUser(pd.frame, path[2], root, path[..2], mem, start);
      assert path[..2] + [path[2]] == path[..3] && path[..2] + ([path[2]] + path[3..]) == path;
      if !pt.NextTable? {
        result := Stopped(pt, root, path, 2, frame, flags, mem, start);
        return;
      }
      SetLeaf(pt.frame, root, path, frame, flags, mem, start);
      return MapOk;
    }

    /**
     Maps the pages that [address, address + length) touches, or the page of the address
     when length is 0. `mapped` counts the pages done, fewer than all when frames ran out or
     the physical addresses reached their end.
     */
    method MapUserRegion(root: nat, address: nat, physical: nat, length: nat, flags: Flags)
      returns (result: MapResult, ghost mapped: nat)
      requires Ready(frames, root, free) && address < WORD && physical < WORD
      modifies this
      ensures Ready(frames, root, free) && Drawn(old(free), free) && DataKept(old(frames), frames, old(free))
      ensures RunGranted(old(frames), frames, root, address / PAGE_BYTES, mapped, physical / PAGE_BYTES, flags)
      ensures result == MapOk ==> mapped == PagesTouched(address, length)
      ensures result == AllocationFailed ==> free == [] && mapped < PagesTouched(address, length)
      ensures LastByte(address, length) >= WORD ==> result == AddressOverflow && frames == old(frames) && free == old(free)
      ensures LastByte(address, length) < WORD && result == AddressOverflow ==>
                mapped < PagesTouched(address, length) && physical / PAGE_BYTES + mapped == WORD / PAGE_BYTES
    {
      hide Ready, RunGranted, PageGranted, DataKept, Walk, PathOf;
      mapped := 0;
      var page, frame := address / PAGE_BYTES, physical / PAGE_BYTES;
      NothingGranted(frames, root, page, frame, flags);
      DataKeptSelf(frames, free);
      var last := LastByte(address, length);
      if last >= WORD {
        return AddressOverflow, 0;
      }
      var end := last / PAGE_BYTES;
      LastPage(address, length);
      while true
        invariant page == address / PAGE_BYTES + mapped <= end && frame == physical / PAGE_BYTES + mapped < WORD / PAGE_BYTES
        invariant Ready(frames, root, free) && Drawn(old(free), free) && DataKept(old(frames), frames, old(free))
        invariant RunGranted(old(frames), frames, root, address / PAGE_BYTES, mapped, physical / PAGE_BYTES, flags)
        decreases end - page
      {
        ghost var now, left := frames, free;
        result := MapUserPage(root, page, Masked(frame), flags);
        DataKeptOn(old(frames), now, frames, old(free), left);
        DrawnOn(old(free), left, free);
        if result != MapOk {
          SameRun(old(frames), now, frames, root, address / PAGE_BYTES, mapped, physical / PAGE_BYTES, flags);
          return;
        }
        RunGrows(old(frames), now, frames, root, address / PAGE_BYTES, mapped, physical / PAGE_BYTES, flags);
        mapped := mapped + 1;
        if page == end {
          return;
        }
        if frame + 1 == WORD / PAGE_BYTES {
          return AddressOverflow, mapped;
        }
        page, frame := page + 1, frame + 1;
      }
    }

    /** The walk ended early: at a huge page, which counts as success, or without a frame. */
    method Stopped(next: Next, ghost root: nat, ghost path: seq<nat>, ghost k: nat, ghost frame: nat, ghost flags: Flags,
                   ghost mem: Frames, ghost start: seq<nat>)
      returns (result: MapResult)
      requires !next.NextTable? && k < 3 && |path| == 4 && path == path[..k] + ([path[k]] + path[k + 1..])
      requires Prepared(mem, frames, root, start, free)
      requires next.NextHuge? ==> forall rest | rest != [] :: Walk(frames, root, path[..k] + ([path[k]] + rest)).HugePage?
      requires next.NextFailed? ==> free == []
      ensures Ready(frames, root, free) && Drawn(start, free) && DataKept(mem, frames, start)
      ensures result == MapOk ==> PageGranted(mem, frames, root, path, frame, flags)
      ensures result != MapOk ==> result == AllocationFailed && free == [] && SameWalks(mem, frames, root)
    {
      hide TreeShaped, Walk;
      if next.NextFailed? {
        return AllocationFailed;
      }
      assert path[k + 1..] != [];
      HugeIsGranted(mem, frames, root, path, frame, flags);
      return MapOk;
    }

    method SetLeaf(pt: nat, ghost root: nat, path: seq<nat>, frame: nat, flags: Flags, ghost mem: Frames, ghost start: seq<nat>)
      requires |path| == 4 && path[3] < ENTRIES
      requires Prepared(mem, frames, root, start, free) && TableAt(frames, root, path[..3]) == Some(pt)
      modifies this`frames
      ensures Ready(frames, root, free) && Drawn(start, free) && DataKept(mem, frames, start)
      ensures PageGranted(mem, frames, root, path, frame, flags)
    {
      hide TreeShaped, Walk, TableAt, PageGranted, Ready, DataKept, SameWalks, Present, NoRepeat, LeafEntry;
      TableAtIsTable(frames, root, path[..3]);
      var entry := frames[pt].entries[path[3]];
      LeafGrants(mem, frames, root, start, free, path[..3], path[3], frame, flags);
      assert path[..3] + [path[3]] == path;
      WriteEntry(pt, path[3], LeafEntry(entry, frame, flags));
    }
  }

  function LastByte(address: nat, length: nat): nat {
    address + (if length > 1 then length else 1) - 1
  }

  /** How many pages a region touches; an empty one counts as one byte. */
  function PagesTouched(address: nat, length: nat): nat {
    LastByte(address, length) / PAGE_BYTES - address / PAGE_BYTES + 1
  }

  predicate LiesOn(b: nat, page: nat) {
    b / PAGE_BYTES == page
  }

  lemma {:induction false} PageBounds(a: nat, b: nat)
    requires a <= b
    ensures a / PAGE_BYTES <= b / PAGE_BYTES
  {
  }

  /** The pages touched are those on which a byte of the region lies. */
  lemma {:induction false} TouchedPages(address: nat, length: nat, page: nat)
    ensures address / PAGE_BYTES <= page < address / PAGE_BYTES + PagesTouched(address, length) <==>
              exists b: nat :: address <= b < address + (if length == 0 then 1 else length) && LiesOn(b, page)
  {
    var first, bytes := address / PAGE_BYTES, if length == 0 then 1 else length;
    if first <= page < first + PagesTouched(address, length) {
      var b := if page == first then address else page * PAGE_BYTES;
      assert LiesOn(b, page) && address <= b < address + bytes;
    }
    if b: nat :| address <= b < address + bytes && LiesOn(b, page) {
      PageBounds(address, b);
      PageBounds(b, address + bytes - 1);
    }
  }

  lemma {:induction false} LastPage(address: nat, length: nat)
    ensures address / PAGE_BYTES <= LastByte(address, length) / PAGE_BYTES
  {
  }

  lemma {:induction false} NothingGranted(mem: Frames, root: nat, first: nat, frame: nat, flags: Flags)
    ensures RunGranted(mem, mem, root, first, 0, frame, flags)
  {
    hide Walk;
  }

  lemma {:induction false} SameRun(mem: Frames, now: Frames, after: Frames, root: nat, first: nat, n: nat, frame: nat, flags: Flags)
    requires RunGranted(mem, now, root, first, n, frame, flags) && SameWalks(now, after, root)
    ensures RunGranted(mem, after, root, first, n, frame, flags)
  {
    hide Walk, Granted;
  }

  lemma {:induction false} DataKeptSelf(mem: Frames, free: seq<nat>)
    ensures DataKept(mem, mem, free)
  {
  }

  lemma {:induction false} DataKeptOn(mem: Frames, now: Frames, after: Frames, free: seq<nat>, left: seq<nat>)
    requires DataKept(mem, now, free) && DataKept(now, after, left) && Drawn(free, left)
    ensures DataKept(mem, after, free)
  {
  }

  lemma {:induction false} DrawnOn(free: seq<nat>, left: seq<nat>, rest: seq<nat>)
    requires Drawn(free, left) && Drawn(left, rest)
    ensures Drawn(free, rest)
  {
  }

  lemma {:induction false} FirstIsNotRepeated(free: seq<nat>)
    requires NoRepeat(free) && free != []
    ensures free[0] !in free[1..] && NoRepeat(free[1..])
  {
  }

  lemma {:induction false} KernelIsTable(mem: Frames, kernel: nat, free: seq<nat>)
    requires Ready(mem, kernel, free)
    ensures IsTable(mem, kernel) && kernel !in free
  {
    assert TableAt(mem, kernel, []) == Some(kernel);
  }

  lemma {:induction false} NothingYet(mem: Frames, root: nat, free: seq<nat>)
    requires Ready(mem, root, free)
    ensures Prepared(mem, mem, root, free, free) && TableAt(mem, root, []) == Some(root)
  {
  }

  lemma {:induction false} AbsentIsInstallable(mem: Frames, now: Frames, root: nat, start: seq<nat>, free: seq<nat>, at: seq<nat>, i: nat)
    requires Prepared(mem, now, root, start, free) && |at| <= 2 && i < ENTRIES && free != []
    requires TableAt(now, root, at).Some? && IsTable(now, TableAt(now, root, at).value)
    requires !Present(EntryAt(now, TableAt(now, root, at).value, i))
    ensures Installable(now, root, free, at, i)
  {
  }

  lemma {:induction false} PresentLeadsToTable(mem: Frames, now: Frames, root: nat, start: seq<nat>, free: seq<nat>, at: seq<nat>, i: nat)
    requires Prepared(mem, now, root, start, free) && |at| <= 2 && i < ENTRIES
    requires TableAt(now, root, at).Some? && IsTable(now, TableAt(now, root, at).value)
    requires Leads(now, TableAt(now, root, at).value, i)
    ensures TableAt(now, root, at + [i]) == Some(EntryAt(now, TableAt(now, root, at).value, i).frame)
  {
    hide TableAt;
    TableAtStep(now, root, at, i);
    LeadsToTable(now, root, free, at, i);
  }
}
