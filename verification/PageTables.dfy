/**
 Four-level page tables in physical memory (Intel SDM volume 3A, section 4.5), and the
 code that maps user pages in them. Physical memory is a map from frame numbers to
 contents; a table entry is split into its low twelve bits, its frame number and its
 high twelve bits.
 */
module PageTables {
  import opened Bytes

  const ENTRIES: nat := 512
  const UPPER_HALF: nat := 256
  /** Pages of the lower half, and of the whole 48-bit address space. */
  const LOWER_PAGES: nat := 0x8_0000_0000
  const ALL_PAGES: nat := 0x10_0000_0000
  const PRESENT: bv12 := 0x001
  const WRITABLE: bv12 := 0x002
  const USER: bv12 := 0x004
  const HUGE: bv12 := 0x080
  /** Bit 63 of an entry, as the top bit of its high part. */
  const NO_EXECUTE: bv12 := 0x800

  datatype Entry = Entry(low: bv12, frame: nat, high: bv12)
  datatype Content = Table(entries: seq<Entry>) | Data(bytes: seq<byte>)
  datatype Flags = Flags(low: bv12, high: bv12)
  type Frames = map<nat, Content>

  const ZERO_ENTRY := Entry(0, 0, 0)

  predicate Present(e: Entry) {
    e.low & PRESENT != 0
  }

  predicate Huge(e: Entry) {
    e.low & HUGE != 0
  }

  function ZeroTable(): (c: Content)
    ensures c.Table? && |c.entries| == ENTRIES
  {
    Table(seq(ENTRIES, _ => ZERO_ENTRY))
  }

  predicate IsTable(mem: Frames, frame: nat) {
    frame in mem && mem[frame].Table? && |mem[frame].entries| == ENTRIES
  }

  // ------------------------------------------------------------- translation

  /** What the processor lets a program do: every entry on the way has to allow it. */
  datatype Rights = Rights(write: bool, user: bool, execute: bool)

  const ALL_RIGHTS := Rights(true, true, true)

  function RightsOf(e: Entry): Rights {
    Rights(e.low & WRITABLE != 0, e.low & USER != 0, e.high & NO_EXECUTE == 0)
  }

  function Both(a: Rights, b: Rights): Rights {
    Rights(a.write && b.write, a.user && b.user, a.execute && b.execute)
  }

  /** `way` is what the tables passed so far allow; an absent entry takes nothing away. */
  datatype Translation =
    | NotMapped(way: Rights)
    | Mapped(entry: Entry, way: Rights)
    | HugePage(entry: Entry, below: nat, way: Rights)

  function Under(above: Rights, t: Translation): Translation {
    t.(way := Both(above, t.way))
  }

  /** What the processor finds for the given table indices, starting at a table. */
  function Walk(mem: Frames, table: nat, path: seq<nat>): Translation
    decreases |path|
  {
    if path == [] || !IsTable(mem, table) || path[0] >= ENTRIES then NotMapped(ALL_RIGHTS) else
    var e := mem[table].entries[path[0]];
    if !Present(e) then NotMapped(ALL_RIGHTS)
    else if |path| == 1 then Mapped(e, ALL_RIGHTS)
    else if Huge(e) then HugePage(e, |path|, ALL_RIGHTS)
    else Under(RightsOf(e), Walk(mem, e.frame, path[1..]))
  }

  /** What a program may do with a page: all four entries have to allow it. */
  function Grant(t: Translation): Rights
    requires t.Mapped?
  {
    Both(t.way, RightsOf(t.entry))
  }

  /** What the tables on the way to a table allow. */
  function WayTo(mem: Frames, table: nat, path: seq<nat>): Rights
    decreases |path|
  {
    if path == [] || !IsTable(mem, table) || path[0] >= ENTRIES then ALL_RIGHTS else
    var e := mem[table].entries[path[0]];
    if !Present(e) || Huge(e) then ALL_RIGHTS else Both(RightsOf(e), WayTo(mem, e.frame, path[1..]))
  }

  /** The table that the given indices lead to. */
  function TableAt(mem: Frames, table: nat, path: seq<nat>): Option<nat>
    decreases |path|
  {
    if !IsTable(mem, table) then None
    else if path == [] then Some(table)
    else if path[0] >= ENTRIES then None
    else
      var e := mem[table].entries[path[0]];
      if !Present(e) || Huge(e) then None else TableAt(mem, e.frame, path[1..])
  }

  function EntryAt(mem: Frames, table: nat, i: nat): Entry
    requires IsTable(mem, table) && i < ENTRIES
  {
    mem[table].entries[i]
  }

  predicate Leads(mem: Frames, table: nat, i: nat)
    requires IsTable(mem, table) && i < ENTRIES
  {
    Present(EntryAt(mem, table, i)) && !Huge(EntryAt(mem, table, i))
  }

  lemma {:induction false} TableAtStep(mem: Frames, root: nat, path: seq<nat>, i: nat)
    requires TableAt(mem, root, path).Some? && i < ENTRIES
    ensures var t := TableAt(mem, root, path).value;
            && IsTable(mem, t)
            && TableAt(mem, root, path + [i]) ==
                 if Leads(mem, t, i) && IsTable(mem, EntryAt(mem, t, i).frame)
                 then Some(EntryAt(mem, t, i).frame) else None
    decreases |path|
  {
    if path != [] {
      assert (path + [i])[1..] == path[1..] + [i];
      TableAtStep(mem, mem[root].entries[path[0]].frame, path[1..], i);
    }
  }

  /**
   The tables form a tree: no table is reached in two ways, every entry that leads to a
   table leads to one, and none of the frames still to be allocated is among them.
   */
  ghost predicate TreeShaped(mem: Frames, root: nat, free: seq<nat>) {
    && IsTable(mem, root)
    && (forall p, q | |p| <= 3 && |q| <= 3 && TableAt(mem, root, p).Some? && TableAt(mem, root, p) == TableAt(mem, root, q) ::
          p == q)
    && (forall p | |p| <= 3 && TableAt(mem, root, p).Some? :: TableAt(mem, root, p).value !in free)
    && Closed(mem, root)
  }

  ghost predicate Closed(mem: Frames, root: nat) {
    forall p, i | |p| <= 2 && TableAt(mem, root, p).Some? && 0 <= i < ENTRIES ::
      EntryClosed(mem, TableAt(mem, root, p).value, i)
  }

  predicate EntryClosed(mem: Frames, table: nat, i: nat) {
    IsTable(mem, table) && i < ENTRIES && Leads(mem, table, i) ==> IsTable(mem, EntryAt(mem, table, i).frame)
  }

  // ------------------------------------------------------ changing one table entry

  /** The tables of the tree are as before, except for entry i of table t. */
  ghost predicate OnlyEntryDiffers(mem: Frames, after: Frames, root: nat, t: nat, i: nat) {
    forall p | |p| <= 3 && TableAt(mem, root, p).Some? ::
      TableKept(mem, after, TableAt(mem, root, p).value, t, i)
  }

  predicate TableKept(mem: Frames, after: Frames, frame: nat, t: nat, i: nat) {
    && IsTable(mem, frame) && IsTable(after, frame)
    && (frame != t ==> after[frame] == mem[frame])
    && (frame == t ==> forall j | 0 <= j < ENTRIES && j != i :: after[frame].entries[j] == mem[frame].entries[j])
  }

  predicate StartsWith(path: seq<nat>, prefix: seq<nat>, i: nat) {
    |prefix| < |path| && path[..|prefix|] == prefix && path[|prefix|] == i
  }

  /** Walks that do not pass through the changed entry find what they found before. */
  lemma {:induction false} WalkElsewhere(mem: Frames, after: Frames, root: nat, free: seq<nat>, at: seq<nat>, i: nat, done: seq<nat>, rest: seq<nat>)
    requires TreeShaped(mem, root, free) && |at| <= 3 && TableAt(mem, root, at).Some?
    requires OnlyEntryDiffers(mem, after, root, TableAt(mem, root, at).value, i)
    requires TableAt(mem, root, done).Some? && |done| + |rest| <= 4
    requires !StartsWith(done + rest, at, i)
    ensures rest != [] ==> Walk(after, TableAt(mem, root, done).value, rest) == Walk(mem, TableAt(mem, root, done).value, rest)
    ensures |done| + |rest| <= 3 ==>
              && TableAt(after, TableAt(mem, root, done).value, rest) == TableAt(mem, TableAt(mem, root, done).value, rest)
              && WayTo(after, TableAt(mem, root, done).value, rest) == WayTo(mem, TableAt(mem, root, done).value, rest)
    decreases |rest|
  {
    hide TreeShaped, OnlyEntryDiffers, StartsWith, RightsOf, Both, Present, Huge;
    var t := TableAt(mem, root, done).value;
    if rest != [] {
      assert |done| <= 3;
      KeptTable(mem, after, root, at, i, done);
      if rest[0] < ENTRIES {
        SameEntryElsewhere(mem, after, root, free, at, i, done, rest);
        if Leads(mem, t, rest[0]) && |rest| > 1 {
          TableAtStep(mem, root, done, rest[0]);
          LeadsToTable(mem, root, free, done, rest[0]);
          assert done + [rest[0]] + rest[1..] == done + rest;
          WalkElsewhere(mem, after, root, free, at, i, done + [rest[0]], rest[1..]);
        } else if Leads(mem, t, rest[0]) && |done| <= 2 {
          TableAtStep(mem, root, done, rest[0]);
          LeadsToTable(mem, root, free, done, rest[0]);
          KeptTable(mem, after, root, at, i, done + [rest[0]]);
        }
      }
    } else if |done| <= 3 {
      KeptTable(mem, after, root, at, i, done);
    }
  }

  lemma {:induction false} KeptTable(mem: Frames, after: Frames, root: nat, at: seq<nat>, i: nat, p: seq<nat>)
    requires TableAt(mem, root, at).Some? && OnlyEntryDiffers(mem, after, root, TableAt(mem, root, at).value, i)
    requires |p| <= 3 && TableAt(mem, root, p).Some?
    ensures TableKept(mem, after, TableAt(mem, root, p).value, TableAt(mem, root, at).value, i)
  {
  }

  lemma {:induction false} LeadsToTable(mem: Frames, root: nat, free: seq<nat>, p: seq<nat>, i: nat)
    requires TreeShaped(mem, root, free) && |p| <= 2 && TableAt(mem, root, p).Some? && i < ENTRIES
    requires IsTable(mem, TableAt(mem, root, p).value) && Leads(mem, TableAt(mem, root, p).value, i)
    ensures IsTable(mem, EntryAt(mem, TableAt(mem, root, p).value, i).frame)
  {
    assert EntryClosed(mem, TableAt(mem, root, p).value, i);
  }

  lemma {:induction false} SameEntryElsewhere(mem: Frames, after: Frames, root: nat, free: seq<nat>, at: seq<nat>, i: nat, done: seq<nat>, rest: seq<nat>)
    requires TreeShaped(mem, root, free) && |at| <= 3 && TableAt(mem, root, at).Some?
    requires |done| <= 3 && TableAt(mem, root, done).Some?
    requires TableKept(mem, after, TableAt(mem, root, done).value, TableAt(mem, root, at).value, i)
    requires rest != [] && rest[0] < ENTRIES && !StartsWith(done + rest, at, i)
    ensures EntryAt(after, TableAt(mem, root, done).value, rest[0]) == EntryAt(mem, TableAt(mem, root, done).value, rest[0])
  {
    if TableAt(mem, root, done) == TableAt(mem, root, at) {
      assert done == at;
      assert (done + rest)[..|done|] == done;
      assert (done + rest)[|done|] == rest[0];
    }
  }

  lemma {:induction false} WalkThrough(mem: Frames, root: nat, at: seq<nat>, rest: seq<nat>)
    requires TableAt(mem, root, at).Some? && rest != []
    ensures Walk(mem, root, at + rest) == Under(WayTo(mem, root, at), Walk(mem, TableAt(mem, root, at).value, rest))
    decreases |at|
  {
    hide RightsOf, Present, Huge;
    if at == [] {
      assert at + rest == rest;
    } else {
      assert (at + rest)[1..] == at[1..] + rest;
      WalkThrough(mem, mem[root].entries[at[0]].frame, at[1..], rest);
    }
  }

  lemma {:induction false} WayToStep(mem: Frames, root: nat, at: seq<nat>, i: nat)
    requires TableAt(mem, root, at + [i]).Some? && i < ENTRIES
    ensures TableAt(mem, root, at).Some? && IsTable(mem, TableAt(mem, root, at).value)
    ensures WayTo(mem, root, at + [i]) == Both(WayTo(mem, root, at), RightsOf(EntryAt(mem, TableAt(mem, root, at).value, i)))
    decreases |at|
  {
    hide RightsOf, Present, Huge;
    if at == [] {
      assert at + [i] == [i];
    } else {
      assert (at + [i])[1..] == at[1..] + [i];
      WayToStep(mem, mem[root].entries[at[0]].frame, at[1..], i);
    }
  }

  lemma {:induction false} TableAtThrough(mem: Frames, root: nat, at: seq<nat>, rest: seq<nat>)
    requires TableAt(mem, root, at).Some?
    ensures TableAt(mem, root, at + rest) == TableAt(mem, TableAt(mem, root, at).value, rest)
    decreases |at|
  {
    if at == [] {
      assert at + rest == rest;
    } else {
      assert (at + rest)[1..] == at[1..] + rest;
      TableAtThrough(mem, mem[root].entries[at[0]].frame, at[1..], rest);
    }
  }

  function WithEntry(mem: Frames, t: nat, i: nat, e: Entry): Frames
    requires IsTable(mem, t) && i < ENTRIES
  {
    mem[t := Table(mem[t].entries[i := e])]
  }

  lemma {:induction false} WithEntryDiffers(mem: Frames, root: nat, at: seq<nat>, i: nat, e: Entry)
    requires |at| <= 3 && TableAt(mem, root, at).Some? && IsTable(mem, TableAt(mem, root, at).value) && i < ENTRIES
    ensures OnlyEntryDiffers(mem, WithEntry(mem, TableAt(mem, root, at).value, i, e), root, TableAt(mem, root, at).value, i)
  {
    var t := TableAt(mem, root, at).value;
    var after := WithEntry(mem, t, i, e);
    forall p | |p| <= 3 && TableAt(mem, root, p).Some?
      ensures TableKept(mem, after, TableAt(mem, root, p).value, t, i)
    {
      TableAtIsTable(mem, root, p);
    }
  }

  lemma {:induction false} TableAtIsTable(mem: Frames, root: nat, path: seq<nat>)
    requires TableAt(mem, root, path).Some?
    ensures IsTable(mem, TableAt(mem, root, path).value)
    decreases |path|
  {
    if path != [] {
      TableAtIsTable(mem, mem[root].entries[path[0]].frame, path[1..]);
    }
  }

  /** Paths that avoid the changed entry lead to the same tables and translations. */
  lemma {:induction false} ElsewhereIsSame(mem: Frames, after: Frames, root: nat, free: seq<nat>, at: seq<nat>, i: nat, q: seq<nat>)
    requires TreeShaped(mem, root, free) && |at| <= 3 && TableAt(mem, root, at).Some?
    requires OnlyEntryDiffers(mem, after, root, TableAt(mem, root, at).value, i)
    requires |q| <= 4 && !StartsWith(q, at, i)
    ensures q != [] ==> Walk(after, root, q) == Walk(mem, root, q)
    ensures |q| <= 3 ==> TableAt(after, root, q) == TableAt(mem, root, q) && WayTo(after, root, q) == WayTo(mem, root, q)
  {
    assert TableAt(mem, root, []) == Some(root);
    assert [] + q == q;
    WalkElsewhere(mem, after, root, free, at, i, [], q);
  }

  // ------------------------------------------------------------- writing a leaf

  /** What a last-level entry says by itself. */
  function Leaf(e: Entry): Translation {
    if Present(e) then Mapped(e, ALL_RIGHTS) else NotMapped(ALL_RIGHTS)
  }

  /** Writing an entry of a last-level table changes the translation of its page alone. */
  lemma {:induction false} LeafSetWalks(mem: Frames, root: nat, free: seq<nat>, at: seq<nat>, i: nat, e: Entry, q: seq<nat>)
    requires TreeShaped(mem, root, free) && |at| == 3 && TableAt(mem, root, at).Some? && i < ENTRIES && |q| == 4
    requires IsTable(mem, TableAt(mem, root, at).value)
    ensures Walk(WithEntry(mem, TableAt(mem, root, at).value, i, e), root, q) ==
              if q == at + [i] then Under(WayTo(mem, root, at), Leaf(e)) else Walk(mem, root, q)
  {
    hide TreeShaped, RightsOf, Both, Present, Huge, WayTo;
    var t := TableAt(mem, root, at).value;
    var after := WithEntry(mem, t, i, e);
    WithEntryDiffers(mem, root, at, i, e);
    if q == at + [i] {
      assert !StartsWith(at, at, i);
      ElsewhereIsSame(mem, after, root, free, at, i, at);
      WalkThrough(after, root, at, [i]);
      LastStep(after, t, i);
    } else {
      assert q == q[..3] + [q[3]];
      ElsewhereIsSame(mem, after, root, free, at, i, q);
    }
  }

  lemma {:induction false} LeafSetKeepsTree(mem: Frames, root: nat, free: seq<nat>, at: seq<nat>, i: nat, e: Entry)
    requires TreeShaped(mem, root, free) && |at| == 3 && TableAt(mem, root, at).Some? && i < ENTRIES
    requires IsTable(mem, TableAt(mem, root, at).value)
    ensures TreeShaped(WithEntry(mem, TableAt(mem, root, at).value, i, e), root, free)
  {
    var t := TableAt(mem, root, at).value;
    var after := WithEntry(mem, t, i, e);
    WithEntryDiffers(mem, root, at, i, e);
    forall q | |q| <= 3
      ensures TableAt(after, root, q) == TableAt(mem, root, q)
    {
      ElsewhereIsSame(mem, after, root, free, at, i, q);
    }
    forall p, j | |p| <= 2 && TableAt(after, root, p).Some? && 0 <= j < ENTRIES
      ensures EntryClosed(after, TableAt(after, root, p).value, j)
    {
      assert EntryClosed(mem, TableAt(mem, root, p).value, j);
      assert TableAt(mem, root, p) != TableAt(mem, root, at);
    }
  }

  // --------------------------------------------------------- installing a new table

  const TABLE_FLAGS: bv12 := PRESENT | WRITABLE | USER

  function WithTable(mem: Frames, t: nat, i: nat, frame: nat): Frames
    requires IsTable(mem, t) && i < ENTRIES && frame != t
  {
    WithEntry(mem[frame := ZeroTable()], t, i, Entry(TABLE_FLAGS, frame, 0))
  }

  /** A free entry of a table above the last level, and the next frame to be allocated. */
  ghost predicate Installable(mem: Frames, root: nat, free: seq<nat>, at: seq<nat>, i: nat) {
    && TreeShaped(mem, root, free) && |at| <= 2 && i < ENTRIES
    && TableAt(mem, root, at).Some? && IsTable(mem, TableAt(mem, root, at).value)
    && !Present(EntryAt(mem, TableAt(mem, root, at).value, i))
    && free != [] && free[0] !in free[1..] && free[0] != TableAt(mem, root, at).value
  }

  function AfterInstall(mem: Frames, root: nat, free: seq<nat>, at: seq<nat>, i: nat): Frames
    requires Installable(mem, root, free, at, i)
  {
    WithTable(mem, TableAt(mem, root, at).value, i, free[0])
  }

  lemma {:induction false} InstallDiffers(mem: Frames, root: nat, free: seq<nat>, at: seq<nat>, i: nat)
    requires Installable(mem, root, free, at, i)
    ensures OnlyEntryDiffers(mem, AfterInstall(mem, root, free, at, i), root, TableAt(mem, root, at).value, i)
  {
    var after := AfterInstall(mem, root, free, at, i);
    forall p | |p| <= 3 && TableAt(mem, root, p).Some?
      ensures TableKept(mem, after, TableAt(mem, root, p).value, TableAt(mem, root, at).value, i)
    {
      TableAtIsTable(mem, root, p);
      assert TableAt(mem, root, p).value != free[0];
    }
  }

  lemma {:induction false} InstalledTableAt(mem: Frames, root: nat, free: seq<nat>, at: seq<nat>, i: nat)
    requires Installable(mem, root, free, at, i)
    ensures var after := AfterInstall(mem, root, free, at, i);
            && TableAt(after, root, at) == TableAt(mem, root, at)
            && TableAt(after, root, at + [i]) == Some(free[0])
            && IsTable(after, free[0]) && after[free[0]] == ZeroTable()
  {
    var after := AfterInstall(mem, root, free, at, i);
    InstallDiffers(mem, root, free, at, i);
    ElsewhereIsSame(mem, after, root, free, at, i, at);
    TableAtStep(after, root, at, i);
  }

  /** The way to the new table allows all that the way to its parent allows. */
  lemma {:induction false} InstalledWay(mem: Frames, root: nat, free: seq<nat>, at: seq<nat>, i: nat)
    requires Installable(mem, root, free, at, i)
    ensures WayTo(AfterInstall(mem, root, free, at, i), root, at + [i]) == WayTo(mem, root, at)
  {
    hide TreeShaped, WayTo, TableAt;
    var after := AfterInstall(mem, root, free, at, i);
    InstallDiffers(mem, root, free, at, i);
    ElsewhereIsSame(mem, after, root, free, at, i, at);
    InstalledTableAt(mem, root, free, at, i);
    WayToStep(after, root, at, i);
    TablesAllowAll(free[0]);
    assert EntryAt(after, TableAt(mem, root, at).value, i) == Entry(TABLE_FLAGS, free[0], 0);
  }

  lemma {:induction false} TablesAllowAll(frame: nat)
    ensures RightsOf(Entry(TABLE_FLAGS, frame, 0)) == ALL_RIGHTS
  {
  }

  lemma {:induction false} InstalledTableIsEmpty(mem: Frames, root: nat, free: seq<nat>, at: seq<nat>, i: nat, rest: seq<nat>)
    requires Installable(mem, root, free, at, i) && rest != []
    ensures Walk(mem, root, at + ([i] + rest)) == NotMapped(WayTo(mem, root, at))
    ensures Walk(AfterInstall(mem, root, free, at, i), root, (at + [i]) + rest) == NotMapped(WayTo(mem, root, at))
  {
    hide TreeShaped, WayTo;
    InstalledTableAt(mem, root, free, at, i);
    InstalledWay(mem, root, free, at, i);
    WalkThrough(mem, root, at, [i] + rest);
    hide AfterInstall;
    WalkThrough(AfterInstall(mem, root, free, at, i), root, at + [i], rest);
  }

  /** No translation changes when an empty table is put in place of an absent entry. */
  lemma {:induction false} InstallKeepsWalks(mem: Frames, root: nat, free: seq<nat>, at: seq<nat>, i: nat, q: seq<nat>)
    requires Installable(mem, root, free, at, i) && |q| == 4
    ensures Walk(AfterInstall(mem, root, free, at, i), root, q) == Walk(mem, root, q)
  {
    hide TreeShaped, AfterInstall, Walk, TableAt;
    InstallDiffers(mem, root, free, at, i);
    if StartsWith(q, at, i) {
      var rest := q[|at| + 1..];
      assert q == at + ([i] + rest) && q == (at + [i]) + rest;
      InstalledTableIsEmpty(mem, root, free, at, i, rest);
    } else {
      ElsewhereIsSame(mem, AfterInstall(mem, root, free, at, i), root, free, at, i, q);
    }
  }

  lemma {:induction false} InstallKeepsTables(mem: Frames, root: nat, free: seq<nat>, at: seq<nat>, i: nat, q: seq<nat>)
    requires Installable(mem, root, free, at, i) && |q| <= 3
    ensures TableAt(AfterInstall(mem, root, free, at, i), root, q) ==
              if q == at + [i] then Some(free[0])
              else if StartsWith(q, at, i) then None else TableAt(mem, root, q)
  {
    hide TreeShaped;
    var after := AfterInstall(mem, root, free, at, i);
    InstallDiffers(mem, root, free, at, i);
    InstalledTableAt(mem, root, free, at, i);
    if StartsWith(q, at, i) {
      var rest := q[|at| + 1..];
      assert q == (at + [i]) + rest;
      TableAtThrough(after, root, at + [i], rest);
    } else {
      assert StartsWith(at + [i], at, i);
      ElsewhereIsSame(mem, after, root, free, at, i, q);
    }
  }

  lemma {:induction false} InstallKeepsTree(mem: Frames, root: nat, free: seq<nat>, at: seq<nat>, i: nat)
    requires Installable(mem, root, free, at, i)
    ensures TreeShaped(AfterInstall(mem, root, free, at, i), root, free[1..])
  {
    hide AfterInstall, StartsWith;
    var after := AfterInstall(mem, root, free, at, i);
    forall q | |q| <= 3
      ensures TableAt(after, root, q) ==
                if q == at + [i] then Some(free[0]) else if StartsWith(q, at, i) then None else TableAt(mem, root, q)
    {
      InstallKeepsTables(mem, root, free, at, i, q);
    }
    InstallKeepsClosed(mem, root, free, at, i);
    assert IsTable(after, root) by {
      InstallKeepsTables(mem, root, free, at, i, []);
    }
  }

  lemma {:induction false} InstallKeepsClosed(mem: Frames, root: nat, free: seq<nat>, at: seq<nat>, i: nat)
    requires Installable(mem, root, free, at, i)
    ensures Closed(AfterInstall(mem, root, free, at, i), root)
  {
    var after := AfterInstall(mem, root, free, at, i);
    InstallDiffers(mem, root, free, at, i);
    forall p, j | |p| <= 2 && TableAt(after, root, p).Some? && 0 <= j < ENTRIES
      ensures EntryClosed(after, TableAt(after, root, p).value, j)
    {
      InstallKeepsTables(mem, root, free, at, i, p);
      InstalledEntryClosed(mem, root, free, at, i, p, j);
    }
  }

  lemma {:induction false} InstalledEntryClosed(mem: Frames, root: nat, free: seq<nat>, at: seq<nat>, i: nat, p: seq<nat>, j: nat)
    requires Installable(mem, root, free, at, i) && |p| <= 2 && j < ENTRIES
    requires TableAt(AfterInstall(mem, root, free, at, i), root, p).Some?
    ensures EntryClosed(AfterInstall(mem, root, free, at, i), TableAt(AfterInstall(mem, root, free, at, i), root, p).value, j)
  {
    var after := AfterInstall(mem, root, free, at, i);
    InstallKeepsTables(mem, root, free, at, i, p);
    InstalledTableAt(mem, root, free, at, i);
    if p != at + [i] {
      assert EntryClosed(mem, TableAt(mem, root, p).value, j);
      InstallDiffers(mem, root, free, at, i);
      KeptTable(mem, after, root, at, i, p);
    }
  }

  // ---------------------------------------------------------------- page numbers

  function PathOf(page: nat): (path: seq<nat>)
    ensures |path| == 4 && forall i | 0 <= i < 4 :: path[i] < ENTRIES
  {
    [page / 0x800_0000 % 512, page / 0x4_0000 % 512, page / 0x200 % 512, page % 512]
  }

  predicate InTable(path: seq<nat>) {
    |path| == 4 && path[0] < ENTRIES && path[1] < ENTRIES && path[2] < ENTRIES && path[3] < ENTRIES
  }

  function PageOf(path: seq<nat>): (page: nat)
    requires InTable(path)
    ensures page < ALL_PAGES
  {
    path[0] * 0x800_0000 + path[1] * 0x4_0000 + path[2] * 0x200 + path[3]
  }

  lemma {:induction false} PageOfPath(page: nat)
    requires page < ALL_PAGES
    ensures PageOf(PathOf(page)) == page
  {
    var a := page / 0x200;
    var b := a / 0x200;
    assert page / 0x4_0000 == b;
    assert page / 0x800_0000 == b / 0x200;
  }

  /** Page numbers past the four levels come round again. */
  lemma {:induction false} PathComesRound(page: nat)
    ensures PathOf(page) == PathOf(page % ALL_PAGES)
  {
    var a, b := page, page % ALL_PAGES;
    DivideAgain(a);
    DivideAgain(b);
    var q := page / ALL_PAGES;
    assert a == b + q * ALL_PAGES;
    assert a / 0x200 == b / 0x200 + q * 0x800_0000;
    assert a / 0x200 / 0x200 == b / 0x200 / 0x200 + q * 0x4_0000;
    assert a / 0x200 / 0x200 / 0x200 == b / 0x200 / 0x200 / 0x200 + q * 0x200;
  }

  lemma {:induction false} LastDigit(rest: nat, digit: nat)
    requires digit < 512
    ensures (rest * 512 + digit) / 512 == rest && (rest * 512 + digit) % 512 == digit
  {
  }

  lemma {:induction false} DivideAgain(n: nat)
    ensures n / 0x4_0000 == n / 0x200 / 0x200 && n / 0x800_0000 == n / 0x200 / 0x200 / 0x200
  {
  }

  lemma {:induction false} PathOfPage(path: seq<nat>)
    requires InTable(path)
    ensures PathOf(PageOf(path)) == path
  {
    var a, b, c, d := path[0], path[1], path[2], path[3];
    assert PageOf(path) == ((a * 512 + b) * 512 + c) * 512 + d;
    DivideAgain(PageOf(path));
    LastDigit((a * 512 + b) * 512 + c, d);
    LastDigit(a * 512 + b, c);
    LastDigit(a, b);
    assert PathOf(PageOf(path)) == [a, b, c, d];
  }

  /** Before in the order of the tables: the first index that differs decides. */
  predicate PathBefore(p: seq<nat>, q: seq<nat>)
    requires |p| == |q|
  {
    p != [] && (p[0] < q[0] || (p[0] == q[0] && PathBefore(p[1..], q[1..])))
  }

  /** Paths are ordered as page numbers are, so the first index is the most significant. */
  lemma {:induction false} PathsAreOrdered(page: nat, other: nat)
    requires page < ALL_PAGES && other < ALL_PAGES
    ensures page < other <==> PathBefore(PathOf(page), PathOf(other))
  {
    hide PathOf, PageOf;
    var p, q := PathOf(page), PathOf(other);
    PageOfPath(page);
    PageOfPath(other);
    OrderOfPaths(p, q);
  }

  lemma {:induction false} OrderOfPaths(p: seq<nat>, q: seq<nat>)
    requires InTable(p) && InTable(q)
    ensures PageOf(p) < PageOf(q) <==> PathBefore(p, q)
  {
    assert PathBefore(p, q) <==>
      || p[0] < q[0] || (p[0] == q[0] && p[1] < q[1]) || (p[0] == q[0] && p[1] == q[1] && p[2] < q[2])
      || (p[0] == q[0] && p[1] == q[1] && p[2] == q[2] && p[3] < q[3]) by { FourIndices(p, q); }
    hide PathBefore;
  }

  lemma {:induction false} FourIndices(p: seq<nat>, q: seq<nat>)
    requires |p| == 4 && |q| == 4
    ensures PathBefore(p, q) <==>
      || p[0] < q[0] || (p[0] == q[0] && p[1] < q[1]) || (p[0] == q[0] && p[1] == q[1] && p[2] < q[2])
      || (p[0] == q[0] && p[1] == q[1] && p[2] == q[2] && p[3] < q[3])
  {
    var a, b := p[1..], q[1..];
    var c, d := a[1..], b[1..];
    var e, f := c[1..], d[1..];
    assert e == [p[3]] && f == [q[3]] && c[0] == p[2] && d[0] == q[2] && a[0] == p[1] && b[0] == q[1];
    assert e[1..] == [] && f[1..] == [];
    assert PathBefore(e, f) <==> p[3] < q[3];
    assert PathBefore(c, d) <==> p[2] < q[2] || (p[2] == q[2] && PathBefore(e, f));
    assert PathBefore(a, b) <==> p[1] < q[1] || (p[1] == q[1] && PathBefore(c, d));
  }

  /** The 512 pages of one aligned run share their last-level table, and differ in the last index only. */
  lemma {:induction false} NeighboursShareTables(page: nat, other: nat)
    requires page < ALL_PAGES && other < ALL_PAGES
    ensures page / ENTRIES == other / ENTRIES <==> PathOf(page)[..3] == PathOf(other)[..3]
    ensures page / ENTRIES == other / ENTRIES && page != other ==> PathOf(page)[3] != PathOf(other)[3]
  {
    if page / ENTRIES == other / ENTRIES {
      DivideAgain(page);
      DivideAgain(other);
    } else if PathOf(page)[..3] == PathOf(other)[..3] {
      SameTables(page, other);
    }
  }

  /** The lower half of the root table is the addresses below 2^47. */
  lemma {:induction false} LowerHalfAddresses(page: nat)
    requires page < ALL_PAGES
    ensures PathOf(page)[0] < UPPER_HALF <==> page * PAGE_BYTES < 0x8000_0000_0000
  {
    PageOfPath(page);
    var path := PathOf(page);
    hide PathOf;
    assert page == path[0] * 0x800_0000 + path[1] * 0x4_0000 + path[2] * 0x200 + path[3];
  }

  lemma {:induction false} SameTables(page: nat, other: nat)
    requires page < ALL_PAGES && other < ALL_PAGES && PathOf(page)[..3] == PathOf(other)[..3]
    ensures page / ENTRIES == other / ENTRIES
  {
    var p, q := PathOf(page), PathOf(other);
    assert p[..3][0] == q[..3][0] && p[..3][1] == q[..3][1] && p[..3][2] == q[..3][2];
    PageOfPath(page);
    PageOfPath(other);
    hide PathOf;
    RunOfPage(p);
    RunOfPage(q);
  }

  lemma {:induction false} RunOfPage(p: seq<nat>)
    requires InTable(p)
    ensures PageOf(p) / ENTRIES == (p[0] * ENTRIES + p[1]) * ENTRIES + p[2]
  {
    assert PageOf(p) == ((p[0] * ENTRIES + p[1]) * ENTRIES + p[2]) * ENTRIES + p[3];
  }

  // -------------------------------------------------------------- mapping a page

  function NewLeaf(frame: nat, flags: Flags): Entry {
    Entry(PRESENT | USER | flags.low, frame, flags.high)
  }

  function WithFlags(e: Entry, flags: Flags): Entry {
    Entry(e.low | flags.low, e.frame, e.high | flags.high)
  }

  /** What mapping a page gives: a new leaf, more flags for an old one; a huge page is left alone. */
  function Granted(t: Translation, frame: nat, flags: Flags): Translation {
    match t
    case NotMapped(way) => Mapped(NewLeaf(frame, flags), way)
    case Mapped(e, way) => Mapped(WithFlags(e, flags), way)
    case HugePage(_, _, _) => t
  }

  ghost predicate SameWalks(mem: Frames, after: Frames, root: nat) {
    forall q | |q| == 4 :: Walk(after, root, q) == Walk(mem, root, q)
  }

  ghost predicate PageGranted(mem: Frames, after: Frames, root: nat, path: seq<nat>, frame: nat, flags: Flags) {
    forall q | |q| == 4 :: Walk(after, root, q) ==
      if q == path then Granted(Walk(mem, root, q), frame, flags) else Walk(mem, root, q)
  }

  /** Frames that hold data and are not up for allocation keep it. */
  ghost predicate DataKept(mem: Frames, after: Frames, free: seq<nat>) {
    forall f | f in mem && mem[f].Data? && f !in free :: f in after && after[f] == mem[f]
  }

  ghost predicate Ready(mem: Frames, root: nat, free: seq<nat>) {
    TreeShaped(mem, root, free) && NoRepeat(free)
  }

  predicate Drawn(free: seq<nat>, rest: seq<nat>) {
    |rest| <= |free| && rest == free[|free| - |rest|..]
  }

  /** Tables may have been added, but nothing shows yet. */
  ghost predicate Prepared(mem: Frames, after: Frames, root: nat, free: seq<nat>, rest: seq<nat>) {
    Ready(after, root, rest) && SameWalks(mem, after, root) && DataKept(mem, after, free) && Drawn(free, rest)
  }

  lemma {:induction false} InstallPrepares(mem: Frames, now: Frames, root: nat, free: seq<nat>, rest: seq<nat>, at: seq<nat>, i: nat)
    requires Prepared(mem, now, root, free, rest) && Installable(now, root, rest, at, i)
    ensures Prepared(mem, AfterInstall(now, root, rest, at, i), root, free, rest[1..])
  {
    hide TreeShaped;
    var after := AfterInstall(now, root, rest, at, i);
    InstallKeepsTree(now, root, rest, at, i);
    forall q | |q| == 4
      ensures Walk(after, root, q) == Walk(mem, root, q)
    {
      InstallKeepsWalks(now, root, rest, at, i, q);
    }
    assert rest[0] in rest && rest[0] in free;
  }

  /** The entry written over an old one. */
  function LeafEntry(was: Entry, frame: nat, flags: Flags): (e: Entry)
    ensures Present(e)
  {
    PresentStays(was.low, flags.low);
    if Present(was) then WithFlags(was, flags) else NewLeaf(frame, flags)
  }

  lemma {:induction false} LastStep(mem: Frames, t: nat, i: nat)
    requires IsTable(mem, t) && i < ENTRIES
    ensures Walk(mem, t, [i]) == Leaf(EntryAt(mem, t, i))
  {
    hide Present;
  }

  lemma {:induction false} LeafEntryIsGranted(was: Entry, frame: nat, flags: Flags)
    ensures Leaf(LeafEntry(was, frame, flags)) == Granted(Leaf(was), frame, flags)
  {
    hide NewLeaf, WithFlags, Present;
  }

  lemma {:induction false} GrantedUnder(above: Rights, t: Translation, frame: nat, flags: Flags)
    ensures Granted(Under(above, t), frame, flags) == Under(above, Granted(t, frame, flags))
  {
    hide NewLeaf, WithFlags, Both;
  }

  lemma {:induction false} LeafEntryGrants(mem: Frames, root: nat, at: seq<nat>, i: nat, frame: nat, flags: Flags)
    requires |at| == 3 && i < ENTRIES && TableAt(mem, root, at).Some? && IsTable(mem, TableAt(mem, root, at).value)
    ensures Under(WayTo(mem, root, at), Leaf(LeafEntry(EntryAt(mem, TableAt(mem, root, at).value, i), frame, flags))) ==
              Granted(Walk(mem, root, at + [i]), frame, flags)
  {
    hide Walk, TableAt, Present, LeafEntry, Granted, WayTo, Under, Leaf;
    WalkThrough(mem, root, at, [i]);
    LastStep(mem, TableAt(mem, root, at).value, i);
    LeafEntryIsGranted(EntryAt(mem, TableAt(mem, root, at).value, i), frame, flags);
    GrantedUnder(WayTo(mem, root, at), Leaf(EntryAt(mem, TableAt(mem, root, at).value, i)), frame, flags);
  }

  lemma {:induction false} LeafGrants(mem: Frames, now: Frames, root: nat, free: seq<nat>, rest: seq<nat>, at: seq<nat>, i: nat, frame: nat, flags: Flags)
    requires Prepared(mem, now, root, free, rest) && |at| == 3 && i < ENTRIES
    requires TableAt(now, root, at).Some? && IsTable(now, TableAt(now, root, at).value)
    ensures var t := TableAt(now, root, at).value;
            var after := WithEntry(now, t, i, LeafEntry(EntryAt(now, t, i), frame, flags));
            && Ready(after, root, rest) && DataKept(mem, after, free)
            && PageGranted(mem, after, root, at + [i], frame, flags)
  {
    hide TreeShaped, Walk, TableAt, LeafEntry, Granted, WayTo, Under, Leaf;
    var t := TableAt(now, root, at).value;
    var e := LeafEntry(EntryAt(now, t, i), frame, flags);
    LeafSetKeepsTree(now, root, rest, at, i, e);
    LeafEntryGrants(now, root, at, i, frame, flags);
    forall q | |q| == 4
      ensures Walk(WithEntry(now, t, i, e), root, q) ==
              if q == at + [i] then Granted(Walk(mem, root, q), frame, flags) else Walk(mem, root, q)
    {
      LeafSetWalks(now, root, rest, at, i, e, q);
    }
  }

  lemma {:induction false} PresentStays(low: bv12, flags: bv12)
    ensures low & PRESENT != 0 ==> (low | flags) & PRESENT != 0
    ensures (PRESENT | USER | flags) & PRESENT != 0
  {
  }
}
