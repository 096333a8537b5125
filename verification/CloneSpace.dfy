/**
 Cloning an address space: a deep copy of the lower half through four levels of tables,
 with every table and every page in a frame of its own.
 */
module CloneSpace {
  import opened Bytes
  import opened PageTables
  import opened UserMapping

  /** What a subtree means, whatever frames it sits in and whatever its inner flags are. */
  datatype Node = Hole | Page(low: bv12, content: Content) | Sub(children: seq<Node>)

  const TOP: nat := 4

  function NodeOf(mem: Frames, e: Entry, level: nat): Node
    decreases level
  {
    if !Present(e) then Hole
    else if level <= 1 then (if e.frame in mem then Page(e.low, mem[e.frame]) else Hole)
    else if !IsTable(mem, e.frame) then Hole
    else Sub(seq(ENTRIES, i requires 0 <= i < ENTRIES => NodeOf(mem, mem[e.frame].entries[i], level - 1)))
  }

  /** All frames below an entry, tables and pages, each table before what it holds. */
  function Below(mem: Frames, e: Entry, level: nat): seq<nat>
    decreases level, 0
  {
    if !Present(e) then []
    else if level <= 1 || !IsTable(mem, e.frame) then [e.frame]
    else [e.frame] + BelowFirst(mem, mem[e.frame].entries, level - 1, ENTRIES)
  }

  /** The same for the first n entries of a table whose entries stand at `level`. */
  function BelowFirst(mem: Frames, entries: seq<Entry>, level: nat, n: nat): seq<nat>
    requires n <= |entries|
    decreases level, n
  {
    if n == 0 then [] else BelowFirst(mem, entries, level, n - 1) + Below(mem, entries[n - 1], level)
  }

  /** Only 4 KiB pages and no high attribute bits: what the copying code can read. */
  predicate Clonable(mem: Frames, e: Entry, level: nat)
    decreases level
  {
    Present(e) ==>
      && e.frame in mem && e.high == 0
      && (level > 1 ==>
            && !Huge(e) && IsTable(mem, e.frame)
            && forall i | 0 <= i < ENTRIES :: Clonable(mem, mem[e.frame].entries[i], level - 1))
  }

  /** The tables below an entry, and the entry itself, take no right away from the pages. */
  predicate OpenBelow(mem: Frames, e: Entry, level: nat)
    decreases level
  {
    Present(e) && level > 1 ==>
      && RightsOf(e) == ALL_RIGHTS
      && (IsTable(mem, e.frame) ==> forall i | 0 <= i < ENTRIES :: OpenBelow(mem, mem[e.frame].entries[i], level - 1))
  }

  predicate ClonableFirst(mem: Frames, entries: seq<Entry>, level: nat, n: nat)
    requires n <= |entries|
  {
    forall i | 0 <= i < n :: Clonable(mem, entries[i], level)
  }

  // --------------------------------------------------------------- what a subtree reads

  predicate SameAt(mem: Frames, after: Frames, f: nat) {
    (f in mem <==> f in after) && (f in mem ==> after[f] == mem[f])
  }

  ghost predicate Agree(mem: Frames, after: Frames, frames: seq<nat>) {
    forall f | f in frames :: SameAt(mem, after, f)
  }

  lemma {:induction false} SubtreeKept(mem: Frames, after: Frames, e: Entry, level: nat)
    requires Agree(mem, after, Below(mem, e, level))
    ensures Below(after, e, level) == Below(mem, e, level)
    ensures NodeOf(after, e, level) == NodeOf(mem, e, level)
    ensures Clonable(mem, e, level) ==> Clonable(after, e, level)
    ensures OpenBelow(mem, e, level) ==> OpenBelow(after, e, level)
    decreases level, 0
  {
    if Present(e) {
      assert SameAt(mem, after, e.frame) by { assert e.frame in Below(mem, e, level); }
      if level > 1 && IsTable(mem, e.frame) {
        var entries := mem[e.frame].entries;
        assert Agree(mem, after, BelowFirst(mem, entries, level - 1, ENTRIES));
        FirstKept(mem, after, entries, level - 1, ENTRIES);
        forall i | 0 <= i < ENTRIES
          ensures NodeOf(after, entries[i], level - 1) == NodeOf(mem, entries[i], level - 1)
          ensures Clonable(mem, entries[i], level - 1) ==> Clonable(after, entries[i], level - 1)
          ensures OpenBelow(mem, entries[i], level - 1) ==> OpenBelow(after, entries[i], level - 1)
        {
          assert EntryKept(mem, after, entries[i], level - 1);
        }
      }
    }
  }

  predicate EntryKept(mem: Frames, after: Frames, e: Entry, level: nat) {
    && Below(after, e, level) == Below(mem, e, level)
    && NodeOf(after, e, level) == NodeOf(mem, e, level)
    && (Clonable(mem, e, level) ==> Clonable(after, e, level))
    && (OpenBelow(mem, e, level) ==> OpenBelow(after, e, level))
  }

  lemma {:induction false} FirstKept(mem: Frames, after: Frames, entries: seq<Entry>, level: nat, n: nat)
    requires n <= |entries| && Agree(mem, after, BelowFirst(mem, entries, level, n))
    ensures BelowFirst(after, entries, level, n) == BelowFirst(mem, entries, level, n)
    ensures forall i | 0 <= i < n :: EntryKept(mem, after, entries[i], level)
    decreases level, n
  {
    if n > 0 {
      hide Below, NodeOf, Clonable, OpenBelow;
      FirstKept(mem, after, entries, level, n - 1);
      SubtreeKept(mem, after, entries[n - 1], level);
    }
  }

  // ------------------------------------------------------------------ the copying code

  ghost predicate Outside(mem: Frames, after: Frames, c: nat, used: seq<nat>) {
    forall f | f != c && f !in used :: SameAt(mem, after, f)
  }

  ghost predicate Apart(frames: seq<nat>, c: nat, free: seq<nat>) {
    forall f | f in frames :: f != c && f !in free
  }

  /** Frames the copy of these entries may not disturb, and the table that receives it. */
  ghost predicate MayClone(mem: Frames, free: seq<nat>, below: seq<nat>, c: nat) {
    IsTable(mem, c) && c !in free && NoRepeat(free) && Apart(below, c, free)
  }

  /** The first n entries have been copied: same meaning, built from the next free frames in order. */
  ghost predicate FirstCloned(mem: Frames, free: seq<nat>, after: Frames, rest: seq<nat>,
                              parent: seq<Entry>, child: seq<Entry>, level: nat, n: nat)
  {
    && n <= |parent| && n <= |child|
    && var k := |BelowFirst(mem, parent, level, n)|;
    && k <= |free| && rest == free[k..]
    && BelowFirst(after, child, level, n) == free[..k]
    && ClonableFirst(after, child, level, n)
    && (forall i | 0 <= i < n :: OpenBelow(after, child[i], level))
    && forall i | 0 <= i < n :: NodeOf(after, child[i], level) == NodeOf(mem, parent[i], level)
  }

  ghost predicate EntryCloned(mem: Frames, free: seq<nat>, after: Frames, rest: seq<nat>, e: Entry, copy: Entry, level: nat) {
    var k := |Below(mem, e, level)|;
    && k <= |free| && rest == free[k..]
    && Below(after, copy, level) == free[..k]
    && Clonable(after, copy, level) && OpenBelow(after, copy, level)
    && NodeOf(after, copy, level) == NodeOf(mem, e, level)
  }

  predicate OnlyEntryChanged(mem: Frames, after: Frames, c: nat, j: nat) {
    && IsTable(mem, c) && IsTable(after, c) && j < ENTRIES
    && forall i | 0 <= i < ENTRIES && i != j :: after[c].entries[i] == mem[c].entries[i]
  }

  lemma {:induction false} LeafCloned(mem: Frames, free: seq<nat>, after: Frames, e: Entry, c: nat, j: nat)
    requires Present(e) && Clonable(mem, e, 1) && MayClone(mem, free, Below(mem, e, 1), c) && free != [] && j < ENTRIES
    requires after == WithEntry(mem[free[0] := mem[e.frame]], c, j, Entry(e.low, free[0], 0))
    ensures EntryCloned(mem, free, after, free[1..], e, Entry(e.low, free[0], 0), 1)
    ensures OnlyEntryChanged(mem, after, c, j) && after[c].entries[j] == Entry(e.low, free[0], 0)
    ensures Outside(mem, after, c, free[..1])
  {
    assert free[..1] == [free[0]];
    assert free[0] in free;
  }

  /** A new, empty table hangs in place of the copy; the parent's tree is as it was. */
  lemma {:induction false} TableStarted(mem: Frames, free: seq<nat>, now: Frames, e: Entry, level: nat, c: nat, j: nat)
    requires Present(e) && level > 1 && Clonable(mem, e, level) && MayClone(mem, free, Below(mem, e, level), c)
    requires free != [] && j < ENTRIES && now == WithTable(mem, c, j, free[0])
    ensures var entries := mem[e.frame].entries;
            && SameAt(mem, now, e.frame) && e.frame != free[0]
            && MayClone(now, free[1..], BelowFirst(now, entries, level - 1, ENTRIES), free[0])
            && ClonableFirst(now, entries, level - 1, ENTRIES)
            && FirstSame(mem, now, entries, level - 1)
  {
    hide BelowFirst, Below, NodeOf;
    var entries := mem[e.frame].entries;
    InnerIsBelow(mem, e, level);
    assert free[0] in free;
    forall f | f in BelowFirst(mem, entries, level - 1, ENTRIES)
      ensures SameAt(mem, now, f) && f != free[0] && f !in free[1..]
    {
      assert f in Below(mem, e, level);
    }
    FirstKept(mem, now, entries, level - 1, ENTRIES);
    FirstIsNotRepeated(free);
    forall i | 0 <= i < ENTRIES
      ensures Clonable(now, entries[i], level - 1)
    {
      assert EntryKept(mem, now, entries[i], level - 1);
    }
  }

  lemma {:induction false} InnerIsBelow(mem: Frames, e: Entry, level: nat)
    requires Present(e) && level > 1 && IsTable(mem, e.frame)
    ensures e.frame in Below(mem, e, level)
    ensures forall f | f in BelowFirst(mem, mem[e.frame].entries, level - 1, ENTRIES) :: f in Below(mem, e, level)
  {
    hide BelowFirst;
  }

  predicate FirstSame(mem: Frames, after: Frames, entries: seq<Entry>, level: nat)
    requires |entries| == ENTRIES
  {
    && BelowFirst(after, entries, level, ENTRIES) == BelowFirst(mem, entries, level, ENTRIES)
    && forall i | 0 <= i < ENTRIES :: EntryKept(mem, after, entries[i], level)
  }

  lemma {:induction false} TableCloned(mem: Frames, free: seq<nat>, now: Frames, after: Frames, rest: seq<nat>, e: Entry, level: nat, c: nat, j: nat)
    requires Present(e) && level > 1 && Clonable(mem, e, level) && MayClone(mem, free, Below(mem, e, level), c)
    requires free != [] && j < ENTRIES && now == WithTable(mem, c, j, free[0])
    requires FirstSame(mem, now, mem[e.frame].entries, level - 1)
    requires IsTable(after, free[0])
    requires FirstCloned(now, free[1..], after, rest, mem[e.frame].entries, after[free[0]].entries, level - 1, ENTRIES)
    ensures EntryCloned(mem, free, after, rest, e, Entry(TABLE_FLAGS, free[0], 0), level)
  {
    hide BelowFirst, MayClone;
    var copy, k := Entry(TABLE_FLAGS, free[0], 0), |BelowFirst(now, mem[e.frame].entries, level - 1, ENTRIES)|;
    assert Present(copy) && !Huge(copy);
    TablesAllowAll(free[0]);
    assert free[..1 + k] == [free[0]] + free[1..][..k];
    assert free[1..][k..] == free[1 + k..];
    CopyMeansTheSame(mem, now, after, e, copy, level);
  }

  lemma {:induction false} CopyMeansTheSame(mem: Frames, now: Frames, after: Frames, e: Entry, copy: Entry, level: nat)
    requires Present(e) && Present(copy) && level > 1 && IsTable(mem, e.frame) && IsTable(after, copy.frame)
    requires forall i | 0 <= i < ENTRIES :: EntryKept(mem, now, mem[e.frame].entries[i], level - 1)
    requires forall i | 0 <= i < ENTRIES ::
               NodeOf(after, after[copy.frame].entries[i], level - 1) == NodeOf(now, mem[e.frame].entries[i], level - 1)
    ensures NodeOf(after, copy, level) == NodeOf(mem, e, level)
  {
    hide Below, Clonable, OpenBelow, Present;
    forall i | 0 <= i < ENTRIES
      ensures NodeOf(after, after[copy.frame].entries[i], level - 1) == NodeOf(mem, mem[e.frame].entries[i], level - 1)
    {
      assert EntryKept(mem, now, mem[e.frame].entries[i], level - 1);
    }
  }

  lemma {:induction false} TableKeepsOthers(mem: Frames, free: seq<nat>, now: Frames, after: Frames, k: nat, c: nat, j: nat)
    requires IsTable(mem, c) && c !in free && j < ENTRIES && free != [] && k <= |free[1..]|
    requires now == WithTable(mem, c, j, free[0]) && Outside(now, after, free[0], free[1..][..k])
    ensures OnlyEntryChanged(mem, after, c, j) && after[c].entries[j] == Entry(TABLE_FLAGS, free[0], 0)
    ensures Outside(mem, after, c, free[..1 + k])
  {
    assert free[..1 + k] == [free[0]] + free[1..][..k];
    assert c !in free[1..][..k];
    assert SameAt(now, after, c);
    forall f | f != c && f !in free[..1 + k]
      ensures SameAt(mem, after, f)
    {
      assert SameAt(now, after, f);
    }
  }

  lemma {:induction false} FirstClonedBegins(mem: Frames, free: seq<nat>, parent: seq<Entry>, child: seq<Entry>, level: nat)
    ensures FirstCloned(mem, free, mem, free, parent, child, level, 0)
  {
    assert free[..0] == [] && free[0..] == free;
  }

  /** Later copies write only the receiving table and newly taken frames, so earlier ones stay as they are. */
  lemma {:induction false} EarlierCopiesStay(free: seq<nat>, k: nat, used: nat, now: Frames, after: Frames,
                          child: seq<Entry>, level: nat, n: nat, c: nat)
    requires NoRepeat(free) && c !in free && k + used <= |free| && n <= |child|
    requires BelowFirst(now, child, level, n) == free[..k] && Outside(now, after, c, free[k..][..used])
    ensures Agree(now, after, BelowFirst(now, child, level, n))
  {
    forall f | f in free[..k]
      ensures SameAt(now, after, f)
    {
      NotTakenLater(free, k, used, f);
      assert f in free;
    }
  }

  lemma {:induction false} NotTakenLater(free: seq<nat>, k: nat, used: nat, f: nat)
    requires NoRepeat(free) && k + used <= |free| && f in free[..k]
    ensures f !in free[k..][..used]
  {
    var i :| 0 <= i < k && free[i] == f;
    forall j | 0 <= j < used
      ensures free[k..][..used][j] != f
    {
      assert free[k..][..used][j] == free[k + j];
    }
  }

  lemma {:induction false} FirstClonedGrows(mem: Frames, free: seq<nat>, now: Frames, left: seq<nat>, after: Frames, rest: seq<nat>,
                         parent: seq<Entry>, was: seq<Entry>, child: seq<Entry>, level: nat, n: nat, c: nat)
    requires FirstCloned(mem, free, now, left, parent, was, level, n) && n < |parent| && n < |was| == |child|
    requires NoRepeat(free) && c !in free
    requires child == was[n := child[n]]
    requires EntryKept(mem, now, parent[n], level)
    requires EntryCloned(now, left, after, rest, parent[n], child[n], level)
    requires Outside(now, after, c, left[..|Below(now, parent[n], level)|])
    ensures FirstCloned(mem, free, after, rest, parent, child, level, n + 1)
  {
    hide NodeOf, Below, Clonable, OpenBelow, BelowFirst, Outside;
    var k, used := |BelowFirst(mem, parent, level, n)|, |Below(mem, parent[n], level)|;
    EarlierCopiesStay(free, k, used, now, after, was, level, n, c);
    FirstKept(now, after, was, level, n);
    SameEntriesSameBelow(after, was, child, level, n);
    BelowFirstStep(mem, parent, level, n);
    BelowFirstStep(after, child, level, n);
    assert free[..k + used] == free[..k] + free[k..][..used];
    assert free[k..][used..] == free[k + used..];
    forall i | 0 <= i < n + 1
      ensures NodeOf(after, child[i], level) == NodeOf(mem, parent[i], level) && Clonable(after, child[i], level)
      ensures OpenBelow(after, child[i], level)
    {
      if i < n {
        assert EntryKept(now, after, was[i], level);
      }
    }
  }

  lemma {:induction false} BelowFirstStep(mem: Frames, entries: seq<Entry>, level: nat, n: nat)
    requires n < |entries|
    ensures BelowFirst(mem, entries, level, n + 1) == BelowFirst(mem, entries, level, n) + Below(mem, entries[n], level)
  {
    hide Below;
  }

  lemma {:induction false} SameEntriesSameBelow(mem: Frames, a: seq<Entry>, b: seq<Entry>, level: nat, n: nat)
    requires n <= |a| && n <= |b| && forall i | 0 <= i < n :: a[i] == b[i]
    ensures BelowFirst(mem, a, level, n) == BelowFirst(mem, b, level, n)
  {
    hide Below;
    if n > 0 {
      SameEntriesSameBelow(mem, a, b, level, n - 1);
    }
  }

  /** The parent's entries still to come have not been disturbed. */
  lemma {:induction false} ParentStays(mem: Frames, free: seq<nat>, now: Frames, k: nat, entries: seq<Entry>, level: nat, n: nat, i: nat, c: nat)
    requires i < n <= |entries| && k <= |free| && Apart(BelowFirst(mem, entries, level, n), c, free)
    requires Outside(mem, now, c, free[..k])
    ensures EntryKept(mem, now, entries[i], level)
    ensures Apart(Below(mem, entries[i], level), c, free[k..])
  {
    hide NodeOf, Below, Clonable, OpenBelow;
    BelowIsIncluded(mem, entries, level, n, i);
    forall f | f in BelowFirst(mem, entries, level, n)
      ensures SameAt(mem, now, f)
    {
      assert f !in free;
    }
    SubtreeKept(mem, now, entries[i], level);
  }

  lemma {:induction false} BelowIsIncluded(mem: Frames, entries: seq<Entry>, level: nat, n: nat, i: nat)
    requires i < n <= |entries|
    ensures forall f | f in Below(mem, entries[i], level) :: f in BelowFirst(mem, entries, level, n)
  {
    hide Below;
    if i < n - 1 {
      BelowIsIncluded(mem, entries, level, n - 1, i);
    }
  }

  lemma {:induction false} BelowFirstGrows(mem: Frames, entries: seq<Entry>, level: nat, m: nat, n: nat)
    requires m <= n <= |entries|
    ensures |BelowFirst(mem, entries, level, m)| <= |BelowFirst(mem, entries, level, n)|
  {
    hide Below;
    if m < n {
      BelowFirstGrows(mem, entries, level, m, n - 1);
    }
  }

  lemma {:induction false} OutsideGrows(mem: Frames, free: seq<nat>, now: Frames, after: Frames, k: nat, used: nat, c: nat)
    requires k + used <= |free| && Outside(mem, now, c, free[..k]) && Outside(now, after, c, free[k..][..used])
    ensures Outside(mem, after, c, free[..k + used])
  {
    assert free[..k + used] == free[..k] + free[k..][..used];
    forall f | f != c && f !in free[..k + used]
      ensures SameAt(mem, after, f)
    {
      assert SameAt(mem, now, f) && SameAt(now, after, f);
    }
  }

  lemma {:induction false} BelowHasSize(mem: Frames, e: Entry, level: nat)
    requires Present(e)
    ensures |Below(mem, e, level)| >= 1
  {
    hide BelowFirst;
  }

  lemma {:induction false} FrameIsFresh(mem: Frames, free: seq<nat>, e: Entry, level: nat, c: nat)
    requires Present(e) && MayClone(mem, free, Below(mem, e, level), c) && free != []
    ensures free[0] != c && e.frame != free[0] && e.frame !in free && e.frame != c
    ensures level == 1 ==> |Below(mem, e, level)| == 1
  {
    hide BelowFirst;
    assert e.frame in Below(mem, e, level);
  }

  lemma {:induction false} FirstSameSize(mem: Frames, now: Frames, e: Entry, level: nat)
    requires Present(e) && level > 1 && IsTable(mem, e.frame) && FirstSame(mem, now, mem[e.frame].entries, level - 1)
    ensures |Below(mem, e, level)| == 1 + |BelowFirst(now, mem[e.frame].entries, level - 1, ENTRIES)|
  {
    hide BelowFirst;
  }

  /** Copies one present entry, and all below it, into entry j of table c; false when frames run out. */
  method CloneEntry(m: PhysicalMemory, c: nat, j: nat, e: Entry, level: nat) returns (ok: bool)
    requires level >= 1 && j < ENTRIES && Present(e) && Clonable(m.frames, e, level)
    requires MayClone(m.frames, m.free, Below(m.frames, e, level), c)
    modifies m
    ensures ok <==> |Below(old(m.frames), e, level)| <= |old(m.free)|
    ensures ok ==> OnlyEntryChanged(old(m.frames), m.frames, c, j)
    ensures ok ==> EntryCloned(old(m.frames), old(m.free), m.frames, m.free, e, m.frames[c].entries[j], level)
    ensures ok ==> Outside(old(m.frames), m.frames, c, old(m.free)[..|Below(old(m.frames), e, level)|])
    decreases level, 0
  {
    hide BelowFirst, NodeOf, EntryCloned, FirstCloned, Outside, Apart, FirstSame;
    ghost var mem, free := m.frames, m.free;
    BelowHasSize(mem, e, level);
    var frame := m.AllocateFrame();
    if frame.None? {
      return false;
    }
    FrameIsFresh(mem, free, e, level, c);
    if level == 1 {
      m.CopyFrame(e.frame, frame.value);
      m.WriteEntry(c, j, Entry(e.low, frame.value, 0));
      LeafCloned(mem, free, m.frames, e, c, j);
      return true;
    }
    m.ZeroFrame(frame.value);
    m.WriteEntry(c, j, Entry(PRESENT | WRITABLE | USER, frame.value, 0));
    ghost var now := m.frames;
    assert now == WithTable(mem, c, j, free[0]);
    TableStarted(mem, free, now, e, level, c, j);
    ok := CloneTable(m, e.frame, frame.value, level - 1, ENTRIES);
    FirstSameSize(mem, now, e, level);
    if ok {
      TableCloned(mem, free, now, m.frames, m.free, e, level, c, j);
      TableKeepsOthers(mem, free, now, m.frames, |Below(mem, e, level)| - 1, c, j);
    }
  }

  /** Copies the first n entries of table p into table c, whose first n entries are still empty. */
  method CloneTable(m: PhysicalMemory, p: nat, c: nat, level: nat, n: nat) returns (ok: bool)
    requires level >= 1 && n <= ENTRIES && IsTable(m.frames, p) && p != c && p !in m.free
    requires MayClone(m.frames, m.free, BelowFirst(m.frames, m.frames[p].entries, level, n), c)
    requires ClonableFirst(m.frames, m.frames[p].entries, level, n)
    requires forall i | 0 <= i < n :: m.frames[c].entries[i] == ZERO_ENTRY
    modifies m
    ensures ok <==> |BelowFirst(old(m.frames), old(m.frames)[p].entries, level, n)| <= |old(m.free)|
    ensures ok ==> IsTable(m.frames, c)
    ensures ok ==> forall i | n <= i < ENTRIES :: m.frames[c].entries[i] == old(m.frames)[c].entries[i]
    ensures ok ==> FirstCloned(old(m.frames), old(m.free), m.frames, m.free, old(m.frames)[p].entries, m.frames[c].entries, level, n)
    ensures ok ==> Outside(old(m.frames), m.frames, c, old(m.free)[..|BelowFirst(old(m.frames), old(m.frames)[p].entries, level, n)|])
    decreases level, n
  {
    hide BelowFirst, NodeOf, Below, Clonable, OpenBelow, EntryCloned, FirstCloned, Outside, Apart, EntryKept;
    ghost var mem, free, parent := m.frames, m.free, m.frames[p].entries;
    FirstClonedBegins(mem, free, parent, m.frames[c].entries, level);
    FirstClonedRest(mem, free, mem, free, parent, m.frames[c].entries, level, 0);
    NothingOutside(mem, c, free);
    for i := 0 to n
      invariant IsTable(m.frames, p) && m.frames[p] == mem[p] && IsTable(m.frames, c)
      invariant forall x | i <= x < n :: m.frames[c].entries[x] == ZERO_ENTRY
      invariant forall x | n <= x < ENTRIES :: m.frames[c].entries[x] == mem[c].entries[x]
      invariant FirstCloned(mem, free, m.frames, m.free, parent, m.frames[c].entries, level, i)
      invariant |BelowFirst(mem, parent, level, i)| <= |free|
      invariant Outside(mem, m.frames, c, free[..|BelowFirst(mem, parent, level, i)|])
    {
      ghost var now, left, was := m.frames, m.free, m.frames[c].entries;
      ghost var k := |BelowFirst(mem, parent, level, i)|;
      assert k <= |free| && left == free[k..] by { FirstClonedRest(mem, free, now, left, parent, was, level, i); }
      ParentStays(mem, free, now, k, parent, level, n, i, c);
      KeptEntry(mem, now, parent[i], level);
      BelowFirstStep(mem, parent, level, i);
      var e := m.frames[p].entries[i];
      if Present(e) {
        SuffixHasNoRepeat(free, k);
        ok := CloneEntry(m, c, i, e, level);
        if !ok {
          BelowFirstGrows(mem, parent, level, i + 1, n);
          return;
        }
        assert m.frames[c].entries == was[i := m.frames[c].entries[i]];
        FirstClonedGrows(mem, free, now, left, m.frames, m.free, parent, was, m.frames[c].entries, level, i, c);
        ClonedUses(now, left, m.frames, m.free, e, m.frames[c].entries[i], level);
        OutsideGrows(mem, free, now, m.frames, k, |Below(mem, e, level)|, c);
        OutsideKeeps(mem, free, m.frames, k + |Below(mem, e, level)|, c, p);
      } else {
        AbsentCloned(now, left, e, level, c);
        assert was == was[i := ZERO_ENTRY];
        FirstClonedGrows(mem, free, now, left, now, left, parent, was, was, level, i, c);
      }
    }
    ok := true;
    FirstClonedRest(mem, free, m.frames, m.free, parent, m.frames[c].entries, level, n);
  }

  lemma {:induction false} NothingOutside(mem: Frames, c: nat, free: seq<nat>)
    ensures forall k | 0 <= k <= |free| :: Outside(mem, mem, c, free[..k])
  {
  }

  lemma {:induction false} FirstClonedRest(mem: Frames, free: seq<nat>, now: Frames, left: seq<nat>, parent: seq<Entry>, child: seq<Entry>, level: nat, n: nat)
    requires FirstCloned(mem, free, now, left, parent, child, level, n)
    ensures n <= |parent| && |BelowFirst(mem, parent, level, n)| <= |free|
    ensures left == free[|BelowFirst(mem, parent, level, n)|..]
  {
    hide BelowFirst, NodeOf;
  }

  lemma {:induction false} KeptEntry(mem: Frames, now: Frames, e: Entry, level: nat)
    requires EntryKept(mem, now, e, level)
    ensures Below(now, e, level) == Below(mem, e, level)
    ensures Clonable(mem, e, level) ==> Clonable(now, e, level)
  {
    hide Below, Clonable, OpenBelow, NodeOf;
  }

  lemma {:induction false} SuffixHasNoRepeat(free: seq<nat>, k: nat)
    requires NoRepeat(free) && k <= |free|
    ensures NoRepeat(free[k..])
  {
  }

  lemma {:induction false} ClonedUses(mem: Frames, free: seq<nat>, after: Frames, rest: seq<nat>, e: Entry, copy: Entry, level: nat)
    requires EntryCloned(mem, free, after, rest, e, copy, level)
    ensures |Below(mem, e, level)| <= |free|
  {
    hide Below, Clonable, OpenBelow, NodeOf;
  }

  lemma {:induction false} OutsideKeeps(mem: Frames, free: seq<nat>, after: Frames, k: nat, c: nat, f: nat)
    requires k <= |free| && Outside(mem, after, c, free[..k]) && f != c && f !in free
    ensures SameAt(mem, after, f)
  {
  }

  lemma {:induction false} AbsentCloned(mem: Frames, free: seq<nat>, e: Entry, level: nat, c: nat)
    requires !Present(e)
    ensures EntryCloned(mem, free, mem, free, e, ZERO_ENTRY, level)
    ensures |Below(mem, e, level)| == 0 && Outside(mem, mem, c, free[..|Below(mem, e, level)|])
  {
    assert free[..0] == [] && free[0..] == free;
    assert !Present(ZERO_ENTRY);
  }

  // --------------------------------------------------------------------- the whole space

  datatype Outcome = Cloned(root: nat) | NoFrame | OutOfFrames

  /** Lower half empty, upper half shared: the child before anything is copied. */
  function ChildRoot(parent: seq<Entry>): (child: seq<Entry>)
    requires |parent| == ENTRIES
    ensures |child| == ENTRIES
    ensures forall i | 0 <= i < ENTRIES :: child[i] == if i < UPPER_HALF then ZERO_ENTRY else parent[i]
  {
    seq(UPPER_HALF, _ => ZERO_ENTRY) + parent[UPPER_HALF..]
  }

  /** All frames in use below the lower half of a root. */
  function LowerFrames(mem: Frames, root: nat): seq<nat>
    requires IsTable(mem, root)
  {
    BelowFirst(mem, mem[root].entries, TOP, UPPER_HALF)
  }

  /** What the copying code needs of the parent: readable, and nothing of it about to be handed out. */
  ghost predicate Cloneable(mem: Frames, parent: nat, free: seq<nat>) {
    && IsTable(mem, parent) && parent !in free && NoRepeat(free)
    && ClonableFirst(mem, mem[parent].entries, TOP, UPPER_HALF)
    && forall f | f in LowerFrames(mem, parent) :: f !in free
  }

  /** The child means the same as the parent in its lower half and shares the upper half. */
  ghost predicate IsClone(mem: Frames, after: Frames, parent: nat, child: nat, free: seq<nat>, rest: seq<nat>) {
    && IsTable(mem, parent) && IsTable(after, child)
    && (forall i | UPPER_HALF <= i < ENTRIES :: after[child].entries[i] == mem[parent].entries[i])
    && free != [] && child == free[0]
    && FirstCloned(mem, free[1..], after, rest, mem[parent].entries, after[child].entries, TOP, UPPER_HALF)
    && forall f | f !in free :: SameAt(mem, after, f)
  }

  method CloneAddressSpace(m: PhysicalMemory, parent: nat) returns (outcome: Outcome)
    requires Cloneable(m.frames, parent, m.free)
    modifies m
    ensures outcome.Cloned? <==> |old(m.free)| >= 1 + |LowerFrames(old(m.frames), parent)|
    ensures outcome.Cloned? ==> IsClone(old(m.frames), m.frames, parent, outcome.root, old(m.free), m.free)
    ensures outcome.NoFrame? <==> old(m.free) == []
  {
    hide BelowFirst, NodeOf, Clonable, OpenBelow, FirstCloned, Outside;
    ghost var mem, free := m.frames, m.free;
    var frame := m.AllocateFrame();
    if frame.None? {
      return NoFrame;
    }
    var child := frame.value;
    m.WriteTable(child, ChildRoot(m.frames[parent].entries));
    ghost var now := m.frames;
    RootStarted(mem, free, now, parent);
    var ok := CloneTable(m, parent, child, TOP, UPPER_HALF);
    if !ok {
      return OutOfFrames;
    }
    RootCloned(mem, free, now, m.frames, m.free, parent);
    return Cloned(child);
  }

  lemma {:induction false} RootStarted(mem: Frames, free: seq<nat>, now: Frames, parent: nat)
    requires Cloneable(mem, parent, free) && free != []
    requires now == mem[free[0] := Table(ChildRoot(mem[parent].entries))]
    ensures now[parent] == mem[parent] && parent != free[0] && parent !in free[1..]
    ensures MayClone(now, free[1..], LowerFrames(now, parent), free[0])
    ensures ClonableFirst(now, now[parent].entries, TOP, UPPER_HALF)
    ensures LowerFrames(now, parent) == LowerFrames(mem, parent)
    ensures forall i | 0 <= i < UPPER_HALF :: EntryKept(mem, now, mem[parent].entries[i], TOP)
  {
    hide NodeOf, Clonable, OpenBelow, Below, BelowFirst;
    assert free[0] in free;
    FirstIsNotRepeated(free);
    assert Agree(mem, now, LowerFrames(mem, parent));
    FirstKept(mem, now, mem[parent].entries, TOP, UPPER_HALF);
    forall i | 0 <= i < UPPER_HALF
      ensures Clonable(now, mem[parent].entries[i], TOP)
    {
      assert EntryKept(mem, now, mem[parent].entries[i], TOP);
    }
  }

  lemma {:induction false} RootCloned(mem: Frames, free: seq<nat>, now: Frames, after: Frames, rest: seq<nat>, parent: nat)
    requires Cloneable(mem, parent, free) && free != []
    requires now == mem[free[0] := Table(ChildRoot(mem[parent].entries))] && IsTable(after, free[0])
    requires FirstCloned(now, free[1..], after, rest, now[parent].entries, after[free[0]].entries, TOP, UPPER_HALF)
    requires forall i | UPPER_HALF <= i < ENTRIES :: after[free[0]].entries[i] == now[free[0]].entries[i]
    requires Outside(now, after, free[0], free[1..][..|LowerFrames(now, parent)|])
    ensures IsClone(mem, after, parent, free[0], free, rest)
  {
    hide Clonable, OpenBelow, Below, BelowFirst;
    RootStarted(mem, free, now, parent);
    forall i | 0 <= i < UPPER_HALF
      ensures NodeOf(after, after[free[0]].entries[i], TOP) == NodeOf(mem, mem[parent].entries[i], TOP)
    {
      assert EntryKept(mem, now, mem[parent].entries[i], TOP);
    }
    forall f | f !in free
      ensures SameAt(mem, after, f)
    {
      assert SameAt(now, after, f);
    }
  }

  // ------------------------------------------------------------------- translations agree

  /** Both unmapped, or both mapped with the same low bits to frames of the same content. */
  predicate SamePage(mem: Frames, t: Translation, other: Frames, u: Translation) {
    || (t.NotMapped? && u.NotMapped?)
    || (&& t.Mapped? && u.Mapped? && t.entry.low == u.entry.low
        && t.entry.frame in mem && u.entry.frame in other && mem[t.entry.frame] == other[u.entry.frame])
  }

  /** The rest of a walk, from an entry on. */
  function From(mem: Frames, e: Entry, path: seq<nat>): Translation {
    if !Present(e) then NotMapped(ALL_RIGHTS)
    else if path == [] then Mapped(e, ALL_RIGHTS)
    else if Huge(e) then HugePage(e, |path| + 1, ALL_RIGHTS)
    else Under(RightsOf(e), Walk(mem, e.frame, path))
  }

  lemma {:induction false} WalkIsFrom(mem: Frames, table: nat, path: seq<nat>)
    requires IsTable(mem, table) && path != [] && path[0] < ENTRIES
    ensures Walk(mem, table, path) == From(mem, mem[table].entries[path[0]], path[1..])
  {
    hide Present, Huge, RightsOf;
  }

  lemma {:induction false} SameNodeSamePage(mem: Frames, e: Entry, other: Frames, d: Entry, level: nat, path: seq<nat>)
    requires level >= 1 && |path| == level - 1 && forall i | 0 <= i < |path| :: path[i] < ENTRIES
    requires Clonable(mem, e, level) && Clonable(other, d, level) && NodeOf(mem, e, level) == NodeOf(other, d, level)
    ensures SamePage(mem, From(mem, e, path), other, From(other, d, path))
    decreases level
  {
    if Present(e) && level > 1 {
      var es, ds, i := mem[e.frame].entries, other[d.frame].entries, path[0];
      assert NodeOf(mem, e, level).children[i] == NodeOf(mem, es[i], level - 1);
      assert NodeOf(other, d, level).children[i] == NodeOf(other, ds[i], level - 1);
      SameNodeSamePage(mem, es[i], other, ds[i], level - 1, path[1..]);
      WalkIsFrom(mem, e.frame, path);
      WalkIsFrom(other, d.frame, path);
    }
  }

  /** The clone maps exactly the parent's lower-half pages, with the same low bits and contents. */
  lemma {:induction false} CloneTranslates(mem: Frames, after: Frames, parent: nat, child: nat, free: seq<nat>, rest: seq<nat>, path: seq<nat>)
    requires Cloneable(mem, parent, free) && IsClone(mem, after, parent, child, free, rest)
    requires InTable(path) && path[0] < UPPER_HALF
    ensures SamePage(mem, Walk(mem, parent, path), after, Walk(after, child, path))
  {
    hide Clonable, OpenBelow, NodeOf, BelowFirst, From, Walk;
    WalkIsFrom(mem, parent, path);
    WalkIsFrom(after, child, path);
    SameNodeSamePage(mem, mem[parent].entries[path[0]], after, after[child].entries[path[0]], TOP, path[1..]);
  }

  /** Below open tables the way to every page allows all. */
  lemma {:induction false} OpenWay(mem: Frames, e: Entry, level: nat, path: seq<nat>)
    requires level >= 1 && |path| == level - 1 && (forall i | 0 <= i < |path| :: path[i] < ENTRIES)
    requires Clonable(mem, e, level) && OpenBelow(mem, e, level)
    ensures From(mem, e, path).way == ALL_RIGHTS && !From(mem, e, path).HugePage?
    decreases level
  {
    hide RightsOf, Huge;
    if Present(e) && level > 1 {
      assert !Huge(e);
      OpenWay(mem, mem[e.frame].entries[path[0]], level - 1, path[1..]);
      WalkIsFrom(mem, e.frame, path);
    }
  }

  /** What the leaf allows, the tables above it let through. */
  predicate NothingTaken(t: Translation)
    requires t.Mapped?
  {
    var leaf := RightsOf(t.entry);
    (leaf.write ==> t.way.write) && (leaf.user ==> t.way.user) && (leaf.execute ==> t.way.execute)
  }

  /**
   On every page of the clone's lower half the processor grants what the parent's leaf says.
   That is what it grants the parent if and only if the parent's tables take nothing away.
   */
  lemma {:induction false} CloneGrants(mem: Frames, after: Frames, parent: nat, child: nat, free: seq<nat>, rest: seq<nat>, path: seq<nat>)
    requires Cloneable(mem, parent, free) && IsClone(mem, after, parent, child, free, rest)
    requires InTable(path) && path[0] < UPPER_HALF && Walk(mem, parent, path).Mapped?
    ensures var was, now := Walk(mem, parent, path), Walk(after, child, path);
            && now.Mapped? && Grant(now) == RightsOf(was.entry)
            && (Grant(now) == Grant(was) <==> NothingTaken(was))
  {
    hide Cloneable, IsClone, Clonable, OpenBelow, Walk, From, SamePage, RightsOf, Grant, NothingTaken;
    CloneTranslates(mem, after, parent, child, free, rest, path);
    CloneEntriesOpen(mem, after, parent, child, free, rest, path);
    var e, d := mem[parent].entries[path[0]], after[child].entries[path[0]];
    OpenWay(after, d, TOP, path[1..]);
    HighIsZero(mem, e, TOP, path[1..]);
    HighIsZero(after, d, TOP, path[1..]);
    GrantsCompared(mem, Walk(mem, parent, path), after, Walk(after, child, path));
  }

  lemma {:induction false} CloneEntriesOpen(mem: Frames, after: Frames, parent: nat, child: nat, free: seq<nat>, rest: seq<nat>, path: seq<nat>)
    requires Cloneable(mem, parent, free) && IsClone(mem, after, parent, child, free, rest)
    requires InTable(path) && path[0] < UPPER_HALF
    ensures IsTable(mem, parent) && IsTable(after, child) && path != [] && path[0] < ENTRIES
    ensures |path[1..]| == TOP - 1 && forall i | 0 <= i < |path[1..]| :: path[1..][i] < ENTRIES
    ensures var e, d := mem[parent].entries[path[0]], after[child].entries[path[0]];
            && Clonable(mem, e, TOP) && Clonable(after, d, TOP) && OpenBelow(after, d, TOP)
            && Walk(mem, parent, path) == From(mem, e, path[1..]) && Walk(after, child, path) == From(after, d, path[1..])
  {
    hide NodeOf, BelowFirst, From, Walk, Clonable, OpenBelow;
    WalkIsFrom(mem, parent, path);
    WalkIsFrom(after, child, path);
  }

  lemma {:induction false} GrantsCompared(mem: Frames, was: Translation, after: Frames, now: Translation)
    requires was.Mapped? && SamePage(mem, was, after, now) && now.way == ALL_RIGHTS
    requires was.entry.high == 0 && (now.Mapped? ==> now.entry.high == 0)
    ensures now.Mapped? && Grant(now) == RightsOf(was.entry) && (Grant(now) == Grant(was) <==> NothingTaken(was))
  {
  }

  lemma {:induction false} HighIsZero(mem: Frames, e: Entry, level: nat, path: seq<nat>)
    requires level >= 1 && |path| == level - 1 && (forall i | 0 <= i < |path| :: path[i] < ENTRIES) && Clonable(mem, e, level)
    ensures From(mem, e, path).Mapped? ==> From(mem, e, path).entry.high == 0
    decreases level
  {
    hide RightsOf, Huge;
    if Present(e) && level > 1 {
      HighIsZero(mem, mem[e.frame].entries[path[0]], level - 1, path[1..]);
      WalkIsFrom(mem, e.frame, path);
    }
  }

  // ------------------------------------------------------------------ all frames distinct

  /** The frame that the indices lead to: a table for one to three of them, a page for four. */
  function FrameFrom(mem: Frames, e: Entry, path: seq<nat>): Option<nat>
    decreases |path|
  {
    if !Present(e) then None
    else if path == [] then Some(e.frame)
    else if !IsTable(mem, e.frame) || path[0] >= ENTRIES then None
    else FrameFrom(mem, mem[e.frame].entries[path[0]], path[1..])
  }

  function FrameAt(mem: Frames, root: nat, path: seq<nat>): Option<nat>
    requires IsTable(mem, root) && path != [] && path[0] < ENTRIES
  {
    FrameFrom(mem, mem[root].entries[path[0]], path[1..])
  }

  lemma {:induction false} FrameIsBelow(mem: Frames, e: Entry, level: nat, path: seq<nat>)
    requires |path| < level && FrameFrom(mem, e, path).Some?
    ensures FrameFrom(mem, e, path).value in Below(mem, e, level)
    decreases level
  {
    if path == [] {
      assert e.frame in Below(mem, e, level);
    } else {
      var entries := mem[e.frame].entries;
      FrameIsBelow(mem, entries[path[0]], level - 1, path[1..]);
      BelowIsIncluded(mem, entries, level - 1, ENTRIES, path[0]);
      InnerIsBelow(mem, e, level);
    }
  }

  lemma {:induction false} SegmentHasNoRepeat(mem: Frames, entries: seq<Entry>, level: nat, n: nat, i: nat)
    requires i < n <= |entries| && NoRepeat(BelowFirst(mem, entries, level, n))
    ensures NoRepeat(Below(mem, entries[i], level))
  {
    hide Below;
    BelowFirstStep(mem, entries, level, n - 1);
    PartsHaveNoRepeat(BelowFirst(mem, entries, level, n - 1), Below(mem, entries[n - 1], level));
    if i < n - 1 {
      SegmentHasNoRepeat(mem, entries, level, n - 1, i);
    }
  }

  lemma {:induction false} PartsHaveNoRepeat(a: seq<nat>, b: seq<nat>)
    requires NoRepeat(a + b)
    ensures NoRepeat(a) && NoRepeat(b)
    ensures forall x | x in a :: x !in b
  {
    forall i, j | 0 <= i < j < |a|
      ensures a[i] != a[j]
    {
      assert (a + b)[i] == a[i] && (a + b)[j] == a[j];
    }
    forall i, j | 0 <= i < j < |b|
      ensures b[i] != b[j]
    {
      assert (a + b)[|a| + i] == b[i] && (a + b)[|a| + j] == b[j];
    }
    forall i, j | 0 <= i < |a| && 0 <= j < |b|
      ensures a[i] != b[j]
    {
      assert (a + b)[i] == a[i] && (a + b)[|a| + j] == b[j];
    }
  }

  lemma {:induction false} SegmentsShareNothing(mem: Frames, entries: seq<Entry>, level: nat, n: nat, i: nat, j: nat)
    requires i < j < n <= |entries| && NoRepeat(BelowFirst(mem, entries, level, n))
    ensures forall x | x in Below(mem, entries[i], level) :: x !in Below(mem, entries[j], level)
  {
    hide Below;
    BelowFirstStep(mem, entries, level, n - 1);
    PartsHaveNoRepeat(BelowFirst(mem, entries, level, n - 1), Below(mem, entries[n - 1], level));
    if j < n - 1 {
      SegmentsShareNothing(mem, entries, level, n - 1, i, j);
    } else {
      BelowIsIncluded(mem, entries, level, n - 1, i);
    }
  }

  /** Different ways lead to different frames when no frame is listed twice. */
  lemma {:induction false} DifferentPathsBelow(mem: Frames, e: Entry, level: nat, p: seq<nat>, q: seq<nat>)
    requires |p| < level && |q| < level && p != q && NoRepeat(Below(mem, e, level))
    requires FrameFrom(mem, e, p).Some? && FrameFrom(mem, e, q).Some?
    ensures FrameFrom(mem, e, p) != FrameFrom(mem, e, q)
    decreases level, 0
  {
    if p != [] || q != [] {
      var inner := BelowFirst(mem, mem[e.frame].entries, level - 1, ENTRIES);
      assert Below(mem, e, level) == [e.frame] + inner;
      PartsHaveNoRepeat([e.frame], inner);
      if p != [] && q != [] {
        DifferentPathsFirst(mem, mem[e.frame].entries, level - 1, ENTRIES, p, q);
      } else if p == [] {
        InnerFrame(mem, e, level, q);
      } else {
        InnerFrame(mem, e, level, p);
      }
    }
  }

  lemma {:induction false} InnerFrame(mem: Frames, e: Entry, level: nat, path: seq<nat>)
    requires path != [] && |path| < level && FrameFrom(mem, e, path).Some?
    ensures FrameFrom(mem, e, path).value in BelowFirst(mem, mem[e.frame].entries, level - 1, ENTRIES)
  {
    FrameIsBelow(mem, mem[e.frame].entries[path[0]], level - 1, path[1..]);
    BelowIsIncluded(mem, mem[e.frame].entries, level - 1, ENTRIES, path[0]);
  }

  lemma {:induction false} DifferentPathsFirst(mem: Frames, entries: seq<Entry>, level: nat, n: nat, p: seq<nat>, q: seq<nat>)
    requires p != [] && q != [] && |p| <= level && |q| <= level && p != q && n <= |entries| && p[0] < n && q[0] < n
    requires NoRepeat(BelowFirst(mem, entries, level, n))
    requires FrameFrom(mem, entries[p[0]], p[1..]).Some? && FrameFrom(mem, entries[q[0]], q[1..]).Some?
    ensures FrameFrom(mem, entries[p[0]], p[1..]) != FrameFrom(mem, entries[q[0]], q[1..])
    decreases level, 1
  {
    hide Below, FrameFrom, BelowFirst;
    FrameIsBelow(mem, entries[p[0]], level, p[1..]);
    FrameIsBelow(mem, entries[q[0]], level, q[1..]);
    if p[0] == q[0] {
      assert p == [p[0]] + p[1..] && q == [q[0]] + q[1..];
      SegmentHasNoRepeat(mem, entries, level, n, p[0]);
      DifferentPathsBelow(mem, entries[p[0]], level, p[1..], q[1..]);
    } else if p[0] < q[0] {
      SegmentsShareNothing(mem, entries, level, n, p[0], q[0]);
    } else {
      SegmentsShareNothing(mem, entries, level, n, q[0], p[0]);
    }
  }

  /** Every table and page of the clone has a frame of its own, which the parent does not use. */
  lemma {:induction false} CloneFramesAreFresh(mem: Frames, after: Frames, parent: nat, child: nat, free: seq<nat>, rest: seq<nat>, p: seq<nat>)
    requires Cloneable(mem, parent, free) && IsClone(mem, after, parent, child, free, rest)
    requires 0 < |p| <= TOP && p[0] < UPPER_HALF && FrameAt(after, child, p).Some?
    ensures FrameAt(after, child, p).value in free[1..] && FrameAt(after, child, p).value != child
    ensures FrameAt(after, child, p).value !in LowerFrames(mem, parent) && FrameAt(after, child, p).value != parent
    ensures forall q | 0 < |q| <= TOP && q[0] < UPPER_HALF && q != p && FrameAt(after, child, q).Some? ::
              FrameAt(after, child, q) != FrameAt(after, child, p)
  {
    hide Below, BelowFirst, NodeOf, Clonable, OpenBelow, FrameFrom;
    var entries, k := after[child].entries, |LowerFrames(mem, parent)|;
    var taken := free[1..][..k];
    assert BelowFirst(after, entries, TOP, UPPER_HALF) == taken;
    FirstIsNotRepeated(free);
    FrameIsBelow(after, entries[p[0]], TOP, p[1..]);
    BelowIsIncluded(after, entries, TOP, UPPER_HALF, p[0]);
    forall q | 0 < |q| <= TOP && q[0] < UPPER_HALF && q != p && FrameAt(after, child, q).Some?
      ensures FrameAt(after, child, q) != FrameAt(after, child, p)
    {
      DifferentPathsFirst(after, entries, TOP, UPPER_HALF, p, q);
    }
  }

  // ------------------------------------------------------------ later writes stay private

  lemma {:induction false} TakenIsNotLeft(free: seq<nat>, k: nat)
    requires NoRepeat(free) && free != [] && k < |free|
    ensures free[0] !in free[1..][k..]
    ensures forall f | f in free[1..][..k] :: f in free && f !in free[1..][k..]
  {
    var rest := free[1..][k..];
    assert forall i | 0 <= i < |rest| :: rest[i] == free[1 + k + i];
    forall f | f in free[1..][..k]
      ensures f in free && f !in rest
    {
      var j :| 0 <= j < k && free[1..][..k][j] == f;
      assert f == free[1 + j];
    }
  }

  /** The lower half as the processor and the program see it. */
  ghost predicate SameLowerHalf(mem: Frames, after: Frames, root: nat) {
    && IsTable(mem, root) && IsTable(after, root)
    && forall i | 0 <= i < UPPER_HALF ::
         && after[root].entries[i] == mem[root].entries[i]
         && NodeOf(after, after[root].entries[i], TOP) == NodeOf(mem, mem[root].entries[i], TOP)
  }

  /** Whatever is later written to frames that the clone took, the parent does not see it. */
  lemma {:induction false} ParentDoesNotSeeCloneWrites(mem: Frames, after: Frames, later: Frames, parent: nat, child: nat, free: seq<nat>, rest: seq<nat>)
    requires Cloneable(mem, parent, free) && IsClone(mem, after, parent, child, free, rest)
    requires forall f | f !in free :: SameAt(after, later, f)
    ensures SameLowerHalf(mem, later, parent)
  {
    hide Below, BelowFirst, NodeOf, Clonable, OpenBelow, FirstCloned;
    assert SameAt(mem, after, parent) && SameAt(after, later, parent);
    forall f | f in LowerFrames(mem, parent)
      ensures SameAt(mem, later, f)
    {
      assert SameAt(mem, after, f) && SameAt(after, later, f);
    }
    FirstKept(mem, later, mem[parent].entries, TOP, UPPER_HALF);
    forall i | 0 <= i < UPPER_HALF
      ensures NodeOf(later, mem[parent].entries[i], TOP) == NodeOf(mem, mem[parent].entries[i], TOP)
    {
      assert EntryKept(mem, later, mem[parent].entries[i], TOP);
    }
  }

  /** Whatever is later written to frames the clone did not take, those still free included, the clone does not see it. */
  lemma {:induction false} CloneDoesNotSeeParentWrites(mem: Frames, after: Frames, later: Frames, parent: nat, child: nat, free: seq<nat>, rest: seq<nat>)
    requires Cloneable(mem, parent, free) && IsClone(mem, after, parent, child, free, rest)
    requires forall f | f in free && f !in rest :: SameAt(after, later, f)
    ensures SameLowerHalf(after, later, child)
  {
    hide Below, BelowFirst, NodeOf, Clonable, OpenBelow;
    var entries, k := after[child].entries, |LowerFrames(mem, parent)|;
    var taken := free[1..][..k];
    assert BelowFirst(after, entries, TOP, UPPER_HALF) == taken && rest == free[1..][k..];
    TakenIsNotLeft(free, k);
    assert SameAt(after, later, child) by { assert free[0] in free; }
    forall f | f in BelowFirst(after, entries, TOP, UPPER_HALF)
      ensures SameAt(after, later, f)
    {
      assert f in free && f !in rest;
    }
    FirstKept(after, later, entries, TOP, UPPER_HALF);
    forall i | 0 <= i < UPPER_HALF
      ensures NodeOf(later, entries[i], TOP) == NodeOf(after, entries[i], TOP)
    {
      assert EntryKept(after, later, entries[i], TOP);
    }
  }
}
