/**
 Open files: a system-wide table of 128 reference-counted entries, and a table of 64
 descriptors for each of the eight threads.
 */
module OpenFiles {
  import opened Bytes

  const MAX_FILES: nat := 128
  const MAX_THREADS: nat := 8
  const MAX_DESCRIPTORS: nat := 64
  /** Descriptors below this one are never handed out. */
  const FIRST_DESCRIPTOR: nat := 3
  const MAX_PATH: nat := 128
  const MAX_CONTENT: nat := 65536
  const PIPE_READ: seq<byte> := [112, 105, 112, 101, 58, 114, 101, 97, 100]
  const PIPE_WRITE: seq<byte> := [112, 105, 112, 101, 58, 119, 114, 105, 116, 101]

  datatype OpenFile = OpenFile(used: bool, refs: nat, path: seq<byte>, offset: nat, content: seq<byte>)
  type Table = seq<Option<nat>>
  datatype State = State(files: seq<OpenFile>, tables: seq<Table>, current: Option<nat>)
  datatype Errno = BadDescriptor | TooManyFiles | InvalidArgument | Fault

  const UNUSED_FILE := OpenFile(false, 0, [], 0, [])

  lemma {:induction false} PipeNames()
    ensures PIPE_READ == Ascii("pipe:read") && PIPE_WRITE == Ascii("pipe:write")
  {
  }

  predicate TableShape(table: Table) {
    |table| == MAX_DESCRIPTORS && forall fd | 0 <= fd < |table| && table[fd].Some? :: table[fd].value < MAX_FILES
  }

  predicate Shape(s: State) {
    && |s.files| == MAX_FILES && |s.tables| == MAX_THREADS
    && (s.current.Some? ==> s.current.value < MAX_THREADS)
    && forall t | 0 <= t < MAX_THREADS :: TableShape(s.tables[t])
  }

  // ---------------------------------------------------------------- counting descriptors

  function Refers(d: Option<nat>, g: nat): nat {
    if d == Some(g) then 1 else 0
  }

  function Count(table: Table, g: nat): nat {
    if table == [] then 0 else Count(table[..|table| - 1], g) + Refers(table[|table| - 1], g)
  }

  function CountAll(tables: seq<Table>, g: nat): nat {
    if tables == [] then 0 else CountAll(tables[..|tables| - 1], g) + Count(tables[|tables| - 1], g)
  }

  lemma {:induction false} CountUpdated(table: Table, fd: nat, d: Option<nat>, g: nat)
    requires fd < |table|
    ensures Count(table[fd := d], g) + Refers(table[fd], g) == Count(table, g) + Refers(d, g)
  {
    var n := |table| - 1;
    var updated := table[fd := d];
    if fd < n {
      CountUpdated(table[..n], fd, d, g);
      assert updated[..n] == table[..n][fd := d];
    } else {
      assert updated[..n] == table[..n];
    }
  }

  lemma {:induction false} CountAllUpdated(tables: seq<Table>, t: nat, table: Table, g: nat)
    requires t < |tables|
    ensures CountAll(tables[t := table], g) + Count(tables[t], g) == CountAll(tables, g) + Count(table, g)
  {
    hide Count;
    var n := |tables| - 1;
    var updated := tables[t := table];
    if t < n {
      CountAllUpdated(tables[..n], t, table, g);
      assert updated[..n] == tables[..n][t := table];
    } else {
      assert updated[..n] == tables[..n];
    }
  }

  lemma {:induction false} CountsMember(table: Table, fd: nat, g: nat)
    requires fd < |table| && table[fd] == Some(g)
    ensures Count(table, g) > 0
  {
    if fd < |table| - 1 {
      CountsMember(table[..|table| - 1], fd, g);
    }
  }

  lemma {:induction false} CountAllMember(tables: seq<Table>, t: nat, fd: nat, g: nat)
    requires t < |tables| && fd < |tables[t]| && tables[t][fd] == Some(g)
    ensures CountAll(tables, g) > 0
  {
    hide Count;
    if t < |tables| - 1 {
      CountAllMember(tables[..|tables| - 1], t, fd, g);
    } else {
      CountsMember(tables[t], fd, g);
    }
  }

  lemma {:induction false} CountedSomewhere(table: Table, g: nat) returns (fd: nat)
    requires Count(table, g) > 0
    ensures fd < |table| && table[fd] == Some(g)
  {
    var n := |table| - 1;
    if table[n] == Some(g) {
      fd := n;
    } else {
      fd := CountedSomewhere(table[..n], g);
    }
  }

  lemma {:induction false} CountedInSomeTable(tables: seq<Table>, g: nat) returns (t: nat, fd: nat)
    requires CountAll(tables, g) > 0
    ensures t < |tables| && fd < |tables[t]| && tables[t][fd] == Some(g)
  {
    hide Count;
    var n := |tables| - 1;
    if Count(tables[n], g) > 0 {
      t := n;
      fd := CountedSomewhere(tables[n], g);
    } else {
      t, fd := CountedInSomeTable(tables[..n], g);
    }
  }

  // -------------------------------------------------------------------- the invariant

  predicate FileCounted(f: OpenFile, n: nat) {
    (f.used <==> n > 0) && (f.used ==> f.refs == n)
  }

  predicate Counted(s: State)
    requires Shape(s)
  {
    forall g | 0 <= g < MAX_FILES :: FileCounted(s.files[g], CountAll(s.tables, g))
  }

  predicate Inv(s: State) {
    Shape(s) && Counted(s)
  }

  /** In use exactly when a descriptor of some thread refers to it, with the number of them as count. */
  lemma {:induction false} UsedIffReferred(s: State, g: nat)
    requires Inv(s) && g < MAX_FILES
    ensures s.files[g].used <==> exists t, fd :: 0 <= t < MAX_THREADS && 0 <= fd < MAX_DESCRIPTORS && s.tables[t][fd] == Some(g)
    ensures s.files[g].used ==> s.files[g].refs == CountAll(s.tables, g)
  {
    hide CountAll;
    assert FileCounted(s.files[g], CountAll(s.tables, g));
    if s.files[g].used {
      var t, fd := CountedInSomeTable(s.tables, g);
      assert TableShape(s.tables[t]);
    }
    if t, fd :| 0 <= t < MAX_THREADS && 0 <= fd < MAX_DESCRIPTORS && s.tables[t][fd] == Some(g) {
      assert TableShape(s.tables[t]);
      CountAllMember(s.tables, t, fd, g);
    }
  }

  // ------------------------------------------------------------------ building blocks

  /** The descriptors of the current thread; without one, an empty table. */
  function CurrentTable(s: State): (table: Table)
    requires Shape(s)
    ensures TableShape(table)
  {
    if s.current.Some? then s.tables[s.current.value] else EmptyTable()
  }

  function EmptyTable(): (table: Table)
    ensures TableShape(table) && forall fd | 0 <= fd < |table| :: table[fd].None?
  {
    seq(MAX_DESCRIPTORS, _ => None)
  }

  function WithTable(s: State, table: Table): (after: State)
    requires Shape(s) && TableShape(table)
    ensures Shape(after)
  {
    if s.current.Some? then s.(tables := s.tables[s.current.value := table]) else s
  }

  function WithFile(s: State, g: nat, f: OpenFile): (after: State)
    requires Shape(s) && g < MAX_FILES
    ensures Shape(after)
  {
    s.(files := s.files[g := f])
  }

  function Released(f: OpenFile): OpenFile {
    if !f.used then f else if f.refs > 1 then f.(refs := f.refs - 1) else f.(used := false)
  }

  function Retained(f: OpenFile): OpenFile {
    if f.used then f.(refs := f.refs + 1) else f
  }

  function FirstFree(table: Table, from: nat): (fd: Option<nat>)
    ensures fd.Some? ==> from <= fd.value < |table| && table[fd.value].None?
    decreases |table| - from
  {
    if from >= |table| then None else if table[from].None? then Some(from) else FirstFree(table, from + 1)
  }

  function FirstUnused(files: seq<OpenFile>, from: nat): (g: Option<nat>)
    ensures g.Some? ==> from <= g.value < |files| && !files[g.value].used
    ensures g.None? ==> forall i | from <= i < |files| :: files[i].used
    decreases |files| - from
  {
    if from >= |files| then None else if !files[from].used then Some(from) else FirstUnused(files, from + 1)
  }

  lemma {:induction false} FirstFreeIsFirst(table: Table, from: nat)
    ensures var fd := FirstFree(table, from);
            forall i | from <= i < (if fd.Some? then fd.value else |table|) :: table[i].Some?
    decreases |table| - from
  {
    if from < |table| && table[from].Some? {
      FirstFreeIsFirst(table, from + 1);
    }
  }

  lemma {:induction false} FirstUnusedIsFirst(files: seq<OpenFile>, from: nat)
    ensures FirstUnused(files, from).Some? ==> forall i | from <= i < FirstUnused(files, from).value :: files[i].used
    decreases |files| - from
  {
    if from < |files| && files[from].used {
      FirstUnusedIsFirst(files, from + 1);
    }
  }

  predicate InRange(fd: int) {
    0 <= fd < MAX_DESCRIPTORS
  }

  /** The file behind a descriptor of the current thread. */
  function FileOf(s: State, fd: int): (g: Option<nat>)
    requires Shape(s)
    ensures g.Some? ==> g.value < MAX_FILES && InRange(fd) && s.current.Some? && s.tables[s.current.value][fd] == g
  {
    if !InRange(fd) then None else CurrentTable(s)[fd]
  }

  function Truncated(bytes: seq<byte>, limit: nat): (r: seq<byte>)
    ensures |r| <= limit && r <= bytes
  {
    if |bytes| <= limit then bytes else bytes[..limit]
  }

  // --------------------------------------------------------------------- the operations

  function Opened(s: State, path: seq<byte>, content: seq<byte>): (after: State)
    requires Shape(s)
    ensures Shape(after)
  {
    var table := CurrentTable(s);
    var fd, g := FirstFree(table, FIRST_DESCRIPTOR), FirstUnused(s.files, 0);
    if fd.None? || g.None? then s else
    var f := OpenFile(true, 1, Truncated(path, MAX_PATH), 0, Truncated(content, MAX_CONTENT));
    WithTable(WithFile(s, g.value, f), table[fd.value := Some(g.value)])
  }

  function Duplicated(s: State, oldFd: int): (after: State)
    requires Shape(s)
    ensures Shape(after)
  {
    var table, g := CurrentTable(s), FileOf(s, oldFd);
    var fd := FirstFree(table, FIRST_DESCRIPTOR);
    if g.None? || fd.None? then s
    else WithTable(WithFile(s, g.value, Retained(s.files[g.value])), table[fd.value := g])
  }

  /** The file behind the descriptor loses one reference. */
  function Dropped(s: State, fd: int): (after: State)
    requires Shape(s)
    ensures Shape(after)
  {
    var g := FileOf(s, fd);
    if g.None? then s else WithFile(s, g.value, Released(s.files[g.value]))
  }

  function DuplicatedTo(s: State, oldFd: int, newFd: int): (after: State)
    requires Shape(s)
    ensures Shape(after)
  {
    if !InRange(oldFd) || !InRange(newFd) || oldFd == newFd || FileOf(s, oldFd).None? then s else
    var g := FileOf(s, oldFd);
    var dropped := Dropped(s, newFd);
    WithTable(WithFile(dropped, g.value, Retained(dropped.files[g.value])), CurrentTable(s)[newFd := g])
  }

  function Piped(s: State): (after: State)
    requires Shape(s)
    ensures Shape(after)
  {
    var table := CurrentTable(s);
    var r := FirstUnused(s.files, 0);
    var w := if r.None? then None else FirstUnused(s.files, r.value + 1);
    var rFd := FirstFree(table, FIRST_DESCRIPTOR);
    var wFd := if rFd.None? then None else FirstFree(table, rFd.value + 1);
    if w.None? || wFd.None? then s else
    var files := WithFile(WithFile(s, r.value, OpenFile(true, 1, PIPE_READ, 0, [])), w.value, OpenFile(true, 1, PIPE_WRITE, 0, []));
    WithTable(files, table[rFd.value := r][wFd.value := w])
  }

  function Closed(s: State, fd: int): (after: State)
    requires Shape(s)
    ensures Shape(after)
  {
    if FileOf(s, fd).None? then s else WithTable(Dropped(s, fd), CurrentTable(s)[fd := None])
  }

  /** Closes the current thread's descriptors from 3 up to n. */
  function PurgedBelow(s: State, n: nat): (after: State)
    requires Shape(s) && n <= MAX_DESCRIPTORS
    ensures Shape(after) && after.current == s.current
  {
    if n <= FIRST_DESCRIPTOR then s else Closed(PurgedBelow(s, n - 1), n - 1)
  }

  function Purged(s: State): (after: State)
    requires Shape(s)
    ensures Shape(after)
  {
    PurgedBelow(s, MAX_DESCRIPTORS)
  }

  /** The bytes a read would deliver from where the file stands. */
  function Readable(f: OpenFile, count: nat): (bytes: seq<byte>) {
    var available := if f.offset <= |f.content| then |f.content| - f.offset else 0;
    var n := if count < available then count else available;
    if n == 0 then [] else f.content[f.offset..f.offset + n]
  }

  /** What a read delivers: nothing when the copy to the caller fails. */
  function ReadBytes(s: State, fd: int, count: nat, copies: bool): seq<byte>
    requires Shape(s)
  {
    var g := FileOf(s, fd);
    if g.None? || !s.files[g.value].used || !copies then [] else Readable(s.files[g.value], count)
  }

  function AfterRead(s: State, fd: int, count: nat, copies: bool): (after: State)
    requires Shape(s)
    ensures Shape(after)
  {
    var g, bytes := FileOf(s, fd), ReadBytes(s, fd, count, copies);
    if g.None? || bytes == [] then s
    else WithFile(s, g.value, s.files[g.value].(offset := s.files[g.value].offset + |bytes|))
  }

  /** The signed 64-bit word that a sum leaves. */
  function Signed(v: int): (r: int)
    ensures -(WORD / 2) <= r < WORD / 2
    ensures -(WORD / 2) <= v < WORD / 2 ==> r == v
  {
    (v + WORD / 2) % WORD - WORD / 2
  }

  /** From the start, from the current place, or from the end. */
  function SeekTarget(f: OpenFile, offset: int, whence: int): Option<int> {
    if whence == 0 then Some(Signed(offset))
    else if whence == 1 then Some(Signed(Signed(f.offset) + offset))
    else if whence == 2 then Some(Signed(|f.content| + offset))
    else None
  }

  /** The sum a seek asks for, without a bound. */
  function SeekSum(f: OpenFile, offset: int, whence: int): int {
    if whence == 0 then offset else if whence == 1 then f.offset + offset else |f.content| + offset
  }

  /** A sum that leaves 63 bits turns negative, so a seek never lands anywhere but where it was asked to. */
  lemma {:induction false} SeekNeverWraps(f: OpenFile, offset: int, whence: int)
    requires -(WORD / 2) <= offset < WORD / 2 && 0 <= whence <= 2
    requires f.offset < WORD / 2 && |f.content| < WORD / 2
    ensures var target := SeekTarget(f, offset, whence).value; var sum := SeekSum(f, offset, whence);
            (target >= 0 <==> 0 <= sum < WORD / 2) && (target >= 0 ==> target == sum)
  {
  }

  /** The descriptor leads to a file in use. */
  predicate Readied(s: State, fd: int)
    requires Shape(s)
  {
    FileOf(s, fd).Some? && s.files[FileOf(s, fd).value].used
  }

  function Sought(s: State, fd: int, offset: int, whence: int): (after: State)
    requires Shape(s)
    ensures Shape(after)
  {
    var g := FileOf(s, fd);
    if g.None? || !s.files[g.value].used then s else
    var target := SeekTarget(s.files[g.value], offset, whence);
    if target.None? || target.value < 0 then s else WithFile(s, g.value, s.files[g.value].(offset := target.value))
  }

  datatype Op =
    | Schedule(thread: Option<nat>)
    | Open(path: seq<byte>, content: seq<byte>)
    | Dup(fd: int) | Dup2(fd: int, newFd: int) | Pipe | Close(fd: int) | Purge
    | Read(fd: int, count: nat, copies: bool)
    | Seek(fd: int, offset: int, whence: int)

  function Step(s: State, op: Op): (after: State)
    requires Shape(s)
    ensures Shape(after)
  {
    match op
    case Schedule(thread) => if thread.Some? && thread.value >= MAX_THREADS then s else s.(current := thread)
    case Open(path, content) => Opened(s, path, content)
    case Dup(fd) => Duplicated(s, fd)
    case Dup2(fd, newFd) => DuplicatedTo(s, fd, newFd)
    case Pipe => Piped(s)
    case Close(fd) => Closed(s, fd)
    case Purge => Purged(s)
    case Read(fd, count, copies) => AfterRead(s, fd, count, copies)
    case Seek(fd, offset, whence) => Sought(s, fd, offset, whence)
  }

  // ------------------------------------------------------ every operation keeps the counts

  /** How one descriptor of the current thread changes the number of references to a file. */
  lemma {:induction false} DescriptorCounts(s: State, fd: nat, d: Option<nat>, g: nat)
    requires Shape(s) && s.current.Some? && fd < MAX_DESCRIPTORS && (d.Some? ==> d.value < MAX_FILES)
    ensures CountAll(WithTable(s, CurrentTable(s)[fd := d]).tables, g) + Refers(CurrentTable(s)[fd], g) ==
              CountAll(s.tables, g) + Refers(d, g)
  {
    hide Count, CountAll;
    var t := s.current.value;
    assert TableShape(s.tables[t]);
    CountUpdated(s.tables[t], fd, d, g);
    CountAllUpdated(s.tables, t, s.tables[t][fd := d], g);
  }

  lemma {:induction false} OpenKeepsInv(s: State, path: seq<byte>, content: seq<byte>)
    requires Inv(s) && s.current.Some?
    ensures Inv(Opened(s, path, content))
  {
    hide Count, CountAll;
    var after, table := Opened(s, path, content), CurrentTable(s);
    var fd, free := FirstFree(table, FIRST_DESCRIPTOR), FirstUnused(s.files, 0);
    if fd.Some? && free.Some? {
      forall g | 0 <= g < MAX_FILES
        ensures FileCounted(after.files[g], CountAll(after.tables, g))
      {
        assert FileCounted(s.files[g], CountAll(s.tables, g));
        DescriptorCounts(s, fd.value, free, g);
      }
    }
  }

  lemma {:induction false} DupKeepsInv(s: State, oldFd: int)
    requires Inv(s)
    ensures Inv(Duplicated(s, oldFd))
  {
    hide Count, CountAll;
    var after, table := Duplicated(s, oldFd), CurrentTable(s);
    var fd, file := FirstFree(table, FIRST_DESCRIPTOR), FileOf(s, oldFd);
    if fd.Some? && file.Some? {
      FileOfIsUsed(s, oldFd);
      forall g | 0 <= g < MAX_FILES
        ensures FileCounted(after.files[g], CountAll(after.tables, g))
      {
        assert FileCounted(s.files[g], CountAll(s.tables, g));
        DescriptorCounts(s, fd.value, file, g);
      }
    }
  }

  lemma {:induction false} FileOfIsUsed(s: State, fd: int)
    requires Inv(s) && FileOf(s, fd).Some?
    ensures s.files[FileOf(s, fd).value].used && CountAll(s.tables, FileOf(s, fd).value) > 0
  {
    hide CountAll;
    var g := FileOf(s, fd).value;
    CountAllMember(s.tables, s.current.value, fd, g);
    assert FileCounted(s.files[g], CountAll(s.tables, g));
  }

  lemma {:induction false} CloseKeepsInv(s: State, fd: int)
    requires Inv(s)
    ensures Inv(Closed(s, fd))
  {
    hide Count, CountAll;
    var after, file := Closed(s, fd), FileOf(s, fd);
    if file.Some? {
      FileOfIsUsed(s, fd);
      forall g | 0 <= g < MAX_FILES
        ensures FileCounted(after.files[g], CountAll(after.tables, g))
      {
        assert FileCounted(s.files[g], CountAll(s.tables, g));
        DescriptorCounts(s, fd, None, g);
      }
    }
  }

  /** Two descriptors of one file count at least twice. */
  lemma {:induction false} AliasesCountTwice(s: State, fd: nat, other: nat, g: nat)
    requires Shape(s) && s.current.Some? && fd < MAX_DESCRIPTORS && other < MAX_DESCRIPTORS && fd != other
    requires CurrentTable(s)[fd] == Some(g) && CurrentTable(s)[other] == Some(g)
    ensures CountAll(s.tables, g) >= 2
  {
    hide Count, CountAll;
    DescriptorCounts(s, other, None, g);
    var without := WithTable(s, CurrentTable(s)[other := None]);
    CountAllMember(without.tables, s.current.value, fd, g);
  }

  lemma {:induction false} Dup2KeepsInv(s: State, oldFd: int, newFd: int)
    requires Inv(s)
    ensures Inv(DuplicatedTo(s, oldFd, newFd))
  {
    hide Count, CountAll;
    var after, file, replaced := DuplicatedTo(s, oldFd, newFd), FileOf(s, oldFd), FileOf(s, newFd);
    if InRange(oldFd) && InRange(newFd) && oldFd != newFd && file.Some? {
      FileOfIsUsed(s, oldFd);
      if replaced.Some? {
        FileOfIsUsed(s, newFd);
        if replaced == file {
          AliasesCountTwice(s, oldFd, newFd, file.value);
        }
      }
      forall g | 0 <= g < MAX_FILES
        ensures FileCounted(after.files[g], CountAll(after.tables, g))
      {
        assert FileCounted(s.files[g], CountAll(s.tables, g));
        DescriptorCounts(s, newFd, file, g);
      }
    }
  }

  lemma {:induction false} PipeKeepsInv(s: State)
    requires Inv(s) && s.current.Some?
    ensures Inv(Piped(s))
  {
    hide Count, CountAll;
    var after, table := Piped(s), CurrentTable(s);
    var r, rFd := FirstUnused(s.files, 0), FirstFree(table, FIRST_DESCRIPTOR);
    if r.Some? && rFd.Some? {
      var w, wFd := FirstUnused(s.files, r.value + 1), FirstFree(table, rFd.value + 1);
      if w.Some? && wFd.Some? {
        var half := WithTable(s, table[rFd.value := r]);
        assert CurrentTable(half) == table[rFd.value := r];
        assert after.tables == WithTable(half, CurrentTable(half)[wFd.value := w]).tables;
        forall g | 0 <= g < MAX_FILES
          ensures FileCounted(after.files[g], CountAll(after.tables, g))
        {
          assert FileCounted(s.files[g], CountAll(s.tables, g));
          DescriptorCounts(s, rFd.value, r, g);
          DescriptorCounts(half, wFd.value, w, g);
        }
      }
    }
  }

  lemma {:induction false} PurgeKeepsInv(s: State, n: nat)
    requires Inv(s) && n <= MAX_DESCRIPTORS
    ensures Inv(PurgedBelow(s, n))
  {
    hide Counted, TableShape, Closed;
    if n > FIRST_DESCRIPTOR {
      PurgeKeepsInv(s, n - 1);
      CloseKeepsInv(PurgedBelow(s, n - 1), n - 1);
    } else {
      assert PurgedBelow(s, n) == s;
    }
  }

  lemma {:induction false} MovingKeepsInv(s: State, op: Op)
    requires Inv(s) && (op.Read? || op.Seek? || op.Schedule?)
    ensures Inv(Step(s, op))
  {
    hide Count, CountAll;
    var after := Step(s, op);
    forall g | 0 <= g < MAX_FILES
      ensures FileCounted(after.files[g], CountAll(after.tables, g))
    {
      assert FileCounted(s.files[g], CountAll(s.tables, g));
    }
  }

  predicate RoomForTwo(files: seq<OpenFile>) {
    FirstUnused(files, 0).Some? && FirstUnused(files, FirstUnused(files, 0).value + 1).Some?
  }

  /** What opens a file has a thread to hold the descriptor, or finds no file left to open. */
  predicate Legal(s: State, op: Op) {
    && (op.Open? ==> s.current.Some? || FirstUnused(s.files, 0).None?)
    && (op.Pipe? ==> s.current.Some? || !RoomForTwo(s.files))
  }

  lemma {:induction false} StepKeepsInv(s: State, op: Op)
    requires Inv(s) && Legal(s, op)
    ensures Inv(Step(s, op))
  {
    hide Inv, FirstUnused, Opened, Duplicated, DuplicatedTo, Piped, Closed, PurgedBelow, AfterRead, Sought;
    match op {
      case Open(path, content) => OpenKeepsInvIff(s, path, content);
      case Dup(fd) => DupKeepsInv(s, fd);
      case Dup2(fd, newFd) => Dup2KeepsInv(s, fd, newFd);
      case Pipe => PipeKeepsInvIff(s);
      case Close(fd) => CloseKeepsInv(s, fd);
      case Purge => PurgeKeepsInv(s, MAX_DESCRIPTORS);
      case _ => MovingKeepsInv(s, op);
    }
  }

  // ------------------------------------------------------------ files nobody can close

  /** In use, and no descriptor of any thread refers to it. */
  predicate Stranded(s: State, g: nat)
    requires Shape(s) && g < MAX_FILES
  {
    s.files[g].used && Unreferred(s.tables, g)
  }

  predicate Unreferred(tables: seq<Table>, g: nat) {
    forall t | 0 <= t < |tables| :: Some(g) !in tables[t]
  }

  lemma {:induction false} StrandedBreaksInv(s: State, g: nat)
    requires Shape(s) && g < MAX_FILES && Stranded(s, g)
    ensures !Inv(s)
  {
    hide CountAll, Count;
    if CountAll(s.tables, g) > 0 {
      var t, fd := CountedInSomeTable(s.tables, g);
    }
    assert !FileCounted(s.files[g], CountAll(s.tables, g));
  }

  lemma {:induction false} UnusedIsUnreferred(s: State, g: nat)
    requires Inv(s) && g < MAX_FILES && !s.files[g].used
    ensures Unreferred(s.tables, g)
  {
    hide CountAll;
    assert FileCounted(s.files[g], CountAll(s.tables, g));
    forall t | 0 <= t < |s.tables|
      ensures Some(g) !in s.tables[t]
    {
      if fd :| 0 <= fd < |s.tables[t]| && s.tables[t][fd] == Some(g) {
        CountAllMember(s.tables, t, fd, g);
      }
    }
  }

  /** Without a thread the first unused file comes into use with no descriptor. */
  lemma {:induction false} OpenStrands(s: State, path: seq<byte>, content: seq<byte>)
    requires Inv(s) && s.current.None? && FirstUnused(s.files, 0).Some?
    ensures Stranded(Opened(s, path, content), FirstUnused(s.files, 0).value)
  {
    UnusedIsUnreferred(s, FirstUnused(s.files, 0).value);
    assert FirstFree(EmptyTable(), FIRST_DESCRIPTOR) == Some(FIRST_DESCRIPTOR);
  }

  lemma {:induction false} PipeStrands(s: State)
    requires Inv(s) && s.current.None? && RoomForTwo(s.files)
    ensures Stranded(Piped(s), FirstUnused(s.files, 0).value)
  {
    UnusedIsUnreferred(s, FirstUnused(s.files, 0).value);
    assert FirstFree(EmptyTable(), FIRST_DESCRIPTOR) == Some(FIRST_DESCRIPTOR);
    assert FirstFree(EmptyTable(), FIRST_DESCRIPTOR + 1) == Some(FIRST_DESCRIPTOR + 1);
  }

  /** Opening keeps the counts exactly when a thread makes the call or no file is left. */
  lemma {:induction false} OpenKeepsInvIff(s: State, path: seq<byte>, content: seq<byte>)
    requires Inv(s)
    ensures Inv(Opened(s, path, content)) <==> s.current.Some? || FirstUnused(s.files, 0).None?
  {
    hide Counted, Stranded;
    if s.current.Some? {
      OpenKeepsInv(s, path, content);
    } else if FirstUnused(s.files, 0).Some? {
      OpenStrands(s, path, content);
      StrandedBreaksInv(Opened(s, path, content), FirstUnused(s.files, 0).value);
    }
  }

  /** Creating a pipe keeps them exactly when a thread makes the call or fewer than two files are left. */
  lemma {:induction false} PipeKeepsInvIff(s: State)
    requires Inv(s)
    ensures Inv(Piped(s)) <==> s.current.Some? || !RoomForTwo(s.files)
  {
    hide Counted, Stranded;
    if s.current.Some? {
      PipeKeepsInv(s);
    } else if RoomForTwo(s.files) {
      PipeStrands(s);
      StrandedBreaksInv(Piped(s), FirstUnused(s.files, 0).value);
    }
  }

  lemma {:induction false} IllegalStrands(s: State, op: Op) returns (g: nat)
    requires Inv(s) && !Legal(s, op)
    ensures g < MAX_FILES && Stranded(Step(s, op), g)
  {
    hide Counted, Stranded;
    g := FirstUnused(s.files, 0).value;
    if op.Open? {
      OpenStrands(s, op.path, op.content);
    } else {
      PipeStrands(s);
    }
  }

  lemma {:induction false} WithTableUnreferred(s: State, table: Table, g: nat)
    requires Shape(s) && Unreferred(s.tables, g) && TableShape(table) && Some(g) !in table
    ensures Unreferred(WithTable(s, table).tables, g)
  {
  }

  lemma {:induction false} CurrentUnreferred(s: State, g: nat)
    requires Shape(s) && Unreferred(s.tables, g)
    ensures Some(g) !in CurrentTable(s)
  {
  }

  lemma {:induction false} EntryUnreferred(table: Table, fd: nat, d: Option<nat>, g: nat)
    requires fd < |table| && Some(g) !in table && d != Some(g)
    ensures Some(g) !in table[fd := d]
  {
  }

  predicate StaysStranded(s: State, after: State, g: nat)
    requires Shape(s) && Shape(after) && g < MAX_FILES
  {
    after.files[g] == s.files[g] && Unreferred(after.tables, g)
  }

  lemma {:induction false} OpenKeepsStranded(s: State, path: seq<byte>, content: seq<byte>, g: nat)
    requires Shape(s) && g < MAX_FILES && Stranded(s, g)
    ensures StaysStranded(s, Opened(s, path, content), g)
  {
    hide Unreferred;
    var table := CurrentTable(s);
    var fd, file := FirstFree(table, FIRST_DESCRIPTOR), FirstUnused(s.files, 0);
    if fd.Some? && file.Some? {
      CurrentUnreferred(s, g);
      EntryUnreferred(table, fd.value, file, g);
      WithTableUnreferred(s, table[fd.value := file], g);
    }
  }

  lemma {:induction false} DupKeepsStranded(s: State, oldFd: int, g: nat)
    requires Shape(s) && g < MAX_FILES && Stranded(s, g)
    ensures StaysStranded(s, Duplicated(s, oldFd), g)
  {
    hide Unreferred;
    var table, file := CurrentTable(s), FileOf(s, oldFd);
    var fd := FirstFree(table, FIRST_DESCRIPTOR);
    CurrentUnreferred(s, g);
    if fd.Some? && file.Some? {
      EntryUnreferred(table, fd.value, file, g);
      WithTableUnreferred(s, table[fd.value := file], g);
    }
  }

  lemma {:induction false} Dup2KeepsStranded(s: State, oldFd: int, newFd: int, g: nat)
    requires Shape(s) && g < MAX_FILES && Stranded(s, g)
    ensures StaysStranded(s, DuplicatedTo(s, oldFd, newFd), g)
  {
    hide Unreferred;
    var table, file := CurrentTable(s), FileOf(s, oldFd);
    CurrentUnreferred(s, g);
    if InRange(oldFd) && InRange(newFd) && oldFd != newFd && file.Some? {
      EntryUnreferred(table, newFd, file, g);
      WithTableUnreferred(s, table[newFd := file], g);
    }
  }

  lemma {:induction false} PipeKeepsStranded(s: State, g: nat)
    requires Shape(s) && g < MAX_FILES && Stranded(s, g)
    ensures StaysStranded(s, Piped(s), g)
  {
    hide Unreferred;
    var table := CurrentTable(s);
    var r, rFd := FirstUnused(s.files, 0), FirstFree(table, FIRST_DESCRIPTOR);
    if r.Some? && rFd.Some? {
      var w, wFd := FirstUnused(s.files, r.value + 1), FirstFree(table, rFd.value + 1);
      if w.Some? && wFd.Some? {
        CurrentUnreferred(s, g);
        EntryUnreferred(table, rFd.value, r, g);
        EntryUnreferred(table[rFd.value := r], wFd.value, w, g);
        WithTableUnreferred(s, table[rFd.value := r][wFd.value := w], g);
      }
    }
  }

  lemma {:induction false} CloseKeepsStranded(s: State, fd: int, g: nat)
    requires Shape(s) && g < MAX_FILES && Stranded(s, g)
    ensures StaysStranded(s, Closed(s, fd), g)
  {
    hide Unreferred;
    CurrentUnreferred(s, g);
    if FileOf(s, fd).Some? {
      EntryUnreferred(CurrentTable(s), fd, None, g);
      WithTableUnreferred(s, CurrentTable(s)[fd := None], g);
    }
  }

  lemma {:induction false} PurgeKeepsStranded(s: State, n: nat, g: nat)
    requires Shape(s) && n <= MAX_DESCRIPTORS && g < MAX_FILES && Stranded(s, g)
    ensures StaysStranded(s, PurgedBelow(s, n), g)
  {
    hide Unreferred, Closed, TableShape;
    if n > FIRST_DESCRIPTOR {
      PurgeKeepsStranded(s, n - 1, g);
      CloseKeepsStranded(PurgedBelow(s, n - 1), n - 1, g);
    }
  }

  lemma {:induction false} MovingKeepsStranded(s: State, op: Op, g: nat)
    requires Shape(s) && g < MAX_FILES && Stranded(s, g) && (op.Read? || op.Seek? || op.Schedule?)
    ensures StaysStranded(s, Step(s, op), g)
  {
    hide Unreferred;
    CurrentUnreferred(s, g);
  }

  lemma {:induction false} StepKeepsStranded(s: State, op: Op, g: nat)
    requires Shape(s) && g < MAX_FILES && Stranded(s, g)
    ensures StaysStranded(s, Step(s, op), g)
  {
    hide Stranded, StaysStranded, Shape, Opened, Duplicated, DuplicatedTo, Piped, Closed, PurgedBelow, AfterRead, Sought;
    match op {
      case Open(path, content) => OpenKeepsStranded(s, path, content, g);
      case Dup(fd) => DupKeepsStranded(s, fd, g);
      case Dup2(fd, newFd) => Dup2KeepsStranded(s, fd, newFd, g);
      case Pipe => PipeKeepsStranded(s, g);
      case Close(fd) => CloseKeepsStranded(s, fd, g);
      case Purge => PurgeKeepsStranded(s, MAX_DESCRIPTORS, g);
      case _ => MovingKeepsStranded(s, op, g);
    }
  }

  // ------------------------------------------------------------------------ whole runs

  function Initial(): (s: State)
    ensures Shape(s)
  {
    State(seq(MAX_FILES, _ => UNUSED_FILE), seq(MAX_THREADS, _ => EmptyTable()), None)
  }

  lemma {:induction false} NothingCounted(tables: seq<Table>, g: nat)
    requires forall t | 0 <= t < |tables| :: forall fd | 0 <= fd < |tables[t]| :: tables[t][fd].None?
    ensures CountAll(tables, g) == 0
  {
    if tables != [] {
      var n := |tables| - 1;
      NothingCounted(tables[..n], g);
      NothingCountedIn(tables[n], g);
    }
  }

  lemma {:induction false} NothingCountedIn(table: Table, g: nat)
    requires forall fd | 0 <= fd < |table| :: table[fd].None?
    ensures Count(table, g) == 0
  {
    if table != [] {
      NothingCountedIn(table[..|table| - 1], g);
    }
  }

  lemma {:induction false} InitialHasInv()
    ensures Inv(Initial())
  {
    hide CountAll;
    var s := Initial();
    forall g | 0 <= g < MAX_FILES
      ensures FileCounted(s.files[g], CountAll(s.tables, g))
    {
      NothingCounted(s.tables, g);
    }
  }

  function Run(s: State, ops: seq<Op>): (after: State)
    requires Shape(s)
    ensures Shape(after)
  {
    if ops == [] then s else Step(Run(s, ops[..|ops| - 1]), ops[|ops| - 1])
  }

  predicate LegalRun(s: State, ops: seq<Op>)
    requires Shape(s)
  {
    forall n | 0 <= n < |ops| :: Legal(Run(s, ops[..n]), ops[n])
  }

  lemma {:induction false} LegalPrefix(s: State, ops: seq<Op>, n: nat)
    requires Shape(s) && LegalRun(s, ops) && n <= |ops|
    ensures LegalRun(s, ops[..n])
    ensures n < |ops| ==> Legal(Run(s, ops[..n]), ops[n])
  {
    hide Run, Legal;
    var front := ops[..n];
    forall m | 0 <= m < n
      ensures Legal(Run(s, front[..m]), front[m])
    {
      assert front[..m] == ops[..m];
    }
  }

  /** In every state of every run the counts are those of the descriptors. */
  lemma {:induction false} RunKeepsInv(s: State, ops: seq<Op>)
    requires Inv(s) && LegalRun(s, ops)
    ensures Inv(Run(s, ops))
  {
    hide Step, Counted, Shape;
    if ops != [] {
      var n := |ops| - 1;
      LegalPrefix(s, ops, n);
      RunKeepsInv(s, ops[..n]);
      StepKeepsInv(Run(s, ops[..n]), ops[n]);
    }
  }

  /** From boot on: a file is in use exactly when some descriptor refers to it, and is counted right. */
  lemma {:induction false} EveryRunCountsDescriptors(ops: seq<Op>, g: nat)
    requires LegalRun(Initial(), ops) && g < MAX_FILES
    ensures var s := Run(Initial(), ops);
            && (s.files[g].used <==>
                  exists t, fd :: 0 <= t < MAX_THREADS && 0 <= fd < MAX_DESCRIPTORS && s.tables[t][fd] == Some(g))
            && (s.files[g].used ==> s.files[g].refs == CountAll(s.tables, g))
  {
    hide Initial, Run, CountAll;
    InitialHasInv();
    RunKeepsInv(Initial(), ops);
    UsedIffReferred(Run(Initial(), ops), g);
  }

  /** A stranded file stays as it is, in use and out of every descriptor's reach, whatever is called. */
  lemma {:induction false} StrandedForGood(s: State, ops: seq<Op>, g: nat)
    requires Shape(s) && g < MAX_FILES && Stranded(s, g)
    ensures Stranded(Run(s, ops), g) && Run(s, ops).files[g] == s.files[g]
  {
    hide Step, Shape;
    if ops != [] {
      var n := |ops| - 1;
      StrandedForGood(s, ops[..n], g);
      StepKeepsStranded(Run(s, ops[..n]), ops[n], g);
    }
  }

  lemma {:induction false} RunInTwo(s: State, ops: seq<Op>, n: nat)
    requires Shape(s) && n <= |ops|
    ensures Run(s, ops) == Run(Run(s, ops[..n]), ops[n..])
  {
    hide Step, Shape;
    if n < |ops| {
      var m := |ops| - 1;
      RunInTwo(s, ops[..m], n);
      assert ops[..m][..n] == ops[..n] && ops[..m][n..] == ops[n..][..m - n];
    } else {
      assert ops[..n] == ops;
    }
  }

  /** A run that starts counted ends counted exactly when every call in it is legal. */
  lemma {:induction false} RunKeepsInvIff(s: State, ops: seq<Op>)
    requires Inv(s)
    ensures Inv(Run(s, ops)) <==> LegalRun(s, ops)
  {
    hide Counted, Shape, Step, Legal, Stranded;
    if LegalRun(s, ops) {
      RunKeepsInv(s, ops);
    } else {
      var n := FirstIllegal(s, ops);
      RunKeepsInv(s, ops[..n]);
      var g := IllegalStrands(Run(s, ops[..n]), ops[n]);
      assert ops[..n + 1][..n] == ops[..n];
      StrandedForGood(Run(s, ops[..n + 1]), ops[n + 1..], g);
      RunInTwo(s, ops, n + 1);
      StrandedBreaksInv(Run(s, ops), g);
    }
  }

  lemma {:induction false} FirstIllegal(s: State, ops: seq<Op>) returns (n: nat)
    requires Shape(s) && !LegalRun(s, ops)
    ensures n < |ops| && LegalRun(s, ops[..n]) && !Legal(Run(s, ops[..n]), ops[n])
  {
    hide Run, Legal, Shape;
    var m := |ops| - 1;
    if LegalRun(s, ops[..m]) {
      n := m;
      assert forall k | 0 <= k < m :: ops[..m][..k] == ops[..k];
    } else {
      n := FirstIllegal(s, ops[..m]);
      assert ops[..m][..n] == ops[..n];
    }
  }

  /** Before the first thread runs, an open or a pipe strands a file from boot on. */
  lemma {:induction false} BootCallsStrand(path: seq<byte>, content: seq<byte>, ops: seq<Op>)
    ensures Stranded(Run(Run(Initial(), [Open(path, content)]), ops), 0) && !Inv(Run(Initial(), [Open(path, content)]))
    ensures Stranded(Run(Run(Initial(), [Pipe]), ops), 0) && !Inv(Run(Initial(), [Pipe]))
  {
    hide Shape, Counted, Stranded, Opened, Piped;
    InitialHasInv();
    var s := Initial();
    assert FirstUnused(s.files, 0) == Some(0) && FirstUnused(s.files, 1) == Some(1);
    OpenStrands(s, path, content);
    PipeStrands(s);
    RunOne(s, Open(path, content));
    RunOne(s, Pipe);
    StrandedForGood(Run(s, [Open(path, content)]), ops, 0);
    StrandedForGood(Run(s, [Pipe]), ops, 0);
    StrandedBreaksInv(Run(s, [Open(path, content)]), 0);
    StrandedBreaksInv(Run(s, [Pipe]), 0);
  }

  lemma {:induction false} RunOne(s: State, op: Op)
    requires Shape(s)
    ensures Run(s, [op]) == Step(s, op)
  {
    hide Step, Shape;
    assert [op][..0] == [];
    assert Run(s, [op][..0]) == s;
  }

  // ------------------------------------------------------------- what an exit gives back

  lemma {:induction false} PurgeLeavesLowest(s: State, n: nat)
    requires Shape(s) && n <= MAX_DESCRIPTORS
    ensures var was, now := CurrentTable(s), CurrentTable(PurgedBelow(s, n));
            && (forall fd | FIRST_DESCRIPTOR <= fd < n :: now[fd].None?)
            && (forall fd | 0 <= fd < MAX_DESCRIPTORS && !(FIRST_DESCRIPTOR <= fd < n) :: now[fd] == was[fd])
            && PurgedBelow(s, n).current == s.current
  {
    hide Closed;
    if n > FIRST_DESCRIPTOR {
      PurgeLeavesLowest(s, n - 1);
      ClosedInTable(PurgedBelow(s, n - 1), n - 1);
    }
  }

  /** Nobody runs as thread t. */
  predicate NeverRuns(s: State, ops: seq<Op>, t: nat) {
    s.current != Some(t) && forall n | 0 <= n < |ops| :: ops[n] != Schedule(Some(t))
  }

  lemma {:induction false} PurgeKeepsOthers(s: State, n: nat, t: nat)
    requires Shape(s) && n <= MAX_DESCRIPTORS && t < MAX_THREADS && s.current != Some(t)
    ensures PurgedBelow(s, n).tables[t] == s.tables[t]
  {
    hide TableShape;
    if n > FIRST_DESCRIPTOR {
      PurgeKeepsOthers(s, n - 1, t);
    }
  }

  lemma {:induction false} StepKeepsOthers(s: State, op: Op, t: nat)
    requires Shape(s) && t < MAX_THREADS && s.current != Some(t) && op != Schedule(Some(t))
    ensures Step(s, op).tables[t] == s.tables[t] && Step(s, op).current != Some(t)
  {
    hide TableShape;
    if op.Purge? {
      PurgeKeepsOthers(s, MAX_DESCRIPTORS, t);
    } else {
      hide PurgedBelow;
    }
  }

  /** The descriptors of a thread that never runs again stay as they are. */
  lemma {:induction false} RunKeepsOthers(s: State, ops: seq<Op>, t: nat)
    requires Shape(s) && t < MAX_THREADS && NeverRuns(s, ops, t)
    ensures Run(s, ops).tables[t] == s.tables[t] && Run(s, ops).current != Some(t)
  {
    hide Step, Shape;
    if ops != [] {
      var n := |ops| - 1;
      RunKeepsOthers(s, ops[..n], t);
      StepKeepsOthers(Run(s, ops[..n]), ops[n], t);
    }
  }

  /** Thread t purges its files for the last time and another thread, or none, goes on. */
  function Left(s: State, next: Option<nat>): (after: State)
    requires Shape(s)
    ensures Shape(after)
  {
    Step(Purged(s), Schedule(next))
  }

  /**
   A thread that ends keeps a file exactly as long as it kept one of its descriptors 0 to 2:
   from then on, in every state of every run without it, all its descriptors are free if and
   only if those three were, and the files behind them stay in use.
   */
  lemma {:induction false} ExitGivesBackIff(s: State, t: nat, next: Option<nat>, ops: seq<Op>)
    requires Inv(s) && s.current == Some(t) && next != Some(t) && (next.Some? ==> next.value < MAX_THREADS)
    requires NeverRuns(Left(s, next), ops, t) && LegalRun(Left(s, next), ops)
    ensures var end := Run(Left(s, next), ops);
            && ((forall fd | 0 <= fd < MAX_DESCRIPTORS :: end.tables[t][fd].None?) <==>
                  forall fd | 0 <= fd < FIRST_DESCRIPTOR :: s.tables[t][fd].None?)
            && forall fd | 0 <= fd < FIRST_DESCRIPTOR && s.tables[t][fd].Some? :: end.files[s.tables[t][fd].value].used
  {
    var left := Left(s, next);
    var end := Run(left, ops);
    PurgeLeavesLowest(s, MAX_DESCRIPTORS);
    assert left.tables[t] == CurrentTable(Purged(s));
    hide Step, PurgedBelow, Run, CountAll, Legal, Left;
    assert Inv(left) by { LeavingKeepsInv(s, next); }
    RunKeepsOthers(left, ops, t);
    RunKeepsInv(left, ops);
    forall fd | 0 <= fd < FIRST_DESCRIPTOR && s.tables[t][fd].Some?
      ensures end.files[s.tables[t][fd].value].used
    {
      ReferredIsUsed(end, t, fd);
    }
  }

  /** Thread 0 opens a file, copies its descriptor onto 0 and ends: file 0 stays in use whatever follows. */
  lemma {:induction false} ExitCanKeepAFile(path: seq<byte>, content: seq<byte>, next: Option<nat>, ops: seq<Op>)
    requires next != Some(0) && (next.Some? ==> next.value < MAX_THREADS)
    requires var s := CopiedDown(path, content); NeverRuns(Left(s, next), ops, 0) && LegalRun(Left(s, next), ops)
    ensures Run(Left(CopiedDown(path, content), next), ops).files[0].used
  {
    hide Run, Left, NeverRuns, LegalRun, Counted, Shape;
    CopiedDownHolds(path, content);
    ExitGivesBackIff(CopiedDown(path, content), 0, next, ops);
  }

  function CopiedDown(path: seq<byte>, content: seq<byte>): (s: State)
    ensures Shape(s)
  {
    Step(Step(Step(Initial(), Schedule(Some(0))), Open(path, content)), Dup2(3, 0))
  }

  lemma {:induction false} CopiedDownHolds(path: seq<byte>, content: seq<byte>)
    ensures var s := CopiedDown(path, content); Inv(s) && s.current == Some(0) && s.tables[0][0] == Some(0)
  {
    var a := Step(Initial(), Schedule(Some(0)));
    var b := Step(a, Open(path, content));
    assert CurrentTable(a)[3].None? && !a.files[0].used;
    assert FirstFree(CurrentTable(a), FIRST_DESCRIPTOR) == Some(3) && FirstUnused(a.files, 0) == Some(0);
    assert b.current == Some(0) && CurrentTable(b)[3] == Some(0);
    assert FileOf(b, 3) == Some(0);
    assert Step(b, Dup2(3, 0)).tables[0][0] == Some(0);
    hide Inv, Opened, DuplicatedTo, Initial;
    InitialHasInv();
    MovingKeepsInv(Initial(), Schedule(Some(0)));
    OpenKeepsInv(a, path, content);
    Dup2KeepsInv(b, 3, 0);
  }

  lemma {:induction false} LeavingKeepsInv(s: State, next: Option<nat>)
    requires Inv(s)
    ensures Inv(Left(s, next))
  {
    assert Shape(s);
    hide Inv, PurgedBelow;
    PurgeKeepsInv(s, MAX_DESCRIPTORS);
    MovingKeepsInv(Purged(s), Schedule(next));
  }

  lemma {:induction false} ReferredIsUsed(s: State, t: nat, fd: nat)
    requires Inv(s) && t < MAX_THREADS && fd < MAX_DESCRIPTORS && s.tables[t][fd].Some?
    ensures s.tables[t][fd].value < MAX_FILES && s.files[s.tables[t][fd].value].used
  {
    hide CountAll;
    var g := s.tables[t][fd].value;
    assert TableShape(s.tables[t]);
    CountAllMember(s.tables, t, fd, g);
    assert FileCounted(s.files[g], CountAll(s.tables, g));
  }

  // --------------------------------------------------------------------- what an open gives

  function Lesser(a: nat, b: nat): nat {
    if a < b then a else b
  }

  /** Neither the thread's descriptors nor the table of files is used up. */
  predicate RoomToOpen(s: State)
    requires Shape(s)
  {
    && (exists fd :: FIRST_DESCRIPTOR <= fd < MAX_DESCRIPTORS && CurrentTable(s)[fd].None?)
    && (exists g :: 0 <= g < MAX_FILES && !s.files[g].used)
  }

  lemma {:induction false} RoomIsFound(s: State)
    requires Shape(s)
    ensures RoomToOpen(s) <==> FirstFree(CurrentTable(s), FIRST_DESCRIPTOR).Some? && FirstUnused(s.files, 0).Some?
  {
    hide FirstFree, FirstUnused, CurrentTable, TableShape;
    FirstFreeIsFirst(CurrentTable(s), FIRST_DESCRIPTOR);
    assert |CurrentTable(s)| == MAX_DESCRIPTORS by { CurrentTableLength(s); }
  }

  lemma {:induction false} CurrentTableLength(s: State)
    requires Shape(s)
    ensures |CurrentTable(s)| == MAX_DESCRIPTORS
  {
  }

  /** The first free descriptor from 3 on. */
  predicate LowestFree(table: Table, fd: nat) {
    && FIRST_DESCRIPTOR <= fd < |table| && table[fd].None?
    && forall i | FIRST_DESCRIPTOR <= i < fd :: table[i].Some?
  }

  /** Descriptor fd leads to file g and the thread's other descriptors and all other files are as before. */
  predicate OnlyAdds(s: State, after: State, fd: nat, g: nat)
    requires Shape(s) && Shape(after) && fd < MAX_DESCRIPTORS && g < MAX_FILES
  {
    && s.current.Some? && after.current == s.current
    && after.tables == s.tables[s.current.value := s.tables[s.current.value][fd := Some(g)]]
    && after.files == s.files[g := after.files[g]]
  }

  /**
   An open by a thread hands out the lowest free descriptor and the first unused file. A first
   read delivers the start of the content, at most 65,536 bytes of it, and the path is kept up
   to 128 bytes. With no room it changes nothing.
   */
  lemma {:induction false} OpenThenRead(s: State, path: seq<byte>, content: seq<byte>, count: nat) returns (fd: nat, g: nat)
    requires Shape(s)
    ensures !RoomToOpen(s) ==> Opened(s, path, content) == s
    ensures RoomToOpen(s) && s.current.Some? ==>
              && LowestFree(CurrentTable(s), fd) && fd < MAX_DESCRIPTORS && g < MAX_FILES
              && !s.files[g].used && forall i | 0 <= i < g :: s.files[i].used
    ensures RoomToOpen(s) && s.current.Some? ==>
              var after := Opened(s, path, content);
              && OnlyAdds(s, after, fd, g) && FileOf(after, fd) == Some(g) && after.files[g].used
              && after.files[g].path == path[..Lesser(|path|, MAX_PATH)]
              && ReadBytes(after, fd, count, true) == content[..Lesser(count, Lesser(|content|, MAX_CONTENT))]
  {
    hide FirstFree, FirstUnused, RoomToOpen;
    fd, g := 0, 0;
    RoomIsFound(s);
    if RoomToOpen(s) {
      FirstFreeIsFirst(CurrentTable(s), FIRST_DESCRIPTOR);
      FirstUnusedIsFirst(s.files, 0);
      fd, g := FirstFree(CurrentTable(s), FIRST_DESCRIPTOR).value, FirstUnused(s.files, 0).value;
    }
  }

  // ---------------------------------------------------------------- reads through aliases

  /** What an operation delivers from one file. */
  function Delivers(s: State, op: Op, g: nat): seq<byte>
    requires Shape(s)
  {
    if op.Read? && FileOf(s, op.fd) == Some(g) then ReadBytes(s, op.fd, op.count, op.copies) else []
  }

  function Delivered(s: State, ops: seq<Op>, g: nat): seq<byte>
    requires Shape(s)
  {
    if ops == [] then [] else
    var n := |ops| - 1;
    Delivered(s, ops[..n], g) + Delivers(Run(s, ops[..n]), ops[n], g)
  }

  /** Still open, and nobody seeks in it. */
  predicate StaysOpen(s: State, ops: seq<Op>, g: nat)
    requires Shape(s) && g < MAX_FILES
  {
    && (forall n | 0 <= n <= |ops| :: Run(s, ops[..n]).files[g].used)
    && forall n | 0 <= n < |ops| :: !(ops[n].Seek? && FileOf(Run(s, ops[..n]), ops[n].fd) == Some(g))
  }

  /** An operation on an open file moves its place by exactly what it delivers. */
  predicate Advances(f: OpenFile, after: OpenFile, delivered: seq<byte>) {
    && after.content == f.content && after.path == f.path
    && after.offset == f.offset + |delivered|
    && (delivered != [] ==> after.offset <= |f.content| && delivered == f.content[f.offset..after.offset])
  }

  lemma {:induction false} StepAdvances(s: State, op: Op, g: nat)
    requires Shape(s) && g < MAX_FILES && s.files[g].used && Step(s, op).files[g].used
    requires !(op.Seek? && FileOf(s, op.fd) == Some(g))
    ensures Advances(s.files[g], Step(s, op).files[g], Delivers(s, op, g))
  {
    hide TableShape;
    match op {
      case Purge => PurgeAdvances(s, MAX_DESCRIPTORS, g);
      case Read(_, _, _) => hide PurgedBelow;
      case _ => StepKeepsPlace(s, op, g);
    }
  }

  lemma {:induction false} StepKeepsPlace(s: State, op: Op, g: nat)
    requires Shape(s) && g < MAX_FILES && s.files[g].used && !op.Read? && !op.Purge?
    requires !(op.Seek? && FileOf(s, op.fd) == Some(g))
    ensures var f := Step(s, op).files[g]; f.content == s.files[g].content && f.path == s.files[g].path && f.offset == s.files[g].offset
  {
    hide PurgedBelow, TableShape;
  }

  lemma {:induction false} PurgeAdvances(s: State, n: nat, g: nat)
    requires Shape(s) && n <= MAX_DESCRIPTORS && g < MAX_FILES
    ensures var f := PurgedBelow(s, n).files[g]; f.content == s.files[g].content && f.path == s.files[g].path && f.offset == s.files[g].offset
  {
    hide Closed, TableShape;
    if n > FIRST_DESCRIPTOR {
      PurgeAdvances(s, n - 1, g);
      ClosingKeepsPlace(PurgedBelow(s, n - 1), n - 1, g);
    }
  }

  lemma {:induction false} ClosingKeepsPlace(s: State, fd: int, g: nat)
    requires Shape(s) && g < MAX_FILES
    ensures var f := Closed(s, fd).files[g]; f.content == s.files[g].content && f.path == s.files[g].path && f.offset == s.files[g].offset
  {
  }

  /**
   As long as a file stays open, the bytes delivered through all its descriptors, in the
   order of the reads, are one consecutive stretch of its content: each byte once.
   */
  lemma {:induction false} ReadsAreConsecutive(s: State, ops: seq<Op>, g: nat)
    requires Shape(s) && g < MAX_FILES && StaysOpen(s, ops, g)
    ensures Advances(s.files[g], Run(s, ops).files[g], Delivered(s, ops, g))
  {
    hide Step, TableShape, Delivers;
    if ops != [] {
      var n := |ops| - 1;
      var front := ops[..n];
      OpenPrefix(s, ops, n, g);
      ReadsAreConsecutive(s, front, g);
      assert ops[..|ops|] == ops;
      StepAdvances(Run(s, front), ops[n], g);
      JoinAdvances(s.files[g], Run(s, front).files[g], Run(s, ops).files[g], Delivered(s, front, g), Delivers(Run(s, front), ops[n], g));
    }
  }

  lemma {:induction false} OpenPrefix(s: State, ops: seq<Op>, k: nat, g: nat)
    requires Shape(s) && g < MAX_FILES && StaysOpen(s, ops, g) && k < |ops|
    ensures StaysOpen(s, ops[..k], g) && Run(s, ops[..k]).files[g].used
    ensures !(ops[k].Seek? && FileOf(Run(s, ops[..k]), ops[k].fd) == Some(g))
  {
    hide Run, FileOf, Shape;
    forall n | 0 <= n <= k
      ensures ops[..k][..n] == ops[..n]
    {
    }
  }

  lemma {:induction false} JoinAdvances(f: OpenFile, now: OpenFile, after: OpenFile, a: seq<byte>, b: seq<byte>)
    requires Advances(f, now, a) && Advances(now, after, b)
    ensures Advances(f, after, a + b)
  {
    if a != [] && b != [] {
      assert a + b == f.content[f.offset..after.offset];
    } else if a == [] {
      assert a + b == b;
    } else {
      assert a + b == a;
    }
  }

  /** How many bytes the reads of the file ask for, leaving out those whose copy fails. */
  function AskedFor(s: State, ops: seq<Op>, g: nat): nat
    requires Shape(s)
  {
    if ops == [] then 0 else
    var n := |ops| - 1;
    AskedFor(s, ops[..n], g) + Asks(Run(s, ops[..n]), ops[n], g)
  }

  function Asks(s: State, op: Op, g: nat): nat
    requires Shape(s)
  {
    if op.Read? && op.copies && FileOf(s, op.fd) == Some(g) then op.count else 0
  }

  lemma {:induction false} ReadDeliversAll(s: State, op: Op, g: nat)
    requires Shape(s) && g < MAX_FILES && s.files[g].used && s.files[g].offset <= |s.files[g].content|
    ensures |Delivers(s, op, g)| == Lesser(Asks(s, op, g), |s.files[g].content| - s.files[g].offset)
  {
    hide TableShape;
  }

  /** The reads fall short of what they ask for only where the content ends. */
  lemma {:induction false} AllIsDelivered(s: State, ops: seq<Op>, g: nat)
    requires Shape(s) && g < MAX_FILES && StaysOpen(s, ops, g) && s.files[g].offset <= |s.files[g].content|
    ensures |Delivered(s, ops, g)| == Lesser(AskedFor(s, ops, g), |s.files[g].content| - s.files[g].offset)
  {
    hide Step, TableShape, Delivers, Asks;
    if ops != [] {
      var n := |ops| - 1;
      OpenPrefix(s, ops, n, g);
      AllIsDelivered(s, ops[..n], g);
      ReadsAreConsecutive(s, ops[..n], g);
      ReadDeliversAll(Run(s, ops[..n]), ops[n], g);
    }
  }

  /**
   From an open on, the reads through all descriptors of the file together deliver its content
   from the start, as far as they ask for it, however they are interleaved with other calls.
   */
  lemma {:induction false} OpenThenReads(s: State, path: seq<byte>, content: seq<byte>, ops: seq<Op>) returns (fd: nat, g: nat)
    requires Shape(s) && s.current.Some? && RoomToOpen(s)
    ensures fd < MAX_DESCRIPTORS && g < MAX_FILES && FileOf(Step(s, Open(path, content)), fd) == Some(g)
    ensures var start := Step(s, Open(path, content));
            StaysOpen(start, ops, g) ==>
              Delivered(start, ops, g) == content[..Lesser(AskedFor(start, ops, g), Lesser(|content|, MAX_CONTENT))]
  {
    assert Step(s, Open(path, content)) == Opened(s, path, content);
    hide Step, TableShape, Delivered, AskedFor, StaysOpen, RoomToOpen, Opened, FileOf, Run;
    var start, whole := Opened(s, path, content), content[..Lesser(|content|, MAX_CONTENT)];
    fd, g := OpenThenRead(s, path, content, |content|);
    OpenedFileIs(s, path, content, fd, g);
    if StaysOpen(start, ops, g) {
      ReadsAreConsecutive(start, ops, g);
      AllIsDelivered(start, ops, g);
      var n := |Delivered(start, ops, g)|;
      assert Delivered(start, ops, g) == whole[..n];
      assert whole[..n] == content[..n];
    }
  }

  lemma {:induction false} OpenedFileIs(s: State, path: seq<byte>, content: seq<byte>, fd: nat, g: nat)
    requires Shape(s) && s.current.Some? && RoomToOpen(s) && FileOf(Opened(s, path, content), fd) == Some(g)
    requires LowestFree(CurrentTable(s), fd)
    ensures g < MAX_FILES
    ensures var f := Opened(s, path, content).files[g]; f.offset == 0 && f.content == content[..Lesser(|content|, MAX_CONTENT)]
  {
    hide FirstFree, FirstUnused, RoomToOpen;
    RoomIsFound(s);
    FirstFreeIsFirst(CurrentTable(s), FIRST_DESCRIPTOR);
  }

  /** A seek that lands is where the next read starts, and it moves no other file. */
  lemma {:induction false} SeekThenRead(s: State, fd: int, offset: int, whence: int, count: nat)
    requires Shape(s) && Readied(s, fd) && -(WORD / 2) <= offset < WORD / 2 && 0 <= whence <= 2
    requires var f := s.files[FileOf(s, fd).value]; f.offset < WORD / 2 && |f.content| < WORD / 2
    ensures var g := FileOf(s, fd).value; var f := s.files[g];
            var sum, after := SeekSum(f, offset, whence), Step(s, Seek(fd, offset, whence));
            && (!(0 <= sum < WORD / 2) ==> after == s)
            && (0 <= sum < WORD / 2 ==> after == s.(files := s.files[g := f.(offset := sum)]))
            && (0 <= sum <= |f.content| ==>
                  ReadBytes(after, fd, count, true) == f.content[sum..sum + Lesser(count, |f.content| - sum)])
            && (|f.content| < sum < WORD / 2 ==> ReadBytes(after, fd, count, true) == [])
  {
    hide SeekTarget, SeekSum, TableShape, PurgedBelow;
    var g := FileOf(s, fd).value;
    var f := s.files[g];
    SeekNeverWraps(f, offset, whence);
    assert SeekTarget(f, offset, whence).Some? by { SeekHasTarget(f, offset, whence); }
    var sum := SeekSum(f, offset, whence);
    if 0 <= sum < WORD / 2 {
      assert FileOf(Step(s, Seek(fd, offset, whence)), fd) == Some(g);
    }
  }

  lemma {:induction false} SeekHasTarget(f: OpenFile, offset: int, whence: int)
    ensures SeekTarget(f, offset, whence).Some? <==> 0 <= whence <= 2
  {
  }

  predicate RoomForPipe(s: State)
    requires Shape(s)
  {
    var r, fd := FirstUnused(s.files, 0), FirstFree(CurrentTable(s), FIRST_DESCRIPTOR);
    && r.Some? && FirstUnused(s.files, r.value + 1).Some?
    && fd.Some? && FirstFree(CurrentTable(s), fd.value + 1).Some?
  }

  /** The two descriptors lead to two new files, named for the read and the write end, with nothing to read. */
  predicate ArePipeEnds(s: State, after: State, r: nat, w: nat)
    requires Shape(s) && Shape(after)
  {
    && r != w && FileOf(s, r).None? && FileOf(s, w).None?
    && FileOf(after, r).Some? && FileOf(after, w).Some? && FileOf(after, r) != FileOf(after, w)
    && after.files[FileOf(after, r).value] == OpenFile(true, 1, PIPE_READ, 0, [])
    && after.files[FileOf(after, w).value] == OpenFile(true, 1, PIPE_WRITE, 0, [])
  }

  lemma {:induction false} PipeEnds(s: State)
    requires Shape(s)
    ensures s.current.Some? && RoomForPipe(s) ==>
              var fd := FirstFree(CurrentTable(s), FIRST_DESCRIPTOR).value;
              ArePipeEnds(s, Piped(s), fd, FirstFree(CurrentTable(s), fd + 1).value)
  {
    hide FirstFree, FirstUnused;
  }

  // ------------------------------------------------------------------- the tables in place

  class FileTables {
    const files: array<OpenFile>
    /** One table of descriptors per thread slot; system calls copy it out and back. */
    var tables: seq<Table>
    var current: Option<nat>

    ghost function View(): State
      reads this, files
    {
      State(files[..], tables, current)
    }

    ghost predicate Valid()
      reads this, files
    {
      Shape(View())
    }

    constructor ()
      ensures Valid() && View() == Initial() && fresh(files)
    {
      files := new OpenFile[MAX_FILES](_ => UNUSED_FILE);
      tables := seq(MAX_THREADS, _ => EmptyTable());
      current := None;
      new;
      assert files[..] == seq(MAX_FILES, _ => UNUSED_FILE);
    }

    method GetTable() returns (table: Table)
      requires Valid()
      ensures table == CurrentTable(View())
    {
      if current.Some? {
        return tables[current.value];
      }
      return EmptyTable();
    }

    method SetTable(table: Table)
      requires Valid() && TableShape(table)
      modifies this`tables
      ensures Valid() && View() == WithTable(old(View()), table)
    {
      if current.Some? {
        tables := tables[current.value := table];
      }
    }

    method SetFile(g: nat, f: OpenFile)
      requires Valid() && g < MAX_FILES
      modifies files
      ensures Valid() && View() == WithFile(old(View()), g, f)
    {
      files[g] := f;
      assert files[..] == old(files[..])[g := f];
    }

    method FindFree(table: Table, from: nat) returns (fd: Option<nat>)
      ensures fd == FirstFree(table, from)
    {
      var i := from;
      while i < |table| && table[i].Some?
        invariant FirstFree(table, from) == FirstFree(table, i)
      {
        i := i + 1;
      }
      return if i < |table| then Some(i) else None;
    }

    method FindUnused(from: nat) returns (g: Option<nat>)
      requires Valid()
      ensures g == FirstUnused(files[..], from)
    {
      var i := from;
      while i < MAX_FILES && files[i].used
        invariant FirstUnused(files[..], from) == FirstUnused(files[..], i)
      {
        i := i + 1;
      }
      return if i < MAX_FILES then Some(i) else None;
    }

    method AllocOpenFile(path: seq<byte>, content: seq<byte>) returns (r: Result<nat, Errno>)
      requires Valid()
      modifies this`tables, files
      ensures Valid() && View() == Opened(old(View()), path, content)
      ensures r.Ok? <==> RoomToOpen(old(View()))
      ensures r.Err? ==> r.error == TooManyFiles && View() == old(View())
      ensures r.Ok? && current.Some? ==> LowestFree(CurrentTable(old(View())), r.value)
      ensures r.Ok? && current.Some? ==> FileOf(View(), r.value).Some? && FileOf(old(View()), r.value).None?
      ensures r.Ok? && current.Some? ==>
                && View().files[FileOf(View(), r.value).value].path == path[..Lesser(|path|, MAX_PATH)]
                && forall count: nat ::
                     ReadBytes(View(), r.value, count, true) == content[..Lesser(count, Lesser(|content|, MAX_CONTENT))]
    {
      hide FirstFree, FirstUnused, RoomToOpen;
      var table := GetTable();
      RoomIsFound(View());
      FirstFreeIsFirst(table, FIRST_DESCRIPTOR);
      var fd := FindFree(table, FIRST_DESCRIPTOR);
      if fd.None? {
        return Err(TooManyFiles);
      }
      var g := FindUnused(0);
      if g.None? {
        return Err(TooManyFiles);
      }
      SetFile(g.value, OpenFile(true, 1, Truncated(path, MAX_PATH), 0, Truncated(content, MAX_CONTENT)));
      SetTable(table[fd.value := Some(g.value)]);
      return Ok(fd.value);
    }

    method Dup(oldFd: int) returns (r: Result<nat, Errno>)
      requires Valid()
      modifies this`tables, files
      ensures Valid() && View() == Duplicated(old(View()), oldFd)
      ensures r.Ok? ==> FileOf(View(), r.value) == FileOf(old(View()), oldFd) && FileOf(old(View()), r.value).None?
      ensures r.Ok? ==> LowestFree(CurrentTable(old(View())), r.value)
      ensures r.Err? ==> View() == old(View()) && (r.error == BadDescriptor <==> FileOf(old(View()), oldFd).None?)
    {
      hide FirstFree;
      FirstFreeIsFirst(CurrentTable(View()), FIRST_DESCRIPTOR);
      if !InRange(oldFd) {
        return Err(BadDescriptor);
      }
      var table := GetTable();
      var g := table[oldFd];
      if g.None? {
        return Err(BadDescriptor);
      }
      var fd := FindFree(table, FIRST_DESCRIPTOR);
      if fd.None? {
        return Err(TooManyFiles);
      }
      SetFile(g.value, Retained(files[g.value]));
      SetTable(table[fd.value := g]);
      return Ok(fd.value);
    }

    method Dup2(oldFd: int, newFd: int) returns (r: Result<int, Errno>)
      requires Valid()
      modifies this`tables, files
      ensures Valid() && View() == DuplicatedTo(old(View()), oldFd, newFd)
      ensures r.Err? ==> r.error == BadDescriptor && View() == old(View())
      ensures r.Ok? && oldFd != newFd ==> FileOf(View(), newFd) == FileOf(old(View()), oldFd) == FileOf(View(), oldFd)
    {
      if !InRange(oldFd) || !InRange(newFd) {
        return Err(BadDescriptor);
      }
      if oldFd == newFd {
        return Ok(newFd);
      }
      var table := GetTable();
      var g := table[oldFd];
      if g.None? {
        return Err(BadDescriptor);
      }
      if table[newFd].Some? {
        SetFile(table[newFd].value, Released(files[table[newFd].value]));
      }
      assert View() == Dropped(old(View()), newFd);
      SetFile(g.value, Retained(files[g.value]));
      SetTable(table[newFd := g]);
      return Ok(newFd);
    }

    /** The pair of descriptors is copied out last: when that fails, they stay. */
    method CreatePipe(copies: bool) returns (r: Result<(nat, nat), Errno>)
      requires Valid()
      modifies this`tables, files
      ensures Valid() && View() == Piped(old(View()))
      ensures r.Err? ==> (r.error == TooManyFiles && View() == old(View())) || (r.error == Fault && !copies)
      ensures r.Ok? && current.Some? ==> ArePipeEnds(old(View()), View(), r.value.0, r.value.1)
    {
      hide FirstFree, FirstUnused;
      ghost var before := View();
      var reader := FindUnused(0);
      var writer: Option<nat> := None;
      if reader.Some? {
        writer := FindUnused(reader.value + 1);
      }
      if writer.None? {
        return Err(TooManyFiles);
      }
      var table := GetTable();
      var readFd := FindFree(table, FIRST_DESCRIPTOR);
      var writeFd: Option<nat> := None;
      if readFd.Some? {
        writeFd := FindFree(table, readFd.value + 1);
      }
      if writeFd.None? {
        return Err(TooManyFiles);
      }
      SetFile(reader.value, OpenFile(true, 1, PIPE_READ, 0, []));
      SetFile(writer.value, OpenFile(true, 1, PIPE_WRITE, 0, []));
      SetTable(table[readFd.value := reader][writeFd.value := writer]);
      PipeEnds(before);
      return if copies then Ok((readFd.value, writeFd.value)) else Err(Fault);
    }

    method CloseOpenFile(fd: int) returns (r: Result<int, Errno>)
      requires Valid()
      modifies this`tables, files
      ensures Valid() && View() == Closed(old(View()), fd)
      ensures r.Ok? <==> FileOf(old(View()), fd).Some?
    {
      if !InRange(fd) {
        return Err(BadDescriptor);
      }
      var table := GetTable();
      var g := table[fd];
      if g.None? {
        return Err(BadDescriptor);
      }
      SetTable(table[fd := None]);
      SetFile(g.value, Released(files[g.value]));
      return Ok(0);
    }

    method ReadOpenFile(fd: int, count: nat, copies: bool) returns (r: Result<seq<byte>, Errno>)
      requires Valid()
      modifies files
      ensures Valid() && View() == AfterRead(old(View()), fd, count, copies)
      ensures r.Ok? ==> r.value == ReadBytes(old(View()), fd, count, true)
      ensures r.Err? ==> View() == old(View())
      ensures r.Err? ==> r.error == if FileOf(View(), fd).None? || !files[FileOf(View(), fd).value].used then BadDescriptor else Fault
      ensures r.Err? && r.error == Fault ==> !copies
    {
      if !InRange(fd) {
        return Err(BadDescriptor);
      }
      var table := GetTable();
      var g := table[fd];
      if g.None? || !files[g.value].used {
        return Err(BadDescriptor);
      }
      var f := files[g.value];
      var available := if f.offset <= |f.content| then |f.content| - f.offset else 0;
      var n := if count < available then count else available;
      if n == 0 {
        return Ok([]);
      }
      if !copies {
        return Err(Fault);
      }
      SetFile(g.value, f.(offset := f.offset + n));
      return Ok(f.content[f.offset..f.offset + n]);
    }

    method Lseek(fd: int, offset: int, whence: int) returns (r: Result<int, Errno>)
      requires Valid()
      modifies files
      ensures Valid() && View() == Sought(old(View()), fd, offset, whence)
      ensures r == Err(BadDescriptor) <==> !Readied(old(View()), fd)
      ensures r == Err(InvalidArgument) <==>
                Readied(old(View()), fd) && var target := SeekTarget(old(View()).files[FileOf(old(View()), fd).value], offset, whence);
                target.None? || target.value < 0
      ensures r.Err? ==> View() == old(View()) && (r.error == BadDescriptor || r.error == InvalidArgument)
      ensures r.Ok? ==> FileOf(View(), fd).Some? && files[FileOf(View(), fd).value].offset == r.value
    {
      if !InRange(fd) {
        return Err(BadDescriptor);
      }
      var table := GetTable();
      var g := table[fd];
      if g.None? || !files[g.value].used {
        return Err(BadDescriptor);
      }
      var target := SeekTarget(files[g.value], offset, whence);
      if target.None? || target.value < 0 {
        return Err(InvalidArgument);
      }
      SetFile(g.value, files[g.value].(offset := target.value));
      return Ok(target.value);
    }

    /** Drops every descriptor from 3 on; the emptied table is put back at the end. */
    method PurgeOpenFiles()
      requires Valid()
      modifies this`tables, files
      ensures Valid() && View() == Purged(old(View()))
      ensures forall fd | FIRST_DESCRIPTOR <= fd < MAX_DESCRIPTORS :: CurrentTable(View())[fd].None?
      ensures CurrentTable(View())[..FIRST_DESCRIPTOR] == CurrentTable(old(View()))[..FIRST_DESCRIPTOR]
    {
      hide Closed;
      var table := GetTable();
      ghost var before := View();
      for fd := FIRST_DESCRIPTOR to MAX_DESCRIPTORS
        invariant Valid() && tables == before.tables && current == before.current
        invariant View().files == PurgedBelow(before, fd).files && table == CurrentTable(PurgedBelow(before, fd))
        invariant current.Some? ==> PurgedBelow(before, fd).tables == before.tables[current.value := table]
        invariant current.None? ==> PurgedBelow(before, fd) == before
      {
        ghost var now := PurgedBelow(before, fd);
        ClosedInTable(now, fd);
        if table[fd].Some? {
          var g := table[fd].value;
          SetFile(g, Released(files[g]));
          table := table[fd := None];
        }
      }
      SetTable(table);
      PurgeLeavesLowest(before, MAX_DESCRIPTORS);
    }
  }

  lemma {:induction false} ClosedInTable(s: State, fd: nat)
    requires Shape(s) && fd < MAX_DESCRIPTORS
    ensures var d := CurrentTable(s)[fd];
            && (d.None? ==> Closed(s, fd) == s)
            && (d.Some? ==>
                  && s.current.Some?
                  && Closed(s, fd).files == s.files[d.value := Released(s.files[d.value])]
                  && Closed(s, fd).tables == s.tables[s.current.value := CurrentTable(s)[fd := None]]
                  && CurrentTable(Closed(s, fd)) == CurrentTable(s)[fd := None])
  {
  }
}
