/**
 The initial ram disk: the "newc" archive that the build script writes (cpio(5)) and the
 kernel's parser, which turns it into a list of entries below /initrd. Names are UTF-8
 byte strings.
 */
module Cpio {
  import opened Bytes

  type Text = seq<byte>

  const SLASH: byte := 47
  const DOT: byte := 46
  const ROOT: Text := [47, 105, 110, 105, 116, 114, 100]
  const NEWC_MAGIC: Text := [48, 55, 48, 55, 48, 49]
  const CRC_MAGIC: Text := [48, 55, 48, 55, 48, 50]
  const TRAILER: Text := [84, 82, 65, 73, 76, 69, 82, 33, 33, 33]
  const HEADER_BYTES: nat := 110
  const U32: nat := 0x1_0000_0000
  /** A directory with permissions 0755. */
  const DEFAULT_DIRECTORY_MODE: nat := 0x41ed

  datatype Error = InvalidArchive | InvalidEntryName
  datatype Entry = Entry(path: Text, directory: bool, mode: nat, data: seq<byte>)

  lemma {:induction false} FixedTexts()
    ensures ROOT == Ascii("/initrd") && TRAILER == Ascii("TRAILER!!!")
    ensures NEWC_MAGIC == Ascii("070701") && CRC_MAGIC == Ascii("070702")
  {
  }

  // ------------------------------------------------------------------ hexadecimal

  function Digit(d: nat): byte
    requires d < 16
  {
    if d < 10 then 48 + d else 87 + d
  }

  function DigitValue(b: byte): Option<nat> {
    if 48 <= b <= 57 then Some(b - 48)
    else if 97 <= b <= 102 then Some(b - 87)
    else if 65 <= b <= 70 then Some(b - 55)
    else None
  }

  /** Digits above nine count in either case. */
  lemma {:induction false} EitherCase(d: nat)
    requires d < 16
    ensures DigitValue(Digit(d)) == Some(d)
    ensures 10 <= d ==> DigitValue(Digit(d) - 32) == Some(d)
  {
  }

  /** The last n hexadecimal digits of a number. */
  function Hex(v: nat, n: nat): (text: Text)
    ensures |text| == n
  {
    if n == 0 then [] else Hex(v / 16, n - 1) + [Digit(v % 16)]
  }

  /** The value of a digit string, as long as it stays below 2^32. */
  function HexValue(text: Text): (v: Option<nat>)
    ensures v.Some? ==> v.value < U32
  {
    if text == [] then Some(0) else
    var front, last := HexValue(text[..|text| - 1]), DigitValue(text[|text| - 1]);
    if front.None? || front.value * 16 >= U32 || last.None? then None else Some(front.value * 16 + last.value)
  }

  function Power16(n: nat): nat {
    if n == 0 then 1 else 16 * Power16(n - 1)
  }

  lemma {:induction false} HexRoundTrip(v: nat, n: nat)
    requires v < Power16(n) && n <= 8
    ensures HexValue(Hex(v, n)) == Some(v)
    decreases n
  {
    if n > 0 {
      HexRoundTrip(v / 16, n - 1);
      assert Hex(v, n)[..n - 1] == Hex(v / 16, n - 1);
      PowerBelow(n - 1);
    }
  }

  lemma {:induction false} PowerBelow(n: nat)
    requires n <= 7
    ensures Power16(n) <= 0x1000_0000
  {
    assert Power16(0) == 1 && Power16(1) == 16 && Power16(2) == 0x100 && Power16(3) == 0x1000;
    assert Power16(4) == 0x1_0000 && Power16(5) == 0x10_0000 && Power16(6) == 0x100_0000 && Power16(7) == 0x1000_0000;
  }

  lemma {:induction false} HexRoundTrip8(v: nat)
    requires v < U32
    ensures HexValue(Hex(v, 8)) == Some(v)
  {
    PowerBelow(7);
    assert Power16(8) == U32 by {
      assert Power16(7) == 0x1000_0000 by { assert Power16(4) == 0x1_0000; assert Power16(6) == 0x100_0000; }
    }
    HexRoundTrip(v, 8);
  }

  method ParseHexU32(text: Text) returns (v: Option<nat>)
    ensures v == HexValue(text)
  {
    var value := 0;
    for i := 0 to |text|
      invariant HexValue(text[..i]) == Some(value)
    {
      assert text[..i + 1][..i] == text[..i];
      var digit := DigitValue(text[i]);
      if value * 16 >= U32 || digit.None? {
        HexValueStops(text, i + 1);
        return None;
      }
      value := value * 16 + digit.value;
    }
    assert text[..|text|] == text;
    return Some(value);
  }

  lemma {:induction false} HexValueStops(text: Text, i: nat)
    requires i <= |text| && HexValue(text[..i]).None?
    ensures HexValue(text).None?
    decreases |text|
  {
    if i == |text| {
      assert text[..i] == text;
    } else {
      assert text[..|text| - 1][..i] == text[..i];
      HexValueStops(text[..|text| - 1], i);
    }
  }

  // -------------------------------------------------------------------------- UTF-8

  predicate Continues(b: byte) {
    0x80 <= b <= 0xbf
  }

  /** Well-formed UTF-8 (RFC 3629, section 4). */
  predicate Utf8(b: Text) {
    || b == []
    || (b[0] < 0x80 && Utf8(b[1..]))
    || (|b| >= 2 && 0xc2 <= b[0] <= 0xdf && Continues(b[1]) && Utf8(b[2..]))
    || (|b| >= 3 && ThreeBytes(b[0], b[1]) && Continues(b[1]) && Continues(b[2]) && Utf8(b[3..]))
    || (|b| >= 4 && FourBytes(b[0], b[1]) && Continues(b[1]) && Continues(b[2]) && Continues(b[3]) && Utf8(b[4..]))
  }

  predicate ThreeBytes(lead: byte, next: byte) {
    0xe0 <= lead <= 0xef && (lead == 0xe0 ==> next >= 0xa0) && (lead == 0xed ==> next <= 0x9f)
  }

  predicate FourBytes(lead: byte, next: byte) {
    0xf0 <= lead <= 0xf4 && (lead == 0xf0 ==> next >= 0x90) && (lead == 0xf4 ==> next <= 0x8f)
  }

  // --------------------------------------------------------------------------- paths

  function TrimStart(p: Text): Text {
    if p != [] && p[0] == SLASH then TrimStart(p[1..]) else p
  }

  function TrimEnd(p: Text): Text {
    if p != [] && p[|p| - 1] == SLASH then TrimEnd(p[..|p| - 1]) else p
  }

  function StripDotSlash(p: Text): Text {
    if |p| >= 2 && p[0] == DOT && p[1] == SLASH then p[2..] else p
  }

  predicate HasDotDot(p: Text) {
    exists i :: 0 <= i < |p| - 1 && p[i] == DOT && p[i + 1] == DOT
  }

  function Normalized(name: Text): Result<Text, Error> {
    var p := StripDotSlash(TrimEnd(TrimStart(name)));
    if p == [] || p == [DOT] then Ok(ROOT)
    else if HasDotDot(p) then Err(InvalidEntryName)
    else Ok(ROOT + [SLASH] + p)
  }

  /** A path as the build script collects them, relative to the staging directory. */
  predicate Relative(path: Text) {
    path != [] && path != [DOT] && path[0] != SLASH && path[|path| - 1] != SLASH
  }

  lemma {:induction false} NormalizedName(path: Text)
    requires Relative(path)
    ensures Normalized([DOT, SLASH] + path) == if HasDotDot(path) then Err(InvalidEntryName) else Ok(ROOT + [SLASH] + path)
  {
    var name := [DOT, SLASH] + path;
    assert TrimStart(name) == name;
    assert TrimEnd(name) == name;
    assert StripDotSlash(name) == path;
  }

  // -------------------------------------------------------------- the list of entries

  predicate IsDirectory(e: Entry, path: Text) {
    e.directory && e.path == path
  }

  /** The first directory entry of that path, or the length of the list. */
  function FindDirectory(entries: seq<Entry>, path: Text, from: nat): (i: nat)
    requires from <= |entries|
    ensures from <= i <= |entries| && (i < |entries| ==> IsDirectory(entries[i], path))
    ensures forall j | from <= j < i :: !IsDirectory(entries[j], path)
    decreases |entries| - from
  {
    if from == |entries| || IsDirectory(entries[from], path) then from else FindDirectory(entries, path, from + 1)
  }

  /** A directory that is there gets the mode; otherwise it is appended. */
  function WithDirectory(entries: seq<Entry>, path: Text, mode: nat): seq<Entry> {
    var i := FindDirectory(entries, path, 0);
    if i < |entries| then entries[i := entries[i].(mode := mode)] else entries + [Entry(path, true, mode, [])]
  }

  method PushDirectory(entries: seq<Entry>, path: Text, mode: nat) returns (after: seq<Entry>)
    ensures after == WithDirectory(entries, path, mode)
  {
    var i := 0;
    while i < |entries| && !IsDirectory(entries[i], path)
      invariant i <= |entries| && FindDirectory(entries, path, 0) == FindDirectory(entries, path, i)
    {
      i := i + 1;
    }
    if i < |entries| {
      return entries[i := entries[i].(mode := mode)];
    }
    return entries + [Entry(path, true, mode, [])];
  }

  /** The directories above a path whose slash stands before index n, without the root. */
  function WithParents(entries: seq<Entry>, path: Text, n: nat): seq<Entry>
    requires n <= |path|
  {
    if n <= |ROOT| + 1 then entries else
    var before := WithParents(entries, path, n - 1);
    if path[n - 1] == SLASH then WithDirectory(before, path[..n - 1], DEFAULT_DIRECTORY_MODE) else before
  }

  method EnsureParentDirectories(entries: seq<Entry>, path: Text) returns (after: seq<Entry>)
    ensures after == WithParents(entries, path, |path|)
  {
    after := entries;
    if |path| <= |ROOT| {
      return;
    }
    var end := |ROOT| + 1;
    assert WithParents(entries, path, end) == entries;
    while end < |path|
      invariant |ROOT| + 1 <= end <= |path| && after == WithParents(entries, path, end)
    {
      if path[end] == SLASH {
        after := PushDirectory(after, path[..end], DEFAULT_DIRECTORY_MODE);
      }
      end := end + 1;
    }
  }

  // ------------------------------------------------ what every accepted archive keeps

  predicate DirectoriesDistinct(entries: seq<Entry>) {
    forall i, j | 0 <= i < j < |entries| && entries[i].directory && entries[j].directory :: entries[i].path != entries[j].path
  }

  ghost predicate HasDirectory(entries: seq<Entry>, path: Text) {
    exists i :: 0 <= i < |entries| && IsDirectory(entries[i], path)
  }

  /** Position i is a slash below the root, so what precedes it names a directory above. */
  predicate Above(path: Text, i: nat) {
    |ROOT| < i < |path| && path[i] == SLASH
  }

  ghost predicate ParentsPresent(entries: seq<Entry>, path: Text) {
    forall i: nat | Above(path, i) :: HasDirectory(entries, path[..i])
  }

  predicate Rooted(path: Text) {
    path == ROOT || ROOT + [SLASH] <= path
  }

  ghost predicate Orderly(entries: seq<Entry>) {
    && DirectoriesDistinct(entries) && HasDirectory(entries, ROOT)
    && forall k | 0 <= k < |entries| :: Rooted(entries[k].path) && ParentsPresent(entries, entries[k].path)
  }

  /** Adding a directory keeps the others, so nothing that was present goes missing. */
  lemma {:induction false} WithDirectoryKeeps(entries: seq<Entry>, path: Text, mode: nat, other: Text)
    ensures HasDirectory(WithDirectory(entries, path, mode), path)
    ensures HasDirectory(entries, other) ==> HasDirectory(WithDirectory(entries, path, mode), other)
    ensures HasDirectory(WithDirectory(entries, path, mode), other) && other != path ==> HasDirectory(entries, other)
  {
    var at, after := FindDirectory(entries, path, 0), WithDirectory(entries, path, mode);
    assert IsDirectory(after[at], path);
    if HasDirectory(entries, other) {
      var i :| 0 <= i < |entries| && IsDirectory(entries[i], other);
      assert IsDirectory(after[i], other);
    }
    if HasDirectory(after, other) && other != path {
      var i :| 0 <= i < |after| && IsDirectory(after[i], other);
      assert i < |entries| && IsDirectory(entries[i], other);
    }
  }

  lemma {:induction false} WithDirectoryDistinct(entries: seq<Entry>, path: Text, mode: nat)
    requires DirectoriesDistinct(entries)
    ensures DirectoriesDistinct(WithDirectory(entries, path, mode))
  {
    var at, after := FindDirectory(entries, path, 0), WithDirectory(entries, path, mode);
    forall i, j | 0 <= i < j < |after| && after[i].directory && after[j].directory
      ensures after[i].path != after[j].path
    {
      if j == |entries| {
        assert !IsDirectory(entries[i], path);
      } else {
        assert after[i].path == entries[i].path && after[j].path == entries[j].path;
      }
    }
  }

  /** A directory whose own parents are present keeps the list orderly. */
  lemma {:induction false} WithDirectoryOrderly(entries: seq<Entry>, path: Text, mode: nat)
    requires Orderly(entries) && Rooted(path) && ParentsPresent(entries, path)
    ensures Orderly(WithDirectory(entries, path, mode))
  {
    hide Rooted;
    var after := WithDirectory(entries, path, mode);
    WithDirectoryDistinct(entries, path, mode);
    WithDirectoryKeeps(entries, path, mode, ROOT);
    forall k | 0 <= k < |after|
      ensures Rooted(after[k].path) && ParentsPresent(after, after[k].path)
    {
      assert k < |entries| ==> after[k].path == entries[k].path;
      assert k == |entries| ==> after[k].path == path;
      assert Rooted(after[k].path) && ParentsPresent(entries, after[k].path);
      ParentsStay(entries, after, path, mode, after[k].path);
    }
  }

  lemma {:induction false} ParentsStay(entries: seq<Entry>, after: seq<Entry>, path: Text, mode: nat, other: Text)
    requires after == WithDirectory(entries, path, mode) && ParentsPresent(entries, other)
    ensures ParentsPresent(after, other)
  {
    hide WithDirectory;
    forall i: nat | Above(other, i)
      ensures HasDirectory(after, other[..i])
    {
      WithDirectoryKeeps(entries, path, mode, other[..i]);
    }
  }

  ghost predicate ParentsPresentBelow(entries: seq<Entry>, path: Text, n: nat) {
    forall i: nat | Above(path, i) && i < n :: HasDirectory(entries, path[..i])
  }

  lemma {:induction false} RootedPrefix(path: Text, i: nat)
    requires Rooted(path) && Above(path, i)
    ensures Rooted(path[..i])
  {
  }

  lemma {:induction false} WithParentsOrderly(entries: seq<Entry>, path: Text, n: nat)
    requires Orderly(entries) && Rooted(path) && n <= |path|
    ensures Orderly(WithParents(entries, path, n))
    ensures ParentsPresentBelow(WithParents(entries, path, n), path, n)
  {
    hide Orderly, HasDirectory, WithDirectory;
    if n > |ROOT| + 1 {
      WithParentsOrderly(entries, path, n - 1);
      var before := WithParents(entries, path, n - 1);
      if path[n - 1] == SLASH {
        var parent := path[..n - 1];
        assert Above(path, n - 1);
        RootedPrefix(path, n - 1);
        forall i: nat | Above(parent, i)
          ensures HasDirectory(before, parent[..i])
        {
          assert Above(path, i) && parent[..i] == path[..i];
        }
        WithDirectoryOrderly(before, parent, DEFAULT_DIRECTORY_MODE);
        forall i: nat | Above(path, i) && i < n
          ensures HasDirectory(WithParents(entries, path, n), path[..i])
        {
          WithDirectoryKeeps(before, parent, DEFAULT_DIRECTORY_MODE, path[..i]);
        }
      }
    }
  }

  function Added(entries: seq<Entry>, e: Entry): seq<Entry> {
    var ready := WithParents(entries, e.path, |e.path|);
    if e.directory then WithDirectory(ready, e.path, e.mode) else ready + [e]
  }

  lemma {:induction false} AddedOrderly(entries: seq<Entry>, e: Entry)
    requires Orderly(entries) && Rooted(e.path)
    ensures Orderly(Added(entries, e))
  {
    hide WithParents, Rooted;
    WithParentsOrderly(entries, e.path, |e.path|);
    var ready := WithParents(entries, e.path, |e.path|);
    if e.directory {
      WithDirectoryOrderly(ready, e.path, e.mode);
    } else {
      FileOrderly(ready, e);
    }
  }

  lemma {:induction false} FileOrderly(entries: seq<Entry>, e: Entry)
    requires Orderly(entries) && Rooted(e.path) && ParentsPresent(entries, e.path) && !e.directory
    ensures Orderly(entries + [e])
  {
    hide Rooted;
    var after := entries + [e];
    HasDirectoryStill(entries, e, ROOT);
    forall k | 0 <= k < |after|
      ensures Rooted(after[k].path) && ParentsPresent(after, after[k].path)
    {
      var path := after[k].path;
      assert k < |entries| ==> after[k] == entries[k];
      forall i: nat | Above(path, i)
        ensures HasDirectory(after, path[..i])
      {
        HasDirectoryStill(entries, e, path[..i]);
      }
    }
  }

  lemma {:induction false} HasDirectoryStill(entries: seq<Entry>, e: Entry, path: Text)
    ensures HasDirectory(entries, path) ==> HasDirectory(entries + [e], path)
  {
    if HasDirectory(entries, path) {
      var i :| 0 <= i < |entries| && IsDirectory(entries[i], path);
      assert IsDirectory((entries + [e])[i], path);
    }
  }

  // ------------------------------------------------------------------------ the parser

  function Align4(v: nat): (r: nat)
    ensures v <= r < v + 4 && r % 4 == 0
  {
    (v + 3) - (v + 3) % 4
  }

  predicate DirectoryMode(mode: nat) {
    mode / 0x1000 % 16 == 4
  }

  /** What one header describes: `next` is where the data ends, rounded up. */
  datatype Parsed = Bad(error: Error) | Last | More(entry: Entry, next: nat)

  /** The three header fields the parser uses. */
  datatype Fields = Fields(mode: nat, fileSize: nat, nameSize: nat)

  function HeaderFields(header: Text): Option<Fields>
    requires |header| == HEADER_BYTES
  {
    if header[..6] != NEWC_MAGIC && header[..6] != CRC_MAGIC then None else
    var mode, fileSize, nameSize := HexValue(header[14..22]), HexValue(header[54..62]), HexValue(header[94..102]);
    if mode.None? || fileSize.None? || nameSize.None? then None
    else Some(Fields(mode.value, fileSize.value, nameSize.value))
  }

  /** Either magic will do, and no other. */
  lemma {:induction false} MagicDecides(header: Text, other: Text)
    requires |header| == |other| == HEADER_BYTES && header[6..] == other[6..]
    ensures header[..6] != Ascii("070701") && header[..6] != Ascii("070702") ==> HeaderFields(header).None?
    ensures header[..6] == Ascii("070701") && other[..6] == Ascii("070702") ==> HeaderFields(header) == HeaderFields(other)
  {
    hide HexValue;
    FixedTexts();
    SameField(header, other, 14);
    SameField(header, other, 54);
    SameField(header, other, 94);
  }

  lemma {:induction false} SameField(header: Text, other: Text, at: nat)
    requires |header| == |other| == HEADER_BYTES && header[6..] == other[6..] && 6 <= at <= HEADER_BYTES - 8
    ensures header[at..at + 8] == other[at..at + 8]
  {
    forall i | at <= i < at + 8
      ensures header[i] == other[i]
    {
      assert header[i] == header[6..][i - 6] == other[6..][i - 6] == other[i];
    }
  }

  function ParsedAt(archive: seq<byte>, cursor: nat): (r: Parsed)
    requires cursor + HEADER_BYTES <= |archive|
    ensures r.More? ==> cursor < r.next <= |archive|
  {
    var f := HeaderFields(archive[cursor..cursor + HEADER_BYTES]);
    var name := cursor + HEADER_BYTES;
    if f.None? || f.value.nameSize == 0 || name + f.value.nameSize > |archive| then Bad(InvalidArchive)
    else if Align4(name + f.value.nameSize) > |archive| then Bad(InvalidArchive)
    else if archive[name + f.value.nameSize - 1] != 0 then Bad(InvalidArchive)
    else BodyAt(archive, f.value, archive[name..name + f.value.nameSize - 1], Align4(name + f.value.nameSize))
  }

  /** The rest of a record, once its name is known. */
  function BodyAt(archive: seq<byte>, f: Fields, name: Text, at: nat): (r: Parsed)
    requires at <= |archive|
    ensures r.More? ==> at <= r.next <= |archive|
  {
    if !Utf8(name) then Bad(InvalidEntryName)
    else if name == TRAILER then Last
    else
      match Normalized(name)
      case Err(error) => Bad(error)
      case Ok(path) =>
        if at + f.fileSize > |archive| || Align4(at + f.fileSize) > |archive| then Bad(InvalidArchive)
        else
          var directory := DirectoryMode(f.mode);
          var data := if directory then [] else archive[at..at + f.fileSize];
          More(Entry(path, directory, f.mode, data), Align4(at + f.fileSize))
  }

  const ROOT_ENTRY := Entry(ROOT, true, DEFAULT_DIRECTORY_MODE, [])

  function ParseFrom(archive: seq<byte>, cursor: nat, entries: seq<Entry>): Result<seq<Entry>, Error>
    decreases if cursor <= |archive| then |archive| - cursor else 0
  {
    if cursor + HEADER_BYTES > |archive| then Err(InvalidArchive) else
    match ParsedAt(archive, cursor)
    case Bad(error) => Err(error)
    case Last => Ok(entries)
    case More(e, next) => ParseFrom(archive, next, Added(entries, e))
  }

  method NormalizeArchivePath(name: Text) returns (r: Result<Text, Error>)
    ensures r == Normalized(name)
  {
    var p := name;
    while p != [] && p[0] == SLASH
      invariant TrimStart(name) == TrimStart(p)
      decreases |p|
    {
      p := p[1..];
    }
    while p != [] && p[|p| - 1] == SLASH
      invariant TrimEnd(TrimStart(name)) == TrimEnd(p)
      decreases |p|
    {
      p := p[..|p| - 1];
    }
    p := StripDotSlash(p);
    if p == [] || p == [DOT] {
      return Ok(ROOT);
    }
    var i := 0;
    while i + 1 < |p|
      invariant i <= |p| && forall j | 0 <= j < i && j < |p| - 1 :: !(p[j] == DOT && p[j + 1] == DOT)
    {
      if p[i] == DOT && p[i + 1] == DOT {
        return Err(InvalidEntryName);
      }
      i := i + 1;
    }
    return Ok(ROOT + [SLASH] + p);
  }

  method ParseNewcArchive(archive: seq<byte>) returns (r: Result<seq<Entry>, Error>)
    ensures r == ParseFrom(archive, 0, [ROOT_ENTRY])
    ensures r.Ok? ==> Orderly(r.value)
  {
    hide Added, Normalized, Orderly, HeaderFields, Utf8;
    var cursor, entries := 0, [ROOT_ENTRY];
    RootIsOrderly();
    while cursor + HEADER_BYTES <= |archive|
      invariant ParseFrom(archive, 0, [ROOT_ENTRY]) == ParseFrom(archive, cursor, entries)
      invariant Orderly(entries)
      decreases |archive| - cursor
    {
      var parsed := ReadRecord(archive, cursor);
      match parsed {
        case Bad(error) => return Err(error);
        case Last => return Ok(entries);
        case More(e, next) =>
          RecordIsRooted(archive, cursor);
          AddedOrderly(entries, e);
          entries := AddEntry(entries, e);
          cursor := next;
      }
    }
    return Err(InvalidArchive);
  }

  method AddEntry(entries: seq<Entry>, e: Entry) returns (after: seq<Entry>)
    ensures after == Added(entries, e)
  {
    after := EnsureParentDirectories(entries, e.path);
    if e.directory {
      after := PushDirectory(after, e.path, e.mode);
    } else {
      after := after + [e];
    }
  }

  method ReadRecord(archive: seq<byte>, start: nat) returns (r: Parsed)
    requires start + HEADER_BYTES <= |archive|
    ensures r == ParsedAt(archive, start)
  {
    hide BodyAt, HexValue;
    var header := archive[start..start + HEADER_BYTES];
    var cursor := start + HEADER_BYTES;
    if header[..6] != NEWC_MAGIC && header[..6] != CRC_MAGIC {
      return Bad(InvalidArchive);
    }
    var mode := ParseHexU32(header[14..22]);
    var fileSize := ParseHexU32(header[54..62]);
    var nameSize := ParseHexU32(header[94..102]);
    if mode.None? || fileSize.None? || nameSize.None? {
      return Bad(InvalidArchive);
    }
    if nameSize.value == 0 || cursor + nameSize.value > |archive| {
      return Bad(InvalidArchive);
    }
    var name := archive[cursor..cursor + nameSize.value];
    cursor := Align4(cursor + nameSize.value);
    if cursor > |archive| || name[|name| - 1] != 0 {
      return Bad(InvalidArchive);
    }
    assert name[..|name| - 1] == archive[start + HEADER_BYTES..start + HEADER_BYTES + nameSize.value - 1];
    r := ReadBody(archive, Fields(mode.value, fileSize.value, nameSize.value), name[..|name| - 1], cursor);
  }

  method ReadBody(archive: seq<byte>, f: Fields, name: Text, at: nat) returns (r: Parsed)
    requires at <= |archive|
    ensures r == BodyAt(archive, f, name, at)
  {
    hide Normalized, Utf8;
    if !Utf8(name) {
      return Bad(InvalidEntryName);
    }
    if name == TRAILER {
      return Last;
    }
    var path := NormalizeArchivePath(name);
    if path.Err? {
      return Bad(path.error);
    }
    if at + f.fileSize > |archive| {
      return Bad(InvalidArchive);
    }
    var data := archive[at..at + f.fileSize];
    var cursor := Align4(at + f.fileSize);
    if cursor > |archive| {
      return Bad(InvalidArchive);
    }
    var directory := DirectoryMode(f.mode);
    return More(Entry(path.value, directory, f.mode, if directory then [] else data), cursor);
  }

  lemma {:induction false} RootIsOrderly()
    ensures Orderly([ROOT_ENTRY])
  {
    assert IsDirectory([ROOT_ENTRY][0], ROOT);
  }

  lemma {:induction false} RecordIsRooted(archive: seq<byte>, cursor: nat)
    requires cursor + HEADER_BYTES <= |archive| && ParsedAt(archive, cursor).More?
    ensures Rooted(ParsedAt(archive, cursor).entry.path)
  {
    hide HeaderFields, Utf8, TrimStart, TrimEnd;
  }

  // ----------------------------------------------------------------------- the printer

  /** A file or directory below the staging directory. */
  datatype Item = Item(path: Text, directory: bool, mode: nat, mtime: nat, data: seq<byte>)

  /** What the file system and the field widths of the format give. */
  predicate IsItem(it: Item) {
    && Relative(it.path) && Utf8(it.path)
    && (it.directory <==> DirectoryMode(it.mode)) && (it.directory ==> it.data == [])
    && it.mode < U32 && |it.data| < U32 && |it.path| + 3 < U32
  }

  function Zeros(n: nat): (z: seq<byte>)
    ensures |z| == n
  {
    seq(n, _ => 0)
  }

  function PadTo4(n: nat): (p: nat)
    ensures p < 4 && (n + p) % 4 == 0
  {
    (4 - n % 4) % 4
  }

  /** Thirteen fields of eight digits after the magic number. */
  function FieldText(values: seq<nat>): (text: Text)
    ensures |text| == 8 * |values|
  {
    if values == [] then [] else FieldText(values[..|values| - 1]) + Hex(values[|values| - 1] % U32, 8)
  }

  function HeaderText(ino: nat, mode: nat, nlink: nat, mtime: nat, fileSize: nat, nameSize: nat): (text: Text)
    ensures |text| == HEADER_BYTES
  {
    NEWC_MAGIC + FieldText([ino, mode, 0, 0, nlink, mtime, fileSize, 0, 0, 0, 0, nameSize, 0])
  }

  function NameText(name: Text): (text: Text) {
    name + [0] + Zeros(PadTo4(HEADER_BYTES + |name| + 1))
  }

  function DataText(data: seq<byte>): (text: Text) {
    data + Zeros(PadTo4(|data|))
  }

  function ItemName(it: Item): Text {
    [DOT, SLASH] + it.path
  }

  function ItemText(it: Item, ino: nat): (text: Text) {
    HeaderText(ino, it.mode, if it.directory then 2 else 1, it.mtime, |it.data|, |ItemName(it)| + 1)
      + NameText(ItemName(it)) + DataText(it.data)
  }

  function TrailerText(ino: nat): (text: Text) {
    HeaderText(ino, 0, 1, 0, 0, |TRAILER| + 1) + NameText(TRAILER)
  }

  /** Inode numbers count from one. */
  function ItemsText(items: seq<Item>): (text: Text) {
    if items == [] then [] else ItemsText(items[..|items| - 1]) + ItemText(items[|items| - 1], |items|)
  }

  function ArchiveText(items: seq<Item>): Text {
    ItemsText(items) + TrailerText(|items| + 1)
  }

  method PackCpio(items: seq<Item>) returns (out: Text)
    ensures out == ArchiveText(items)
  {
    hide ItemText, TrailerText;
    out := [];
    assert items[..0] == [];
    for i := 0 to |items|
      invariant out == ItemsText(items[..i])
    {
      assert items[..i + 1][..i] == items[..i];
      out := out + ItemText(items[i], i + 1);
    }
    assert items[..|items|] == items;
    out := out + TrailerText(|items| + 1);
  }

  // -------------------------------------------------------------- one record, both ways

  lemma {:induction false} FieldAt(values: seq<nat>, i: nat)
    requires i < |values|
    ensures FieldText(values)[8 * i..8 * i + 8] == Hex(values[i] % U32, 8)
  {
    hide Hex;
    var n := |values| - 1;
    if i < n {
      FieldAt(values[..n], i);
      assert FieldText(values)[8 * i..8 * i + 8] == FieldText(values[..n])[8 * i..8 * i + 8];
    }
  }

  lemma {:induction false} HeaderIsRead(ino: nat, mode: nat, nlink: nat, mtime: nat, fileSize: nat, nameSize: nat)
    requires mode < U32 && fileSize < U32 && nameSize < U32
    ensures HeaderFields(HeaderText(ino, mode, nlink, mtime, fileSize, nameSize)) == Some(Fields(mode, fileSize, nameSize))
  {
    hide Hex, HexValue, FieldText;
    var values := [ino, mode, 0, 0, nlink, mtime, fileSize, 0, 0, 0, 0, nameSize, 0];
    var text := HeaderText(ino, mode, nlink, mtime, fileSize, nameSize);
    assert text[..6] == NEWC_MAGIC;
    FieldInHeader(values, text, 1);
    FieldInHeader(values, text, 6);
    FieldInHeader(values, text, 11);
    HexRoundTrip8(mode);
    HexRoundTrip8(fileSize);
    HexRoundTrip8(nameSize);
  }

  lemma {:induction false} FieldInHeader(values: seq<nat>, text: Text, i: nat)
    requires i < |values| && text == NEWC_MAGIC + FieldText(values) && values[i] < U32
    ensures text[6 + 8 * i..6 + 8 * i + 8] == Hex(values[i], 8)
  {
    hide Hex, FieldText;
    FieldAt(values, i);
    assert text[6 + 8 * i..6 + 8 * i + 8] == FieldText(values)[8 * i..8 * i + 8];
  }

  /** The name of a record as the parser sees it, from a word boundary on. */
  lemma {:induction false} NameIsRead(archive: seq<byte>, cursor: nat, header: Text, f: Fields, name: Text)
    requires cursor % 4 == 0 && |header| == HEADER_BYTES && HeaderFields(header) == Some(f) && f.nameSize == |name| + 1
    requires StandsAt(archive, cursor, header + NameText(name))
    ensures ParsedAt(archive, cursor) == BodyAt(archive, f, name, cursor + |header + NameText(name)|)
  {
    hide HeaderFields, BodyAt;
    StandsInParts(archive, cursor, header, NameText(name));
    var at := cursor + HEADER_BYTES;
    StandsInParts(archive, at, name + [0], Zeros(PadTo4(HEADER_BYTES + |name| + 1)));
    StandsInParts(archive, at, name, [0]);
    assert archive[at + |name|..at + |name| + 1][0] == 0;
    Rounded(cursor, HEADER_BYTES + |name| + 1);
    NameLength(name);
    hide Align4, PadTo4, NameText;
  }

  lemma {:induction false} ItemNameIsUtf8(it: Item)
    requires IsItem(it)
    ensures Utf8(ItemName(it)) && ItemName(it) != TRAILER
  {
    var name := ItemName(it);
    assert name[1..] == [SLASH] + it.path && name[1..][1..] == it.path;
    assert Utf8(name[1..]);
    assert name[0] != TRAILER[0];
  }

  function EntryOf(it: Item): Entry {
    Entry(ROOT + [SLASH] + it.path, it.directory, it.mode, it.data)
  }

  lemma {:induction false} FoursAdd(a: nat, b: nat)
    requires a % 4 == 0 && b % 4 == 0
    ensures (a + b) % 4 == 0
  {
  }

  lemma {:induction false} Rounded(at: nat, n: nat)
    requires at % 4 == 0
    ensures Align4(at + n) == at + (n + PadTo4(n)) && (at + (n + PadTo4(n))) % 4 == 0
  {
  }

  lemma {:induction false} NameLength(name: Text)
    ensures HEADER_BYTES + |NameText(name)| == HEADER_BYTES + |name| + 1 + PadTo4(HEADER_BYTES + |name| + 1)
    ensures (HEADER_BYTES + |NameText(name)|) % 4 == 0
  {
  }

  lemma {:induction false} DataLength(data: seq<byte>)
    ensures |DataText(data)| == |data| + PadTo4(|data|) && |DataText(data)| % 4 == 0
  {
  }

  lemma {:induction false} ItemTextAligned(it: Item, ino: nat)
    ensures |ItemText(it, ino)| % 4 == 0
    ensures |ItemText(it, ino)| == HEADER_BYTES + |NameText(ItemName(it))| + |DataText(it.data)|
  {
    hide HeaderText, NameText, DataText;
    NameLength(ItemName(it));
    DataLength(it.data);
    FoursAdd(HEADER_BYTES + |NameText(ItemName(it))|, |DataText(it.data)|);
  }

  lemma {:induction false} ItemsTextAligned(items: seq<Item>)
    ensures |ItemsText(items)| % 4 == 0
  {
    hide ItemText;
    if items != [] {
      var n := |items| - 1;
      ItemsTextAligned(items[..n]);
      ItemTextAligned(items[n], |items|);
      FoursAdd(|ItemsText(items[..n])|, |ItemText(items[n], |items|)|);
    }
  }

  /** What follows the name of an item's record. */
  lemma {:induction false} BodyIsRead(archive: seq<byte>, at: nat, it: Item)
    requires IsItem(it) && at % 4 == 0 && StandsAt(archive, at, DataText(it.data))
    ensures BodyAt(archive, Fields(it.mode, |it.data|, |ItemName(it)| + 1), ItemName(it), at) ==
              if HasDotDot(it.path) then Bad(InvalidEntryName) else More(EntryOf(it), at + |DataText(it.data)|)
  {
    hide Utf8, Normalized, ItemName, HasDotDot;
    StandsInParts(archive, at, it.data, Zeros(PadTo4(|it.data|)));
    ItemNameIsUtf8(it);
    assert Normalized(ItemName(it)) == (if HasDotDot(it.path) then Err(InvalidEntryName) else Ok(ROOT + [SLASH] + it.path)) by {
      NormalizedItem(it);
    }
    Rounded(at, |it.data|);
    DataLength(it.data);
    hide Align4, PadTo4, DataText;
  }

  lemma {:induction false} NormalizedItem(it: Item)
    requires IsItem(it)
    ensures Normalized(ItemName(it)) == if HasDotDot(it.path) then Err(InvalidEntryName) else Ok(ROOT + [SLASH] + it.path)
  {
    hide Normalized;
    NormalizedName(it.path);
  }

  lemma {:induction false} ItemIsRead(archive: seq<byte>, cursor: nat, it: Item, ino: nat)
    requires IsItem(it) && cursor % 4 == 0 && StandsAt(archive, cursor, ItemText(it, ino))
    ensures cursor + HEADER_BYTES <= |archive|
    ensures ParsedAt(archive, cursor) ==
              if HasDotDot(it.path) then Bad(InvalidEntryName) else More(EntryOf(it), cursor + |ItemText(it, ino)|)
  {
    hide HeaderText, NameText, DataText, ParsedAt, BodyAt, Utf8, HeaderFields, HasDotDot, EntryOf;
    var name, nlink := ItemName(it), if it.directory then 2 else 1;
    var header := HeaderText(ino, it.mode, nlink, it.mtime, |it.data|, |name| + 1);
    HeaderIsRead(ino, it.mode, nlink, it.mtime, |it.data|, |name| + 1);
    StandsInParts(archive, cursor, header + NameText(name), DataText(it.data));
    NameIsRead(archive, cursor, header, Fields(it.mode, |it.data|, |name| + 1), name);
    NameLength(name);
    FoursAdd(cursor, HEADER_BYTES + |NameText(name)|);
    BodyIsRead(archive, cursor + |header + NameText(name)|, it);
  }

  lemma {:induction false} TrailerIsRead(archive: seq<byte>, cursor: nat, ino: nat)
    requires cursor % 4 == 0 && StandsAt(archive, cursor, TrailerText(ino))
    ensures cursor + HEADER_BYTES <= |archive| && ParsedAt(archive, cursor) == Last
  {
    hide HeaderText, NameText, ParsedAt, Normalized, HeaderFields, Utf8;
    var header := HeaderText(ino, 0, 1, 0, 0, |TRAILER| + 1);
    HeaderIsRead(ino, 0, 1, 0, 0, |TRAILER| + 1);
    NameIsRead(archive, cursor, header, Fields(0, 0, |TRAILER| + 1), TRAILER);
    TrailerIsUtf8();
  }

  lemma {:induction false} TrailerIsUtf8()
    ensures Utf8(TRAILER)
  {
    AsciiIsUtf8(TRAILER);
  }

  lemma {:induction false} AsciiIsUtf8(text: Text)
    requires forall i | 0 <= i < |text| :: text[i] < 0x80
    ensures Utf8(text)
  {
    if text != [] {
      AsciiIsUtf8(text[1..]);
    }
  }

  // ----------------------------------------------------------------- a tree of items

  /** Byte order, which is also the order of the decoded names. */
  predicate Less(a: Text, b: Text) {
    if b == [] then false
    else if a == [] then true
    else if a[0] != b[0] then a[0] < b[0]
    else Less(a[1..], b[1..])
  }

  lemma {:induction false} LessIsStrict(a: Text, b: Text)
    ensures !(Less(a, b) && Less(b, a)) && (a == b ==> !Less(a, b))
  {
    if a != [] && b != [] {
      LessIsStrict(a[1..], b[1..]);
    }
  }

  lemma {:induction false} PrefixIsLess(p: Text, i: nat)
    requires i < |p|
    ensures Less(p[..i], p)
  {
    if i > 0 {
      assert p[..i][1..] == p[1..][..i - 1];
      PrefixIsLess(p[1..], i - 1);
    }
  }

  predicate Sorted(items: seq<Item>) {
    forall i, j | 0 <= i < j < |items| :: Less(items[i].path, items[j].path)
  }

  ghost predicate ParentIsItem(items: seq<Item>, path: Text, i: nat)
    requires i < |path|
  {
    path[i] == SLASH ==> exists j :: 0 <= j < |items| && items[j].directory && items[j].path == path[..i]
  }

  /** Everything below a directory, directories included, in sorted order. */
  ghost predicate Tree(items: seq<Item>) {
    && Sorted(items)
    && (forall k | 0 <= k < |items| :: IsItem(items[k]))
    && forall k, i | 0 <= k < |items| && 0 <= i < |items[k].path| :: ParentIsItem(items, items[k].path, i)
  }

  /** A directory of the tree comes before everything in it. */
  lemma {:induction false} ParentComesFirst(items: seq<Item>, k: nat, i: nat)
    requires Tree(items) && k < |items| && i < |items[k].path| && items[k].path[i] == SLASH
    ensures exists j :: 0 <= j < k && items[j].directory && items[j].path == items[k].path[..i]
  {
    hide Less, IsItem;
    assert ParentIsItem(items, items[k].path, i);
    var j :| 0 <= j < |items| && items[j].directory && items[j].path == items[k].path[..i];
    PrefixIsLess(items[k].path, i);
    LessIsStrict(items[j].path, items[k].path);
    assert j != k;
  }

  // ------------------------------------------------------- what adding an item changes

  predicate IsAbove(parent: Text, path: Text) {
    Above(path, |parent|) && path[..|parent|] == parent
  }

  function ResetMode(e: Entry, path: Text, n: nat): Entry {
    if e.directory && |e.path| < n && IsAbove(e.path, path) then e.(mode := DEFAULT_DIRECTORY_MODE) else e
  }

  /** The directories above a path, up to index n, have their mode set back to the default. */
  function Reset(entries: seq<Entry>, path: Text, n: nat): (after: seq<Entry>)
    ensures |after| == |entries| && forall j | 0 <= j < |entries| :: after[j] == ResetMode(entries[j], path, n)
  {
    seq(|entries|, j requires 0 <= j < |entries| => ResetMode(entries[j], path, n))
  }

  lemma {:induction false} PresentParentsAreReset(entries: seq<Entry>, path: Text, n: nat)
    requires DirectoriesDistinct(entries) && n <= |path| && ParentsPresentBelow(entries, path, n)
    ensures WithParents(entries, path, n) == Reset(entries, path, n)
  {
    hide Reset, WithDirectory;
    if n > |ROOT| + 1 {
      PresentParentsAreReset(entries, path, n - 1);
      if path[n - 1] == SLASH {
        assert Above(path, n - 1);
        OneParentReset(entries, path, n - 1);
      } else {
        assert Reset(entries, path, n) == Reset(entries, path, n - 1);
      }
    } else {
      assert Reset(entries, path, n) == entries;
    }
  }

  lemma {:induction false} OneParentReset(entries: seq<Entry>, path: Text, i: nat)
    requires DirectoriesDistinct(entries) && Above(path, i) && HasDirectory(entries, path[..i])
    ensures WithDirectory(Reset(entries, path, i), path[..i], DEFAULT_DIRECTORY_MODE) == Reset(entries, path, i + 1)
  {
    var before, after := Reset(entries, path, i), Reset(entries, path, i + 1);
    var k :| 0 <= k < |entries| && IsDirectory(entries[k], path[..i]);
    assert IsDirectory(before[k], path[..i]);
    var at := FindDirectory(before, path[..i], 0);
    assert entries[at].directory && entries[at].path == path[..i];
    assert at == k;
    forall j | 0 <= j < |entries|
      ensures after[j] == if j == at then before[j].(mode := DEFAULT_DIRECTORY_MODE) else before[j]
    {
      if j != at && entries[j].directory {
        assert entries[j].path != path[..i];
      }
    }
  }

  function ItemPath(it: Item): Text {
    ROOT + [SLASH] + it.path
  }

  /** What the parser should find: the root and the items, with the modes of inner directories reset. */
  function Expected(items: seq<Item>): seq<Entry> {
    if items == [] then [ROOT_ENTRY] else
    var last := items[|items| - 1];
    Reset(Expected(items[..|items| - 1]), ItemPath(last), |ItemPath(last)|) + [EntryOf(last)]
  }

  /** The entries are the root and the items in order, with the same path, kind, data and file mode. */
  lemma {:induction false} ExpectedIsTheItems(items: seq<Item>)
    ensures |Expected(items)| == |items| + 1 && Expected(items)[0] == ROOT_ENTRY
    ensures forall j | 0 <= j < |items| ::
              var e := Expected(items)[j + 1];
              && e.path == ItemPath(items[j]) && e.directory == items[j].directory && e.data == items[j].data
              && (!e.directory ==> e.mode == items[j].mode)
  {
    if items != [] {
      ExpectedIsTheItems(items[..|items| - 1]);
      assert forall j | 0 <= j < |items| - 1 :: items[..|items| - 1][j] == items[j];
    }
  }

  ghost predicate HasLater(items: seq<Item>, j: nat)
    requires j < |items|
  {
    exists m :: j < m < |items| && IsAbove(ItemPath(items[j]), ItemPath(items[m]))
  }

  /** A directory keeps its own mode unless something in it follows, which sets the default. */
  lemma {:induction false} ExpectedDirectoryMode(items: seq<Item>, j: nat)
    requires j < |items| && items[j].directory
    ensures |Expected(items)| == |items| + 1
    ensures Expected(items)[j + 1].mode == if HasLater(items, j) then DEFAULT_DIRECTORY_MODE else items[j].mode
  {
    hide IsAbove;
    ExpectedIsTheItems(items);
    var n := |items| - 1;
    var front, path := items[..n], ItemPath(items[n]);
    ExpectedIsTheItems(front);
    if j < n {
      ExpectedDirectoryMode(front, j);
      assert front[j] == items[j];
      assert Expected(items)[j + 1] == ResetMode(Expected(front)[j + 1], path, |path|);
      AboveIsShorter(ItemPath(items[j]), path);
      if HasLater(front, j) {
        var m :| j < m < |front| && IsAbove(ItemPath(front[j]), ItemPath(front[m]));
        assert IsAbove(ItemPath(items[j]), ItemPath(items[m]));
      }
    }
  }

  lemma {:induction false} AboveIsShorter(parent: Text, path: Text)
    ensures IsAbove(parent, path) ==> |parent| < |path|
  {
  }

  lemma {:induction false} ParentsAreThere(items: seq<Item>, k: nat)
    requires Tree(items) && k < |items|
    ensures ParentsPresent(Expected(items[..k]), ItemPath(items[k]))
  {
    hide Less, IsItem, Expected;
    var front, path := items[..k], ItemPath(items[k]);
    ExpectedIsTheItems(front);
    forall i: nat | Above(path, i)
      ensures HasDirectory(Expected(front), path[..i])
    {
      assert IsItem(items[k]);
      PathBelowRoot(items[k], i);
      ParentComesFirst(items, k, i - |ROOT| - 1);
      var j :| 0 <= j < k && items[j].directory && items[j].path == items[k].path[..i - |ROOT| - 1];
      assert front[j] == items[j];
      assert IsDirectory(Expected(front)[j + 1], path[..i]);
    }
  }

  lemma {:induction false} PathBelowRoot(it: Item, i: nat)
    requires IsItem(it) && Above(ItemPath(it), i)
    ensures |ROOT| + 1 <= i && i - |ROOT| - 1 < |it.path| && it.path[i - |ROOT| - 1] == SLASH
    ensures ItemPath(it)[..i] == ROOT + [SLASH] + it.path[..i - |ROOT| - 1]
  {
  }

  lemma {:induction false} PathIsNew(items: seq<Item>, k: nat)
    requires Tree(items) && k < |items|
    ensures !HasDirectory(Expected(items[..k]), ItemPath(items[k]))
  {
    hide Less, IsItem, Expected;
    var front, path := items[..k], ItemPath(items[k]);
    ExpectedIsTheItems(front);
    forall j | 0 <= j < |Expected(front)|
      ensures Expected(front)[j].path != path
    {
      if j > 0 {
        assert front[j - 1] == items[j - 1];
        LessIsStrict(items[j - 1].path, items[k].path);
        SamePathSameItem(items[j - 1], items[k]);
      }
    }
  }

  lemma {:induction false} SamePathSameItem(a: Item, b: Item)
    ensures ItemPath(a) == ItemPath(b) ==> a.path == b.path
  {
    assert ItemPath(a)[|ROOT| + 1..] == a.path && ItemPath(b)[|ROOT| + 1..] == b.path;
  }

  lemma {:induction false} AddingGivesExpected(items: seq<Item>, k: nat)
    requires Tree(items) && k < |items| && Orderly(Expected(items[..k]))
    ensures Added(Expected(items[..k]), EntryOf(items[k])) == Expected(items[..k + 1])
  {
    hide Less, IsItem, WithParents, Reset;
    var es, it := Expected(items[..k]), items[k];
    var path := ItemPath(it);
    ParentsAreThere(items, k);
    PresentParentsAreReset(es, path, |path|);
    PathIsNew(items, k);
    var ready := Reset(es, path, |path|);
    assert items[..k + 1][..k] == items[..k];
    if it.directory {
      StillNew(es, ready, path);
      assert it.data == [] by { DirectoriesHaveNoData(items, k); }
    }
  }

  lemma {:induction false} DirectoriesHaveNoData(items: seq<Item>, k: nat)
    requires Tree(items) && k < |items| && items[k].directory
    ensures items[k].data == []
  {
    hide Less;
    assert IsItem(items[k]);
  }

  lemma {:induction false} StillNew(es: seq<Entry>, ready: seq<Entry>, path: Text)
    requires ready == Reset(es, path, |path|) && !HasDirectory(es, path)
    ensures FindDirectory(ready, path, 0) == |ready|
  {
    forall j | 0 <= j < |ready|
      ensures !IsDirectory(ready[j], path)
    {
      assert !IsDirectory(es[j], path);
    }
  }

  lemma {:induction false} ExpectedIsOrderly(items: seq<Item>, k: nat)
    requires Tree(items) && k <= |items|
    ensures Orderly(Expected(items[..k]))
  {
    hide Tree, Orderly, Expected;
    if k == 0 {
      assert Expected(items[..0]) == [ROOT_ENTRY] by { ExpectedOfNothing(items); }
      RootIsOrderly();
    } else {
      ExpectedIsOrderly(items, k - 1);
      AddingGivesExpected(items, k - 1);
      AddedOrderly(Expected(items[..k - 1]), EntryOf(items[k - 1]));
    }
  }

  lemma {:induction false} ExpectedOfNothing(items: seq<Item>)
    ensures Expected(items[..0]) == [ROOT_ENTRY] && ItemsText(items[..0]) == []
  {
    assert items[..0] == [];
  }

  // ------------------------------------------------------------------- the round trip

  lemma {:induction false} RecordStands(items: seq<Item>, k: nat)
    requires k < |items|
    ensures StandsAt(ArchiveText(items), |ItemsText(items[..k])|, ItemText(items[k], k + 1))
    ensures |ItemsText(items[..k + 1])| == |ItemsText(items[..k])| + |ItemText(items[k], k + 1)|
  {
    hide ItemText, TrailerText;
    var before, record := ItemsText(items[..k]), ItemText(items[k], k + 1);
    assert items[..k + 1][..k] == items[..k];
    assert ItemsText(items[..k + 1]) == before + record;
    TextIsPrefix(items, k + 1);
    var archive := ArchiveText(items);
    assert before + record <= archive;
    assert archive[|before|..|before| + |record|] == (before + record)[|before|..];
  }

  lemma {:induction false} TextIsPrefix(items: seq<Item>, k: nat)
    requires k <= |items|
    ensures ItemsText(items[..k]) <= ItemsText(items) <= ArchiveText(items)
    decreases |items| - k
  {
    hide ItemText, TrailerText;
    if k == |items| {
      assert items[..k] == items;
    } else {
      assert items[..k + 1][..k] == items[..k];
      TextIsPrefix(items, k + 1);
      assert ItemsText(items[..k]) <= ItemsText(items[..k + 1]);
    }
  }

  /** After k records without "..", the parser stands behind them with exactly what they describe. */
  lemma {:induction false} ParserReaches(items: seq<Item>, k: nat)
    requires Tree(items) && k <= |items| && forall i | 0 <= i < k :: !HasDotDot(items[i].path)
    ensures ParseFrom(ArchiveText(items), 0, [ROOT_ENTRY]) ==
              ParseFrom(ArchiveText(items), |ItemsText(items[..k])|, Expected(items[..k]))
  {
    hide Tree, HasDotDot, Expected, ArchiveText, ItemsText, ItemText, ParsedAt, Added, EntryOf;
    if k == 0 {
      ExpectedOfNothing(items);
    } else {
      ParserReaches(items, k - 1);
      NextRecord(items, k - 1);
    }
  }

  lemma {:induction false} NextRecord(items: seq<Item>, k: nat)
    requires Tree(items) && k < |items|
    ensures var archive, cursor := ArchiveText(items), |ItemsText(items[..k])|;
            ParseFrom(archive, cursor, Expected(items[..k])) ==
              if HasDotDot(items[k].path) then Err(InvalidEntryName)
              else ParseFrom(archive, |ItemsText(items[..k + 1])|, Expected(items[..k + 1]))
  {
    hide Tree, HasDotDot, Expected, ArchiveText, ItemsText, ItemText, ParsedAt, Added, EntryOf;
    var cursor := |ItemsText(items[..k])|;
    ItemsTextAligned(items[..k]);
    RecordStands(items, k);
    TreeHasItem(items, k);
    ItemIsRead(ArchiveText(items), cursor, items[k], k + 1);
    ExpectedIsOrderly(items, k);
    AddingGivesExpected(items, k);
  }

  lemma {:induction false} TreeHasItem(items: seq<Item>, k: nat)
    requires Tree(items) && k < |items|
    ensures IsItem(items[k])
  {
  }

  /** Packing and parsing a tree gives the root and the items, if no path contains "..". */
  lemma {:induction false} RoundTrip(items: seq<Item>)
    requires Tree(items) && forall i | 0 <= i < |items| :: !HasDotDot(items[i].path)
    ensures ParseFrom(ArchiveText(items), 0, [ROOT_ENTRY]) == Ok(Expected(items))
  {
    hide Tree, HasDotDot, Expected, ItemsText, TrailerText, ParsedAt;
    ParserReaches(items, |items|);
    assert items[..|items|] == items;
    ItemsTextAligned(items);
    var cursor := |ItemsText(items)|;
    assert StandsAt(ArchiveText(items), cursor, TrailerText(|items| + 1));
    TrailerIsRead(ArchiveText(items), cursor, |items| + 1);
  }

  /** One path with ".." anywhere in it, even in a file name, makes the whole archive unreadable. */
  lemma {:induction false} DotDotIsRefused(items: seq<Item>, k: nat)
    requires Tree(items) && k < |items| && HasDotDot(items[k].path)
    ensures ParseFrom(ArchiveText(items), 0, [ROOT_ENTRY]) == Err(InvalidEntryName)
  {
    hide Tree, HasDotDot, Expected, ArchiveText, ItemsText;
    if j :| 0 <= j < k && HasDotDot(items[j].path) {
      DotDotIsRefused(items, j);
    } else {
      ParserReaches(items, k);
      NextRecord(items, k);
    }
  }

  /** A plain file named "a..b", as the build script may well collect it. */
  const DOTTED_FILE := Item([97, DOT, DOT, 98], false, 0x81a4, 0, [104, 105])

  lemma {:induction false} DottedPath()
    ensures HasDotDot(DOTTED_FILE.path) && Utf8(DOTTED_FILE.path)
  {
    var path := DOTTED_FILE.path;
    assert path[1] == DOT && path[2] == DOT;
    assert path[1..] == [DOT, DOT, 98] && [DOT, DOT, 98][1..] == [DOT, 98] && [DOT, 98][1..] == [98] && [98][1..] == [];
    assert Utf8([98]);
    assert Utf8([DOT, 98]);
    assert Utf8([DOT, DOT, 98]);
  }

  /** Such a tree exists: one file with two dots inside its name, which leads nowhere. */
  lemma {:induction false} DottedFileIsRefused()
    ensures Tree([DOTTED_FILE])
    ensures ParseFrom(ArchiveText([DOTTED_FILE]), 0, [ROOT_ENTRY]) == Err(InvalidEntryName)
  {
    hide Utf8, HasDotDot, ArchiveText, ParseFrom;
    DottedPath();
    assert IsItem(DOTTED_FILE);
    assert Tree([DOTTED_FILE]);
    DotDotIsRefused([DOTTED_FILE], 0);
  }
}
