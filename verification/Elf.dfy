/**
 ELF64 images: reading the headers, planning the load segments, and activating the plan
 at its user addresses.
 */
module Elf {
  import opened Bytes
  import opened PageTables
  import opened UserMapping
  import opened Loader

  const EHDR_BYTES: nat := 64
  const PHDR_BYTES: nat := 56
  const MAX_HEADERS: nat := 256
  const PT_LOAD: nat := 1

  datatype ParseError =
    | Truncated | UnsupportedClass | UnsupportedEndianness | UnsupportedVersion | InvalidHeader
    | TooManyProgramHeaders | InvalidProgramHeaderTable | ProgramHeaderOutOfBounds
    | SegmentOutOfBounds | InvalidSegmentSize | SegmentAddressOverflow

  datatype Header = Header(kind: nat, flags: nat, offset: nat, address: nat, fileSize: nat, memorySize: nat)
  datatype Image = Image(imageType: nat, machine: nat, entry: nat, headers: seq<Header>)

  // ------------------------------------------------------------------------- parsing

  function HeaderAt(image: seq<byte>, at: nat): (h: Header)
    requires at + PHDR_BYTES <= |image|
    ensures h.offset < WORD && h.address < WORD && h.fileSize < WORD && h.memorySize < WORD
  {
    Header(ReadLe32(image, at), ReadLe32(image, at + 4), ReadLe64(image, at + 8), ReadLe64(image, at + 16),
           ReadLe64(image, at + 32), ReadLe64(image, at + 40))
  }

  /** The first objection to a header, in the order the parser raises them. */
  function Objection(h: Header, imageBytes: nat): Option<ParseError> {
    if h.fileSize > h.memorySize then Some(InvalidSegmentSize)
    else if h.fileSize > 0 && (h.offset + h.fileSize >= WORD || h.offset + h.fileSize > imageBytes) then Some(SegmentOutOfBounds)
    else if h.memorySize > 0 && h.address + h.memorySize >= WORD then Some(SegmentAddressOverflow)
    else None
  }

  /** What an accepted header promises. */
  predicate Sound(h: Header, imageBytes: nat) {
    && h.fileSize <= h.memorySize
    && (h.fileSize > 0 ==> h.offset + h.fileSize <= imageBytes)
    && h.address < WORD && h.offset < WORD && h.address + h.memorySize < WORD
  }

  lemma {:induction false} NoObjectionIsSound(image: seq<byte>, at: nat)
    requires at + PHDR_BYTES <= |image| && Objection(HeaderAt(image, at), |image|).None?
    ensures Sound(HeaderAt(image, at), |image|)
  {
  }

  function EntryOffset(table: nat, size: nat, k: nat): nat {
    table + k * size
  }

  lemma {:induction false} EntryInTable(table: nat, size: nat, count: nat, k: nat, imageBytes: nat)
    requires k < count && PHDR_BYTES <= size && table + size * count <= imageBytes
    ensures EntryOffset(table, size, k) + PHDR_BYTES <= imageBytes
  {
    assert (k + 1) * size <= count * size;
  }

  predicate HeaderRead(image: seq<byte>, at: nat, h: Header) {
    at + PHDR_BYTES <= |image| && h == HeaderAt(image, at) && Sound(h, |image|)
  }

  predicate HeadersRead(image: seq<byte>, table: nat, size: nat, headers: seq<Header>) {
    forall k | 0 <= k < |headers| :: HeaderRead(image, EntryOffset(table, size, k), headers[k])
  }

  /** The file header's fields that locate the program headers. */
  function TableOf(image: seq<byte>): nat
    requires |image| >= EHDR_BYTES
  {
    ReadLe64(image, 32)
  }

  function EntrySizeOf(image: seq<byte>): nat
    requires |image| >= EHDR_BYTES
  {
    ReadLe16(image, 54)
  }

  function CountOf(image: seq<byte>): nat
    requires |image| >= EHDR_BYTES
  {
    ReadLe16(image, 56)
  }

  /** The file header is that of a little-endian 64-bit image whose header table lies inside it. */
  predicate FileHeaderOk(image: seq<byte>) {
    && |image| >= EHDR_BYTES && image[4] == 2 && image[5] == 1 && image[6] == 1
    && ReadLe16(image, 52) == EHDR_BYTES && ReadLe32(image, 20) == 1
    && CountOf(image) <= MAX_HEADERS
    && (CountOf(image) > 0 ==>
          EntrySizeOf(image) >= PHDR_BYTES && TableOf(image) + EntrySizeOf(image) * CountOf(image) <= |image|)
  }

  /** The first objection to the file header, in the order the parser raises them. */
  function FileHeaderObjection(image: seq<byte>): Option<ParseError> {
    if |image| < EHDR_BYTES then Some(Truncated)
    else if image[4] != 2 then Some(UnsupportedClass)
    else if image[5] != 1 then Some(UnsupportedEndianness)
    else if image[6] != 1 then Some(UnsupportedVersion)
    else if ReadLe16(image, 52) != EHDR_BYTES then Some(InvalidHeader)
    else if ReadLe32(image, 20) != 1 then Some(UnsupportedVersion)
    else if CountOf(image) > MAX_HEADERS then Some(TooManyProgramHeaders)
    else if CountOf(image) == 0 then None
    else if EntrySizeOf(image) < PHDR_BYTES || TableOf(image) + EntrySizeOf(image) * CountOf(image) >= WORD
    then Some(InvalidProgramHeaderTable)
    else if TableOf(image) + EntrySizeOf(image) * CountOf(image) > |image| then Some(ProgramHeaderOutOfBounds)
    else None
  }

  lemma {:induction false} NoObjectionIffOk(image: seq<byte>)
    requires |image| < WORD
    ensures FileHeaderObjection(image).None? <==> FileHeaderOk(image)
  {
    hide ReadLe16, ReadLe32, ReadLe64;
  }

  predicate Objects(image: seq<byte>, table: nat, size: nat, k: nat, error: ParseError) {
    && EntryOffset(table, size, k) + PHDR_BYTES <= |image|
    && Objection(HeaderAt(image, EntryOffset(table, size, k)), |image|) == Some(error)
  }

  /** Header k meets the objection, and the headers before it are in order. */
  predicate FirstToObject(image: seq<byte>, table: nat, size: nat, k: nat, e: ParseError) {
    Objects(image, table, size, k, e) && forall j | 0 <= j < k :: SoundEntry(image, EntryOffset(table, size, j))
  }

  predicate SoundEntry(image: seq<byte>, at: nat) {
    at + PHDR_BYTES <= |image| && Sound(HeaderAt(image, at), |image|)
  }

  /** Reads the headers up to the first one with an objection. */
  method ReadHeaders(image: seq<byte>, table: nat, size: nat, count: nat) returns (headers: seq<Header>, objection: Option<ParseError>)
    requires count > 0 ==> size >= PHDR_BYTES && table + size * count <= |image|
    ensures HeadersRead(image, table, size, headers)
    ensures objection.None? <==> |headers| == count
    ensures objection.Some? ==> |headers| < count && FirstToObject(image, table, size, |headers|, objection.value)
  {
    hide EntryOffset, HeaderAt, Objection;
    headers := [];
    for k := 0 to count
      invariant |headers| == k && HeadersRead(image, table, size, headers)
    {
      EntryInTable(table, size, count, k, |image|);
      var at := EntryOffset(table, size, k);
      var h := HeaderAt(image, at);
      objection := Objection(h, |image|);
      if objection.Some? {
        return;
      }
      NoObjectionIsSound(image, at);
      headers := headers + [h];
    }
    objection := None;
  }

  /**
   An image is accepted exactly when its file header is in order and no program header
   meets an objection; the headers come out in table order, all sound.
   */
  method ParseElf64(image: seq<byte>) returns (r: Result<Image, ParseError>)
    requires |image| < WORD
    ensures r.Ok? ==> FileHeaderOk(image) && |r.value.headers| == CountOf(image)
    ensures r.Ok? ==> HeadersRead(image, TableOf(image), EntrySizeOf(image), r.value.headers)
    ensures r.Ok? ==> r.value.entry == ReadLe64(image, 24) && r.value.machine == ReadLe16(image, 18)
    ensures r.Ok? ==> r.value.imageType == ReadLe16(image, 16)
    ensures FileHeaderObjection(image).Some? ==> r == Err(FileHeaderObjection(image).value)
    ensures r.Err? && FileHeaderOk(image) ==>
              exists k :: 0 <= k < CountOf(image) && FirstToObject(image, TableOf(image), EntrySizeOf(image), k, r.error)
  {
    hide EntryOffset, HeaderAt, ReadLe16, ReadLe32, ReadLe64;
    NoObjectionIffOk(image);
    if |image| < EHDR_BYTES {
      return Err(Truncated);
    }
    if image[4] != 2 {
      return Err(UnsupportedClass);
    }
    if image[5] != 1 {
      return Err(UnsupportedEndianness);
    }
    if image[6] != 1 {
      return Err(UnsupportedVersion);
    }
    if ReadLe16(image, 52) != EHDR_BYTES {
      return Err(InvalidHeader);
    }
    if ReadLe32(image, 20) != 1 {
      return Err(UnsupportedVersion);
    }
    var table, size, count := ReadLe64(image, 32), ReadLe16(image, 54), ReadLe16(image, 56);
    if count > MAX_HEADERS {
      return Err(TooManyProgramHeaders);
    }
    if count > 0 {
      if size < PHDR_BYTES || table + size * count >= WORD {
        return Err(InvalidProgramHeaderTable);
      }
      if table + size * count > |image| {
        return Err(ProgramHeaderOutOfBounds);
      }
    }
    var headers, objection := ReadHeaders(image, table, size, count);
    if objection.Some? {
      return Err(objection.value);
    }
    return Ok(Image(ReadLe16(image, 16), ReadLe16(image, 18), ReadLe64(image, 24), headers));
  }

  // ------------------------------------------------------------------- printed headers

  /** The fields of an ELF64 file header (System V gABI, chapter 4); `pad` ends the identification, `tail` is about sections. */
  datatype FileFields = FileFields(
    pad: seq<byte>, imageType: nat, machine: nat, entry: nat, table: nat, sections: nat, flags: nat, size: nat, tail: seq<byte>)

  /** The fields of a program header (System V gABI, chapter 5), in their order. */
  datatype SegmentFields = SegmentFields(
    kind: nat, flags: nat, offset: nat, virtualAddress: nat, physicalAddress: nat, fileSize: nat, memorySize: nat, alignment: nat)

  predicate FileFieldsFit(f: FileFields) {
    && |f.pad| == 9 && |f.tail| == 6 && f.imageType < 0x1_0000 && f.machine < 0x1_0000 && f.size < 0x1_0000
    && f.entry < WORD && f.table < WORD && f.sections < WORD && f.flags < 0x1_0000_0000
  }

  predicate SegmentFieldsFit(f: SegmentFields) {
    && f.kind < 0x1_0000_0000 && f.flags < 0x1_0000_0000 && f.offset < WORD && f.virtualAddress < WORD
    && f.physicalAddress < WORD && f.fileSize < WORD && f.memorySize < WORD && f.alignment < WORD
  }

  const IDENTIFICATION: seq<byte> := [0x7f, 69, 76, 70, 2, 1, 1]

  function FileHeaderText(f: FileFields, count: nat): (text: seq<byte>)
    requires FileFieldsFit(f)
    ensures |text| == EHDR_BYTES
  {
    IDENTIFICATION + (f.pad + (Le16(f.imageType) + (Le16(f.machine) + (Le32(1) + (Le64(f.entry) + (Le64(f.table) + (Le64(f.sections)
      + (Le32(f.flags) + (Le16(EHDR_BYTES) + (Le16(f.size) + (Le16(count) + f.tail)))))))))))
  }

  function ProgramHeaderText(f: SegmentFields): (text: seq<byte>)
    ensures |text| == PHDR_BYTES
  {
    Le32(f.kind) + (Le32(f.flags) + (Le64(f.offset) + (Le64(f.virtualAddress) + (Le64(f.physicalAddress)
      + (Le64(f.fileSize) + (Le64(f.memorySize) + Le64(f.alignment)))))))
  }

  function HeaderOf(f: SegmentFields): Header {
    Header(f.kind, f.flags, f.offset, f.virtualAddress, f.fileSize, f.memorySize)
  }

  /** A printed program header reads back, wherever it stands and whatever surrounds it. */
  lemma {:induction false} ProgramHeaderReadsBack(image: seq<byte>, at: nat, f: SegmentFields)
    requires SegmentFieldsFit(f) && StandsAt(image, at, ProgramHeaderText(f))
    ensures at + PHDR_BYTES <= |image| && HeaderAt(image, at) == HeaderOf(f)
  {
    hide Le32, Le64, ReadLe32, ReadLe64, StandsAt;
    var h := Le64(f.alignment);
    var g := Le64(f.memorySize) + h;
    var e := Le64(f.fileSize) + g;
    var d := Le64(f.physicalAddress) + e;
    var c := Le64(f.virtualAddress) + d;
    var b := Le64(f.offset) + c;
    var a := Le32(f.flags) + b;
    StandsInParts(image, at, Le32(f.kind), a);
    ReadStanding32(image, at, f.kind);
    StandsInParts(image, at + 4, Le32(f.flags), b);
    ReadStanding32(image, at + 4, f.flags);
    StandsInParts(image, at + 8, Le64(f.offset), c);
    ReadStanding64(image, at + 8, f.offset);
    StandsInParts(image, at + 16, Le64(f.virtualAddress), d);
    ReadStanding64(image, at + 16, f.virtualAddress);
    StandsInParts(image, at + 24, Le64(f.physicalAddress), e);
    StandsInParts(image, at + 32, Le64(f.fileSize), g);
    ReadStanding64(image, at + 32, f.fileSize);
    StandsInParts(image, at + 40, Le64(f.memorySize), h);
    ReadStanding64(image, at + 40, f.memorySize);
    ReadStanding64(image, at + 48, f.alignment);
  }

  /** So does a printed file header. */
  lemma {:induction false} FileHeaderReadsBack(image: seq<byte>, f: FileFields, count: nat)
    requires FileFieldsFit(f) && count < 0x1_0000 && StandsAt(image, 0, FileHeaderText(f, count))
    ensures |image| >= EHDR_BYTES && image[4] == 2 && image[5] == 1 && image[6] == 1
    ensures ReadLe16(image, 16) == f.imageType && ReadLe16(image, 18) == f.machine && ReadLe32(image, 20) == 1
    ensures ReadLe64(image, 24) == f.entry && TableOf(image) == f.table
    ensures ReadLe16(image, 52) == EHDR_BYTES && EntrySizeOf(image) == f.size && CountOf(image) == count
  {
    hide Le16, Le32, Le64, ReadLe16, ReadLe32, ReadLe64, StandsAt;
    var k := Le16(count) + f.tail;
    var j := Le16(f.size) + k;
    var i := Le16(EHDR_BYTES) + j;
    var h := Le32(f.flags) + i;
    var g := Le64(f.sections) + h;
    var e := Le64(f.table) + g;
    var d := Le64(f.entry) + e;
    var c := Le32(1) + d;
    var b := Le16(f.machine) + c;
    var a := Le16(f.imageType) + b;
    StandsInParts(image, 0, IDENTIFICATION, f.pad + a);
    IdentificationStands(image);
    StandsInParts(image, 7, f.pad, a);
    StandsInParts(image, 16, Le16(f.imageType), b);
    ReadStanding16(image, 16, f.imageType);
    StandsInParts(image, 18, Le16(f.machine), c);
    ReadStanding16(image, 18, f.machine);
    StandsInParts(image, 20, Le32(1), d);
    ReadStanding32(image, 20, 1);
    StandsInParts(image, 24, Le64(f.entry), e);
    ReadStanding64(image, 24, f.entry);
    StandsInParts(image, 32, Le64(f.table), g);
    ReadStanding64(image, 32, f.table);
    StandsInParts(image, 40, Le64(f.sections), h);
    StandsInParts(image, 48, Le32(f.flags), i);
    LaterHalves(image, f, count);
  }

  lemma {:induction false} LaterHalves(image: seq<byte>, f: FileFields, count: nat)
    requires FileFieldsFit(f) && count < 0x1_0000
    requires StandsAt(image, 52, Le16(EHDR_BYTES) + (Le16(f.size) + (Le16(count) + f.tail)))
    ensures |image| >= EHDR_BYTES
    ensures ReadLe16(image, 52) == EHDR_BYTES && ReadLe16(image, 54) == f.size && ReadLe16(image, 56) == count
  {
    hide Le16, ReadLe16;
    StandsInParts(image, 52, Le16(EHDR_BYTES), Le16(f.size) + (Le16(count) + f.tail));
    ReadStanding16(image, 52, EHDR_BYTES);
    StandsInParts(image, 54, Le16(f.size), Le16(count) + f.tail);
    ReadStanding16(image, 54, f.size);
    StandsInParts(image, 56, Le16(count), f.tail);
    ReadStanding16(image, 56, count);
  }

  lemma {:induction false} IdentificationStands(image: seq<byte>)
    requires StandsAt(image, 0, IDENTIFICATION)
    ensures |image| >= 7 && image[4] == 2 && image[5] == 1 && image[6] == 1
  {
    var slice := image[0..7];
    assert slice[4] == image[4] && slice[5] == image[5] && slice[6] == image[6];
  }

  /** The file holds these headers: the file header first, the program headers where it says. */
  predicate Printed(image: seq<byte>, f: FileFields, segments: seq<SegmentFields>) {
    && FileFieldsFit(f) && |segments| <= MAX_HEADERS && StandsAt(image, 0, FileHeaderText(f, |segments|))
    && (segments != [] ==> f.size >= PHDR_BYTES && f.table + f.size * |segments| <= |image|)
    && forall k | 0 <= k < |segments| ::
         SegmentFieldsFit(segments[k]) && StandsAt(image, f.table + k * f.size, ProgramHeaderText(segments[k]))
  }

  lemma {:induction false} PrintedHeadersRead(image: seq<byte>, f: FileFields, segments: seq<SegmentFields>, k: nat)
    requires Printed(image, f, segments) && k < |segments|
    ensures EntryOffset(f.table, f.size, k) + PHDR_BYTES <= |image|
    ensures HeaderAt(image, EntryOffset(f.table, f.size, k)) == HeaderOf(segments[k])
  {
    hide FileHeaderText, ProgramHeaderText, HeaderAt, StandsAt;
    ProgramHeaderReadsBack(image, f.table + k * f.size, segments[k]);
  }

  /** What was printed is what is parsed, and it is refused exactly for an unsound program header. */
  method ParsePrinted(image: seq<byte>, ghost f: FileFields, ghost segments: seq<SegmentFields>) returns (r: Result<Image, ParseError>)
    requires |image| < WORD && Printed(image, f, segments)
    ensures r.Ok? <==> forall k | 0 <= k < |segments| :: Objection(HeaderOf(segments[k]), |image|).None?
    ensures r.Ok? ==> r.value.imageType == f.imageType && r.value.machine == f.machine && r.value.entry == f.entry
    ensures r.Ok? ==> |r.value.headers| == |segments| && forall k | 0 <= k < |segments| :: r.value.headers[k] == HeaderOf(segments[k])
  {
    hide FileHeaderText, ProgramHeaderText, HeaderAt, EntryOffset, ReadLe16, ReadLe32, ReadLe64, StandsAt, Objection, Sound, FileHeaderObjection;
    FileHeaderReadsBack(image, f, |segments|);
    NoObjectionIffOk(image);
    r := ParseElf64(image);
    if r.Ok? {
      forall k | 0 <= k < |segments|
        ensures r.value.headers[k] == HeaderOf(segments[k]) && Objection(HeaderOf(segments[k]), |image|).None?
      {
        assert HeaderRead(image, EntryOffset(f.table, f.size, k), r.value.headers[k]);
        PrintedHeadersRead(image, f, segments, k);
        SoundHasNoObjection(HeaderOf(segments[k]), |image|);
      }
    } else {
      ghost var k :| 0 <= k < CountOf(image) && FirstToObject(image, TableOf(image), EntrySizeOf(image), k, r.error);
      PrintedHeadersRead(image, f, segments, k);
    }
  }

  lemma {:induction false} SoundHasNoObjection(h: Header, imageBytes: nat)
    requires Sound(h, imageBytes) && imageBytes < WORD
    ensures Objection(h, imageBytes).None?
  {
  }

  // ------------------------------------------------------------------------ planning

  datatype PlanEntry = PlanEntry(
    index: nat, fileOffset: nat, virtualStart: nat, virtualEnd: nat, mapStart: nat, mapEnd: nat,
    fileBytes: nat, memoryBytes: nat, writable: bool, executable: bool)

  function PlanOf(h: Header, index: nat): PlanEntry {
    PlanEntry(index, h.offset, h.address, h.address + h.memorySize, RoundDown(h.address), RoundUp(h.address + h.memorySize),
              h.fileSize, h.memorySize, h.flags / 2 % 2 == 1, h.flags % 2 == 1)
  }

  function LoadIndices(headers: seq<Header>): (r: seq<nat>)
    ensures forall i | 0 <= i < |r| :: r[i] < |headers|
  {
    if headers == [] then [] else
    var n := |headers| - 1;
    LoadIndices(headers[..n]) + (if headers[n].kind == PT_LOAD then [n] else [])
  }

  /** The plan lists the PT_LOAD headers in order. */
  predicate IsPlan(headers: seq<Header>, plan: seq<PlanEntry>) {
    var load := LoadIndices(headers);
    |plan| == |load| && forall i | 0 <= i < |plan| :: plan[i] == PlanOf(headers[load[i]], load[i])
  }

  predicate RoundsOver(h: Header) {
    h.address + h.memorySize + (PAGE_BYTES - 1) >= WORD
  }

  /** For sound headers, planning fails exactly when a load segment ends within a page of 2^64. */
  method BuildLoadPlan(headers: seq<Header>, ghost imageBytes: nat) returns (r: Result<seq<PlanEntry>, ParseError>)
    requires forall k | 0 <= k < |headers| :: Sound(headers[k], imageBytes)
    ensures r.Ok? <==> forall k | 0 <= k < |headers| && headers[k].kind == PT_LOAD :: !RoundsOver(headers[k])
    ensures r.Ok? ==> IsPlan(headers, r.value) && forall i | 0 <= i < |r.value| :: PlanFits(r.value[i], imageBytes)
    ensures r.Err? ==> r.error == SegmentAddressOverflow
  {
    hide LoadIndices;
    var plan: seq<PlanEntry> := [];
    assert LoadIndices(headers[..0]) == [] by { LoadIndicesOfNothing(headers); }
    for k := 0 to |headers|
      invariant IsPlan(headers[..k], plan)
      invariant forall i | 0 <= i < |plan| :: PlanFits(plan[i], imageBytes)
      invariant forall j | 0 <= j < k && headers[j].kind == PT_LOAD :: !RoundsOver(headers[j])
    {
      LoadIndicesStep(headers, k);
      var h := headers[k];
      if h.kind == PT_LOAD {
        if h.fileSize > h.memorySize {
          assert false;
        }
        if h.address + h.memorySize >= WORD || RoundsOver(h) {
          return Err(SegmentAddressOverflow);
        }
        plan := plan + [PlanOf(h, k)];
      }
    }
    assert headers[..|headers|] == headers;
    return Ok(plan);
  }

  lemma {:induction false} LoadIndicesOfNothing(headers: seq<Header>)
    ensures LoadIndices(headers[..0]) == []
  {
    assert headers[..0] == [];
  }

  lemma {:induction false} LoadIndicesStep(headers: seq<Header>, k: nat)
    requires k < |headers|
    ensures LoadIndices(headers[..k + 1]) == LoadIndices(headers[..k]) + if headers[k].kind == PT_LOAD then [k] else []
  {
    assert headers[..k + 1][..k] == headers[..k];
  }

  /** What planning leaves to activation. */
  predicate PlanFits(p: PlanEntry, imageBytes: nat) {
    && p.mapStart == RoundDown(p.virtualStart) && p.virtualEnd == p.virtualStart + p.memoryBytes
    && p.mapEnd == RoundUp(p.virtualEnd) < WORD && p.fileBytes <= p.memoryBytes
    && (p.fileBytes > 0 ==> p.fileOffset + p.fileBytes <= imageBytes)
  }

  // ---------------------------------------------------------------------- activation

  const USER_SPACE_BASE: nat := 0x40_0000
  const USER_SPACE_LIMIT: nat := 0x8000_0000_0000

  datatype ActivateError = NoLoadSegments | InvalidSegmentMap | NoExecutableSegments | EntryOutsideExecutableSegments
  datatype Activation = Activation(entry: nat, vmStart: nat, vmEnd: nat, entryHeader: nat, headersAt: nat, headerCount: nat, segments: seq<Segment>)

  /** The lowest and highest mapped address of a plan. */
  function Lowest(plan: seq<PlanEntry>): (low: nat)
    ensures forall i | 0 <= i < |plan| :: low <= plan[i].mapStart
    ensures plan != [] && (forall i | 0 <= i < |plan| :: plan[i].mapStart < WORD) ==>
              exists i :: 0 <= i < |plan| && plan[i].mapStart == low
  {
    if plan == [] then WORD - 1 else
    var rest, last := Lowest(plan[..|plan| - 1]), plan[|plan| - 1].mapStart;
    if last <= rest then last else rest
  }

  function Highest(plan: seq<PlanEntry>): (high: nat)
    ensures forall i | 0 <= i < |plan| :: plan[i].mapEnd <= high
  {
    if plan == [] then 0 else
    var rest, last := Highest(plan[..|plan| - 1]), plan[|plan| - 1].mapEnd;
    if rest < last then last else rest
  }

  function LoadBase(plan: seq<PlanEntry>): nat {
    if Lowest(plan) < USER_SPACE_LIMIT then Lowest(plan) else USER_SPACE_BASE
  }

  /** The one constant by which everything moves. */
  function Shift(plan: seq<PlanEntry>): int {
    LoadBase(plan) - Lowest(plan)
  }

  predicate RangeOk(p: PlanEntry, bytes: seq<byte>) {
    p.fileOffset + p.fileBytes <= |bytes|
  }

  predicate EntryIn(p: PlanEntry, entry: nat) {
    p.executable && p.virtualStart <= entry < p.virtualEnd
  }

  /** A plan entry at its user address, with its file bytes. */
  predicate IsShifted(p: PlanEntry, s: Segment, shift: int, bytes: seq<byte>) {
    && s.virtualStart == p.virtualStart + shift && s.virtualEnd == p.virtualEnd + shift
    && s.mapStart == p.mapStart + shift && s.mapEnd == p.mapEnd + shift
    && s.writable == p.writable
    && RangeOk(p, bytes) && s.bytes == bytes[p.fileOffset..p.fileOffset + p.fileBytes]
  }

  predicate AllShifted(plan: seq<PlanEntry>, segments: seq<Segment>, shift: int, bytes: seq<byte>) {
    |segments| == |plan| && forall i | 0 <= i < |plan| :: IsShifted(plan[i], segments[i], shift, bytes)
  }

  lemma {:induction false} ShiftFacts(plan: seq<PlanEntry>, imageBytes: nat)
    requires plan != [] && forall i | 0 <= i < |plan| :: PlanFits(plan[i], imageBytes)
    ensures Shift(plan) <= 0 && Shift(plan) % PAGE_BYTES == 0 && Lowest(plan) + Shift(plan) >= 0
    ensures Lowest(plan) < USER_SPACE_LIMIT ==> Shift(plan) == 0
  {
    forall i | 0 <= i < |plan|
      ensures plan[i].mapStart < WORD && plan[i].mapStart % PAGE_BYTES == 0
    {
      assert PlanFits(plan[i], imageBytes);
    }
    hide Lowest, PlanFits;
    var low := Lowest(plan);
    assert low % PAGE_BYTES == 0;
    PagesMove(USER_SPACE_BASE, low);
    PagesMove(low, low);
  }

  lemma {:induction false} LowestStep(plan: seq<PlanEntry>, k: nat)
    requires k < |plan|
    ensures Lowest(plan[..k + 1]) == (if plan[k].mapStart <= Lowest(plan[..k]) then plan[k].mapStart else Lowest(plan[..k]))
    ensures Highest(plan[..k + 1]) == (if Highest(plan[..k]) < plan[k].mapEnd then plan[k].mapEnd else Highest(plan[..k]))
  {
    assert plan[..k + 1][..k] == plan[..k];
  }

  method Extent(plan: seq<PlanEntry>) returns (low: nat, high: nat)
    ensures low == Lowest(plan) && high == Highest(plan)
  {
    hide Lowest, Highest;
    low, high := WORD - 1, 0;
    NoExtent(plan);
    for k := 0 to |plan|
      invariant low == Lowest(plan[..k]) && high == Highest(plan[..k])
    {
      LowestStep(plan, k);
      if plan[k].mapStart < low {
        low := plan[k].mapStart;
      }
      if plan[k].mapEnd > high {
        high := plan[k].mapEnd;
      }
    }
    assert plan[..|plan|] == plan;
  }

  lemma {:induction false} NoExtent(plan: seq<PlanEntry>)
    ensures Lowest(plan[..0]) == WORD - 1 && Highest(plan[..0]) == 0
  {
    assert plan[..0] == [];
  }

  function SegmentOf(p: PlanEntry, low: nat, base: nat, bytes: seq<byte>): (s: Segment)
    requires low <= p.mapStart <= p.virtualStart <= p.virtualEnd <= p.mapEnd && RangeOk(p, bytes)
    ensures IsShifted(p, s, base - low, bytes)
  {
    Segment(base + (p.virtualStart - low), base + (p.virtualEnd - low), base + (p.mapStart - low),
            base + (p.mapStart - low) + (p.mapEnd - p.mapStart), p.writable,
            bytes[p.fileOffset..p.fileOffset + p.fileBytes])
  }

  /** Every outcome of activation, and what an activated image looks like. */
  method BuildActivation(entry: nat, plan: seq<PlanEntry>, headerCount: nat, bytes: seq<byte>)
    returns (r: Result<Activation, ActivateError>)
    requires forall i | 0 <= i < |plan| :: PlanFits(plan[i], |bytes|)
    ensures r == Err(NoLoadSegments) <==> plan == []
    ensures r == Err(InvalidSegmentMap) <==> exists i :: 0 <= i < |plan| && !RangeOk(plan[i], bytes)
    ensures r == Err(NoExecutableSegments) ==> forall i | 0 <= i < |plan| :: !plan[i].executable
    ensures r == Err(EntryOutsideExecutableSegments) ==> exists i :: 0 <= i < |plan| && plan[i].executable
    ensures r == Err(EntryOutsideExecutableSegments) ==> forall i | 0 <= i < |plan| :: !EntryIn(plan[i], entry)
    ensures r.Ok? ==> AllShifted(plan, r.value.segments, Shift(plan), bytes)
    ensures r.Ok? ==> r.value.entry == entry + Shift(plan)
    ensures r.Ok? ==> exists i :: 0 <= i < |plan| && EntryIn(plan[i], entry) && plan[i].index == r.value.entryHeader
    ensures r.Ok? ==> r.value.vmStart == LoadBase(plan) && r.value.vmEnd == Highest(plan) + Shift(plan)
    ensures r.Ok? ==> r.value.headersAt == LoadBase(plan) + EHDR_BYTES && r.value.headerCount == headerCount
  {
    hide Lowest, Highest, PlanFits, IsShifted, SegmentOf;
    if plan == [] {
      return Err(NoLoadSegments);
    }
    var low, high := Extent(plan);
    var base := if low < USER_SPACE_LIMIT then low else USER_SPACE_BASE;
    ghost var shift := Shift(plan);
    ShiftFacts(plan, |bytes|);
    var executable, entryAt, segments := false, None, [];
    for k := 0 to |plan|
      invariant forall i | 0 <= i < k :: RangeOk(plan[i], bytes)
      invariant AllShifted(plan[..k], segments, shift, bytes)
      invariant executable <==> exists i :: 0 <= i < k && plan[i].executable
      invariant entryAt.None? <==> forall i | 0 <= i < k :: !EntryIn(plan[i], entry)
      invariant entryAt.Some? ==> executable && exists i :: 0 <= i < k && EntryIn(plan[i], entry) && plan[i].index == entryAt.value
    {
      var p := plan[k];
      if p.fileOffset + p.fileBytes > |bytes| {
        assert !RangeOk(plan[k], bytes);
        return Err(InvalidSegmentMap);
      }
      PlanOrder(plan, k, |bytes|);
      segments := segments + [SegmentOf(p, low, base, bytes)];
      if p.executable {
        executable := true;
        if p.virtualStart <= entry < p.virtualEnd {
          entryAt := Some(p.index);
        }
      }
    }
    assert plan[..|plan|] == plan;
    if !executable {
      return Err(NoExecutableSegments);
    }
    if entryAt.None? {
      return Err(EntryOutsideExecutableSegments);
    }
    EntryAboveLowest(plan, entry, |bytes|);
    return Ok(Activation(base + (entry - low), base, base + (high - low), entryAt.value, base + EHDR_BYTES, headerCount, segments));
  }

  lemma {:induction false} PlanOrder(plan: seq<PlanEntry>, k: nat, imageBytes: nat)
    requires k < |plan| && PlanFits(plan[k], imageBytes)
    ensures Lowest(plan) <= plan[k].mapStart <= plan[k].virtualStart <= plan[k].virtualEnd <= plan[k].mapEnd <= Highest(plan)
  {
  }

  lemma {:induction false} EntryAboveLowest(plan: seq<PlanEntry>, entry: nat, imageBytes: nat)
    requires forall i | 0 <= i < |plan| :: PlanFits(plan[i], imageBytes)
    requires exists i :: 0 <= i < |plan| && EntryIn(plan[i], entry)
    ensures Lowest(plan) <= entry && Lowest(plan) <= Highest(plan)
  {
    hide PlanFits;
    var i :| 0 <= i < |plan| && EntryIn(plan[i], entry);
    PlanOrder(plan, i, imageBytes);
  }

  /**
   Of an accepted image only a load segment without file bytes whose offset lies past the
   end of the file is refused as a bad segment map: the parser does not look at that offset.
   */
  lemma {:induction false} BadRangeIff(p: PlanEntry, bytes: seq<byte>)
    requires PlanFits(p, |bytes|)
    ensures !RangeOk(p, bytes) <==> p.fileBytes == 0 && p.fileOffset > |bytes|
  {
  }

  /** An image of 120 bytes: a file header and one executable load segment without file bytes, at offset 200. */
  function RefusedImage(): (image: seq<byte>)
    ensures |image| == 120 && forall i | 0 <= i < 120 :: image[i] == RefusedByte(i)
  {
    seq(120, i requires 0 <= i < 120 => RefusedByte(i))
  }

  function RefusedByte(i: nat): byte {
    if i < 24 then IdentityByte(i) else if i < 64 then TableByte(i) else SegmentByte(i)
  }

  /** Magic, class, byte order, version, type, machine, version again. */
  function IdentityByte(i: nat): byte {
    if i == 0 then 0x7f else if i == 1 then 69 else if i == 2 then 76 else if i == 3 then 70
    else if i == 4 then 2 else if i == 5 then 1 else if i == 6 then 1
    else if i == 16 then 2 else if i == 18 then 62 else if i == 20 then 1
    else 0
  }

  /** Entry 0x400000, header table at 64, sizes 64 and 56, one program header. */
  function TableByte(i: nat): byte {
    if i == 26 then 0x40 else if i == 32 then 64 else if i == 52 then 64 else if i == 54 then 56 else if i == 56 then 1
    else 0
  }

  /** PT_LOAD, read and execute, offset 200, address 0x400000, 16 bytes of memory. */
  function SegmentByte(i: nat): byte {
    if i == 64 then 1 else if i == 68 then 5 else if i == 72 then 200 else if i == 82 then 0x40 else if i == 104 then 16
    else 0
  }

  const REFUSED_HEADER := Header(PT_LOAD, 5, 200, 0x40_0000, 0, 16)

  lemma {:induction false} RefusedFileHeader()
    ensures FileHeaderOk(RefusedImage()) && CountOf(RefusedImage()) == 1 && ReadLe64(RefusedImage(), 24) == 0x40_0000
    ensures TableOf(RefusedImage()) == 64 && EntrySizeOf(RefusedImage()) == 56
  {
    hide RefusedImage, RefusedByte, ReadLe16, ReadLe32, ReadLe64;
    RefusedWords();
    RefusedHalves();
    RefusedMarks();
  }

  lemma {:induction false} RefusedWords()
    ensures ReadLe64(RefusedImage(), 24) == 0x40_0000 && ReadLe64(RefusedImage(), 32) == 64
  {
    hide RefusedImage, ReadLe64;
    ShortWord(RefusedImage(), 24);
    ShortWord(RefusedImage(), 32);
  }

  lemma {:induction false} RefusedHalves()
    ensures ReadLe16(RefusedImage(), 52) == 64 && ReadLe16(RefusedImage(), 54) == 56 && ReadLe16(RefusedImage(), 56) == 1
  {
    hide RefusedImage, ReadLe16;
    SmallHalf(RefusedImage(), 52);
    SmallHalf(RefusedImage(), 54);
    SmallHalf(RefusedImage(), 56);
  }

  lemma {:induction false} RefusedMarks()
    ensures RefusedImage()[4] == 2 && RefusedImage()[5] == 1 && RefusedImage()[6] == 1 && ReadLe32(RefusedImage(), 20) == 1
  {
    hide RefusedImage, ReadLe32;
    SmallWord(RefusedImage(), 20);
  }

  lemma {:induction false} SmallHalf(image: seq<byte>, at: nat)
    requires at + 2 <= |image| && image[at + 1] == 0
    ensures ReadLe16(image, at) == image[at]
  {
  }

  lemma {:induction false} SmallWord(image: seq<byte>, at: nat)
    requires at + 4 <= |image| && image[at + 1] == 0 && image[at + 2] == 0 && image[at + 3] == 0
    ensures ReadLe32(image, at) == image[at]
  {
  }

  lemma {:induction false} RefusedProgramHeader()
    ensures HeaderRead(RefusedImage(), 64, REFUSED_HEADER)
  {
    hide RefusedImage, ReadLe32, ReadLe64;
    RefusedKind();
    RefusedPlace();
    RefusedSizes();
  }

  lemma {:induction false} RefusedKind()
    ensures ReadLe32(RefusedImage(), 64) == 1 && ReadLe32(RefusedImage(), 68) == 5
  {
    hide RefusedImage, ReadLe32;
    SmallWord(RefusedImage(), 64);
    SmallWord(RefusedImage(), 68);
  }

  /** A word whose upper five bytes are zero. */
  lemma {:induction false} ShortWord(image: seq<byte>, at: nat)
    requires at + 8 <= |image|
    requires image[at + 3] == 0 && image[at + 4] == 0 && image[at + 5] == 0 && image[at + 6] == 0 && image[at + 7] == 0
    ensures ReadLe64(image, at) == (image[at] as nat) + 0x100 * (image[at + 1] as nat) + 0x1_0000 * (image[at + 2] as nat)
  {
  }

  lemma {:induction false} RefusedPlace()
    ensures ReadLe64(RefusedImage(), 72) == 200 && ReadLe64(RefusedImage(), 80) == 0x40_0000
  {
    hide RefusedImage, ReadLe64;
    ShortWord(RefusedImage(), 72);
    ShortWord(RefusedImage(), 80);
  }

  lemma {:induction false} RefusedSizes()
    ensures ReadLe64(RefusedImage(), 96) == 0 && ReadLe64(RefusedImage(), 104) == 16
  {
    hide RefusedImage, ReadLe64;
    ShortWord(RefusedImage(), 96);
    ShortWord(RefusedImage(), 104);
  }

  lemma {:induction false} NothingToObject(error: ParseError)
    ensures !Objects(RefusedImage(), 64, 56, 0, error)
  {
    hide RefusedImage, HeaderAt;
    RefusedProgramHeader();
    assert EntryOffset(64, 56, 0) == 64;
  }

  lemma {:induction false} HeadersOfRefusedImage(headers: seq<Header>)
    requires |headers| == 1 && HeadersRead(RefusedImage(), 64, 56, headers)
    ensures headers == [REFUSED_HEADER] && Sound(REFUSED_HEADER, 120) && LoadIndices(headers) == [0]
  {
    hide RefusedImage, HeaderAt;
    RefusedProgramHeader();
    assert EntryOffset(64, 56, 0) == 64;
    assert HeaderRead(RefusedImage(), EntryOffset(64, 56, 0), headers[0]);
    assert headers[..0] == [];
  }

  /** The parser accepts that image, the planner plans it, and activation refuses it. */
  method ImageIsRefused() returns (image: Image, plan: seq<PlanEntry>, r: Result<Activation, ActivateError>)
    ensures image.headers == [REFUSED_HEADER] && plan == [PlanOf(REFUSED_HEADER, 0)]
    ensures EntryIn(plan[0], image.entry)
    ensures r == Err(InvalidSegmentMap)
  {
    hide FileHeaderObjection, HeadersRead, ReadLe64, RefusedImage, FileHeaderOk, LoadIndices, Objects;
    var bytes := RefusedImage();
    RefusedFileHeader();
    NoObjectionIffOk(bytes);
    var parsed := ParseElf64(bytes);
    if parsed.Err? {
      NothingToObject(parsed.error);
      assert false;
    }
    image := parsed.value;
    HeadersOfRefusedImage(image.headers);
    var planned := BuildLoadPlan(image.headers, |bytes|);
    plan := planned.value;
    r := BuildActivation(image.entry, plan, |image.headers|, bytes);
  }

  predicate PlanAscends(plan: seq<PlanEntry>) {
    forall i, j | 0 <= i < j < |plan| :: plan[i].virtualEnd <= plan[j].virtualStart
  }

  /** Activated segments in the lower half are what the loader asks for. */
  lemma {:induction false} ActivatedSegmentsLoad(plan: seq<PlanEntry>, segments: seq<Segment>, bytes: seq<byte>)
    requires plan != [] && forall i | 0 <= i < |plan| :: PlanFits(plan[i], |bytes|)
    requires AllShifted(plan, segments, Shift(plan), bytes)
    requires Highest(plan) + Shift(plan) <= USER_SPACE_LIMIT
    ensures forall i | 0 <= i < |segments| :: FitsPages(segments[i])
    ensures PlanAscends(plan) ==> Ascending(segments)
  {
    hide Lowest, Highest, Shift, PlanFits;
    ShiftFacts(plan, |bytes|);
    forall i | 0 <= i < |segments|
      ensures FitsPages(segments[i])
    {
      assert IsShifted(plan[i], segments[i], Shift(plan), bytes);
      PlanOrder(plan, i, |bytes|);
      ShiftedFits(plan[i], segments[i], Shift(plan), bytes);
    }
    if PlanAscends(plan) {
      forall i, j | 0 <= i < j < |segments|
        ensures segments[i].virtualEnd <= segments[j].virtualStart
      {
        assert IsShifted(plan[i], segments[i], Shift(plan), bytes) && IsShifted(plan[j], segments[j], Shift(plan), bytes);
        assert plan[i].virtualEnd <= plan[j].virtualStart;
      }
    }
  }

  lemma {:induction false} ShiftedFits(p: PlanEntry, s: Segment, shift: int, bytes: seq<byte>)
    requires PlanFits(p, |bytes|) && IsShifted(p, s, shift, bytes) && shift % PAGE_BYTES == 0
    requires s.mapEnd <= USER_SPACE_LIMIT
    ensures FitsPages(s)
  {
    hide RoundDown, RoundUp;
    PagesMove(p.mapStart, shift);
    PagesMove(p.mapEnd, shift);
    assert USER_SPACE_LIMIT == LOWER_PAGES * PAGE_BYTES;
  }

  /** The rebased entry point lies in the rebased copy of an executable segment. */
  lemma {:induction false} EntryStaysInside(plan: seq<PlanEntry>, segments: seq<Segment>, bytes: seq<byte>, entry: nat, i: nat)
    requires AllShifted(plan, segments, Shift(plan), bytes) && i < |plan| && EntryIn(plan[i], entry)
    ensures segments[i].virtualStart <= entry + Shift(plan) < segments[i].virtualEnd
  {
    assert IsShifted(plan[i], segments[i], Shift(plan), bytes);
  }

  /**
   From the file to the running program: byte n of load segment i reads, at its rebased
   address, as the file's byte while n is below the file size, and as zero above.
   */
  lemma {:induction false} ProgramReadsItsFile(mem: Frames, root: nat, free: seq<nat>, pages: PageMap, plan: seq<PlanEntry>,
                            segments: seq<Segment>, bytes: seq<byte>, i: nat, n: nat)
    requires plan != [] && forall k | 0 <= k < |plan| :: PlanFits(plan[k], |bytes|)
    requires PlanAscends(plan) && AllShifted(plan, segments, Shift(plan), bytes)
    requires Highest(plan) + Shift(plan) <= USER_SPACE_LIMIT
    requires Loaded(mem, root, free, pages, segments) && i < |plan| && n < plan[i].memoryBytes
    ensures plan[i].virtualStart + Shift(plan) + n >= 0
    ensures UserByte(mem, root, plan[i].virtualStart + Shift(plan) + n) ==
              Some(if n < plan[i].fileBytes then bytes[plan[i].fileOffset + n] else 0)
  {
    hide Lowest, Highest, Shift, Loaded;
    ActivatedSegmentsLoad(plan, segments, bytes);
    assert IsShifted(plan[i], segments[i], Shift(plan), bytes);
    assert PlanFits(plan[i], |bytes|);
    LoadedProgramReads(mem, root, free, pages, segments, i, segments[i].virtualStart + n);
  }
}
