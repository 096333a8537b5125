/**
 The compressed page store: 64 slots of encoded pages with round-robin
 eviction, behind the compression runtime's gate and counters.
 */
module PageStore {
  import opened Bytes
  import opened PageCodec

  const CAPACITY: nat := 64

  // ------------------------------------------------------ what the store means

  /**
   The abstract store: every page id ever inserted, in order, and the page last
   stored under each id.  Only the 64 most recent insertions are resident.
   */
  datatype Abstract = Abstract(log: seq<nat>, last: map<nat, Page>)

  function Oldest(n: nat): nat {
    if n <= CAPACITY then 0 else n - CAPACITY
  }

  predicate Resident(a: Abstract, id: nat) {
    id in a.log[Oldest(|a.log|)..]
  }

  /** Storing a resident id replaces its page; storing any other id is a new insertion. */
  function Stored(a: Abstract, id: nat, page: Page): Abstract {
    Abstract(if Resident(a, id) then a.log else a.log + [id], a.last[id := page])
  }

  ghost predicate Sound(a: Abstract) {
    && (forall i, j | Oldest(|a.log|) <= i < j < |a.log| :: a.log[i] != a.log[j])
    && (forall i | 0 <= i < |a.log| :: a.log[i] in a.last)
  }

  lemma {:induction false} StoredIsResident(a: Abstract, id: nat, page: Page)
    ensures Resident(Stored(a, id, page), id)
    ensures Stored(a, id, page).last[id] == page
  {
    var b := Stored(a, id, page);
    if !Resident(a, id) {
      assert b.log[Oldest(|b.log|)..][|b.log| - 1 - Oldest(|b.log|)] == id;
    }
  }

  lemma {:induction false} StoredKeepsSound(a: Abstract, id: nat, page: Page)
    requires Sound(a)
    ensures Sound(Stored(a, id, page))
  {
    if !Resident(a, id) {
      assert forall i | Oldest(|a.log|) <= i < |a.log| :: a.log[i] in a.log[Oldest(|a.log|)..];
    }
  }

  /** What a run of stores leaves behind. */
  function StoredAll(a: Abstract, writes: seq<(nat, Page)>): Abstract {
    if writes == [] then a
    else
      var last := |writes| - 1;
      Stored(StoredAll(a, writes[..last]), writes[last].0, writes[last].1)
  }

  /** An id stays resident through the next 63 insertions, whatever is stored. */
  lemma {:induction false} ResidentSurvives63Insertions(a: Abstract, id: nat, page: Page, writes: seq<(nat, Page)>)
    requires !Resident(a, id)
    requires |StoredAll(Stored(a, id, page), writes).log| < |a.log| + 1 + CAPACITY
    ensures a.log + [id] <= StoredAll(Stored(a, id, page), writes).log
    ensures Resident(StoredAll(Stored(a, id, page), writes), id)
  {
    var b := StoredAll(Stored(a, id, page), writes);
    if writes != [] {
      ResidentSurvives63Insertions(a, id, page, writes[..|writes| - 1]);
    }
    assert b.log[Oldest(|b.log|)..][|a.log| - Oldest(|b.log|)] == id;
  }

  /** Once 64 further insertions have been made, the id is gone unless it was stored again. */
  lemma {:induction false} EvictedAfter64Insertions(a: Abstract, id: nat, page: Page, writes: seq<(nat, Page)>)
    requires Sound(a) && !Resident(a, id)
    requires forall i | 0 <= i < |writes| :: writes[i].0 != id
    ensures var b := StoredAll(Stored(a, id, page), writes);
      && a.log + [id] <= b.log
      && (forall i | |a.log| < i < |b.log| :: b.log[i] != id)
      && (|b.log| >= |a.log| + 1 + CAPACITY ==> !Resident(b, id))
  {
    if writes != [] {
      EvictedAfter64Insertions(a, id, page, writes[..|writes| - 1]);
    }
  }

  /** The last page stored under an id is the one a later load must return. */
  lemma {:induction false} LastWriteWins(a: Abstract, writes: seq<(nat, Page)>, k: nat)
    requires k < |writes|
    requires forall i | k < i < |writes| :: writes[i].0 != writes[k].0
    ensures writes[k].0 in StoredAll(a, writes).last
    ensures StoredAll(a, writes).last[writes[k].0] == writes[k].1
  {
    var last := |writes| - 1;
    if k < last {
      assert writes[..last][k] == writes[k];
      LastWriteWins(a, writes[..last], k);
    }
  }

  // -------------------------------------------------------------------- slots

  datatype Slot = Slot(occupied: bool, pageId: nat, kind: Class, encodedLen: nat, encoded: seq<byte>)

  function EmptySlot(): Slot {
    Slot(false, 0, Raw, 0, seq(MAX_ENCODED_PAGE_BYTES, _ => 0))
  }

  /** How many of the slots are occupied by a page of this class. */
  function CountOf(slots: seq<Slot>, kind: Class): nat {
    if slots == [] then 0
    else CountOf(slots[1..], kind) + (if slots[0].occupied && slots[0].kind == kind then 1 else 0)
  }

  function OccupiedCount(slots: seq<Slot>): nat {
    if slots == [] then 0
    else OccupiedCount(slots[1..]) + (if slots[0].occupied then 1 else 0)
  }

  function EncodedBytes(slots: seq<Slot>): nat {
    if slots == [] then 0
    else EncodedBytes(slots[1..]) + (if slots[0].occupied then slots[0].encodedLen else 0)
  }

  /** Replacing one slot changes each recount by that slot's share alone. */
  lemma {:induction false} RecountAfterUpdate(slots: seq<Slot>, i: nat, slot: Slot, kind: Class)
    requires i < |slots|
    ensures var old_, new_ := slots[i], slots[i := slot];
      && CountOf(new_, kind) + (if old_.occupied && old_.kind == kind then 1 else 0)
         == CountOf(slots, kind) + (if slot.occupied && slot.kind == kind then 1 else 0)
      && OccupiedCount(new_) + (if old_.occupied then 1 else 0)
         == OccupiedCount(slots) + (if slot.occupied then 1 else 0)
      && EncodedBytes(new_) + (if old_.occupied then old_.encodedLen else 0)
         == EncodedBytes(slots) + (if slot.occupied then slot.encodedLen else 0)
  {
    if i > 0 {
      RecountAfterUpdate(slots[1..], i - 1, slot, kind);
      assert slots[i := slot][1..] == slots[1..][i - 1 := slot];
    } else {
      assert slots[i := slot][1..] == slots[1..];
    }
  }

  lemma {:induction false} RecountBounds(slots: seq<Slot>, kind: Class)
    requires forall i | 0 <= i < |slots| :: slots[i].encodedLen <= MAX_ENCODED_PAGE_BYTES
    ensures CountOf(slots, kind) <= OccupiedCount(slots) <= |slots|
    ensures EncodedBytes(slots) <= |slots| * MAX_ENCODED_PAGE_BYTES
  {
    if slots != [] {
      RecountBounds(slots[1..], kind);
    }
  }

  lemma {:induction false} RecountEmpty(slots: seq<Slot>, kind: Class)
    requires forall i | 0 <= i < |slots| :: !slots[i].occupied
    ensures CountOf(slots, kind) == OccupiedCount(slots) == EncodedBytes(slots) == 0
  {
    if slots != [] {
      RecountEmpty(slots[1..], kind);
    }
  }

  // ------------------------------------------------------- compression runtime

  datatype CompressionStats = CompressionStats(
    encodedPages: nat, decodedPages: nat,
    zeroPages: nat, samePages: nat, sxrcPages: nat, rawPages: nat, fallbackRawPages: nat,
    encodeFailures: nat, decodeFailures: nat)

  function CountEncoded(s: CompressionStats, kind: Class): CompressionStats {
    match kind
    case Zero => s.(zeroPages := SatAdd(s.zeroPages, 1))
    case Same => s.(samePages := SatAdd(s.samePages, 1))
    case Sxrc => s.(sxrcPages := SatAdd(s.sxrcPages, 1))
    case Raw => s.(rawPages := SatAdd(s.rawPages, 1), fallbackRawPages := SatAdd(s.fallbackRawPages, 1))
  }

  /** Until a counter saturates, every encode request is counted once: by class or as a failure. */
  ghost predicate Balanced(s: CompressionStats) {
    s.encodedPages < WORD - 1 ==>
      && s.encodedPages == s.zeroPages + s.samePages + s.sxrcPages + s.rawPages + s.encodeFailures
      && s.fallbackRawPages == s.rawPages
  }

  class Runtime {
    const profile: Profile
    var initialized: bool
    var stats: CompressionStats

    constructor (profile: Profile)
      ensures this.profile == profile && !initialized
      ensures stats == CompressionStats(0, 0, 0, 0, 0, 0, 0, 0, 0) && Balanced(stats)
    {
      this.profile := profile;
      initialized := false;
      stats := CompressionStats(0, 0, 0, 0, 0, 0, 0, 0, 0);
    }

    method Initialize() returns (ok: bool)
      modifies this
      ensures ok == !old(initialized) && initialized && stats == old(stats)
    {
      ok := !initialized;
      initialized := true;
    }

    method Encode(page: Page, scratch: array<byte>) returns (r: Result<(Class, nat), Error>)
      requires WellFormed(profile) && Balanced(stats)
      modifies this, scratch
      ensures initialized == old(initialized) && Balanced(stats)
      ensures !initialized ==> r == Err(NotInitialized) && stats == old(stats)
      ensures initialized && r.Err? ==> r.error == OutputTooSmall && scratch.Length < MAX_ENCODED_PAGE_BYTES
      ensures r.Ok? ==> HEADER_BYTES <= r.value.1 <= MAX_ENCODED_PAGE_BYTES && r.value.1 <= scratch.Length
      ensures r.Ok? ==> Represents(profile, scratch[..r.value.1], r.value.0, page)
    {
      hide Represents, WellFormed;
      if !initialized {
        return Err(NotInitialized);
      }
      stats := stats.(encodedPages := SatAdd(stats.encodedPages, 1));
      r := EncodePage(profile, page, scratch);
      stats := if r.Ok? then CountEncoded(stats, r.value.0)
               else stats.(encodeFailures := SatAdd(stats.encodeFailures, 1));
    }

    method Decode(encoded: seq<byte>, out: array<byte>) returns (r: Result<Class, Error>)
      requires out.Length == PAGE_BYTES && Balanced(stats)
      modifies this, out
      ensures initialized == old(initialized) && Balanced(stats)
      ensures !initialized ==> r == Err(NotInitialized) && stats == old(stats)
      ensures initialized && r.Err? ==> forall kind, page: Page :: !Represents(profile, encoded, kind, page)
      ensures r.Ok? ==> Represents(profile, encoded, r.value, out[..])
    {
      hide Represents, DecodeHeader;
      if !initialized {
        return Err(NotInitialized);
      }
      r := DecodePage(profile, encoded, out);
      stats := if r.Ok? then stats.(decodedPages := SatAdd(stats.decodedPages, 1))
               else stats.(decodeFailures := SatAdd(stats.decodeFailures, 1));
    }
  }

  // -------------------------------------------------------------------- store

  datatype StoreError = StoreNotInitialized | NotFound | Encode(cause: Error) | Decode(cause: Error)

  datatype StoreEntry = StoreEntry(pageId: nat, kind: Class, encodedBytes: nat)

  datatype StoreStats = StoreStats(
    storedPages: nat, zeroPages: nat, samePages: nat, sxrcPages: nat, rawPages: nat,
    currentEncodedBytes: nat, totalInputBytes: nat, totalEncodedBytes: nat,
    storeRequests: nat, storeSuccesses: nat, loadRequests: nat, loadSuccesses: nat, loadMisses: nat,
    replacements: nat, evictions: nat, encodeFailures: nat, decodeFailures: nat)

  function AccountAdded(s: StoreStats, kind: Class, len: nat): StoreStats {
    var t := s.(currentEncodedBytes := SatAdd(s.currentEncodedBytes, len));
    match kind
    case Zero => t.(zeroPages := SatAdd(t.zeroPages, 1))
    case Same => t.(samePages := SatAdd(t.samePages, 1))
    case Sxrc => t.(sxrcPages := SatAdd(t.sxrcPages, 1))
    case Raw => t.(rawPages := SatAdd(t.rawPages, 1))
  }

  function AccountRemoved(s: StoreStats, kind: Class, len: nat): StoreStats {
    var t := s.(currentEncodedBytes := SatSub(s.currentEncodedBytes, len));
    match kind
    case Zero => t.(zeroPages := SatSub(t.zeroPages, 1))
    case Same => t.(samePages := SatSub(t.samePages, 1))
    case Sxrc => t.(sxrcPages := SatSub(t.sxrcPages, 1))
    case Raw => t.(rawPages := SatSub(t.rawPages, 1))
  }

  /** The occupancy counters equal a recount over the slots. */
  ghost predicate Recounted(s: StoreStats, slots: seq<Slot>) {
    && s.storedPages == OccupiedCount(slots)
    && s.zeroPages == CountOf(slots, Zero)
    && s.samePages == CountOf(slots, Same)
    && s.sxrcPages == CountOf(slots, Sxrc)
    && s.rawPages == CountOf(slots, Raw)
    && s.currentEncodedBytes == EncodedBytes(slots)
  }

  /**
   Until the request counters saturate, every request is tallied under one
   outcome, and insertions, replacements and evictions add up.
   */
  ghost predicate Tallied(s: StoreStats, insertions: nat) {
    && (s.storeRequests < WORD - 1 ==>
          && s.storeRequests == s.storeSuccesses + s.encodeFailures
          && s.storeSuccesses == insertions + s.replacements
          && s.evictions == Oldest(insertions))
    && (s.loadRequests < WORD - 1 ==> s.loadRequests == s.loadSuccesses + s.loadMisses + s.decodeFailures)
  }

  /** The insertion that slot s holds after n insertions: the latest one congruent to s modulo 64. */
  function LatestIn(s: nat, n: nat): nat
    requires s < CAPACITY && s < n
  {
    if n <= CAPACITY then s else n - 1 - (n - 1 - s) % CAPACITY
  }

  lemma {:induction false} LatestInBounds(s: nat, n: nat)
    requires s < CAPACITY && s < n
    ensures Oldest(n) <= LatestIn(s, n) < n && LatestIn(s, n) % CAPACITY == s
  {
  }

  /** Insertion n lands in slot n mod 64 and leaves every other slot's insertion alone. */
  lemma {:induction false} LatestAfterInsertion(s: nat, n: nat)
    requires s < CAPACITY && s <= n
    ensures s == n % CAPACITY ==> LatestIn(s, n + 1) == n
    ensures s != n % CAPACITY && s < n ==> LatestIn(s, n + 1) == LatestIn(s, n)
  {
  }

  /** Slot contents against the abstract store. */
  ghost predicate SlotHolds(profile: Profile, slot: Slot, id: nat, page: Page) {
    && slot.occupied
    && slot.pageId == id
    && HEADER_BYTES <= slot.encodedLen <= MAX_ENCODED_PAGE_BYTES
    && |slot.encoded| == MAX_ENCODED_PAGE_BYTES
    && Represents(profile, slot.encoded[..slot.encodedLen], slot.kind, page)
  }

  /** What slot s must look like: the insertion it was last given, or still empty. */
  ghost predicate SlotRefines(profile: Profile, slots: seq<Slot>, a: Abstract, s: nat)
    requires s < CAPACITY == |slots|
  {
    if s < |a.log| then
      var id := a.log[LatestIn(s, |a.log|)];
      id in a.last && SlotHolds(profile, slots[s], id, a.last[id])
    else
      !slots[s].occupied && slots[s].encodedLen == 0 && |slots[s].encoded| == MAX_ENCODED_PAGE_BYTES
  }

  ghost predicate SlotsRefine(profile: Profile, slots: seq<Slot>, nextEvict: nat, a: Abstract) {
    && |slots| == CAPACITY
    && Sound(a)
    && nextEvict == (if |a.log| < CAPACITY then 0 else |a.log| % CAPACITY)
    && (forall s | 0 <= s < CAPACITY :: SlotRefines(profile, slots, a, s))
  }

  predicate Occupies(slot: Slot, id: nat) {
    slot.occupied && slot.pageId == id
  }

  lemma {:induction false} LatestInOfWindow(j: nat, n: nat)
    requires Oldest(n) <= j < n
    ensures j % CAPACITY < n && LatestIn(j % CAPACITY, n) == j
  {
  }

  /** An id occupies a slot exactly when it is among the 64 most recent insertions. */
  lemma {:induction false} ResidentIffInASlot(profile: Profile, slots: seq<Slot>, nextEvict: nat, a: Abstract, id: nat)
    requires SlotsRefine(profile, slots, nextEvict, a)
    ensures Resident(a, id) <==> exists s :: 0 <= s < CAPACITY && Occupies(slots[s], id)
  {
    hide Represents, LatestIn;
    var n := |a.log|;
    if Resident(a, id) {
      var k :| 0 <= k < n - Oldest(n) && a.log[Oldest(n)..][k] == id;
      var j := Oldest(n) + k;
      LatestInOfWindow(j, n);
      assert SlotRefines(profile, slots, a, j % CAPACITY);
      assert Occupies(slots[j % CAPACITY], id);
    }
    if s :| 0 <= s < CAPACITY && Occupies(slots[s], id) {
      assert SlotRefines(profile, slots, a, s);
      LatestInBounds(s, n);
      assert a.log[Oldest(n)..][LatestIn(s, n) - Oldest(n)] == id;
    }
  }

  /** Overwriting the slot of a resident id. */
  lemma {:induction false} ReplacementRefines(profile: Profile, slots: seq<Slot>, nextEvict: nat, a: Abstract, s: nat, slot: Slot, id: nat, page: Page)
    requires SlotsRefine(profile, slots, nextEvict, a)
    requires s < CAPACITY && Occupies(slots[s], id) && SlotHolds(profile, slot, id, page)
    ensures Resident(a, id)
    ensures SlotsRefine(profile, slots[s := slot], nextEvict, Stored(a, id, page))
  {
    hide Represents, LatestIn, Sound;
    ResidentIffInASlot(profile, slots, nextEvict, a, id);
    StoredKeepsSound(a, id, page);
    var n, b := |a.log|, Stored(a, id, page);
    assert SlotRefines(profile, slots, a, s);
    LatestInBounds(s, n);
    var slots' := slots[s := slot];
    forall t | 0 <= t < CAPACITY ensures SlotRefines(profile, slots', b, t) {
      assert SlotRefines(profile, slots, a, t);
      if t < n && t != s {
        LatestInBounds(t, n);
        DistinctInWindow(a, LatestIn(t, n), LatestIn(s, n));
      }
    }
  }

  lemma {:induction false} DistinctInWindow(a: Abstract, i: nat, j: nat)
    requires Sound(a) && Oldest(|a.log|) <= i < |a.log| && Oldest(|a.log|) <= j < |a.log| && i != j
    ensures a.log[i] != a.log[j]
  {
    assert if i < j then a.log[i] != a.log[j] else a.log[j] != a.log[i];
  }

  /** Where a new id goes: the first empty slot, or the one the eviction cursor names. */
  lemma {:induction false} InsertionTarget(profile: Profile, slots: seq<Slot>, nextEvict: nat, a: Abstract)
    requires SlotsRefine(profile, slots, nextEvict, a)
    ensures var n := |a.log|; var target := n % CAPACITY;
      if n < CAPACITY
      then !slots[target].occupied && forall s | 0 <= s < target :: slots[s].occupied
      else nextEvict == target && forall s | 0 <= s < CAPACITY :: slots[s].occupied
  {
    hide Represents, LatestIn, Sound;
    forall s | 0 <= s < CAPACITY ensures slots[s].occupied == (s < |a.log|) {
      assert SlotRefines(profile, slots, a, s);
    }
  }

  lemma {:induction false} InsertionRefinesSlot(profile: Profile, slots: seq<Slot>, nextEvict: nat, a: Abstract, slot: Slot, id: nat, page: Page, s: nat)
    requires SlotsRefine(profile, slots, nextEvict, a)
    requires !Resident(a, id) && SlotHolds(profile, slot, id, page) && s < CAPACITY
    ensures SlotRefines(profile, slots[|a.log| % CAPACITY := slot], Stored(a, id, page), s)
  {
    hide Represents, LatestIn, Sound, SlotHolds;
    var n := |a.log|;
    assert SlotRefines(profile, slots, a, s);
    if s <= n {
      LatestAfterInsertion(s, n);
      if s < n && s != n % CAPACITY {
        LatestInBounds(s, n);
        assert a.log[Oldest(n)..][LatestIn(s, n) - Oldest(n)] == a.log[LatestIn(s, n)];
      }
    }
  }

  lemma {:induction false} InsertionRefines(profile: Profile, slots: seq<Slot>, nextEvict: nat, a: Abstract, slot: Slot, id: nat, page: Page)
    requires SlotsRefine(profile, slots, nextEvict, a)
    requires !Resident(a, id) && SlotHolds(profile, slot, id, page)
    ensures SlotsRefine(profile, slots[|a.log| % CAPACITY := slot],
                        if |a.log| < CAPACITY then nextEvict else (nextEvict + 1) % CAPACITY,
                        Stored(a, id, page))
  {
    hide Represents, SlotRefines, Sound, SlotHolds;
    StoredKeepsSound(a, id, page);
    var slots', b := slots[|a.log| % CAPACITY := slot], Stored(a, id, page);
    forall s | 0 <= s < CAPACITY ensures SlotRefines(profile, slots', b, s) {
      InsertionRefinesSlot(profile, slots, nextEvict, a, slot, id, page, s);
    }
  }

  predicate SameTallies(s: StoreStats, t: StoreStats) {
    && s.storeRequests == t.storeRequests && s.totalInputBytes == t.totalInputBytes
    && s.loadRequests == t.loadRequests && s.loadSuccesses == t.loadSuccesses && s.loadMisses == t.loadMisses
    && s.replacements == t.replacements && s.evictions == t.evictions
    && s.encodeFailures == t.encodeFailures && s.decodeFailures == t.decodeFailures
  }

  lemma {:induction false} AccountingFollowsSlots(s: StoreStats, slots: seq<Slot>, i: nat, slot: Slot)
    requires Recounted(s, slots) && i < |slots| <= CAPACITY && slot.occupied
    requires slot.encodedLen <= MAX_ENCODED_PAGE_BYTES
    requires forall j | 0 <= j < |slots| :: slots[j].encodedLen <= MAX_ENCODED_PAGE_BYTES
    ensures var removed := if slots[i].occupied then AccountRemoved(s, slots[i].kind, slots[i].encodedLen)
                           else s.(storedPages := SatAdd(s.storedPages, 1));
      Recounted(AccountAdded(removed, slot.kind, slot.encodedLen), slots[i := slot])
  {
    hide CountOf, OccupiedCount, EncodedBytes;
    RecountAfterUpdate(slots, i, EmptySlot(), slots[i].kind);
    RecountAfterUpdate(slots, i, slot, Zero);
    RecountAfterUpdate(slots, i, slot, Same);
    RecountAfterUpdate(slots, i, slot, Sxrc);
    RecountAfterUpdate(slots, i, slot, Raw);
    RecountBounds(slots, Zero);
    RecountBounds(slots, Same);
    RecountBounds(slots, Sxrc);
    RecountBounds(slots, Raw);
  }

  function ZeroStats(): StoreStats {
    StoreStats(0, 0, 0, 0, 0, 0, 0, 0, 0, 0, 0, 0, 0, 0, 0, 0, 0)
  }

  /** Slots, cursor and counters against the abstract store. */
  ghost predicate Accounted(profile: Profile, slots: seq<Slot>, nextEvict: nat, stats: StoreStats, a: Abstract) {
    SlotsRefine(profile, slots, nextEvict, a) && Recounted(stats, slots) && Tallied(stats, |a.log|)
  }

  function EmptySlots(): seq<Slot> {
    seq(CAPACITY, _ => EmptySlot())
  }

  lemma {:induction false} EmptySlotsRefine(profile: Profile)
    ensures Accounted(profile, EmptySlots(), 0, ZeroStats(), Abstract([], map[]))
  {
    var slots := EmptySlots();
    hide CountOf, OccupiedCount, EncodedBytes, SlotHolds;
    RecountEmpty(slots, Zero);
    RecountEmpty(slots, Same);
    RecountEmpty(slots, Sxrc);
    RecountEmpty(slots, Raw);
    forall s | 0 <= s < CAPACITY ensures SlotRefines(profile, slots, Abstract([], map[]), s) {
    }
  }

  class Store {
    const runtime: Runtime
    var initialized: bool
    var nextEvict: nat
    var slots: seq<Slot>
    var stats: StoreStats
    ghost var view: Abstract

    ghost predicate Valid()
      reads this, runtime
    {
      && WellFormed(runtime.profile)
      && Balanced(runtime.stats)
      && Accounted(runtime.profile, slots, nextEvict, stats, view)
    }

    constructor (runtime: Runtime)
      requires WellFormed(runtime.profile) && Balanced(runtime.stats)
      ensures Valid() && this.runtime == runtime && !initialized && view == Abstract([], map[])
    {
      hide EmptySlots, Accounted, WellFormed, Balanced;
      this.runtime := runtime;
      initialized, nextEvict := false, 0;
      slots := EmptySlots();
      stats := ZeroStats();
      view := Abstract([], map[]);
      EmptySlotsRefine(runtime.profile);
    }

    /** Refused twice, and refused before the compression runtime is up. */
    method Initialize() returns (ok: bool)
      requires Valid()
      modifies this
      ensures Valid() && view == old(view)
      ensures ok == (!old(initialized) && runtime.initialized)
      ensures initialized == (old(initialized) || ok)
    {
      ok := !initialized && runtime.initialized;
      initialized := initialized || ok;
    }

    method FindSlot(id: nat) returns (r: Option<nat>)
      requires |slots| == CAPACITY
      ensures r.Some? ==> r.value < CAPACITY && Occupies(slots[r.value], id)
      ensures r.None? ==> forall s | 0 <= s < CAPACITY :: !Occupies(slots[s], id)
    {
      var index := 0;
      while index < CAPACITY
        invariant 0 <= index <= CAPACITY
        invariant forall s | 0 <= s < index :: !Occupies(slots[s], id)
      {
        if slots[index].occupied && slots[index].pageId == id {
          return Some(index);
        }
        index := index + 1;
      }
      return None;
    }

    method FindEmptySlot() returns (r: Option<nat>)
      requires |slots| == CAPACITY
      ensures r.Some? ==> r.value < CAPACITY && !slots[r.value].occupied
      ensures r.Some? ==> forall s | 0 <= s < r.value :: slots[s].occupied
      ensures r.None? ==> forall s | 0 <= s < CAPACITY :: slots[s].occupied
    {
      var index := 0;
      while index < CAPACITY
        invariant 0 <= index <= CAPACITY
        invariant forall s | 0 <= s < index :: slots[s].occupied
      {
        if !slots[index].occupied {
          return Some(index);
        }
        index := index + 1;
      }
      return None;
    }

    /** Choose the slot for an id, moving the eviction cursor if something must go. */
    method ChooseSlot(id: nat) returns (target: nat)
      requires SlotsRefine(runtime.profile, slots, nextEvict, view)
      modifies this`nextEvict, this`stats
      ensures target < CAPACITY
      ensures if Resident(view, id)
              then Occupies(slots[target], id) && nextEvict == old(nextEvict)
              else && target == |view.log| % CAPACITY
                   && nextEvict == if |view.log| < CAPACITY then old(nextEvict) else (old(nextEvict) + 1) % CAPACITY
      ensures stats == old(stats).(
                replacements := if Resident(view, id) then SatAdd(old(stats).replacements, 1) else old(stats).replacements,
                evictions := if Resident(view, id) || |view.log| < CAPACITY then old(stats).evictions
                             else SatAdd(old(stats).evictions, 1))
    {
      hide SlotRefines, WellFormed, Balanced, Sound;
      ResidentIffInASlot(runtime.profile, slots, nextEvict, view, id);
      InsertionTarget(runtime.profile, slots, nextEvict, view);
      var existing := FindSlot(id);
      if existing.Some? {
        stats := stats.(replacements := SatAdd(stats.replacements, 1));
        return existing.value;
      }
      var empty := FindEmptySlot();
      if empty.Some? {
        return empty.value;
      }
      target := nextEvict;
      nextEvict := (nextEvict + 1) % CAPACITY;
      stats := stats.(evictions := SatAdd(stats.evictions, 1));
    }

    /** Write an encoded page into its slot. */
    method FillSlot(target: nat, id: nat, kind: Class, bytes: seq<byte>)
      requires target < CAPACITY == |slots| && HEADER_BYTES <= |bytes| <= MAX_ENCODED_PAGE_BYTES
      requires |slots[target].encoded| == MAX_ENCODED_PAGE_BYTES
      requires Recounted(stats, slots)
      requires forall j | 0 <= j < |slots| :: slots[j].encodedLen <= MAX_ENCODED_PAGE_BYTES
      modifies this`slots, this`stats
      ensures slots == old(slots)[target := Slot(true, id, kind, |bytes|, bytes + old(slots)[target].encoded[|bytes|..])]
      ensures Recounted(stats, slots)
      ensures stats.storeSuccesses == SatAdd(old(stats).storeSuccesses, 1)
      ensures stats.totalEncodedBytes == SatAdd(old(stats).totalEncodedBytes, |bytes|)
      ensures SameTallies(stats, old(stats))
    {
      hide CountOf, OccupiedCount, EncodedBytes;
      var previous := slots[target];
      var slot := Slot(true, id, kind, |bytes|, bytes + previous.encoded[|bytes|..]);
      AccountingFollowsSlots(stats, slots, target, slot);
      if previous.occupied {
        stats := AccountRemoved(stats, previous.kind, previous.encodedLen);
      } else {
        stats := stats.(storedPages := SatAdd(stats.storedPages, 1));
      }
      slots := slots[target := slot];
      stats := AccountAdded(stats, kind, |bytes|);
      stats := stats.(storeSuccesses := SatAdd(stats.storeSuccesses, 1),
                      totalEncodedBytes := SatAdd(stats.totalEncodedBytes, |bytes|));
    }

    /**
     Storing refines the abstract store and keeps every counter equal to its
     recount; it fails only before the store or the runtime is initialised.
     */
    method StorePage(id: nat, page: Page) returns (r: Result<StoreEntry, StoreError>)
      requires Valid()
      modifies this, runtime
      ensures Valid() && initialized == old(initialized) && runtime.initialized == old(runtime.initialized)
      ensures !initialized ==> r == Err(StoreNotInitialized) && stats == old(stats)
      ensures initialized && !runtime.initialized ==> r == Err(Encode(NotInitialized))
      ensures r.Err? ==> view == old(view) && slots == old(slots)
      ensures initialized && runtime.initialized ==>
                r.Ok? && view == Stored(old(view), id, page)
      ensures r.Ok? ==> exists s :: 0 <= s < |slots| && Occupies(slots[s], id) &&
                                    r.value == StoreEntry(id, slots[s].kind, slots[s].encodedLen)
    {
      hide Represents, SlotRefines, WellFormed, Balanced, Sound, CountOf, OccupiedCount, EncodedBytes;
      if !initialized {
        return Err(StoreNotInitialized);
      }
      stats := stats.(storeRequests := SatAdd(stats.storeRequests, 1),
                      totalInputBytes := SatAdd(stats.totalInputBytes, PAGE_BYTES));
      var scratch := new byte[MAX_ENCODED_PAGE_BYTES];
      var encoded := runtime.Encode(page, scratch);
      if encoded.Err? {
        stats := stats.(encodeFailures := SatAdd(stats.encodeFailures, 1));
        return Err(Encode(encoded.error));
      }
      var kind, len := encoded.value.0, encoded.value.1;
      SlotBuffers(runtime.profile, slots, nextEvict, view);
      ghost var cursor, before := nextEvict, slots;
      var target := ChooseSlot(id);
      FillSlot(target, id, kind, scratch[..len]);
      StoreRefines(runtime.profile, before, cursor, nextEvict, view, target, slots[target], scratch[..len], id, page);
      view := Stored(view, id, page);
      assert Occupies(slots[target], id);
      return Ok(StoreEntry(id, kind, len));
    }

    /** Loading returns the page last stored under a resident id, and misses exactly the others. */
    method LoadPage(id: nat, out: array<byte>) returns (r: Result<StoreEntry, StoreError>)
      requires Valid() && out.Length == PAGE_BYTES
      modifies this, runtime, out
      ensures Valid() && initialized == old(initialized) && runtime.initialized == old(runtime.initialized)
      ensures view == old(view) && slots == old(slots)
      ensures !initialized ==> r == Err(StoreNotInitialized) && stats == old(stats)
      ensures initialized && !Resident(view, id) ==> r == Err(NotFound)
      ensures initialized && Resident(view, id) && !runtime.initialized ==> r == Err(Decode(NotInitialized))
      ensures initialized && Resident(view, id) && runtime.initialized ==>
                r.Ok? && id in view.last && out[..] == view.last[id]
      ensures r.Ok? ==> exists s :: 0 <= s < |slots| && Occupies(slots[s], id) &&
                                    r.value == StoreEntry(id, slots[s].kind, slots[s].encodedLen)
    {
      hide Represents, SlotRefines, WellFormed, Balanced, Sound, CountOf, OccupiedCount, EncodedBytes;
      if !initialized {
        return Err(StoreNotInitialized);
      }
      stats := stats.(loadRequests := SatAdd(stats.loadRequests, 1));
      ResidentIffInASlot(runtime.profile, slots, nextEvict, view, id);
      SlotBuffers(runtime.profile, slots, nextEvict, view);
      var index := FindSlot(id);
      if index.None? {
        stats := stats.(loadMisses := SatAdd(stats.loadMisses, 1));
        return Err(NotFound);
      }
      var slot := slots[index.value];
      LoadedSlot(runtime.profile, slots, nextEvict, view, index.value);
      var decoded := runtime.Decode(slot.encoded[..slot.encodedLen], out);
      if decoded.Err? {
        stats := stats.(decodeFailures := SatAdd(stats.decodeFailures, 1));
        return Err(Decode(decoded.error));
      }
      RepresentsOnePage(runtime.profile, slot.encoded[..slot.encodedLen], slot.kind, view.last[id], decoded.value, out[..]);
      stats := stats.(loadSuccesses := SatAdd(stats.loadSuccesses, 1));
      return Ok(StoreEntry(id, slot.kind, slot.encodedLen));
    }
  }

  lemma {:induction false} SlotBuffers(profile: Profile, slots: seq<Slot>, nextEvict: nat, a: Abstract)
    requires SlotsRefine(profile, slots, nextEvict, a)
    ensures forall s | 0 <= s < CAPACITY ::
              |slots[s].encoded| == MAX_ENCODED_PAGE_BYTES && slots[s].encodedLen <= MAX_ENCODED_PAGE_BYTES
  {
    hide Represents, LatestIn, Sound;
    forall s | 0 <= s < CAPACITY
      ensures |slots[s].encoded| == MAX_ENCODED_PAGE_BYTES && slots[s].encodedLen <= MAX_ENCODED_PAGE_BYTES
    {
      assert SlotRefines(profile, slots, a, s);
    }
  }

  lemma {:induction false} LoadedSlot(profile: Profile, slots: seq<Slot>, nextEvict: nat, a: Abstract, s: nat)
    requires SlotsRefine(profile, slots, nextEvict, a) && s < CAPACITY && slots[s].occupied
    ensures slots[s].pageId in a.last
    ensures SlotHolds(profile, slots[s], slots[s].pageId, a.last[slots[s].pageId])
  {
    hide Represents, LatestIn, Sound;
    assert SlotRefines(profile, slots, a, s);
  }

  lemma {:induction false} StoreRefines(profile: Profile, slots: seq<Slot>, cursor: nat, cursor': nat, a: Abstract,
                     target: nat, slot: Slot, bytes: seq<byte>, id: nat, page: Page)
    requires SlotsRefine(profile, slots, cursor, a) && target < CAPACITY
    requires if Resident(a, id) then Occupies(slots[target], id) && cursor' == cursor
             else target == |a.log| % CAPACITY &&
                  cursor' == if |a.log| < CAPACITY then cursor else (cursor + 1) % CAPACITY
    requires HEADER_BYTES <= |bytes| <= MAX_ENCODED_PAGE_BYTES && |slots[target].encoded| == MAX_ENCODED_PAGE_BYTES
    requires slot == Slot(true, id, slot.kind, |bytes|, bytes + slots[target].encoded[|bytes|..])
    requires Represents(profile, bytes, slot.kind, page)
    ensures SlotsRefine(profile, slots[target := slot], cursor', Stored(a, id, page))
  {
    hide Represents, SlotsRefine;
    assert slot.encoded[..|bytes|] == bytes;
    if Resident(a, id) {
      ReplacementRefines(profile, slots, cursor, a, target, slot, id, page);
    } else {
      InsertionRefines(profile, slots, cursor, a, slot, id, page);
    }
  }
}
