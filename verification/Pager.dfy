/** The pager: reclaims pages into the compressed store and restores them. */
module Pager {
  import opened Bytes
  import opened PageCodec
  import opened PageStore

  datatype PagerError = PagerNotInitialized | FromStore(cause: StoreError) | VerifyFailed

  datatype ClassCounts = ClassCounts(zero: nat, same: nat, sxrc: nat, raw: nat)

  function Bump(c: ClassCounts, kind: Class): ClassCounts {
    match kind
    case Zero => c.(zero := SatAdd(c.zero, 1))
    case Same => c.(same := SatAdd(c.same, 1))
    case Sxrc => c.(sxrc := SatAdd(c.sxrc, 1))
    case Raw => c.(raw := SatAdd(c.raw, 1))
  }

  /** Each class has its own counter. */
  lemma {:induction false} BumpCountsItsClass(c: ClassCounts, kind: Class)
    ensures var after := Bump(c, kind);
            && after.zero == (if kind == Zero then SatAdd(c.zero, 1) else c.zero)
            && after.same == (if kind == Same then SatAdd(c.same, 1) else c.same)
            && after.sxrc == (if kind == Sxrc then SatAdd(c.sxrc, 1) else c.sxrc)
            && after.raw == (if kind == Raw then SatAdd(c.raw, 1) else c.raw)
  {
  }

  function Total(c: ClassCounts): nat {
    c.zero + c.same + c.sxrc + c.raw
  }

  datatype PagerStats = PagerStats(
    reclaimRequests: nat, reclaimSuccesses: nat, reclaimFailures: nat, reclaimed: ClassCounts,
    restoreRequests: nat, restoreSuccesses: nat, restoreFailures: nat, restoreMisses: nat, restored: ClassCounts,
    verifyFailures: nat, smokeRuns: nat, smokeSuccesses: nat)

  /** Until the counters saturate every request is a success of one class or a failure. */
  ghost predicate Balances(s: PagerStats) {
    && (s.reclaimRequests < WORD - 1 ==>
          && s.reclaimRequests == s.reclaimSuccesses + s.reclaimFailures
          && s.reclaimSuccesses == Total(s.reclaimed))
    && (s.restoreRequests < WORD - 1 ==>
          && s.restoreRequests == s.restoreSuccesses + s.restoreFailures
          && s.restoreSuccesses == Total(s.restored)
          && s.restoreMisses <= s.restoreFailures)
    && s.verifyFailures == 0
    && s.smokeSuccesses <= s.smokeRuns <= WORD - 1
  }

  /** One more request to reclaim: a success of its class, or a failure. */
  function ReclaimCounted(s: PagerStats, kind: Option<Class>): PagerStats {
    var asked := s.(reclaimRequests := SatAdd(s.reclaimRequests, 1));
    match kind
    case None => asked.(reclaimFailures := SatAdd(s.reclaimFailures, 1))
    case Some(k) => asked.(reclaimSuccesses := SatAdd(s.reclaimSuccesses, 1), reclaimed := Bump(s.reclaimed, k))
  }

  /** One more request to restore: a success of its class, or a failure, which may be a miss. */
  function RestoreCounted(s: PagerStats, kind: Option<Class>, miss: bool): PagerStats {
    var asked := s.(restoreRequests := SatAdd(s.restoreRequests, 1));
    match kind
    case None =>
      asked.(restoreFailures := SatAdd(s.restoreFailures, 1),
             restoreMisses := if miss then SatAdd(s.restoreMisses, 1) else s.restoreMisses)
    case Some(k) => asked.(restoreSuccesses := SatAdd(s.restoreSuccesses, 1), restored := Bump(s.restored, k))
  }

  class PagerState {
    const store: Store
    var initialized: bool
    var stats: PagerStats

    ghost predicate Valid()
      reads this, store, store.runtime
    {
      store.Valid() && Balances(stats)
    }

    /** Pager, store and compression runtime are all up. */
    ghost predicate Ready()
      reads this, store, store.runtime
    {
      initialized && store.initialized && store.runtime.initialized
    }

    constructor (store: Store)
      requires store.Valid()
      ensures Valid() && this.store == store && !initialized
    {
      this.store := store;
      initialized := false;
      stats := PagerStats(0, 0, 0, ClassCounts(0, 0, 0, 0), 0, 0, 0, 0, ClassCounts(0, 0, 0, 0), 0, 0, 0);
    }

    method Initialize() returns (ok: bool)
      requires Valid()
      modifies this
      ensures Valid() && ok == (!old(initialized) && store.initialized)
      ensures initialized == (old(initialized) || ok)
    {
      ok := !initialized && store.initialized;
      initialized := initialized || ok;
    }

    method ReclaimPage(id: nat, page: Page) returns (r: Result<StoreEntry, PagerError>)
      requires Valid()
      modifies this, store, store.runtime
      ensures Valid() && Ready() == old(Ready()) && initialized == old(initialized)
      ensures !initialized ==> r == Err(PagerNotInitialized) && stats == old(stats)
      ensures r.Err? ==> store.view == old(store.view)
      ensures r.Ok? <==> Ready()
      ensures r.Ok? ==> store.view == Stored(old(store.view), id, page)
      ensures initialized ==> stats == ReclaimCounted(old(stats), if r.Ok? then Some(r.value.kind) else None)
    {
      hide Accounted, WellFormed, Balanced;
      if !initialized {
        return Err(PagerNotInitialized);
      }
      stats := stats.(reclaimRequests := SatAdd(stats.reclaimRequests, 1));
      var stored := store.StorePage(id, page);
      if stored.Err? {
        stats := stats.(reclaimFailures := SatAdd(stats.reclaimFailures, 1));
        return Err(FromStore(stored.error));
      }
      stats := stats.(reclaimSuccesses := SatAdd(stats.reclaimSuccesses, 1),
                      reclaimed := Bump(stats.reclaimed, stored.value.kind));
      return Ok(stored.value);
    }

    method RestorePage(id: nat, out: array<byte>) returns (r: Result<StoreEntry, PagerError>)
      requires Valid() && out.Length == PAGE_BYTES
      modifies this, store, store.runtime, out
      ensures Valid() && Ready() == old(Ready()) && initialized == old(initialized) && store.view == old(store.view)
      ensures !initialized ==> r == Err(PagerNotInitialized) && stats == old(stats)
      ensures Ready() && !Resident(store.view, id) ==> r == Err(FromStore(NotFound))
      ensures Ready() && Resident(store.view, id) ==>
                r.Ok? && id in store.view.last && out[..] == store.view.last[id]
      ensures initialized ==>
                stats == RestoreCounted(old(stats), if r.Ok? then Some(r.value.kind) else None, r == Err(FromStore(NotFound)))
    {
      hide Accounted, WellFormed, Balanced, Resident;
      if !initialized {
        return Err(PagerNotInitialized);
      }
      stats := stats.(restoreRequests := SatAdd(stats.restoreRequests, 1));
      var loaded := store.LoadPage(id, out);
      if loaded.Err? {
        stats := stats.(restoreFailures := SatAdd(stats.restoreFailures, 1),
                        restoreMisses := if loaded.error == NotFound then SatAdd(stats.restoreMisses, 1)
                                         else stats.restoreMisses);
        return Err(FromStore(loaded.error));
      }
      stats := stats.(restoreSuccesses := SatAdd(stats.restoreSuccesses, 1),
                      restored := Bump(stats.restored, loaded.value.kind));
      return Ok(loaded.value);
    }

    /**
     Reclaiming a page and restoring it at once succeeds for every page, so the
     source's mismatch branch (which would count a verify failure) is dead.
     */
    method VerifyRoundtrip(id: nat, page: Page) returns (r: Result<(), PagerError>)
      requires Valid()
      modifies this, store, store.runtime
      ensures Valid() && Ready() == old(Ready()) && initialized == old(initialized)
      ensures r.Ok? <==> Ready()
      ensures r.Ok? ==> store.view == Stored(old(store.view), id, page)
      ensures stats.smokeRuns == old(stats.smokeRuns) && stats.smokeSuccesses == old(stats.smokeSuccesses)
    {
      hide Accounted, WellFormed, Balanced, Balances, Resident;
      var reclaimed := ReclaimPage(id, page);
      if reclaimed.Err? {
        return Err(reclaimed.error);
      }
      StoredIsResident(old(store.view), id, page);
      var restored := new byte[PAGE_BYTES];
      var loaded := RestorePage(id, restored);
      if loaded.Err? || page != restored[..] {
        assert false;
      }
      return Ok(());
    }

    /** The boot-time self test passes on every pager that is ready. */
    method RunBootstrapSmoke() returns (r: Result<(nat, nat), PagerError>)
      requires Valid()
      modifies this, store, store.runtime
      ensures Valid() && initialized == old(initialized)
      ensures old(Ready()) ==> r == Ok((4, 4)) && stats.smokeSuccesses == SatAdd(old(stats).smokeSuccesses, 1)
      ensures !old(Ready()) ==> r.Err? && stats.smokeSuccesses == old(stats).smokeSuccesses
    {
      hide Accounted, WellFormed, Balanced, Stored;
      if !initialized {
        return Err(PagerNotInitialized);
      }
      stats := stats.(smokeRuns := SatAdd(stats.smokeRuns, 1));
      var step := VerifyRoundtrip(0x1000, Fill(0));
      if step.Err? { return Err(step.error); }
      step := VerifyRoundtrip(0x1001, Fill(0xAA));
      if step.Err? { assert false; }
      step := VerifyRoundtrip(0x1002, PatternPage());
      if step.Err? { assert false; }
      step := VerifyRoundtrip(0x1003, DictionaryWordPage(0xffff));
      if step.Err? { assert false; }
      stats := stats.(smokeSuccesses := SatAdd(stats.smokeSuccesses, 1));
      return Ok((4, 4));
    }
  }

  function Low8(v: nat): byte {
    v % 256
  }

  function PatternPage(): Page {
    seq(PAGE_BYTES, i requires 0 <= i => Low8(i * 17 + 5))
  }

  function DictionaryWordPage(word: nat): Page {
    seq(PAGE_BYTES, i requires 0 <= i => Low8(Le32(word)[i % 4]))
  }
}
