# HXNU kernel: a verified model

This project models the parts of the HXNU kernel that carry unbounded properties, and
proves those properties with Dafny 4.11. `dafny verify dfyconfig.toml` checks everything.

| file | what it models |
|---|---|
| `TaskRing.dfy` | the lock-free ring between task submitters and dispatchers, as an interleaving of atomic steps by any number of threads |
| `PageCodec.dfy`, `PageStore.dfy`, `Pager.dfy` | the page codec, the 64-slot store that refines a map, the pager on top |
| `FrameAllocator.dfy`, `FrameSupply.dfy` | the bump allocator of physical frames, and the list of frames it supplies |
| `PageTables.dfy`, `UserMapping.dfy`, `CloneSpace.dfy` | four-level page tables in physical memory, mapping of user pages, deep copy of an address space |
| `NativeRegions.dfy` | region records of processes and the first-fit search |
| `Scheduling.dfy`, `SchedulingEffects.dfy`, `SchedulerState.dfy` | the scheduler as a state machine, what each of its operations does to threads and queues, and the same in place on thread table, run queues and bitmap |
| `Elf.dfy`, `Loader.dfy`, `UserStack.dfy`, `Spawn.dfy` | ELF parsing, load plan and activation; page-by-page loading; the initial stack, written by the kernel and read by the program; all of them in turn, from a file to a running program |
| `Cpio.dfy` | the newc printer of the build script and the kernel's parser |
| `OpenFiles.dfy` | the reference-counted open-file table and the descriptor tables |
| `Entropy.dfy` | the entropy score of the syscall tracer |
| `Bytes.dfy` | bytes, words, rounding, FNV-1a |

Code that updates state in place is modelled by classes and methods with loops, each proved
against a function on values; the properties are lemmas about those functions, about runs of
them and about every reachable state. Automatic induction is switched off on every lemma, so
each inductive step is written out.

## Results

- **Ring.** In every interleaving the dispatcher of a position reads exactly what its one
  submitter wrote, which goes back to one submit call and what it asked for; nothing accepted
  is lost, overwritten or read twice; "full" is returned exactly when the cell sixteen
  positions back was unreleased.
- **Pages.** Encoding and decoding are inverse for every page and any well-formed tables, and
  the decoder accepts exactly what represents a page. The store refines a map whose resident
  ids are those of the last 64 insertions, and its statistics always equal a recount.
- **Address spaces.** Mapping changes the intended translations and no others. A cloned space
  means the same as its parent, in frames of its own, so later writes through one never show
  in the other. What the processor grants on a page, being what all four entries on its path
  allow, is stated for new, remapped and cloned pages. Frames handed out are pairwise disjoint.
- **Scheduler.** From the first tick on a thread is runnable exactly when it is queued once at
  its priority, and at most the current thread runs. Hence no enqueue fails, there is always a
  successor, and queue 0 is served in turn, an unblocked thread included. Of every operation it
  is stated which threads and queue entries change and how, and that no other does.
- **Loading.** From the bytes of a file to a running program: every byte of a load segment
  reads, through the program's own page tables, as the file says, also on shared pages; so do
  the words and strings of its stack; stack writer and stack reader are inverse. Printed ELF
  headers read back field by field.
- **Archive and descriptors.** Packing and parsing a sorted tree are inverse; reference counts
  always equal the number of descriptors; reads through aliases deliver each byte once, from
  the start of what was opened and as far as they ask for it.
- **Entropy.** The subtraction never saturates; the score is zero exactly for uniform payloads
  and maximal exactly for payloads of distinct bytes; 2^k values in equal shares score 1024 k.

Some properties one might expect do not hold of the code. They are shown by a concrete case
and replaced by their exact condition:

- a poll can report an accepted task complete before it is claimed
  (`TaskRing.OverlapMisleadsPoll`): exactly when more later ids got ahead of it than earlier
  ids are missing before it (`TaskRing.PolledEarlyIff`, `TaskRing.PolledEarlyIffOvertaken`);
- a region mapped at a caller's address may overlap another
  (`NativeRegions.HintedRegionsCanOverlap`, `NativeRegions.HintKeepsTidyIffFree`);
- leaving bootstrap while it is queued would leave an exited thread in a queue
  (`Scheduling.LeavingQueuedBootstrapBreaksInv`, `Scheduling.LeavingBootstrapKeepsInvIff`);
- arguments that do not fit still give a stack pointer, below the stack
  (`UserStack.StackWriter.Setup`, `UserStack.LongArgumentDoesNotFit`);
- a string that crosses into a frame that does not follow is written into a foreign frame and
  not found by the program (`UserStack.SplitArgumentIsLost`): strings of given sizes are
  always found exactly when each lies whole in physical memory
  (`UserStack.AlwaysFoundIffWhole`);
- the initial stack pointer is not always 16-byte aligned (`UserStack.NotAlways16Aligned`,
  `UserStack.AlignedTo16Iff`);
- a page of a read-only load segment is not always read-only, nor one of a segment without the
  X flag not executable: it is writable exactly if a writable segment touches it too, and
  always executable (`Loader.ReadOnlyPageCanBeWritable`, `Loader.LoadedProgramMay`);
- a load segment without file bytes is refused if its offset lies past the file
  (`Elf.BadRangeIff`, `Elf.ImageIsRefused`);
- a file name with ".." inside makes an archive unreadable (`Cpio.DottedFileIsRefused`,
  `Cpio.DotDotIsRefused`);
- a file or pipe opened without a current thread is never released: a run keeps the counts
  exactly when it has no such call (`OpenFiles.BootCallsStrand`,
  `OpenFiles.RunKeepsInvIff`, `OpenFiles.StrandedForGood`);
- a thread that ends does not give back what its descriptors 0 to 2 hold
  (`OpenFiles.ExitCanKeepAFile`, `OpenFiles.ExitGivesBackIff`).

## Model

| member | source | states |
|---|---|---|
| TaskRing.DecodeEncode | kernel/src/hsched.rs:24-39 | a task word with the occupied bit set decodes to exactly the id and target that were encoded, for every id and target |
| TaskRing.RunKeepsInv | kernel/src/hsched.rs:117-199 | the ring invariant (positions, cell sequences, what each thread may rely on, what was received) holds after every interleaving of atomic loads, compare-and-swaps that may fail spuriously, and stores, by any number of threads |
| TaskRing.StepKeepsInv | kernel/src/hsched.rs:132-197 | one atomic step of any thread keeps that invariant |
| TaskRing.TailClaimIsFree | kernel/src/hsched.rs:135-149 | a submitter whose compare-and-swap on the tail succeeds has claimed a cell that is free: fewer than sixteen positions are unread |
| TaskRing.HeadClaimIsPublished | kernel/src/hsched.rs:168-180 | a dispatcher whose compare-and-swap on the head succeeds has claimed a position whose payload is already in its cell |
| TaskRing.NothingIsLost | kernel/src/hsched.rs:117-199 | in every reachable state head <= tail <= head + 16, and every accepted position has been received or is still held, unaltered, by its submitter or its cell |
| TaskRing.DispatchersReadWhatWasSubmitted | kernel/src/hsched.rs:164-199 | what was received for a position decodes to the ticket and target of the one submission that claimed it |
| TaskRing.ReceivedIsWhatACallAskedFor | kernel/src/syscall.rs:1068-1069 | on the schedule: whatever was received for a position goes back to one submit call of the thread that claimed it, made while that thread was idle, and decodes to the id the counter held at that call and to the low eight bits of the target the call asked for |
| TaskRing.OneCallPerPosition | kernel/src/hsched.rs:117-131 | as long as ids do not wrap, what was received at different positions goes back to different calls |
| TaskRing.EachPositionIsReadOnce | kernel/src/hsched.rs:177-188 | a dispatcher about to load has a position nobody has received before, and receives exactly the payload submitted for it |
| TaskRing.QuiescentRingHasLostNothing | kernel/src/hsched.rs:117-199 | once every call has returned, exactly the positions below the head were received and all others are complete in their cells |
| TaskRing.SequencesOnlyAdvance | kernel/src/hsched.rs:144-179 | a cell's sequence number only ever moves from p to p + 1 and on to p + 16, for positions of that cell |
| TaskRing.RefusedExactlyWhenCellUnreleased | kernel/src/hsched.rs:132-159 | "Task queue is full" is returned if and only if, when the sequence was loaded, the position was the tail and the position sixteen before it was still unreleased |
| TaskRing.SerialRunKeepsTicketsInTurn | kernel/src/hsched.rs:117-131 | if submissions do not overlap, the ticket of every accepted task is its position, plus one, plus the refusals before it |
| TaskRing.PollOfAnAcceptedTask | kernel/src/syscall.rs:1075-1086 | if submissions do not overlap, a poll reports a task complete exactly when position + refusals before it < head, hence never before it is claimed, and exactly then if nothing was refused before |
| TaskRing.OverlapMisleadsPoll | kernel/src/syscall.rs:1075-1086 | two overlapping submissions after which both have returned, the task with id 1 holds position 1, nobody has claimed that position, and a poll for id 1 reports it complete |
| TaskRing.RunKeepsTicketsDistinct | kernel/src/hsched.rs:117-131 | in every interleaving, as long as ids do not wrap, the ids of accepted tasks and of submissions still looking for a position are positive, below the counter and all different, and the counter is one more than the number of ids drawn |
| TaskRing.SmallTicketIffOvertaken | kernel/src/hsched.rs:117-161 | the id of an accepted task is at most its position if and only if more later ids took positions before it than earlier ids are missing there |
| TaskRing.PolledEarlyIff | kernel/src/syscall.rs:1075-1086 | in every state of every interleaving a poll reports an unclaimed task complete exactly when it was overtaken in that sense and the head lies between its id and its position |
| TaskRing.PolledEarlyIffOvertaken | kernel/src/syscall.rs:1075-1086 | over whole runs: some poll is too early only if the task was overtaken, and if it was and its position has been claimed since, some poll was too early |
| TaskRing.NotOvertakenNeverEarly | kernel/src/syscall.rs:1075-1086 | a task that no later id got ahead of is never reported complete before it is claimed |
| Fnv.Fnv1a32 | kernel/src/mm/compress/checksum.rs:6-13 | the loop computes the 32-bit FNV-1a hash |
| Fnv.XorBit | kernel/src/mm/compress/checksum.rs:9 | the exclusive or used there has a one exactly at the bits in which its operands differ |
| PageCodec.MinimalV1IsWellFormed | kernel/src/mm/compress/profile_generated.rs:1-24 | the tables that ship meet the conditions asked of any tables (unique ids, sizes that fit a token); their patterns have one to three bytes, so none is ever worth a token |
| PageCodec.LookupById | kernel/src/mm/compress/codec.rs:325-341 | returns the first entry with that id, or nothing if there is none |
| PageCodec.LookupByWord | kernel/src/mm/compress/codec.rs:316-323 | finds the first entry with that word, or there is none |
| PageCodec.BestPatternAt | kernel/src/mm/compress/codec.rs:294-314 | among the patterns that match, one of greatest length, and of those the first |
| PageCodec.PickToken | kernel/src/mm/compress/codec.rs:257-292 | the token chosen expands to at least four bytes that are really there; no dictionary word or longer pattern that matches is passed over for nothing or for something shorter |
| PageCodec.TokensAreUnambiguous | kernel/src/mm/compress/codec.rs:152-210 | at one place of a payload at most one valid token can start |
| PageCodec.ReadToken | kernel/src/mm/compress/codec.rs:155-206 | finds the valid token that starts here, and fails only if no valid token does |
| PageCodec.DecodeSxrc | kernel/src/mm/compress/codec.rs:152-210 | terminates on every byte string; accepts exactly those that split fully into valid tokens expanding to 4096 bytes, and returns that expansion |
| PageCodec.OneReading | kernel/src/mm/compress/codec.rs:152-210 | a payload has at most one such splitting |
| PageCodec.EmitLiteralRun | kernel/src/mm/compress/codec.rs:212-227 | appends tokens that expand to the given bytes, in runs of a length the token can carry, or reports that the buffer is too small |
| PageCodec.EncodeSxrc | kernel/src/mm/compress/codec.rs:106-150 | what it leaves in the buffer is a token stream that expands to the page, at most six fifths of a page and two bytes long; so it fails only in less room than that |
| PageCodec.EncodeHeaderInto | kernel/src/mm/compress/header.rs:37-50 | writes the framed header and nothing else, or nothing if there is no room |
| PageCodec.DecodeHeaderOfEncoded | kernel/src/mm/compress/header.rs:37-80 | decoding an encoded header gives back class, length and checksum |
| PageCodec.EncodePage | kernel/src/mm/compress/codec.rs:14-55 | fails only for a buffer below header + 4096 bytes; the bytes written represent the page in the class reported; class zero and class same are chosen exactly for pages of one byte value |
| PageCodec.RepresentsOnePage | kernel/src/mm/compress/codec.rs:57-95 | no byte string represents two pages or two classes |
| PageCodec.DecodePage | kernel/src/mm/compress/codec.rs:57-95 | succeeds exactly on byte strings that represent some page, returning that page and class; otherwise says whether header, checksum or payload was wrong |
| PageCodec.RoundTrip | kernel/src/mm/compress/codec.rs:14-95 | for every page and any well-formed tables, encoding and then decoding returns the same page and the same class within header + 4096 bytes |
| PageStore.Runtime.constructor | kernel/src/mm/compress/mod.rs:262-267 | a runtime starts uninitialised with all counters at zero |
| PageStore.Runtime.Initialize | kernel/src/mm/compress/mod.rs:269-275 | initialises once; a second call is refused and changes nothing |
| PageStore.Runtime.Encode | kernel/src/mm/compress/mod.rs:293-302 | refuses before initialisation; otherwise encodes, with per-class counters that keep adding up to the number of encoded pages |
| PageStore.Runtime.Decode | kernel/src/mm/compress/mod.rs:304-313 | refuses before initialisation; otherwise decodes, and fails only on bytes that represent no page |
| PageStore.StoredIsResident | kernel/src/mm/compress/store.rs:166-224 | in the abstract map, a page just stored is resident under its id |
| PageStore.StoredKeepsSound | kernel/src/mm/compress/store.rs:166-224 | storing keeps the abstract map sound: the ids of the last 64 insertions are distinct and each has a page |
| PageStore.ResidentSurvives63Insertions | kernel/src/mm/compress/store.rs:183-194 | an inserted id stays resident through the next 63 insertions, whatever is stored |
| PageStore.EvictedAfter64Insertions | kernel/src/mm/compress/store.rs:183-194 | after 64 insertions of other ids it is gone |
| PageStore.LastWriteWins | kernel/src/mm/compress/store.rs:166-224 | over any sequence of stores the page of an id is the one stored last |
| PageStore.ResidentIffInASlot | kernel/src/mm/compress/store.rs:300-310 | an id is resident exactly when an occupied slot carries it |
| PageStore.AccountingFollowsSlots | kernel/src/mm/compress/store.rs:264-298 | removing the old and adding the new contribution of a slot leaves page count, class counts and encoded bytes equal to a recount over the slots |
| PageStore.Store.constructor | kernel/src/mm/compress/store.rs:137-144 | an empty store represents the empty map |
| PageStore.Store.Initialize | kernel/src/mm/compress/store.rs:146-155 | succeeds once, and only after the runtime |
| PageStore.Store.FindSlot | kernel/src/mm/compress/store.rs:300-310 | finds an occupied slot with the id, or there is none |
| PageStore.Store.FindEmptySlot | kernel/src/mm/compress/store.rs:312-321 | finds the first slot not occupied, or all are |
| PageStore.Store.ChooseSlot | kernel/src/mm/compress/store.rs:183-194 | a resident id keeps its slot; the n-th insertion goes to slot n mod 64, with the eviction cursor and the counters moved accordingly |
| PageStore.Store.StorePage | kernel/src/mm/compress/store.rs:166-224 | refines the map: after a store the abstract map is the old one with the page stored, and all statistics equal a recount; on an error map and slots are unchanged and only the counters move |
| PageStore.Store.LoadPage | kernel/src/mm/compress/store.rs:226-258 | returns the page last stored under a resident id, reports every other id as not found, and changes no slot |
| Pager.PagerState.constructor | kernel/src/mm/pager.rs:89-113 | a pager starts uninitialised |
| Pager.PagerState.Initialize | kernel/src/mm/pager.rs:115-124 | succeeds once, and only after the store |
| Pager.PagerState.ReclaimPage | kernel/src/mm/pager.rs:134-155 | succeeds exactly when pager, store and runtime are initialised, and then the page is stored; every request counts as a success of its class or as a failure, and the counters stay balanced |
| Pager.PagerState.RestorePage | kernel/src/mm/pager.rs:157-185 | returns the last page reclaimed under a resident id and reports others as missing, counting each request as a success of its class, a miss or another failure |
| Pager.PagerState.VerifyRoundtrip | kernel/src/mm/pager.rs:208-222 | the comparison after reclaim and restore can never fail once everything is initialised |
| Pager.PagerState.RunBootstrapSmoke | kernel/src/mm/pager.rs:187-202 | the boot check of four pages always succeeds on an initialised pager and fails otherwise |
| FrameAllocator.KeptRegionIsInside | kernel/src/mm/frame.rs:84-125 | a region made from a usable entry lies inside it, page-aligned and above 1 MiB |
| FrameAllocator.KeptRegionIsMaximal | kernel/src/mm/frame.rs:84-125 | every whole page of a usable entry above 1 MiB is in the region made from it |
| FrameAllocator.FramesOfAreThePages | kernel/src/mm/frame.rs:127-146 | the frames a region still has are exactly the pages between the next one to give and its end |
| FrameAllocator.FreeFramesAreDistinct | kernel/src/mm/frame.rs:127-146 | no frame is on the list of future single allocations twice |
| FrameAllocator.TakeFirstFree | kernel/src/mm/frame.rs:127-146 | taking a page from the first region with room removes exactly the head of that list |
| FrameAllocator.TakeHandsOutFresh | kernel/src/mm/frame.rs:127-168 | a range taken from a region is apart from every range handed out before |
| FrameAllocator.Allocator.constructor | kernel/src/mm/frame.rs:73-82 | an allocator starts with no region, no entry and nothing handed out |
| FrameAllocator.Allocator.Initialize | kernel/src/mm/frame.rs:84-125 | over disjoint usable entries: refused if already initialised, if nothing is usable or if there are more than 64 regions; otherwise its entries are exactly those of the map worth keeping and its regions are theirs; a refused call leaves the first 64 found, which a later call goes on from |
| FrameAllocator.Allocator.Allocate | kernel/src/mm/frame.rs:127-146 | returns the head of the list of free frames, and nothing if and only if the list is empty or the allocator is not initialised |
| FrameAllocator.Allocator.AllocateContiguous | kernel/src/mm/frame.rs:148-168 | returns the next frames of the first region with that many left, and nothing if and only if no region has them |
| FrameAllocator.HandedRangesAreSafe | kernel/src/mm/frame.rs:84-168 | whatever was ever handed out is page-aligned, at or above 1 MiB, inside one usable entry of the boot map, and disjoint from everything else handed out |
| FrameSupply.SupplyHasNoRepeat | kernel/src/mm/frame.rs:127-146 | as frame numbers, the future single allocations never repeat, which the page-table code relies on |
| FrameSupply.AllocationTakesTheFront | kernel/src/mm/frame.rs:127-146 | a single allocation takes exactly the front of that list |
| FrameSupply.PopFrame | kernel/src/mm/frame.rs:200-202 | the free list of the page-table model and the allocator stay in step: both have a frame, the same one, or neither has |
| PageTables.WalkElsewhere | kernel/src/arch/x86_64/early_map.rs:275-349 | on a tree of tables, a change to one entry is invisible to every walk that does not pass through it |
| PageTables.LeafSetWalks | kernel/src/arch/x86_64/early_map.rs:300-322 | writing a last-level entry changes the translation of its own page and of no other |
| PageTables.InstallKeepsWalks | kernel/src/arch/x86_64/early_map.rs:326-338 | hanging a cleared table in an absent entry changes no translation at all |
| PageTables.InstallKeepsTree | kernel/src/arch/x86_64/early_map.rs:326-338 | the tables still form a tree afterwards, apart from the frames still free |
| PageTables.PageOfPath | kernel/src/arch/x86_64/early_map.rs:158-160 | the four table indices of a page number determine it |
| PageTables.PathOfPage | kernel/src/arch/x86_64/early_map.rs:158-160 | every combination of four indices belongs to one page number |
| PageTables.PathsAreOrdered | kernel/src/arch/x86_64/early_map.rs:158-160 | page numbers are ordered as their paths are, index by index from the top |
| PageTables.NeighboursShareTables | kernel/src/arch/x86_64/early_map.rs:158-160 | two pages share all tables down to the last, that is the first three indices, if and only if they lie in the same aligned run of 512 |
| PageTables.LowerHalfAddresses | kernel/src/arch/x86_64/early_map.rs:158-160 | the lower 256 entries of a root table are the addresses below 2^47 |
| UserMapping.PhysicalMemory.NextTableUser | kernel/src/arch/x86_64/early_map.rs:326-349 | returns the table one level down, creating it if absent; translations and the tree survive; fails only without a free frame |
| UserMapping.PhysicalMemory.MapUserPage | kernel/src/arch/x86_64/early_map.rs:275-324 | the page gets the frame with PRESENT, USER and the flags, or keeps its frame and gains the flags, or is left alone under a huge page; every other translation is unchanged; on failure none changed |
| UserMapping.NewPageGrants | kernel/src/arch/x86_64/early_map.rs:300-338 | what the processor lets a program do on a page just mapped, being what all four entries of its path allow, is what the tables allowed before together with what the flags ask for; absent tables are created so that they take nothing away |
| UserMapping.OldPageGrants | kernel/src/arch/x86_64/early_map.rs:311-318 | the entry of a page that was mapped keeps what it allowed and gains what the flags ask for, except that it loses execution when they forbid it; the tables above allow what they did |
| UserMapping.PhysicalMemory.MapUserRegion | kernel/src/arch/x86_64/early_map.rs:351-379 | the same for all pages the region touches, with consecutive frames, masked to 40 bits of frame number, for the pages done when frames or physical addresses run out, and with data frames untouched; page numbers come round after 2^36, and a page met again keeps its first frame; a range past 2^64 changes nothing |
| UserMapping.TouchedPages | kernel/src/arch/x86_64/early_map.rs:358-365 | the pages a region touches are exactly those on which one of its bytes lies; an empty region counts as one byte |
| UserMapping.PhysicalMemory.CreateUserPageTable | kernel/src/arch/x86_64/early_map.rs:177-196 | a new root with an empty lower half and the upper half of the kernel; nothing else changes |
| UserMapping.NewSpaceTranslates | kernel/src/arch/x86_64/early_map.rs:177-196 | a new space maps nothing in its lower half and translates as the kernel in its upper half |
| UserMapping.NewSpaceIsTree | kernel/src/arch/x86_64/early_map.rs:177-196 | its tables form a tree, so everything about mapping applies to it |
| CloneSpace.CloneEntry | kernel/src/mm/vmm.rs:28-68 | copies an entry and all below it: same meaning, built from the next free frames in order, nothing else written; runs out exactly when fewer frames are free than the subtree has |
| CloneSpace.CloneTable | kernel/src/mm/vmm.rs:27-72 | the same for the first n entries of a table |
| CloneSpace.CloneAddressSpace | kernel/src/mm/vmm.rs:12-75 | succeeds exactly when a frame is free for the root and for each table and page of the lower half; then the clone shares the upper 256 entries and nothing that was in use is written; without any frame no space is returned, otherwise it runs out on the way |
| CloneSpace.CloneTranslates | kernel/src/mm/vmm.rs:12-75 | at every lower-half path parent and clone are both unmapped, or both mapped with equal low bits to equal contents |
| CloneSpace.CloneGrants | kernel/src/mm/vmm.rs:34-60 | on every mapped page of the clone the processor grants exactly what the parent's last-level entry allows; that is what it grants in the parent if and only if the parent's tables above take nothing away |
| CloneSpace.CloneFramesAreFresh | kernel/src/mm/vmm.rs:12-75 | every table and page of the clone has a frame of its own, which was free before and which the parent does not use |
| CloneSpace.ParentDoesNotSeeCloneWrites | kernel/src/mm/vmm.rs:12-75 | whatever is later written to frames that were free, the parent's lower half means what it meant |
| CloneSpace.CloneDoesNotSeeParentWrites | kernel/src/mm/vmm.rs:12-75 | whatever is later written to frames the clone did not take, those still free after it included, the clone's lower half means what it meant |
| NativeRegions.Search | kernel/src/mm/vmm.rs:136-152 | terminates, without a sum leaving 64 bits, at the least address from 0x4000_0000_0000 on where the range meets no used record |
| NativeRegions.OrderDoesNotMatter | kernel/src/mm/vmm.rs:138-150 | where the search ends depends only on the used ranges, not on their order |
| NativeRegions.RecordingKeepsTidyIffFree | kernel/src/mm/vmm.rs:156-163 | recording an aligned range keeps the records disjoint if and only if the range was free |
| NativeRegions.ZeroHintKeepsTidy | kernel/src/mm/vmm.rs:131-165 | a call without a hint keeps every process's records page-aligned and disjoint |
| NativeRegions.ZeroHintRunKeepsTidy | kernel/src/mm/vmm.rs:131-165 | so does every run of such calls by any processes |
| NativeRegions.HintKeepsTidyIffFree | kernel/src/mm/vmm.rs:152-163 | a call with a hint keeps them disjoint if and only if the rounded range was free, which the code does not test |
| NativeRegions.HintedRegionsCanOverlap | kernel/src/mm/vmm.rs:152-163 | from the table at boot, two calls with the same hint both succeed, and two records share one page |
| NativeRegions.ErrorIffFull | kernel/src/mm/vmm.rs:131-165 | with page-aligned records the value returned is -12 if and only if the region table was full, so no address is mistaken for the error |
| NativeRegions.AddressIsNotAnError | kernel/src/mm/vmm.rs:161-164 | the address can be read off the signed word returned, and a page-aligned one is never the error number |
| NativeRegions.RegionAt | kernel/src/mm/vmm.rs:171-175 | finds the first used region that holds a faulting address, or there is none; among disjoint records it is the only one |
| NativeRegions.VmmTable.constructor | kernel/src/mm/vmm.rs:97-107 | 64 inactive records of 128 unused regions each |
| NativeRegions.VmmTable.GetProcessVmm | kernel/src/mm/vmm.rs:109-129 | finds the active record of the process, or takes the first inactive one and clears it, or finds none left |
| NativeRegions.VmmTable.MapNativeRegion | kernel/src/mm/vmm.rs:131-165 | opens the process record, places the region at the least free address or at the rounded hint, and enters it in the first unused record, or reports a full table |
| NativeRegions.VmmTable.FaultRegion | kernel/src/mm/vmm.rs:167-177 | opens the record of the process, and finds the one region of it that holds the faulting address, if any |
| Scheduling.QueueHasRoom | kernel/src/sched.rs:359-369 | a thread that is not runnable always finds room in the queue of its priority |
| Scheduling.TickKeepsInv | kernel/src/sched.rs:385-424 | a timer tick keeps the scheduler invariant: each queue holds exactly the runnable threads of its priority, each once, and only the current thread runs |
| Scheduling.SwitchKeepsInv | kernel/src/sched.rs:563-603 | a context switch keeps it |
| Scheduling.SwitchGoesToNext | kernel/src/sched.rs:552-603 | the thread a switch dequeues is the one it looked at before it queued the current thread, and is not the current one |
| Scheduling.YieldKeepsInv | kernel/src/sched.rs:673-710 | a yield keeps it |
| Scheduling.BlockKeepsInv | kernel/src/sched.rs:799-805 | blocking the current thread keeps it |
| Scheduling.UnblockKeepsInv | kernel/src/sched.rs:807-825 | unblocking a thread keeps it |
| Scheduling.CreateKeepsInv | kernel/src/sched.rs:896-945 | creating a user thread keeps it |
| Scheduling.CreatedThreadIsQueued | kernel/src/sched.rs:318-352 | while a slot is free a new thread is created and queued |
| SchedulingEffects.CreateEffect | kernel/src/sched.rs:318-352 | while a slot is free the new thread takes the next slot and id and stands last in queue 0, every other thread and queue entry being as before; with none free nothing changes |
| Scheduling.ActivateKeepsInv | kernel/src/sched.rs:468-493 | activating a chosen slot keeps it |
| Scheduling.RestoreKeepsInv | kernel/src/sched.rs:444-466 | taking bootstrap back as current keeps it |
| Scheduling.LeavingBootstrapKeepsInvIff | kernel/src/sched.rs:522-544 | leaving the bootstrap thread keeps it if and only if bootstrap was not queued |
| Scheduling.LeavingQueuedBootstrapBreaksInv | kernel/src/sched.rs:522-544 | one tick after boot bootstrap is queued, and leaving it there would break the invariant |
| Scheduling.ExitKeepsInv | kernel/src/sched.rs:623-671 | ending a thread group keeps it |
| Scheduling.ExitEndsTheGroup | kernel/src/sched.rs:635-652 | exactly the threads of the group end; any other keeps its state or is the one dispatched |
| Scheduling.InitialisedQueues | kernel/src/sched.rs:276-316 | right after initialisation the invariant does not hold yet: bootstrap runs and is queued |
| Scheduling.InitialisedThreads | kernel/src/sched.rs:276-316 | after initialisation bootstrap runs with id, process and group 1, and idle is runnable with id 2 and neither process nor group |
| Scheduling.UninitialisedIdles | kernel/src/sched.rs:385-945 | before initialisation ticks, switches, yields, exits, creations and activations have no effect |
| Scheduling.BootedHasInv | kernel/src/sched.rs:385-424 | the first tick establishes it |
| Scheduling.EveryRunKeepsInv | kernel/src/sched.rs:318-825 | from the first tick on it holds in every state of every run of these operations |
| Scheduling.RunnableIffQueuedOnce | kernel/src/sched.rs:318-825 | spelled out: in every run a thread is runnable if and only if it is in the queue of its priority, never twice, and a running thread is the current one |
| Scheduling.RunQueueNeverFull | kernel/src/sched.rs:359-369 | in every run no enqueue meets a full queue, so no discarded error drops a thread |
| Scheduling.AlwaysASuccessor | kernel/src/sched.rs:623-710 | if only user threads block, idle always runs or waits, so an exiting group and a yielding thread always find a successor |
| Scheduling.ServedInTurn | kernel/src/sched.rs:359-424 | a thread at place k of queue 0 is dispatched, or its group ends, by the time k + 1 threads were taken from queue heads, whatever else is queued |
| SchedulingEffects.TickEffect | kernel/src/sched.rs:385-424 | a tick puts the running thread at the back of its queue and runs the head of the first queue that is then not empty, which leaves its queue; every other thread and queue entry is as before; with all queues empty only the current slot is cleared |
| SchedulingEffects.YieldEffect | kernel/src/sched.rs:673-710 | a yield does the same when the current thread is a user thread that has not exited, and nothing otherwise |
| SchedulingEffects.SwitchEffect | kernel/src/sched.rs:552-603 | a switch runs the thread that was first in line before the current one was queued; if that is the current one, or nobody waits, nothing changes |
| SchedulingEffects.BlockEffect | kernel/src/sched.rs:799-805 | the running thread becomes blocked and nothing else changes |
| SchedulingEffects.BlockedUntilWoken | kernel/src/sched.rs:799-825 | through every run a blocked thread is neither running nor in any queue until an unblock names it, or it is activated by slot, restored as bootstrap, or reached by leaving bootstrap; at most it ends |
| SchedulingEffects.UnblockEffect | kernel/src/sched.rs:807-825 | the first thread waiting under the ids becomes runnable and stands last in the queue of its priority, every other thread and queue entry being as before; if none waits nothing changes |
| SchedulingEffects.UnblockedIsServed | kernel/src/sched.rs:807-825 | from boot on, through any runs before and after, an unblocked thread is dispatched, or its group ends, by the time as many threads as were in line before it and one more were taken from queue heads |
| SchedulingEffects.RunKeepsOnePriority | kernel/src/sched.rs:318-352 | every thread of every run has priority 0 |
| SchedulingEffects.ActivateEffect | kernel/src/sched.rs:468-493 | activating a slot in use other than the current one puts the running thread at the back of its queue and runs that slot, out of its queue if it was in one; otherwise nothing changes |
| SchedulingEffects.RestoreEffect | kernel/src/sched.rs:444-466 | restoring does that with bootstrap |
| SchedulingEffects.LeaveEffect | kernel/src/sched.rs:522-544 | leaving bootstrap while it is not queued ends it and runs the first user thread that has not exited, or idle if there is none |
| SchedulingEffects.ExitEffect | kernel/src/sched.rs:623-671 | an exit by any live thread but idle ends that thread alone, takes it out of its queue and runs the head of the first queue that is not empty, or leaves no thread current |
| Scheduling.BestIsLeast | kernel/src/sched.rs:406-409 | the priority chosen is the lowest-numbered one with a waiting thread |
| SchedulerState.Scheduler.constructor | kernel/src/sched.rs:255-270 | the initial scheduler: no thread, empty queues |
| SchedulerState.Scheduler.Reset | kernel/src/sched.rs:272-274 | brings any scheduler back to it |
| SchedulerState.Scheduler.InitializeBootstrapThreads | kernel/src/sched.rs:276-316 | creates and queues bootstrap and idle as the abstract initial state says |
| SchedulerState.Scheduler.CreateThread | kernel/src/sched.rs:318-352 | takes the slot numbered by the thread count, or reports a full table |
| SchedulerState.Scheduler.Enqueue | kernel/src/sched.rs:359-369 | appends to the queue of the priority and sets its bit; fails exactly on a full queue; queue, depth and bitmap stay in step |
| SchedulerState.Scheduler.Shift | kernel/src/sched.rs:375-381 | the shifting loop removes one entry and keeps the order of the rest |
| SchedulerState.Scheduler.Dequeue | kernel/src/sched.rs:371-383 | takes the head, keeps the order of the rest and clears the bit of an emptied queue |
| SchedulerState.Scheduler.Remove | kernel/src/sched.rs:640-649 | takes the first mention of the slot out of the queue of its priority, if any |
| SchedulerState.Scheduler.TrailingZeros | kernel/src/sched.rs:406-409 | the lowest set bit is the best priority |
| SchedulerState.Scheduler.OnTimerTick | kernel/src/sched.rs:385-424 | moves the abstract state by one tick; a dispatched thread is current and running |
| SchedulerState.Scheduler.NextSwitchIndex | kernel/src/sched.rs:552-561 | the head of the best queue unless it is current |
| SchedulerState.Scheduler.ContextSwitchPair | kernel/src/sched.rs:563-603 | moves the abstract state by one switch and returns the slots left and entered |
| SchedulerState.Scheduler.YieldCurrentUserThread | kernel/src/sched.rs:673-710 | moves the abstract state by one yield; a slot is returned only if it differs from the yielding one |
| SchedulerState.Scheduler.BlockCurrentThread | kernel/src/sched.rs:799-805 | moves the abstract state by one block |
| SchedulerState.Scheduler.UnblockThread | kernel/src/sched.rs:807-825 | succeeds exactly if such a thread is blocked; under the invariant the first such thread is then runnable and last in the queue of its priority and all else is as before; otherwise nothing changes |
| SchedulerState.Scheduler.CreateUserThread | kernel/src/sched.rs:896-945 | moves the abstract state by one creation |
| SchedulerState.Scheduler.ActivateThreadSlot | kernel/src/sched.rs:468-493 | moves the abstract state by one activation; fails exactly for a slot that is not in use |
| SchedulerState.Scheduler.FirstRunnableUserSlot | kernel/src/sched.rs:495-502 | the first user thread that has not exited |
| SchedulerState.Scheduler.SlotWithId | kernel/src/sched.rs:504-520 | the first slot with a thread id |
| SchedulerState.Scheduler.InitialContextPair | kernel/src/sched.rs:522-544 | moves the abstract state by leaving bootstrap; under the invariant it always succeeds and returns the slots of bootstrap and of the first live user thread, or else of idle |
| SchedulerState.Scheduler.RestoreBootstrapAsCurrent | kernel/src/sched.rs:444-466 | moves the abstract state by restoring bootstrap |
| SchedulerState.Scheduler.RequestExitGroup | kernel/src/sched.rs:623-671 | moves the abstract state by one group exit; the record names the thread that asked, how many ended and the new current thread |
| Elf.ReadHeaders | kernel/src/exec.rs:247-315 | reads headers in table order up to the first with an objection, and all before it are sound |
| Elf.ProgramHeaderReadsBack | kernel/src/exec.rs:262-274 | a program header printed in the field order and byte order of the System V gABI reads back, at any place among any other bytes, with the same type, flags, offset, address, sizes and alignment, for all field values |
| Elf.FileHeaderReadsBack | kernel/src/exec.rs:198-245 | the same for entry point, type, table offset, entry size and entry count of a printed file header |
| Elf.ParsePrinted | kernel/src/exec.rs:198-324 | a file printed from a file header and a table of program headers that meet no objection parses to exactly those fields and headers, in order, whatever else the file holds |
| Elf.ParseElf64 | kernel/src/exec.rs:198-324 | accepts exactly the images whose file header is in order and whose program headers are all sound, and returns those headers, the entry point and the image type; an error is the first objection to the file header, or the objection to the first program header that meets one |
| Elf.BuildLoadPlan | kernel/src/exec.rs:326-366 | lists the PT_LOAD headers in order with page-rounded ranges; fails exactly when a load segment ends within a page of 2^64 |
| Elf.Extent | kernel/src/init_exec.rs:298-303 | the lowest and highest mapped address of a plan |
| Elf.BuildActivation | kernel/src/init_exec.rs:283-407 | every error exactly under its condition; otherwise all segments and the entry point move by one constant, file bytes are those of the image, and the entry lies in an executable segment |
| Elf.ShiftFacts | kernel/src/init_exec.rs:298-308 | the constant is a multiple of the page size, and zero for images that start in the lower half |
| Elf.BadRangeIff | kernel/src/init_exec.rs:316-330 | for parsed images the file-range check fails exactly for a load segment without file bytes whose offset is past the end of the file |
| Elf.ImageIsRefused | kernel/src/init_exec.rs:316-330 | an image of 120 bytes that the parser accepts and the planner plans, refused for this reason |
| Elf.ActivatedSegmentsLoad | kernel/src/init_exec.rs:333-371 | activated segments are page-aligned around their bytes and keep their order |
| Elf.ProgramReadsItsFile | kernel/src/init_exec.rs:283-407 | from file to program: byte n of a load segment reads at its moved address as the file byte below the file size and as zero above |
| Loader.FrameForPage | kernel/src/init_exec.rs:772-790 | the frame of the page mapped last if it is the same page, else a new one that is all zero |
| Loader.FillPage | kernel/src/init_exec.rs:792-827 | maps the page and copies the file bytes that fall into it, leaving all other pages as they were |
| Loader.MapSegmentPages | kernel/src/init_exec.rs:757-831 | after an ascending segment, every mapped page shows the bytes of all segments so far; fails only when no frame is left |
| Loader.LoadSegments | kernel/src/init_exec.rs:607-625 | the same for all segments in turn, starting from an empty space |
| Loader.LoadedProgramReads | kernel/src/init_exec.rs:757-831 | every byte of every segment reads as its file byte or as zero past the file part, also on pages that neighbours share |
| Loader.LoadedProgramMay | kernel/src/init_exec.rs:607-625 | the program may write to a page of a loaded segment if and only if some writable segment touches that page, and may always read and execute it |
| Loader.ReadOnlyPageCanBeWritable | kernel/src/init_exec.rs:607-625 | two segments that meet inside a page, the first read-only, the second not: the page they share is writable |
| Loader.NewSpaceIsEmpty | kernel/src/init_exec.rs:604-608 | a newly created address space is an empty one to load into |
| Spawn.ActivateFile | kernel/src/init_exec.rs:597-600 | from the file's bytes alone: segments, entry point, header address and header count of the activation are those of the file's load headers, moved by one constant, and the entry point lies in a moved executable segment |
| Spawn.LoadImage | kernel/src/init_exec.rs:597-625 | for a file whose load segments ascend and end in the lower half: every byte of every load segment reads in the new space as the file's byte or as zero, and its page is writable exactly if a load header with the W flag touches that page; a refused file changes nothing; otherwise it fails only without a free frame |
| Spawn.TakeStackFrames | kernel/src/init_exec.rs:452-457 | takes the next sixteen frames and clears them; no page has them and they are not handed out again |
| Spawn.MapStackFrames | kernel/src/init_exec.rs:459-472 | maps them at the sixteen stack pages; every other page keeps its frame and its content |
| Spawn.StackThroughTables | kernel/src/init_exec.rs:474-483 | the walk through the page tables at a stack address ends at the very byte the kernel writes for it |
| Spawn.ProgramByteStays | kernel/src/init_exec.rs:438-590 | mapping a stack, and any writing that stays within its frames, changes no byte that the program could read before |
| Spawn.BuildStack | kernel/src/init_exec.rs:438-590 | the stack as laid out, read through the program's own page tables, on pages it may write to, for any arguments that fit and whose strings lie whole in the frames taken; the program's bytes and what it may do on its pages survive |
| Spawn.SpawnImage | kernel/src/init_exec.rs:592-639 | from a file and arguments to a running program: if each string lies whole in the frames taken for the stack, the program finds its file in its segments and its arguments on its stack, both through its own page tables, and may write to its stack and to the pages that writable load headers touch |
| UserStack.StackWriter.PushStrings | kernel/src/init_exec.rs:495-521 | strings go downwards, each with a zero, and what would lie below the stack is skipped; strings that lie whole in physical memory read back, and then nothing above them or outside the frames changes |
| UserStack.StackWriter.PushWord | kernel/src/init_exec.rs:577-587 | the word is found below the words pushed before, which are unchanged, and nothing above or outside the frames changes, whatever the frames |
| UserStack.StackWriter.PushPairs | kernel/src/init_exec.rs:551-561 | the auxiliary pairs end up in order, key before value |
| UserStack.StackWriter.Setup | kernel/src/init_exec.rs:438-590 | for any arguments and environment the pointer returned is the same function of their sizes; the words from it up are count, argument pointers, zero, environment pointers, zero, auxiliary pairs, padding if and only if everything fits; above the words memory is that of the strings alone; the pointers lead to the strings, and nothing outside the frames is written, if each string lies whole in physical memory |
| UserStack.WholeIffAdjacent | kernel/src/init_exec.rs:474-483 | a range of the stack lies whole if and only if each of its frames but the last is followed by the next |
| UserStack.ConsecutiveHoldsAll | kernel/src/init_exec.rs:438-590 | sixteen consecutive frames hold any strings whole |
| UserStack.AlwaysFoundIffWhole | kernel/src/init_exec.rs:495-521 | for given sizes and frames, without a terminating zero alone on a page, the program finds its strings, whatever they say, if and only if each lies whole in physical memory |
| UserStack.AstrayArgumentIsLost | kernel/src/init_exec.rs:509-521 | an argument with a byte that the program reads elsewhere than it was written is lost for some choice of that byte |
| UserStack.SplitArgumentIsLost | kernel/src/init_exec.rs:509-521 | an argument of 5000 letters on fifteen frames in a row and one apart: the program reads a zero at byte 921, and a frame that is not of the stack holds a letter |
| UserStack.LongArgumentDoesNotFit | kernel/src/init_exec.rs:509-549 | an argument of 65536 letters that does not fit, although the pointer is returned |
| UserStack.StackPointerIsAligned | kernel/src/init_exec.rs:523-549 | the stack pointer is word-aligned and a multiple of sixteen below the rounded bottom of the strings |
| UserStack.AlignedTo16Iff | kernel/src/init_exec.rs:523-549 | it is 16-byte aligned, as the psABI wants, if and only if the strings take an even number of words |
| UserStack.NotAlways16Aligned | kernel/src/init_exec.rs:523-549 | one seven-letter argument for which it is not |
| UserStack.WordIsContiguous | kernel/src/init_exec.rs:474-483 | an aligned word never crosses a frame boundary |
| UserStack.ParseInitialStack | user/interp-zero/src/main.rs:97-145 | on any such stack the reader gets the count, the first argument pointer and, for each key, the last value |
| UserStack.ReaderRecovers | user/interp-zero/src/main.rs:120-142 | for the pairs the kernel writes these are the entry point, the header address, count and size, and the base; and the pairs also tell the page size, the address of the random bytes and that the start is not secure |
| UserStack.WriteThenRead | kernel/src/init_exec.rs:438-590 | writing and then reading gives back every value that was put in, and the text of the first argument when the strings lie whole |
| Cpio.HexRoundTrip8 | kernel/src/initrd.rs:416-430 | eight hexadecimal digits printed from a 32-bit number parse back to it |
| Cpio.ParseHexU32 | kernel/src/initrd.rs:416-430 | the loop computes the value of a digit string, or fails on a bad digit or an overflow |
| Cpio.MagicDecides | kernel/src/initrd.rs:280-300 | a header is refused unless it starts with one of the two magic numbers, and reads the same with either |
| Cpio.NormalizeArchivePath | kernel/src/initrd.rs:388-402 | trims slashes and a leading "./", maps the empty path and "." to the root, and refuses any ".." |
| Cpio.PushDirectory | kernel/src/initrd.rs:371-386 | sets the mode of the first directory entry of that path, or appends one |
| Cpio.EnsureParentDirectories | kernel/src/initrd.rs:359-369 | pushes every directory above the path, outermost first |
| Cpio.ParseNewcArchive | kernel/src/initrd.rs:273-339 | in every accepted archive each ancestor of an entry is present as a directory and no directory path occurs twice |
| Cpio.AddedOrderly | kernel/src/initrd.rs:309-331 | adding one record keeps that |
| Cpio.PackCpio | scripts/make_cpio.py:21-79 | writes one record per item with ascending inode numbers, then the trailer |
| Cpio.ItemIsRead | kernel/src/initrd.rs:280-331 | a record printed for an item, wherever it stands on a word boundary, parses to that item, or is refused for a ".." |
| Cpio.ParentComesFirst | scripts/make_cpio.py:19 | in sorted order a directory precedes everything in it |
| Cpio.RoundTrip | kernel/src/initrd.rs:273-339 | parsing the packed bytes of a sorted tree without ".." gives the root followed by the items in order |
| Cpio.ExpectedIsTheItems | scripts/make_cpio.py:5-82 | those entries have the path, kind, data and file mode of the items |
| Cpio.ExpectedDirectoryMode | kernel/src/initrd.rs:359-379 | a directory keeps its mode unless something inside it follows, which sets the default |
| Cpio.DotDotIsRefused | kernel/src/initrd.rs:393-395 | one path with ".." anywhere makes the whole archive unreadable |
| Cpio.DottedFileIsRefused | kernel/src/initrd.rs:393-395 | a tree of one file named "a..b" whose archive is refused |
| OpenFiles.UsedIffReferred | kernel/src/syscall.rs:1569-1673 | a file is in use exactly when some descriptor of some thread refers to it, and its count is the number of them |
| OpenFiles.OpenKeepsInvIff | kernel/src/syscall.rs:1569-1607 | opening keeps it if and only if there is a current thread or no free file |
| OpenFiles.DupKeepsInv | kernel/src/syscall.rs:867-898 | duplicating keeps it |
| OpenFiles.Dup2KeepsInv | kernel/src/syscall.rs:900-937 | duplicating onto a descriptor keeps it, also onto another descriptor of the same file |
| OpenFiles.PipeKeepsInvIff | kernel/src/syscall.rs:794-865 | creating a pipe keeps it if and only if there is a current thread or fewer than two free files |
| OpenFiles.CloseKeepsInv | kernel/src/syscall.rs:1634-1654 | closing keeps it |
| OpenFiles.PurgeKeepsInv | kernel/src/syscall.rs:1656-1673 | purging keeps it |
| OpenFiles.EveryRunCountsDescriptors | kernel/src/syscall.rs:794-937 | from boot on it holds in every state of every run in which whatever opens a file has a thread or finds no file left |
| OpenFiles.RunKeepsInvIff | kernel/src/syscall.rs:794-937 | a run ends with it if and only if every call in the run was of that kind |
| OpenFiles.StrandedForGood | kernel/src/syscall.rs:1569-1673 | a file in use that no descriptor refers to stays exactly so through every run of any calls: it is never released |
| OpenFiles.BootCallsStrand | kernel/src/syscall.rs:1569-1607 | before a first thread is current, opening a file or creating a pipe strands file 0 for every run that follows |
| OpenFiles.ExitGivesBackIff | kernel/src/syscall.rs:1656-1673 | after its last purge, in every state of every run without it, a thread has given back all its descriptors if and only if 0 to 2 were free, and the files behind those three stay in use |
| OpenFiles.ExitCanKeepAFile | kernel/src/syscall.rs:900-937 | a thread that copies a descriptor onto 0 and ends keeps the file in use for every run that follows |
| OpenFiles.ReadsAreConsecutive | kernel/src/syscall.rs:1609-1632 | as long as a file stays open and nobody seeks in it, the bytes read through all its descriptors are one consecutive stretch of its content, each byte once |
| OpenFiles.AllIsDelivered | kernel/src/syscall.rs:1609-1632 | those reads deliver as many bytes as they ask for together, or all up to the end of the content |
| OpenFiles.OpenThenRead | kernel/src/syscall.rs:1569-1632 | an open by a thread hands out the lowest free descriptor from 3 on and the first unused file, and changes no other descriptor and no other file; a first read of any count delivers the start of the content, up to 65,536 bytes of it; the path is kept up to 128 bytes; without room nothing changes |
| OpenFiles.OpenThenReads | kernel/src/syscall.rs:1569-1632 | from the open on, through any run in which the file stays open and nobody seeks in it, all reads of it together deliver the content from its start, as far as they ask for it |
| OpenFiles.SeekThenRead | kernel/src/syscall.rs:749-779 | a seek that lands is where the next read starts, and delivers nothing past the end; it changes no other file |
| OpenFiles.FileTables.constructor | kernel/src/syscall.rs:336-377 | all files start unused and all descriptors free |
| OpenFiles.FileTables.AllocOpenFile | kernel/src/syscall.rs:1569-1607 | succeeds exactly when a descriptor from 3 on and a file are free; the lowest such descriptor then leads to a file with the first 128 bytes of the path, from which a read of any count delivers the start of the content, up to 65,536 bytes; otherwise nothing changes |
| OpenFiles.FileTables.Dup | kernel/src/syscall.rs:867-898 | the new descriptor is the lowest free one from 3 on and refers to the same file |
| OpenFiles.FileTables.Dup2 | kernel/src/syscall.rs:900-937 | both descriptors refer to the file afterwards |
| OpenFiles.FileTables.CreatePipe | kernel/src/syscall.rs:794-865 | two free descriptors come to refer to two different new files, the first named as the read end and the second as the write end, with nothing to read; they stay even if copying the pair out fails |
| OpenFiles.FileTables.CloseOpenFile | kernel/src/syscall.rs:1634-1654 | succeeds exactly for a descriptor in use, which becomes free |
| OpenFiles.FileTables.ReadOpenFile | kernel/src/syscall.rs:1609-1632 | delivers the bytes from the offset on, at most as many as asked, and moves the offset by that many; a failed copy leaves it |
| OpenFiles.FileTables.Lseek | kernel/src/syscall.rs:749-779 | moves the offset relative to start, place or end; a bad descriptor, a bad whence and a negative target are each refused with their error exactly when they occur, and change nothing |
| OpenFiles.SeekNeverWraps | kernel/src/syscall.rs:764-776 | a sum that leaves 63 bits turns negative, so a seek succeeds if and only if the exact sum is a valid offset, and then goes there |
| OpenFiles.FileTables.PurgeOpenFiles | kernel/src/syscall.rs:1656-1673 | frees every descriptor of the current thread from 3 on, with one reference less for each, and leaves 0 to 2 as they are |
| Entropy.StepsGrow | kernel/src/secinter.rs:19-27 | the table is discretely convex, with steps of at least 2048 from the second on |
| Entropy.SplittingLoses | kernel/src/secinter.rs:19-27 | splitting a count into two non-zero parts loses at least 2048 of the table value |
| Entropy.TableIsLogarithmic | kernel/src/secinter.rs:15-27 | the entry of a product is what logarithms make it from the entries of its factors, up to the rounding of the three entries |
| Entropy.CountBytes | kernel/src/secinter.rs:45-48 | counts every byte value |
| Entropy.ComputeEntropy | kernel/src/secinter.rs:44-70 | the loops compute the scaled entropy of any payload of at most 64 bytes |
| Entropy.ScoreIsNeverSaturated | kernel/src/secinter.rs:60-66 | the saturating subtraction never saturates |
| Entropy.ScoreZeroIffUniform | kernel/src/secinter.rs:44-70 | the score is zero if and only if all bytes are equal |
| Entropy.ScoreMaximalIffDistinct | kernel/src/secinter.rs:44-70 | the score is at most the table value over the length, and reaches it if and only if all bytes differ |
| Entropy.EqualSharesScore | kernel/src/secinter.rs:44-70 | a payload in which 2^k byte values occur equally often scores 1024 k, or one less by rounding; exactly 1024 k if each occurs once |
| Entropy.ScoreFitsItsField | kernel/src/secinter.rs:66 | the score never loses bits in its 16-bit field |
| Entropy.ScoreIgnoresOrder | kernel/src/secinter.rs:44-70 | permuting the bytes does not change the score |
| Entropy.EventIdFields | kernel/src/secinter.rs:74-91 | thread id, score and hash can all be read back from the event id |

## Left out

- Weak memory ordering: the ring is modelled under sequential consistency, each atomic access being one step.
- Ring positions are 64-bit words that wrap; the ring results hold while fewer than 2^64 - 17 positions have been claimed, the one on refusals below 2^63 - 16, the ones on polling while ids fit 32 bits; of a task still unclaimed at the end of a run, that a poll was too early is stated state by state.
- The external task drivers behind `dispatch_pending`, `hps_hook` and all output.
- Physical addresses are frame numbers or plain addresses; the offset at which the kernel maps physical memory, TLB invalidation and CR3 are not modelled.
- The page-table modules take frames from a list; `FrameSupply.dfy` shows that the allocator's single allocations are that list, but contiguous allocations in between are not followed there.
- `map_page`, `map_kernel_page`, `ensure_region_mapped`: the same walk as the user mapping, with other flags.
- NativeRegions.VmmTable.MapNativeRegion: asks that no sum over the caller's own records leaves 64 bits; a wrapped address is not modelled.
- CloneSpace.CloneEntry: asks for 4 KiB pages and no high attribute bits below the entry.
- CloneSpace.CloneTable: asks the same below the table.
- CloneSpace.CloneAddressSpace: asks for 4 KiB pages and no high attribute bits in the parent's lower half, which the copying code takes for granted.
- `fork_current_thread` and `reap_child`: no dispatch table reaches them, and they break the counting that the scheduler and descriptor results rest on.
- SchedulingEffects.LeaveEffect: asks that bootstrap is not queued, as it is not when the kernel leaves it; otherwise it stays in its queue, which `Scheduling.LeavingBootstrapKeepsInvIff` covers.
- SchedulingEffects.BlockedUntilWoken: says nothing of runs that leave bootstrap, which may pick a blocked thread.
- Saved contexts, trap frames, TSS, thread names and the scheduler's statistics (ticks, dispatch counts, context switches).
- Byte totals of the frame allocator.
- The interpreter path of an ELF image, shebang and text detection, and the totals kept beside a load plan.
- UserStack.StackWriter.Setup: asks that the stack pointer does not fall below address 0; a wrapped pointer is not modelled.
- UserStack.WriteThenRead: asks that everything fits, without which there is nothing to read.
- Spawn.LoadImage: asks for load segments that ascend without overlap and end in the lower half, as the System V gABI has them; the kernel does not test it.
- Spawn.SpawnImage: asks for load segments that ascend and end below the stack, as the System V gABI and the user layout have them; says nothing of segments when a string does not lie whole, because its bytes then overwrite a frame that may hold anything, page tables included.
- UserStack.AlwaysFoundIffWhole: leaves out sizes that put a terminating zero alone on a page; there a string that does not lie whole may still be read back, because the page was zero before.
- Spawn.TakeStackFrames: clears each frame as it is taken; the kernel clears it when its turn to be mapped comes, which nobody can see.
- Walking the staging directory and sorting in the build script: items come as a sorted tree. Node lookup and rendering of the ram disk.
- OpenFiles.SeekThenRead: asks for a place and a content below 2^63, which 65,536 bytes of content and `OpenFiles.SeekNeverWraps` give.
- `getdents64`, which moves the offset of a directory by whole names; writes, which never reach an open file.
- Resolving paths and reading nodes before a file is opened; copying to user memory is a parameter that says whether it succeeds.
- Everything else in the repository: console, framebuffer, ACPI, APIC, power, boot loader, FAT, HFS, procfs and devfs.
