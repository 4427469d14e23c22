# Memory manager, quotas and device tables of the Kunlun driver

This project models, in Dafny, the parts of the `kunlun` kernel module that keep
books over shared tables, and proves what those books are for.

- **The device page allocator** (`kl_mm.c`, `kl_mm.h`). Memory comes in blocks,
  each with a bitmap, a length table, an owner table and a use count. A huge
  allocation is chosen in a shadow of all MAIN blocks and may straddle several:
  its first block stores the full length and the owner, later ones only their
  share. The abstract state is a map from the first page of each live range to
  its length and owner (`live_ranges.dfy`). `page_tables.dfy` and
  `manager_state.dfy` prove that the tables of all blocks hold exactly that map,
  `kl_memory.dfy` and `kl_mm.dfy` are the code on arrays, and `runs.dfy` matches
  whole runs against a machine on the map alone. `accounting.dfy` follows the
  callbacks: replaying them gives the map, so what their receiver books under
  each owner and kind is what is held there.
- **The lock protocol** (`lock_protocol.dfy`): any number of threads, one lock or
  one memcpy at a time. Locking and copying out, changing the shadow, copying
  back and unlocking act like one atomic call; nothing is overwritten and no cycle
  of waiting threads exists. `huge_frees.dfy` settles the early returns that keep
  every lock: as long as every free under way would still find its allocation, a
  thread can be brought to one exactly when two frees of one straddling allocation
  are under way at once. `concurrent_tables.dfy` puts the tables into the protocol:
  what the threads write is computed from what they see, and in every run with
  single frees the tables refine the map. `two_frees.dfy` settles the early returns
  there too, down to a run from the state initialisation leaves, and
  `owner_scans.dfy` follows a free by owner among other threads.
- **The cxpu quotas** (`quota.dfy`, `cxpu.dfy`): a list of counted instances and
  the totals of their limits, with the 8/7 scaling under ECC.
- **Device nodes** (`device_nodes.dfy`, `device_runs.dfy`): two id spaces handed
  out first fit.
- **Two small structures**: the splice of circular lists (`list_splice.dfy`) and
  the sliding-window counter (`use_ratio.dfy`).

State that the source changes in place is in classes over arrays and fields;
each method states its whole new state, as a function of the old one or as a
relation between the two, and the lemmas are about those functions. `KlMm.Valid`
is the representation invariant, `KlMm.Geometry` what initialisation established
about the layout.

Five findings follow the code rather than its comments.
- A free that names no owner passes both tests exactly on the first page of a block
  that a straddling range runs into (`NullEntry`). Whatever page it is given, a free
  leaves tables that stand for some set of allocations exactly when it names an
  owner or is off such a page (`FreeStandsIff`, `Free`), and a free by owner exactly
  when it names one or there is no such page (`FreeByOwner`). One allocation on
  fresh tables makes such a page (`NullFreeHappens`). Every caller in the repository
  passes a session, so none of them comes to it.
- A size within a page of 2^64 wraps when it is rounded up, and the allocation
  succeeds with no page reserved. After an ordinary one the tables stand for some
  set of allocations exactly when the size did not wrap (`OrdinaryStandsIff`,
  `Malloc`, `WrapHappens`); the allocation ioctl (`kl2/ioctl.c:128-169`) hands sizes through as
  they come. `Serve` has both conditions for any request.
- The comment that ids need no check of their own holds for a set of device sizes
  exactly when any two different ones are together larger than the table
  (`NoCheckNeededIff`); one common size is such a set.
- Two frees of one straddling allocation can both be under way, because the block's
  lock is dropped between the test and the huge path; from there a thread can be
  brought to return early and keep every lock for ever (`TwoFreesStick`,
  `StuckForEver`). A run is safe from that exactly when it never starts such a
  second free (`SafeAlongIff`).
- When device_create fails for a node, the rollback skips that node, as it has no
  device: its id goes on leading to the device that was never made
  (`FailureLeavesStray`). From tables where only ids of live devices lead anywhere,
  a create leaves such tables exactly when device_create did not fail (`Create`).

## Model

| member | source | states |
|---|---|---|
| `Runs.Run` | kunlun-driver/kunlun_module/kunlun/kl_mm.c:394-549 | Every sequence of harmless allocations, frees and frees by owner, of any kinds and owners, is matched step by step by a machine whose only state is the map of live ranges; afterwards the tables hold exactly that map, all locks are free, replaying the callbacks gives that map, under every owner and kind the pages reported are the pages held there, and for every kind the reports of any distinct owners covering the live ones sum to the use counts of its blocks |
| `Runs.ServeAll` | kunlun-driver/kunlun_module/kunlun/kl_mm.c:394-549 | The run itself, one request after another |
| `Runs.ToldIsBooked` | kunlun-driver/kunlun_module/kunlun/kl2/session.c:33-53 | What the receiver books from callbacks that can be replayed: for each owner and kind the pages held there, for each kind over all owners the pages its blocks count as used |
| `Runs.ToldOnce` | kunlun-driver/kunlun_module/kunlun/kl_mm.c:310-491 | The callbacks alone say what is live: no two maps can be replayed from the same reports |
| `Runs.PageAtOnce` | kunlun-driver/kunlun_module/kunlun/kl_mm.c:447-457 | An address lies in one page of one block |
| `Runs.AllocThenFree` | kunlun-driver/kunlun_module/kunlun/kl_mm.c:394-508 | Freeing the address just returned restores bitmap, length table, owner table and use count of every block exactly, whether the range is ordinary, huge inside a block or straddling; the free must find out which. It succeeds exactly unless the size had wrapped in a huge allocation, which took no page |
| `Runs.AllocStep` | kunlun-driver/kunlun_module/kunlun/kl_mm.c:394-445 | An allocation of any size leaves tables that stand for a map if and only if it is harmless; then it adds the first room the map machine allows, or nothing exactly when the arguments are refused or there is no room |
| `Runs.FreeStep` | kunlun-driver/kunlun_module/kunlun/kl_mm.c:494-508 | A free by any caller leaves tables that stand for a map if and only if it is harmless; then it removes exactly the live range whose first page the address is in, if it is the owner's, and otherwise changes nothing |
| `Runs.OrdinaryChoice` | kunlun-driver/kunlun_module/kunlun/kl_mm.c:416-444 | Table search and map agree: a place is found exactly when some block of the kind has enough vacant pages inside it, and it is the lowest in the first such block |
| `Runs.GrantIsFirstPage` | kunlun-driver/kunlun_module/kunlun/kl_mm.c:447-457 | The address handed out for any allocation, including one chosen in the shadow, is the address of the first page of its range in the block where that page lies |
| `Runs.GrantIsTold` | kunlun-driver/kunlun_module/kunlun/kl_mm.c:310-311 | The allocation callback, which gives the raw size, names kind, address and owner of the range granted and counts for exactly its pages once its receiver rounds up |
| `MemoryManager.KlMm.Init` | kunlun-driver/kunlun_module/kunlun/kl_mm.c:120-199 | Succeeds exactly for layouts whose MAIN blocks are page aligned, whole words of pages long and follow one another without a gap at one page size; then every page is free, no lock held and no report made |
| `MemoryManager.KlMm.Malloc` | kunlun-driver/kunlun_module/kunlun/kl_mm.c:394-445 | Refused exactly for a zero size or no owner; otherwise fails exactly when there is no room, and on success the new range was not live, is the one first fit demands, and is the only change to the map and to the reports. A size that wraps succeeds with no page: harmlessly in a huge allocation, and in an ordinary one with tables that stand for no map. No callback, no report |
| `MemoryManager.KlMm.MallocHuge` | kunlun-driver/kunlun_module/kunlun/kl_mm.c:294-340 | Takes the lowest vacant run of the whole MAIN lane, across block ends, and fails only when the lane has none; a size that wraps takes no page |
| `MemoryManager.KlMm.MallocOrdinary` | kunlun-driver/kunlun_module/kunlun/kl_mm.c:416-444 | Takes the lowest free run of the first block of the kind that has one and changes no table when no block has; the tables stand for a map afterwards exactly when a page was taken |
| `MemoryManager.KlMm.MallocTables` | kunlun-driver/kunlun_module/kunlun/kl_mm.c:416-444 | The loop with its locks finds what an unlocked search for the first fitting block would, and leaves every lock as it was |
| `MemoryManager.KlMm.TryBlock` | kunlun-driver/kunlun_module/kunlun/kl_mm.c:420-422 | One block under its lock: first fit in that block, with the tables of all other blocks untouched |
| `MemoryManager.KlMm.HugeMallocTables` | kunlun-driver/kunlun_module/kunlun/kl_mm.c:302-339 | Locking, choosing, splitting and copying back act as the composition of the loops on the state before, failure included |
| `MemoryManager.KlMm.HugeMallocLive` | kunlun-driver/kunlun_module/kunlun/kl_mm.c:294-340 | The tables of all blocks and the map of live ranges change together, and all locks are given up |
| `MemoryManager.KlMm.LockAndSync` | kunlun-driver/kunlun_module/kunlun/kl_mm.c:33-42 | Takes the MAIN locks in index order and copies bitmaps, whole words at a time, so that each block lands in its own region |
| `MemoryManager.KlMm.LockAndCopy` | kunlun-driver/kunlun_module/kunlun/kl_mm.c:37-40 | One MAIN block more locked and copied into its region |
| `MemoryManager.KlMm.SyncAndUnlock` | kunlun-driver/kunlun_module/kunlun/kl_mm.c:45-55 | Gives each MAIN block back its region of the shadow and then its lock; needs all of them held |
| `MemoryManager.KlMm.CopyAndUnlock` | kunlun-driver/kunlun_module/kunlun/kl_mm.c:49-53 | One MAIN block more given its region back and unlocked |
| `MemoryManager.KlMm.CopyToShadow` | kunlun-driver/kunlun_module/kunlun/kl_mm.c:39-40 | The word-sized copy reaches exactly the block's region of the shadow bitmap and no neighbour's |
| `MemoryManager.KlMm.CopyFromShadow` | kunlun-driver/kunlun_module/kunlun/kl_mm.c:50-52 | The word-sized copy back writes exactly the block's region, whole |
| `MemoryManager.KlMm.RecordShares` | kunlun-driver/kunlun_module/kunlun/kl_mm.c:313-335 | The splitting loop, run on arrays, is the fold whose result per block the whole range determines |
| `MemoryManager.KlMm.RecordShare` | kunlun-driver/kunlun_module/kunlun/kl_mm.c:314-334 | One turn: the first block gets full length and owner, a later one its share and no owner |
| `MemoryManager.KlMm.EraseShares` | kunlun-driver/kunlun_module/kunlun/kl_mm.c:370-386 | The clearing loop is the same fold, recomputed from the total length alone |
| `MemoryManager.KlMm.EraseShare` | kunlun-driver/kunlun_module/kunlun/kl_mm.c:371-385 | One turn clears length and owner at the first page of the share and gives its pages back |
| `MemoryManager.KlMm.FindMemoryByAddr` | kunlun-driver/kunlun_module/kunlun/kl_mm.c:447-457 | Finds a block that contains the address, and none only if no block does |
| `MemoryManager.KlMm.Free` | kunlun-driver/kunlun_module/kunlun/kl_mm.c:494-508 | For any caller: the tables stand for some map afterwards if and only if an owner is named or the address is off the first page of every block a range runs into. Then it succeeds if and only if the address lies in the first page of a live range of that owner, exactly that range goes, and anything else, interior pages and shares included, is refused with all tables as they were; the callback tells of it: reports that could be replayed to the map still can |
| `MemoryManager.KlMm.FreeLocked` | kunlun-driver/kunlun_module/kunlun/kl_mm.c:459-492 | Under the block's lock, dropped and taken again on the huge path: removes the range if it is live and the owner's, else refuses without a change; without an owner it releases the share of a range from an earlier block |
| `MemoryManager.KlMm.FreeInBlock` | kunlun-driver/kunlun_module/kunlun/kl_mm.c:488-491 | The pages are released there alone and reported under the block's kind; a live range goes off the map |
| `MemoryManager.FreeReportTells` | kunlun-driver/kunlun_module/kunlun/kl_mm.c:488-490 | The callback of a free says what was freed: its address is in the range's first page, its kind that of the block, its owner and pages those of the range |
| `MemoryManager.KlMm.FreeHuge` | kunlun-driver/kunlun_module/kunlun/kl_mm.c:342-391 | A straddling range is erased from every block it meets and reported in whole pages |
| `MemoryManager.KlMm.HugeFreeTables` | kunlun-driver/kunlun_module/kunlun/kl_mm.c:347-390 | With the shadow and the block agreeing about the range, all loops run and every MAIN lock is given up |
| `MemoryManager.KlMm.FreedLength` | kunlun-driver/kunlun_module/kunlun/kl_mm.c:353-364 | Neither early return is taken and the length is the shadow's |
| `MemoryManager.KlMm.Land` | kunlun-driver/kunlun_module/kunlun/kl_mm.c:517-526 | Wherever the scan lands, the page starts a range or is a share that came in from before; the entry is not zero, so the scan gets on, and it never steps over a range of the owner |
| `MemoryManager.KlMm.FreeLanded` | kunlun-driver/kunlun_module/kunlun/kl_mm.c:526-531 | After the free the block stands for the map without that range, or without the one whose share was released |
| `MemoryManager.KlMm.ScanTurn` | kunlun-driver/kunlun_module/kunlun/kl_mm.c:519-534 | One turn of the loop moves on and keeps the scan's place, or ends the scan |
| `MemoryManager.KlMm.FreeByOwnerLocked` | kunlun-driver/kunlun_module/kunlun/kl_mm.c:510-535 | The scan ends, frees only ranges of the owner, and leaves none that starts in this block, although huge frees change other blocks in between; without an owner it releases the share at the start of the block, reports that share, and does nothing else |
| `MemoryManager.KlMm.FreeByOwner` | kunlun-driver/kunlun_module/kunlun/kl_mm.c:538-549 | For any caller: the tables stand for some map afterwards if and only if an owner is named or no block is one that a range runs into; then the map is exactly the old one without that owner's ranges, and each of them has been reported once, as a free by that owner. Without an owner exactly the shares of straddling ranges are released and reported |
| `MemoryManager.KlMm.ScanBlocks` | kunlun-driver/kunlun_module/kunlun/kl_mm.c:538-549 | The loop over the blocks, with the callbacks it makes |
| `MemoryManager.KlMm.LockAndScan` | kunlun-driver/kunlun_module/kunlun/kl_mm.c:542-548 | One block scanned under its lock |
| `MemoryManager.AllReported` | kunlun-driver/kunlun_module/kunlun/kl_mm.c:538-549 | After all blocks the callbacks tell of exactly the ranges that went |
| `MemoryManager.ScanReportedNext` | kunlun-driver/kunlun_module/kunlun/kl_mm.c:542-548 | The callbacks of one more block follow those of the blocks before |
| `MemoryManager.PageIsFound` | kunlun-driver/kunlun_module/kunlun/kl_mm.c:447-457 | Block lookup and page number invert the page address, for every byte of every page of every block |
| `MemoryManager.FoundPage` | kunlun-driver/kunlun_module/kunlun/kl_mm.c:499-504 | The block found decides the only page an address can mean |
| `MemoryManager.TestsFind` | kunlun-driver/kunlun_module/kunlun/kl_mm.c:466-478 | For any address in the block and any owner, named or not, both tests pass exactly on the first page of a range of that owner, or, for none, on the share at the start of the block |
| `MemoryManager.NullHeadIsFound` | kunlun-driver/kunlun_module/kunlun/kl_mm.c:447-457 | A share that a free without an owner could take is in the block the lookup finds, on its first page |
| `MemoryManager.AllScanned` | kunlun-driver/kunlun_module/kunlun/kl_mm.c:538-549 | After all blocks: with an owner the map without its ranges, and some map at all exactly when an owner was named or there was no share |
| `ManagerState.LockUptoSyncs` | kunlun-driver/kunlun_module/kunlun/kl_mm.c:33-42 | After locking, exactly the MAIN locks are held in addition, no table has changed, and the shadow bitmap is the concatenation of the MAIN bitmaps |
| `ManagerState.UnlockUptoCopies` | kunlun-driver/kunlun_module/kunlun/kl_mm.c:45-55 | After unlocking every MAIN block's bitmap is its region of the shadow and only MAIN locks were given up |
| `ManagerState.LockUnlock` | kunlun-driver/kunlun_module/kunlun/kl_mm.c:302-339 | A huge allocation that finds no room changes no table of any block |
| `ManagerState.ShareRunExact` | kunlun-driver/kunlun_module/kunlun/kl_mm.c:313-335 | The loop with its running page and count writes in each block exactly the share that the whole range has there, and touches no other |
| `ManagerState.CursorShare` | kunlun-driver/kunlun_module/kunlun/kl_mm.c:317-330 | The share computed from the running page and count is the overlap of the whole range with the block |
| `ManagerState.HugeMallocMarks` | kunlun-driver/kunlun_module/kunlun/kl_mm.c:294-340 | The huge allocation as a whole equals writing the range down in all blocks it meets |
| `ManagerState.HugeFreeUnmarks` | kunlun-driver/kunlun_module/kunlun/kl_mm.c:342-391 | The huge free as a whole equals erasing the range from all blocks it meets |
| `ManagerState.HugeMallocRefines` | kunlun-driver/kunlun_module/kunlun/kl_mm.c:294-340 | It refines adding one range to the map, or nothing if it took no page, and the shadow knows the length of every straddling range |
| `ManagerState.HugeFreeRefines` | kunlun-driver/kunlun_module/kunlun/kl_mm.c:342-391 | It refines removing that range from the map |
| `ManagerState.HugeChoice` | kunlun-driver/kunlun_module/kunlun/kl_mm.c:304-306 | First fit in the synced shadow finds the lowest vacant run of the MAIN lane, or there is none |
| `ManagerState.HugeDominates` | kunlun-driver/kunlun_module/kunlun/kl_mm.c:294-306 | On the same state huge allocation succeeds whenever ordinary MAIN allocation does, never at a higher address, and at the same one unless it crosses a block end |
| `ManagerState.HugeHoldsLocks` | kunlun-driver/kunlun_module/kunlun/kl_mm.c:337-337 | Every MAIN lock is still held when the copy-back starts |
| `ManagerState.OrdinaryMallocRefines` | kunlun-driver/kunlun_module/kunlun/kl_mm.c:245-256 | Taking a free run of one block refines adding its range to the map, in every other block too |
| `ManagerState.OrdinaryStandsIff` | kunlun-driver/kunlun_module/kunlun/kl_mm.c:266-286 | After a successful ordinary allocation of any 64-bit size the tables stand for some map of live ranges if and only if the size could be rounded up to pages of the block it got |
| `ManagerState.WrapHappens` | kunlun-driver/kunlun_module/kunlun/kl_mm.c:266-286 | On the tables initialisation leaves, for the largest 64-bit size: the first block of the kind is chosen, no page is taken, and the tables then stand for nothing |
| `ManagerState.NoPagesBreak` | kunlun-driver/kunlun_module/kunlun/kl_mm.c:245-256 | An owner written on a page that no range covers fits no map |
| `ManagerState.OrdinaryFreeRefines` | kunlun-driver/kunlun_module/kunlun/kl_mm.c:258-264 | Releasing a range inside its block refines removing it, and the stale shadow entry does no harm |
| `ManagerState.HeadEntry` | kunlun-driver/kunlun_module/kunlun/kl_mm.c:469-478 | The two tests of a free both pass exactly on the first page of a live range of that owner |
| `ManagerState.NullEntry` | kunlun-driver/kunlun_module/kunlun/kl_mm.c:469-478 | Given no owner, the two tests pass exactly on a block's first page into which a range from an earlier block runs |
| `ManagerState.BlockComesBack` | kunlun-driver/kunlun_module/kunlun/kl_mm.c:313-337 | Shares written and bitmap copied back leave a block as writing or erasing the whole range in it does |
| `ManagerState.ShareRunPlacesAll` | kunlun-driver/kunlun_module/kunlun/kl_mm.c:313-335 | At the end of the loop no page is left to place |
| `ManagerState.HandedToHuge` | kunlun-driver/kunlun_module/kunlun/kl_mm.c:480-486 | A range that runs past its block's end is a MAIN range whose length the shadow has, and the block has its owner |
| `ManagerState.HugeFreeSound` | kunlun-driver/kunlun_module/kunlun/kl_mm.c:351-364 | From any state the tables can be in, the shadow's page, length and owner agree with the block's, so both tests of the huge free pass |
| `ManagerState.UsedIsCount` | kunlun-driver/kunlun_module/kunlun/kl_mm.c:248-261 | The use count of every block is its number of set bits, tails of straddling ranges included |
| `PageTables.MarkAllRefines` | kunlun-driver/kunlun_module/kunlun/kl_mm.c:288-335 | Writing a vacant range down keeps ranges disjoint and every block's tables exact |
| `PageTables.UnmarkAllRefines` | kunlun-driver/kunlun_module/kunlun/kl_mm.c:370-386 | Erasing a live range keeps every block's tables exact |
| `PageTables.RefinesUnique` | kunlun-driver/kunlun_module/kunlun/kl_mm.h:71-80 | The map of live ranges determines every table of every block |
| `PageTables.EmptyRefines` | kunlun-driver/kunlun_module/kunlun/kl_mm.c:57-85 | Fresh tables hold the empty map |
| `PageTables.MarkThenUnmark` | kunlun-driver/kunlun_module/kunlun/kl_mm.c:288-293 | Erasing what was just written restores all tables of all blocks, however many the range straddles |
| `PageTables.ShadowClearIffVacant` | kunlun-driver/kunlun_module/kunlun/kl_mm.c:304-304 | Clear bits of the synced shadow are exactly the vacant runs of the MAIN lane |
| `PageTables.SharesSum` | kunlun-driver/kunlun_module/kunlun/kl_mm.c:319-331 | The shares of a range sum to its length |
| `PageTables.SharesTile` | kunlun-driver/kunlun_module/kunlun/kl_mm.c:317-331 | Each page of a range lies in exactly one block's share |
| `PageTables.OrdinaryFitComplete` | kunlun-driver/kunlun_module/kunlun/kl_mm.c:416-444 | A place exists exactly when some block of the kind has a long enough free run; the place is the lowest run of the first such block |
| `PageTables.ShadowDominates` | kunlun-driver/kunlun_module/kunlun/kl_mm.c:304-306 | The comparison of huge and ordinary choice on any synced shadow bitmap |
| `PageTables.TakenIsMark` | kunlun-driver/kunlun_module/kunlun/kl_mm.c:245-256 | Taking pages inside one block is writing that range down everywhere |
| `PageTables.ReleasedIsUnmark` | kunlun-driver/kunlun_module/kunlun/kl_mm.c:258-264 | Releasing pages inside one block is erasing that range everywhere |
| `PageTables.FreedNext` | kunlun-driver/kunlun_module/kunlun/kl_mm.c:542-548 | Earlier blocks stay free of the owner's ranges while a later block is scanned |
| `PageTables.FreedAll` | kunlun-driver/kunlun_module/kunlun/kl_mm.c:538-549 | When all blocks are scanned the map is the old one without the owner |
| `LiveRanges.MarkRepresents` | kunlun-driver/kunlun_module/kunlun/kl_mm.c:317-330 | Per block: bits, head, continuation share, owner and use count stay in step when a range that may enter or leave the block is added |
| `LiveRanges.UnmarkRepresents` | kunlun-driver/kunlun_module/kunlun/kl_mm.c:374-382 | The same when a range is removed |
| `LiveRanges.RepresentsUnique` | kunlun-driver/kunlun_module/kunlun/kl_mm.h:71-80 | Two sets of tables that hold the same live ranges are equal |
| `LiveRanges.ClearIffVacant` | kunlun-driver/kunlun_module/kunlun/kl_mm.c:236-238 | Within a block, clear bits are exactly a vacant range |
| `LiveRanges.ScanStep` | kunlun-driver/kunlun_module/kunlun/kl_mm.c:520-528 | From a boundary the next set bit has a non-zero entry that leads to the next boundary, and on the way only that one range of the owner can start |
| `LiveRanges.ScanEnd` | kunlun-driver/kunlun_module/kunlun/kl_mm.c:522-523 | No set bit left means no range of the owner left |
| `LiveRanges.ScanMoves` | kunlun-driver/kunlun_module/kunlun/kl_mm.c:520-528 | The scan keeps its place also when the range it landed on is freed under it |
| `LiveRanges.ShareEntry` | kunlun-driver/kunlun_module/kunlun/kl_mm.c:466-478 | Without an owner to compare with, both tests pass exactly on the first page of a block that a range from an earlier block runs into |
| `LiveRanges.EntryOf` | kunlun-driver/kunlun_module/kunlun/kl_mm.c:466-478 | With an owner they pass exactly on first pages of that owner's ranges |
| `LiveRanges.LandsOn` | kunlun-driver/kunlun_module/kunlun/kl_mm.c:519-528 | A scan for any owner, or none, lands on a range of the owner, on something it goes past, or on the share at the start |
| `LiveRanges.OwnedIsSet` | kunlun-driver/kunlun_module/kunlun/kl_mm.c:245-256 | In tables that stand for a map only a page in use has an owner |
| `Memory.KlMemory.constructor` | kunlun-driver/kunlun_module/kunlun/kl_mm.c:57-85 | Fresh tables with one entry per page, all free, no owner |
| `Memory.KlMemory.MallocLocked` | kunlun-driver/kunlun_module/kunlun/kl_mm.c:266-286 | First fit, and the early test of the use count never turns away a request that would fit; a size that wraps gets the first clear page, takes none and writes the owner there |
| `Memory.KlMemory.FindFreePages` | kunlun-driver/kunlun_module/kunlun/kl_mm.c:232-243 | The lowest free run, or none exactly if there is none; asked for no page it finds the first clear one |
| `Memory.KlMemory.TakePages` | kunlun-driver/kunlun_module/kunlun/kl_mm.c:245-256 | The whole new content of the four tables |
| `Memory.KlMemory.ReleasePages` | kunlun-driver/kunlun_module/kunlun/kl_mm.c:258-264 | The whole new content of the four tables |
| `Layout.CheckLayout` | kunlun-driver/kunlun_module/kunlun/kl_mm.c:133-173 | Accepts exactly the layouts that are aligned and contiguous, and yields the description of the shadow |
| `Layout.Locate` | kunlun-driver/kunlun_module/kunlun/kl_mm.c:313-317 | Every shadow page is a page of some MAIN block |
| `Layout.LocIsUnique` | kunlun-driver/kunlun_module/kunlun/kl_mm.c:313-317 | No two pages of blocks share a place |
| `Layout.ShadowAddress` | kunlun-driver/kunlun_module/kunlun/kl_mm.h:97-100 | A page has the same address through its block and through the shadow |
| `Layout.SameShadowPage` | kunlun-driver/kunlun_module/kunlun/kl_mm.c:351-352 | An address maps to the same page through block and shadow |
| `Layout.ShadowPageCount` | kunlun-driver/kunlun_module/kunlun/kl_mm.c:171-171 | The shadow has as many pages as the MAIN blocks together |
| `Layout.PagesAligned` | kunlun-driver/kunlun_module/kunlun/kl_mm.c:138-147 | In an accepted layout every page of a MAIN block starts at a multiple of the page size |
| `Layout.AddrToPageIdInverts` | kunlun-driver/kunlun_module/kunlun/kl_mm.h:102-105 | Page number of any byte of a page is that page |
| `Layout.AddrInPage` | kunlun-driver/kunlun_module/kunlun/kl_mm.h:97-105 | An address in a block of whole pages lies in the page it maps to, which exists |
| `Layout.WordCopyExact` | kunlun-driver/kunlun_module/kunlun/kl_mm.c:39-40 | Dividing by the word size loses nothing in any accepted layout |
| `Layout.PagesNeededExact` | kunlun-driver/kunlun_module/kunlun/kl_mm.c:272-272 | The computed page count is the least that holds the request if and only if the 64-bit sum does not wrap, and zero exactly when it does |
| `Bitmaps.FindNextZeroArea` | kunlun-driver/kunlun_module/kunlun/kl_mm.c:236-238 | The least position from the start where the clear bits fit, or a value not below the size when there is none; asked for none, the first clear bit |
| `Bitmaps.FirstFitIs` | kunlun-driver/kunlun_module/kunlun/kl_mm.c:236-238 | First fit is determined by being the least fitting position |
| `Bitmaps.FindNext` | kunlun-driver/kunlun_module/kunlun/kl_mm.c:520-520 | The first bit of the wanted value, or the size |
| `Bitmaps.CopyBits` | kunlun-driver/kunlun_module/kunlun/kl_mm.c:39-40 | Copies the stretch and leaves the rest of the target alone |
| `Bitmaps.CountFill` | kunlun-driver/kunlun_module/kunlun/kl_mm.c:247-260 | Turning a uniform stretch over moves the number of set bits by its length |
| `Bitmaps.FreeRunLeavesRoom` | kunlun-driver/kunlun_module/kunlun/kl_mm.c:274-275 | A free run implies the room the early test looks for |
| `Accounting.AllocIsTold` | kunlun-driver/kunlun_module/kunlun/kl_mm.c:430-434 | An allocation reported with the raw size can be replayed: rounded up it is the pages granted |
| `Accounting.ToldIsBalanced` | kunlun-driver/kunlun_module/kunlun/kl2/session.c:33-53 | Reports that can be replayed to the map balance: under every owner and kind, pages reported allocated less pages reported freed are the pages held there |
| `Accounting.TellsBalance` | kunlun-driver/kunlun_module/kunlun/kl2/session.c:33-53 | Each report moves exactly the account of its owner and kind, by the pages that came or went |
| `Accounting.ToldAreLive` | kunlun-driver/kunlun_module/kunlun/kl_mm.c:310-490 | As many allocations are reported, less frees, as there are live ranges |
| `Accounting.OneReportEach` | kunlun-driver/kunlun_module/kunlun/kl_mm.c:488-490 | Frees between two states that can be replayed are as many as the ranges gone |
| `Accounting.KindOfPage` | kunlun-driver/kunlun_module/kunlun/kl_mm.c:416-418 | The kind of a place is the kind of the block whose page is there |
| `Accounting.FreeIsTold` | kunlun-driver/kunlun_module/kunlun/kl_mm.c:488-490 | A free reported in whole pages can be replayed |
| `Accounting.WholePagesRoundTrip` | kunlun-driver/kunlun_module/kunlun/kl2/session.c:33-53 | The receiver's rounding up gives back a whole number of pages unchanged |
| `Accounting.UsedIsHeld` | kunlun-driver/kunlun_module/kunlun/kl_mm.c:248-383 | The use counts of the blocks of a kind sum to the lengths of the live ranges there, however they are split |
| `Accounting.ReportsAddUp` | kunlun-driver/kunlun_module/kunlun/kl_mm.c:310-490 | For every kind, over all owners, pages reported allocated less pages reported freed equal the use counts of its blocks |
| `LockProtocol.InvStep` | kunlun-driver/kunlun_module/kunlun/kl_mm.c:33-55 | Every step of every thread keeps: lock k is held by exactly the thread whose place in the code holds it; what was copied is still current; what is not copied back is still what was seen |
| `LockProtocol.SyncedWhenAllLocked` | kunlun-driver/kunlun_module/kunlun/kl_mm.c:33-42 | In every reachable state a thread that has all MAIN locks sees the current bitmaps in the shadow |
| `LockProtocol.CopyBackLosesNothing` | kunlun-driver/kunlun_module/kunlun/kl_mm.c:45-55 | Each copy-back replaces exactly the bitmap its thread had seen by that thread's result |
| `LockProtocol.OnlyUnderLock` | kunlun-driver/kunlun_module/kunlun/kl_mm.c:38-53 | Block k and shadow region k change only by the holder of lock k |
| `LockProtocol.SeesCurrent` | kunlun-driver/kunlun_module/kunlun/kl_mm.c:302-304 | What a call decides on is the bitmaps as they stand at that moment |
| `LockProtocol.StepIsAtomic` | kunlun-driver/kunlun_module/kunlun/kl_mm.c:33-55 | Each step of the interleaving is a no-op or one whole call on the bitmaps |
| `LockProtocol.RunIsAtomic` | kunlun-driver/kunlun_module/kunlun/kl_mm.c:33-55 | Any interleaving leaves the bitmaps as if the calls had been made one at a time |
| `LockProtocol.QuietRunIsSequential` | kunlun-driver/kunlun_module/kunlun/kl_mm.c:33-55 | Between states with nobody in a call this holds of the block bitmaps themselves |
| `LockProtocol.WaitChainClimbs` | kunlun-driver/kunlun_module/kunlun/kl_mm.c:35-38 | Along threads waiting for each other the lock waited for only goes up |
| `LockProtocol.NoWaitCycle` | kunlun-driver/kunlun_module/kunlun/kl_mm.c:35-38 | No reachable state has a cycle of waiting threads |
| `LockProtocol.Progress` | kunlun-driver/kunlun_module/kunlun/kl_mm.c:33-55 | While no thread has returned early, from any thread inside a call one finds a thread that can take a step |
| `HugeFrees.SafeAlongIff` | kunlun-driver/kunlun_module/kunlun/kl_mm.c:342-364 | A run from a sound state stays safe throughout (nobody can be brought to an early return without a second free being started) if and only if it never hands a free of a straddling range to the huge path while another free of that range is on its way there |
| `HugeFrees.HandOffSafeIff` | kunlun-driver/kunlun_module/kunlun/kl_mm.c:480-486 | The hand-off to the huge path leaves a safe state exactly when no other free of that allocation is under way: a test that could be made under the block's lock |
| `HugeFrees.SafeIff` | kunlun-driver/kunlun_module/kunlun/kl_mm.c:355-364 | When every free under way would still find its allocation, a state is safe exactly when no two frees of one allocation are under way |
| `HugeFrees.NeverStuck` | kunlun-driver/kunlun_module/kunlun/kl_mm.c:355-364 | With at most one free of each allocation in flight no run takes an early return |
| `HugeFrees.ClashSticks` | kunlun-driver/kunlun_module/kunlun/kl_mm.c:355-364 | Whenever two frees of one allocation are under way, letting the calls under way come to their end leaves some thread returned early |
| `HugeFrees.OrphanSticks` | kunlun-driver/kunlun_module/kunlun/kl_mm.c:355-364 | So does one free whose allocation is gone |
| `HugeFrees.WorkFalls` | kunlun-driver/kunlun_module/kunlun/kl_mm.c:33-55 | Every step towards the end of a call lowers a measure, so calls under way can always be brought to their end |
| `HugeFrees.FreesStep` | kunlun-driver/kunlun_module/kunlun/kl_mm.c:480-486 | A free on its way to the huge path will still find what it checked, the shadow has every straddling range with its length, and nobody is stuck, if no second free starts |
| `HugeFrees.StuckForEver` | kunlun-driver/kunlun_module/kunlun/kl_mm.c:355-364 | After an early return that thread holds every MAIN lock in every later state |
| `HugeFrees.SecondFreeSticks` | kunlun-driver/kunlun_module/kunlun/kl_mm.c:480-486 | Of two frees of one allocation in flight, the later can only end in an early return unless the page is allocated anew |
| `ConcurrentTables.RunRefines` | kunlun-driver/kunlun_module/kunlun/kl_mm.c:266-492 | Threads interleaving at the granularity of one lock or one memcpy, with bitmaps, length, owner and use tables computed by the code from what it sees: in every run with single frees the map of live ranges goes through whole calls one at a time, and the tables hold exactly that map |
| `ConcurrentTables.StepSound` | kunlun-driver/kunlun_module/kunlun/kl_mm.c:266-492 | Each step keeps the tables exact and is its whole call on the map, or none of it |
| `ConcurrentTables.RunsTheProtocol` | kunlun-driver/kunlun_module/kunlun/kl_mm.c:33-55 | Every such run is a run of the lock protocol with single frees, so nothing is lost, nobody waits in a circle and nobody returns early |
| `ConcurrentTables.QuietIsExact` | kunlun-driver/kunlun_module/kunlun/kl_mm.c:33-55 | With nobody in a call the tables in memory are exact |
| `ConcurrentTables.StartIsSound` | kunlun-driver/kunlun_module/kunlun/kl_mm.c:179-199 | The state after initialisation is such a state |
| `ConcurrentTables.TryKeeps` | kunlun-driver/kunlun_module/kunlun/kl_mm.c:266-286 | An attempt on a block takes its lowest vacant run, or finds that it has none, although other threads hold other locks |
| `ConcurrentTables.FreeAtKeeps` | kunlun-driver/kunlun_module/kunlun/kl_mm.c:459-492 | A free under the block's lock removes the range whose first page it names, if it is the owner's and inside the block; a straddling one is handed on, anything else refused |
| `ConcurrentTables.HugeTryKeeps` | kunlun-driver/kunlun_module/kunlun/kl_mm.c:294-340 | A huge allocation takes the lowest vacant run of the lane at the moment it changes the shadow, or there is none |
| `ConcurrentTables.HugeFreeKeeps` | kunlun-driver/kunlun_module/kunlun/kl_mm.c:342-391 | A huge free removes its range at that moment |
| `ConcurrentTables.HugeFreePasses` | kunlun-driver/kunlun_module/kunlun/kl_mm.c:353-364 | When its turn comes, the shadow's length equals the length the allocation was recorded with and the owner is still there, so both tests pass |
| `ConcurrentTables.TestsFindHead` | kunlun-driver/kunlun_module/kunlun/kl_mm.c:469-481 | The two tests and the comparison with the block's end tell first pages of the owner, and straddling ranges among them |
| `ConcurrentTables.TryFitIsFirst` | kunlun-driver/kunlun_module/kunlun/kl_mm.c:274-279 | The early test turns nothing away that fits, in any reachable state |
| `ConcurrentTables.HugeFits` | kunlun-driver/kunlun_module/kunlun/kl_mm.c:304-306 | First fit in the shadow, all locks held, decides about the lane as it is |
| `ConcurrentTables.AllHeldIsSeen` | kunlun-driver/kunlun_module/kunlun/kl_mm.c:302-304 | With all locks held, blocks and shadow are as everybody will see them |
| `ConcurrentTables.SharesAndBits` | kunlun-driver/kunlun_module/kunlun/kl_mm.c:313-337 | The bits copied back and the tables the loop wrote are together the range written down, or erased, in each block |
| `TwoFrees.SafeAlongIff` | kunlun-driver/kunlun_module/kunlun/kl_mm.c:342-364 | In the tables the code computes: a run from a sound state stays safe throughout if and only if it never hands a free of a straddling range to the huge path while another free of that range is on its way there |
| `TwoFrees.SafeIff` | kunlun-driver/kunlun_module/kunlun/kl_mm.c:355-364 | In the tables: when every free under way would still find its allocation, a state is safe exactly when no two frees of one allocation are under way |
| `TwoFrees.HandOffSafeIff` | kunlun-driver/kunlun_module/kunlun/kl_mm.c:480-486 | In the tables: handing a free to the huge path leaves a safe state exactly when no other free of that range is under way |
| `TwoFrees.TwoFreesStick` | kunlun-driver/kunlun_module/kunlun/kl_mm.c:342-364 | In every layout with two non-empty MAIN blocks, from the state initialisation leaves, there is a run to an early return: one straddling allocation, chosen by first fit, and two threads that free it |
| `TwoFrees.StraddlingHappens` | kunlun-driver/kunlun_module/kunlun/kl_mm.c:294-340 | From that state a huge allocation of one page more than the first block has gets page 0, straddles, and comes to its end with nobody in a call |
| `TwoFrees.ClashHappens` | kunlun-driver/kunlun_module/kunlun/kl_mm.c:459-486 | From any state with a straddling allocation whose block nobody holds, both tests pass for two idle threads in turn, and two frees of it are under way |
| `TwoFrees.ClashSticks` | kunlun-driver/kunlun_module/kunlun/kl_mm.c:342-364 | From any such clash, letting the calls under way come to their end, with every write computed from the tables, leaves a thread returned early |
| `TwoFrees.OrphanSticks` | kunlun-driver/kunlun_module/kunlun/kl_mm.c:355-364 | So does one free whose allocation is gone |
| `TwoFrees.PassesIff` | kunlun-driver/kunlun_module/kunlun/kl_mm.c:351-364 | While the tables are exact, the two tests of the huge free pass exactly when its allocation is live and the shadow has its length |
| `TwoFrees.FreeBegins` | kunlun-driver/kunlun_module/kunlun/kl_mm.c:459-505 | An idle thread takes the free block's lock, passes both tests and drops the lock again, with the tables as they were |
| `OwnerScans.ScanLeavesNone` | kunlun-driver/kunlun_module/kunlun/kl_mm.c:510-549 | kl_mm_free_by_owner among other threads: whatever they do, short of allocating for the owner or of a second free of one range, when the scan is through the owner has nothing left, and the tables are exact all the time |
| `OwnerScans.Starts` | kunlun-driver/kunlun_module/kunlun/kl_mm.c:538-545 | An idle thread can start such a scan in any sound state |
| `OwnerScans.ScanEnds` | kunlun-driver/kunlun_module/kunlun/kl_mm.c:510-549 | However the threads interleave, the scan takes no more steps than a bound fixed when it starts |
| `OwnerScans.OwnOrWaits` | kunlun-driver/kunlun_module/kunlun/kl_mm.c:510-549 | Until it is through it can take its next step unless the lock it needs is held or the step would be a second free |
| `OwnerScans.OwnKeeps` | kunlun-driver/kunlun_module/kunlun/kl_mm.c:519-534 | Each step of the scan keeps its place: nothing of the owner behind it, no range across its page, also while a straddling range is on its way to the huge path |
| `OwnerScans.OtherKeeps` | kunlun-driver/kunlun_module/kunlun/kl_mm.c:266-492 | So does each step of another thread |
| `OwnerScans.LockKeepsOut` | kunlun-driver/kunlun_module/kunlun/kl_mm.c:33-38 | In the middle of a block no other thread works on it and none has all locks |
| `OwnerScans.OwnFalls` | kunlun-driver/kunlun_module/kunlun/kl_mm.c:519-534 | Each step of the scan lowers what it has left to do |
| `NullFrees.NullFreeBreaks` | kunlun-driver/kunlun_module/kunlun/kl_mm.c:488-491 | Releasing a share alone leaves tables that stand for no map of live ranges at all, as the head in the earlier block goes on claiming the pages |
| `NullFrees.FreeStandsIff` | kunlun-driver/kunlun_module/kunlun/kl_mm.c:459-508 | The outcome of a free, by whatever caller on whatever page, stands for some map of live ranges if and only if it names an owner or the page is not the first of a block that a range runs into |
| `NullFrees.FreeRefines` | kunlun-driver/kunlun_module/kunlun/kl_mm.c:459-508 | In that case it stands for the map without the range that starts there, if it is the owner's, and for the map itself otherwise |
| `NullFrees.NullFreeHappens` | kunlun-driver/kunlun_module/kunlun/kl_mm.c:294-340 | In any two adjoining blocks of 64 pages: one huge allocation of 65 pages on the tables initialisation leaves gets page 0, and a free of the second block's first page without an owner then leaves tables that stand for nothing |
| `NullFrees.NullScanStandsIff` | kunlun-driver/kunlun_module/kunlun/kl_mm.c:538-549 | The outcome of freeing by no owner stands for some map if and only if no block is one that a range runs into |
| `NullFrees.ShareReleased` | kunlun-driver/kunlun_module/kunlun/kl_mm.c:526-531 | From the share's own block its release looks like the end of that range, so the scan goes on as before |
| `NullFrees.TwoBlocksExist` | kunlun-driver/kunlun_module/kunlun/kl_mm.c:133-173 | There are such layouts, at any base |
| `NullFrees.ContinuedFrom` | kunlun-driver/kunlun_module/kunlun/kl_mm.c:288-293 | The range that runs into a block has its head, with its full length and an owner, in an earlier one |
| `Quota.RunCalls` | kunlun-driver/kunlun_module/kunlun/kl_cxpu.c:255-396 | After any sequence of create, get, put, destroy and set-limit the two totals are the sums of the finite limits of listed instances and within the memory |
| `Quota.CallKeeps` | kunlun-driver/kunlun_module/kunlun/kl_cxpu.c:78-98 | Each call keeps that |
| `Quota.SetLimitKeeps` | kunlun-driver/kunlun_module/kunlun/kl_cxpu.c:510-580 | Setting a limit keeps it, never subtracts below zero, and when refused changes nothing |
| `Quota.SetLimitIs` | kunlun-driver/kunlun_module/kunlun/kl_cxpu.c:526-576 | Refused for the kind or the bytes (EINVAL) exactly when no limit of that kind can be set or the bytes cannot be rounded up; else accepted exactly when the limit and those of the other instances are together within the memory, otherwise ENOMEM; accepted, that limit alone changes and the totals are the sums again |
| `Quota.SetLimitAgain` | kunlun-driver/kunlun_module/kunlun/kl_cxpu.c:562-563 | A limit that was accepted is accepted again and then changes nothing: what the instance had is given back first |
| `Quota.DestroyIs` | kunlun-driver/kunlun_module/kunlun/kl_cxpu.c:354-378 | EBUSY without a change exactly when an instance of the name is held more than once; else no instance has the name any more, the others are as they were in order, and each total has fallen by the finite limit |
| `Quota.CreateThenDestroy` | kunlun-driver/kunlun_module/kunlun/kl_cxpu.c:310-378 | Destroying what was just created gives the books back |
| `Quota.GetGuards` | kunlun-driver/kunlun_module/kunlun/kl_cxpu.c:255-378 | A reference taken makes a destroy fail, and given back leaves the books as they were |
| `Quota.CallIs` | kunlun-driver/kunlun_module/kunlun/kl_cxpu.c:255-396 | Each call of a run does what the relation for it says |
| `Quota.CallIsolates` | kunlun-driver/kunlun_module/kunlun/kl_cxpu.c:255-396 | No call touches an instance that it is not about |
| `Quota.KeyCompares` | kunlun-driver/kunlun_module/kunlun/kl_cxpu.c:264-270 | Comparing what `strncpy` kept decides as `strncmp` on twelve characters does |
| `Quota.FirstOf` | kunlun-driver/kunlun_module/kunlun/kl_cxpu.c:32-44 | The first block of the kind, or none exactly when no block has it |
| `Quota.MainTotalCounts` | kunlun-driver/kunlun_module/kunlun/kl_cxpu.c:117-129 | The main total is as many whole main pages as the blocks of the five kinds have bytes for |
| `Quota.MainTotalIsShadow` | kunlun-driver/kunlun_module/kunlun/kl_cxpu.c:117-129 | It is the pages of the shadow and the pages that the other four kinds fill |
| `Quota.L3TotalCounts` | kunlun-driver/kunlun_module/kunlun/kl_mm.c:570-578 | The L3 total is the number of L3 pages there are to allocate |
| `Quota.PagesCounted` | kunlun-driver/kunlun_module/kunlun/kl_mm.c:570-578 | For any kind, as many pages are counted as there are places of pages of it |
| `Quota.RemoveKeeps` | kunlun-driver/kunlun_module/kunlun/kl_cxpu.c:78-98 | Dropping an instance gives back exactly its finite limits |
| `Quota.SetLimitBetween` | kunlun-driver/kunlun_module/kunlun/kl_cxpu.c:380-396 | Taking and giving back the reference around a limit change has no effect of its own |
| `Quota.ActualOfShown` | kunlun-driver/kunlun_module/kunlun/kl_cxpu.c:60-76 | Shown pages convert back to the actual pages they came from if and only if ECC scaling is off or eight times the count fits in 64 bits |
| `Quota.ShownOfActual` | kunlun-driver/kunlun_module/kunlun/kl_cxpu.c:60-76 | A count of s shown pages reads back as s, or as s + 1 when ECC is on and s leaves 7 by 8, if and only if ECC is off or 7 * s + 7 fits into 64 bits |
| `Quota.UnlimitedReadBack` | kunlun-driver/kunlun_module/kunlun/kl_cxpu.c:479-490 | The unlimited mark survives the getter exactly when no ECC scaling applies |
| `Quota.SetThenShow` | kunlun-driver/kunlun_module/kunlun/kl_cxpu.c:479-562 | An accepted limit reads back as the pages asked for, or one more in the remainder 7 case |
| `Quota.ShownWithinTotal` | kunlun-driver/kunlun_module/kunlun/kl_cxpu.c:562-568 | The finite limits shown never sum to more than the memory shown |
| `Quota.BytesToPagesExact` | kunlun-driver/kunlun_module/kunlun/kl_cxpu.c:46-53 | Refuses exactly the byte counts that cannot be rounded up in 64 bits (and, for pages of one byte, the mark for unlimited) and otherwise gives the least sufficient count |
| `Quota.LimitsWithin` | kunlun-driver/kunlun_module/kunlun/kl_cxpu.c:89-93 | What an instance gives back has been counted, and no total passes the memory |
| `Quota.Relimited` | kunlun-driver/kunlun_module/kunlun/kl_cxpu.c:562-576 | Exchanging one limit for another that fits keeps the books |
| `Quota.Find` | kunlun-driver/kunlun_module/kunlun/kl_cxpu.c:264-270 | The first instance whose name agrees in its first twelve characters |
| `Cxpu.CxpuDevice.constructor` | kunlun-driver/kunlun_module/kunlun/kl_cxpu.c:176-203 | An enabled device with an empty list and both totals zero |
| `Cxpu.CxpuDevice.CreateInstance` | kunlun-driver/kunlun_module/kunlun/kl_cxpu.c:310-352 | ENOMEM exactly for twelve instances, else EEXIST exactly for a listed name, each without a change; else the old instances and one more at the end with that name and token, one reference and no limits, totals unchanged |
| `Cxpu.CxpuDevice.Append` | kunlun-driver/kunlun_module/kunlun/kl_cxpu.c:331-347 | One more instance at the end, counted |
| `Cxpu.CxpuDevice.GetInstanceById` | kunlun-driver/kunlun_module/kunlun/kl_cxpu.c:255-275 | Finds an instance exactly if one of that name is listed; one more reference on it, all else as before |
| `Cxpu.CxpuDevice.PutInstance` | kunlun-driver/kunlun_module/kunlun/kl_cxpu.c:299-308 | One reference less, all else as before; with the last one the instance goes and each total falls by its finite limit |
| `Cxpu.CxpuDevice.DestroyInstance` | kunlun-driver/kunlun_module/kunlun/kl_cxpu.c:354-378 | EBUSY without a change exactly when an instance of the name is held more than once; else none has the name any more, all others are as they were in order, and each total has fallen by the finite limit; an unknown name is no error |
| `Cxpu.CxpuDevice.Unlist` | kunlun-driver/kunlun_module/kunlun/kl_cxpu.c:78-98 | That instance alone leaves the list |
| `Cxpu.CxpuDevice.DestroyInstanceRef` | kunlun-driver/kunlun_module/kunlun/kl_cxpu.c:78-98 | The entry leaves the list and its finite limits the totals, with no subtraction below zero |
| `Cxpu.CxpuDevice.SetLimitAt` | kunlun-driver/kunlun_module/kunlun/kl_cxpu.c:510-580 | Accepted exactly if the limit fits into the memory beside the limits of the other instances; which error each refusal gives; afterwards that limit alone has changed and the totals are the sums |
| `Cxpu.CxpuDevice.InstanceSetMemLimit` | kunlun-driver/kunlun_module/kunlun/kl_cxpu.c:510-580 | The same for an instance, and EINVAL without a change for none |
| `Cxpu.CxpuDevice.SetInstanceMemLimit` | kunlun-driver/kunlun_module/kunlun/kl_cxpu.c:380-396 | The same by name, EINVAL without a change for an unknown one; reference counts end as they were |
| `Cxpu.Instance.Get` | kunlun-driver/kunlun_module/kunlun/kl_util.h:284-288 | The reference count and its readable copy move up together |
| `Cxpu.Instance.Put` | kunlun-driver/kunlun_module/kunlun/kl_util.h:290-294 | They move down together, and the last one is announced |
| `DeviceNodes.MinorsImplyIds` | kunlun-driver/kunlun_module/kunlun/kl_main.c:130-143 | When all live devices have one number of nodes, room for the minors is room for the device file ids |
| `DeviceNodes.FitIsSlot` | kunlun-driver/kunlun_module/kunlun/kl_main.c:141-141 | First fit puts a device's ids at a multiple of the node count that no device has |
| `DeviceNodes.AddKeepsBits` | kunlun-driver/kunlun_module/kunlun/kl_main.c:130-143 | The bitmaps stay exactly the union of the live devices, with ids in slots |
| `DeviceNodes.RemoveKeepsBits` | kunlun-driver/kunlun_module/kunlun/kl_main.c:211-212 | The same after a destroy |
| `DeviceRuns.NoCheckNeededIff` | kunlun-driver/kunlun_module/kunlun/kl_main.c:138-142 | For any set of device sizes and any table size: no sequence of creates and destroys with those sizes, at any start values, reaches the BUG_ON if and only if any two different sizes are together larger than the table |
| `DeviceRuns.ExclusiveRun` | kunlun-driver/kunlun_module/kunlun/kl_main.c:130-143 | With such sizes, after any sequence all live devices have one size, ids at multiples of it, and both bitmaps are exactly the live devices |
| `DeviceRuns.MixedSizesFail` | kunlun-driver/kunlun_module/kunlun/kl_main.c:138-142 | Any two sizes that fit side by side can be made to reach it, by a run built from the sizes |
| `DeviceRuns.MadeMany` | kunlun-driver/kunlun_module/kunlun/kl_main.c:130-143 | Devices made one after the other at rising starts lie side by side in both tables |
| `DeviceRuns.CreateStep` | kunlun-driver/kunlun_module/kunlun/kl_main.c:121-187 | A create on the driver's tables is one step of such a run, or leaves bitmaps and live devices as they were when a node could not be made |
| `DeviceRuns.DestroyStep` | kunlun-driver/kunlun_module/kunlun/kl_main.c:189-214 | So is a destroy |
| `DeviceNodes.FailureLeavesStray` | kunlun-driver/kunlun_module/kunlun/kl_main.c:148-181 | After a create that failed at a node, an id of no live device leads to the device that was never made |
| `DeviceNodes.WholeLeavesNoStray` | kunlun-driver/kunlun_module/kunlun/kl_main.c:144-163 | A device made whole adds no such id |
| `DeviceNodes.ClearedLeavesNoStray` | kunlun-driver/kunlun_module/kunlun/kl_main.c:196-209 | Nor does one taken away |
| `DeviceNodes.NoRoomForOther` | kunlun-driver/kunlun_module/kunlun/kl_main.c:130-134 | Beside a live device, one that would not fit into the table with it is refused for want of minors |
| `DeviceNodes.TablesAreInverse` | kunlun-driver/kunlun_module/kunlun/kl_main.c:145-150 | On live slots the id table and the ids stored in the nodes are inverse in both directions |
| `DeviceNodes.OthersKeepTables` | kunlun-driver/kunlun_module/kunlun/kl_main.c:144-150 | Writing one device's nodes disturbs no other device's entries |
| `DeviceNodes.DeviceTable.constructor` | kunlun-driver/kunlun_module/kunlun/kl_main.c:580-591 | Empty tables in the driver's initial state |
| `DeviceNodes.DeviceTable.Create` | kunlun-driver/kunlun_module/kunlun/kl_main.c:121-187 | Fails for want of minors exactly when first fit from the start finds none, and then changes nothing; never reaches the BUG_ON; fails in device_create exactly if one call fails, and then bitmaps and live devices are as before, the nodes and ids before the first failure lead nowhere, that one node and id stay behind, the id leading to the device that was never made, and no other entry has changed. From tables where only ids of live devices lead anywhere, it leaves such tables if and only if device_create did not fail. The caller may change the size when no device is live, or to one that cannot fit beside the live ones |
| `DeviceNodes.DeviceTable.Choose` | kunlun-driver/kunlun_module/kunlun/kl_main.c:130-142 | Either no minors are free, or minors and ids are chosen, each first fit |
| `DeviceNodes.DeviceTable.MakeNodes` | kunlun-driver/kunlun_module/kunlun/kl_main.c:144-181 | Either all nodes and ids point at each other, or one call failed, all nodes and ids before it are cleared, its own node and id stay behind, and nothing else has changed |
| `DeviceNodes.DeviceTable.FillNodes` | kunlun-driver/kunlun_module/kunlun/kl_main.c:144-163 | Stops at the first call that fails, with exactly the entries up to it written |
| `DeviceNodes.DeviceTable.UndoNodes` | kunlun-driver/kunlun_module/kunlun/kl_main.c:167-181 | Clears exactly the entries of the nodes that had a device |
| `DeviceNodes.DeviceTable.Destroy` | kunlun-driver/kunlun_module/kunlun/kl_main.c:189-214 | Removes that device alone: its bits, nodes and ids are cleared, its ids lead nowhere, and no other entry has changed |
| `DeviceNodes.DeviceTable.GetKdevByDevfileId` | kunlun-driver/kunlun_module/kunlun/kl_main.c:88-106 | For the id of any live node, the device it was created with; for any other id what the tables lead to |
| `Runs.FreeRange` | kunlun-driver/kunlun_module/kunlun/kl_mm.c:494-508 | The address handed out frees exactly its range, and nothing when no page was taken |
| `Runs.AllocRange` | kunlun-driver/kunlun_module/kunlun/kl_mm.c:394-445 | A harmless allocation adds a range that was not live, at the page the address returned lies in |
| `Runs.Restored` | kunlun-driver/kunlun_module/kunlun/kl_mm.c:394-508 | Taking out of the map what was put in gives every table back |
| `Runs.Serve` | kunlun-driver/kunlun_module/kunlun/kl_mm.c:394-549 | Any request at all: afterwards the tables stand for some map if and only if the request was harmless, and then they are one step of the map machine further |
| `Runs.HarmlessIffPages` | kunlun-driver/kunlun_module/kunlun/kl_mm.c:272-284 | A successful ordinary allocation is harmless exactly when it took a page |
| `Runs.RoundsIsHarmless` | kunlun-driver/kunlun_module/kunlun/kl_mm.c:272-272 | A size that can be rounded up in 64 bits to pages of every memory of its kind is harmless |
| `Runs.OnlyFirstPage` | kunlun-driver/kunlun_module/kunlun/kl_mm.c:447-457 | An address names no range but the one that starts at the page it lies in |
| `MemoryManager.KlMm.constructor` | kunlun-driver/kunlun_module/kunlun/kl_mm.c:179-199 | Sets all blocks and the shadow up empty and unlocked, each with tables of its own |
| `MemoryManager.SetupBlocks` | kunlun-driver/kunlun_module/kunlun/kl_mm.c:179-184 | No two blocks share a table |
| `MemoryManager.SetupAll` | kunlun-driver/kunlun_module/kunlun/kl_mm.c:179-199 | Nor does the shadow share one with a block |
| `MemoryManager.KlMm.Lock` | kunlun-driver/kunlun_module/kunlun/kl_mm.c:38-38 | Needs the lock free; changes nothing else |
| `MemoryManager.KlMm.Unlock` | kunlun-driver/kunlun_module/kunlun/kl_mm.c:53-53 | Needs the lock held; changes nothing else |
| `MemoryManager.KlMm.WriteShare` | kunlun-driver/kunlun_module/kunlun/kl_mm.c:320-328 | Length, owner only at the head, use count; in that block alone |
| `MemoryManager.KlMm.TakeShadow` | kunlun-driver/kunlun_module/kunlun/kl_mm.c:308-308 | The shadow alone changes |
| `MemoryManager.KlMm.ReleaseShadow` | kunlun-driver/kunlun_module/kunlun/kl_mm.c:366-366 | The shadow alone changes |
| `MemoryManager.KlMm.Callback` | kunlun-driver/kunlun_module/kunlun/kl_mm.c:310-311 | One report if the caller gave a callback, else none |
| `MemoryManager.KlMm.MallocIn` | kunlun-driver/kunlun_module/kunlun/kl_mm.c:421-421 | The block allocation as a change of the whole state |
| `MemoryManager.KlMm.ReleaseIn` | kunlun-driver/kunlun_module/kunlun/kl_mm.c:488-488 | The block release as a change of the whole state |
| `MemoryManager.KlMm.OrdinaryMallocLive` | kunlun-driver/kunlun_module/kunlun/kl_mm.c:416-444 | Tables and map of live ranges change together, in a place where nothing was live; with no page taken no map fits |
| `MemoryManager.KlMm.HugeFreeLive` | kunlun-driver/kunlun_module/kunlun/kl_mm.c:342-391 | Tables and map of live ranges change together and the locks end as they were |
| `MemoryManager.KlMm.FreeStraddling` | kunlun-driver/kunlun_module/kunlun/kl_mm.c:342-391 | The straddling range leaves tables and map, and the length to report is the one it had |
| `MemoryManager.KlMm.FreeUnlocked` | kunlun-driver/kunlun_module/kunlun/kl_mm.c:481-486 | The huge path between dropping and taking the block's lock |
| `MemoryManager.KlMm.OrdinaryFreeLive` | kunlun-driver/kunlun_module/kunlun/kl_mm.c:488-488 | The tables, and the map of live ranges if the range is in it |
| `MemoryManager.KlMm.LockAndFree` | kunlun-driver/kunlun_module/kunlun/kl_mm.c:503-505 | Every lock is free again, and the tables are the outcome `FreeOutcome` gives for that block, page and owner |
| `MemoryManager.KlMm.FreeHead` | kunlun-driver/kunlun_module/kunlun/kl_mm.c:531-531 | The address built from a page the scan found always frees that page's range, or, without an owner, the share at the start of the block |
| `MemoryManager.KlMm.FreeByOwnerIn` | kunlun-driver/kunlun_module/kunlun/kl_mm.c:542-548 | One more block scanned, the earlier ones as they were left |
| `Memory.KlMemory.Lock` | kunlun-driver/kunlun_module/kunlun/kl_mm.c:420-420 | Needs the lock free |
| `Memory.KlMemory.Unlock` | kunlun-driver/kunlun_module/kunlun/kl_mm.c:422-422 | Needs the lock held |
| `Bitmaps.FillInPlace` | kunlun-driver/kunlun_module/kunlun/kl_mm.c:247-260 | Sets or clears the stretch and nothing else |
| `Cxpu.CxpuDevice.Lookup` | kunlun-driver/kunlun_module/kunlun/kl_cxpu.c:264-270 | The place of the first instance of that name |
| `Cxpu.CxpuDevice.Place` | kunlun-driver/kunlun_module/kunlun/kl_cxpu.c:299-308 | Where an instance stands in the list |
| `Cxpu.CxpuDevice.GetAt` | kunlun-driver/kunlun_module/kunlun/kl_cxpu.c:268-268 | One reference more there, nothing else |
| `Cxpu.CxpuDevice.PutAt` | kunlun-driver/kunlun_module/kunlun/kl_cxpu.c:304-306 | One reference less, with removal at zero, and the books stay right |
| `Cxpu.CxpuDevice.StoreLimit` | kunlun-driver/kunlun_module/kunlun/kl_cxpu.c:562-576 | The limit and the total of that kind alone |
| `Cxpu.CxpuDevice.ChangeLimit` | kunlun-driver/kunlun_module/kunlun/kl_cxpu.c:526-576 | The in-place code is the transition on the books; its subtractions stay natural numbers |
| `Cxpu.Instance.constructor` | kunlun-driver/kunlun_module/kunlun/kl_cxpu.c:331-343 | One reference and no limits |
| `DeviceNodes.DeviceTable.Init` | kunlun-driver/kunlun_module/kunlun/kl_main.c:580-591 | The driver's 128 entries, none in use |
| `DeviceNodes.DeviceTable.CreateAt` | kunlun-driver/kunlun_module/kunlun/kl_main.c:136-187 | With minors and ids chosen, either the device is live or all is as before but for the node and id that stay behind |
| `DeviceNodes.DeviceTable.FillBits` | kunlun-driver/kunlun_module/kunlun/kl_main.c:183-184 | Both bitmaps, that device's stretch alone |
| `DeviceNodes.DeviceTable.ClearNode` | kunlun-driver/kunlun_module/kunlun/kl_main.c:168-179 | A node without a device is left alone |
| `DeviceNodes.DeviceTable.ClearNodes` | kunlun-driver/kunlun_module/kunlun/kl_main.c:196-209 | All nodes of the device and all their ids are cleared |
| `DeviceNodes.DeviceTable.MakeNodesBeside` | kunlun-driver/kunlun_module/kunlun/kl_main.c:144-181 | All live devices' entries stay in order whether or not the new one is made |
| `DeviceNodes.DeviceTable.ClearNodesBeside` | kunlun-driver/kunlun_module/kunlun/kl_main.c:196-209 | All other devices' entries stay in order, and the ids of this one lead nowhere |
| `DeviceNodes.DeviceTable.FirstId` | kunlun-driver/kunlun_module/kunlun/kl_main.c:195-195 | The id stored in the first node is the start of the device's ids |
| `ListSplice.MoveAllTail` | kunlun-driver/kunlun_module/kunlun/kl_util.h:307-323 | The target is its old entries followed by the source's in order, the source is empty, and both are well-formed rings, empty lists included |
| `ListSplice.Link` | kunlun-driver/kunlun_module/kunlun/kl_util.h:315-322 | The two nodes become neighbours |
| `ListSplice.NextPrevInverse` | kunlun-driver/kunlun_module/kunlun/kl_util.h:307-323 | In such a ring next and prev undo each other at every node |
| `ListSplice.EntriesUnique` | kunlun-driver/kunlun_module/kunlun/kl_util.h:307-323 | The links determine the entries and their order |
| `UseRatioWindow.UseRatio.Init` | kunlun-driver/kunlun_module/kunlun/kl_util.h:333-340 | An empty window of one hundred samples |
| `UseRatioWindow.UseRatio.Record` | kunlun-driver/kunlun_module/kunlun/kl_util.h:342-361 | After any samples the weight is the number of set ones among the last hundred, or among all while there are fewer |
| `UseRatioWindow.UseRatio.Weight` | kunlun-driver/kunlun_module/kunlun/kl_util.h:363-366 | Returns that number |
| `UseRatioWindow.RingCountsWindow` | kunlun-driver/kunlun_module/kunlun/kl_util.h:342-361 | The bits of the ring and the samples of the window have the same number set |
| `UseRatioWindow.PosIsOldest` | kunlun-driver/kunlun_module/kunlun/kl_util.h:351-351 | Once the ring is full its position holds the oldest sample of the window |
| `UseRatioWindow.OneSample` | kunlun-driver/kunlun_module/kunlun/kl_util.h:342-361 | Where a sample goes, what the ring holds then and how its count moves, all from the samples alone |
| `UseRatioWindow.UseRatio.Write` | kunlun-driver/kunlun_module/kunlun/kl_util.h:344-350 | The bit at the position and no other |
| `UseRatioWindow.RecordTurns` | kunlun-driver/kunlun_module/kunlun/kl_util.h:342-351 | A sample overwrites exactly the bit at the position |

## Left out

- The Linux primitives (`bitmap_find_next_zero_area`, `bitmap_set`, `bitmap_clear`, `find_next_bit`, `memcpy`, `strncmp`, `kref`, spinlocks): they are not part of the repository; `bitmaps.dfy` and the classes implement their documented meaning. Bitmaps are arrays of booleans; the division by the word size is modelled and shown exact.
- Word size: addresses, sizes of blocks and sums of block sizes are unbounded here. Rounding a request up is done in 64 bits, and `PagesNeededExact` says exactly when that wraps; the receiver of a callback rounds without wrapping, so the reports are followed for sizes that can be rounded up. The 32-bit `1 << page_bits` is modelled without its width; the quotas assume page sizes below 2^64 (`WordSized`).
- Layout.CheckLayout: the sums of base and size are unbounded, so a wrap of 64 bits in them is not modelled.
- Layout of blocks that are not MAIN: `kl_mm_init` does not check them; that all blocks are whole pages long and share no address is assumed (`Platform`).
- Runs.Run: a run goes on from a request only if it was harmless, as no map fits the tables otherwise (`Serve`), and its sizes can be rounded up, for the sake of the reports.
- MemoryManager.KlMm.FreeByOwner: the callbacks for shares released without an owner are given one by one, but as they belong to no live range they are outside the replay.
- MemoryManager.KlMm.Malloc: the callback is made after the tables are written and the locks given up, not in between; the `mem` out-parameter, logging and the L3-only bring-up build are not modelled.
- The shadow's own use count and owner table, which the driver never reads, have no meaning in the model beyond what is written; its length table is constrained for straddling ranges only.
- Failed kernel allocations in `kl_mm_init`, `kl_mm_uninit`, and `page_current`, which no search reads.
- LockProtocol.InvStep: bitmaps written by ordinary calls and chosen by huge ones are arbitrary values there; `ConcurrentTables` computes them.
- ConcurrentTables.RunRefines: the MAIN blocks only; a block of another kind has one lock and takes no part in huge calls. Owners are named and page counts positive. An allocation that tries several blocks is one attempt after another, so its refusal says that each block had no room when it was tried. The share loops and the change of the shadow, made with all locks held, are one step. Callbacks are not steps.
- OwnerScans.ScanLeavesNone: MAIN blocks only, as there; that a thread waiting for a lock gets it in the end is up to the spinlock.
- Concurrency of the cxpu calls: each is one step, although set-limit takes only the instance's own lock while it changes the totals. `kl_cxpu_uninit`, core limits, usage counters, lookup by token and the proc output are not modelled. A limit below current use is accepted, as in the code.
- Quota.SetThenShow: for page sizes of at least eight bytes, so that scaling cannot wrap.
- Quota.ShownWithinTotal: for memories whose page count times eight fits in 64 bits.
- DeviceNodes.DeviceTable.Create: for a size that the live devices have, or that cannot fit beside them; `NoCheckNeededIff` shows that nothing more general is safe. `Destroy` is of a live device with its own size, as its callers have it. Names, file operations, driver data, the calls into the device core (only whether each works) and the first-generation driver's own writes to the same tables are not modelled.
- Compat window translation, host-coherent memory, peer memory, PCI and module plumbing, ioctl dispatch, benchmarks and scripts: no shared books to keep, or calls into code outside the repository.
