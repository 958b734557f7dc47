# MinNT core algorithms, modelled and verified in Dafny

This project models the parts of the MinNT kernel that hold real algorithms, and proves what they keep over every
input, every run and every interleaving. `dafny verify dfyconfig.toml` checks all of it. Table sizes are parameters
throughout, so nothing rests on the kernel's own limits of 64, 96 or 2048 entries.

| part | files | main results |
|---|---|---|
| RAM-disk FAT16 files, `fs/fs.c` | `Fat16Chains`, `Fat16`, `Fat16Flat`, `Fat16Gaps`, `Fat16Layout` | every run of reads and gap-free writes on clusters and FAT links is a run on flat byte sequences; chains stay acyclic, terminated and disjoint; where every byte lands in runs with writes at any offset |
| Sector cache, `mm/cache.c` | `CacheLists`, `HashSpread`, `SectorCache`, `SectorCacheRuns`, `SectorCacheReaders` | every sequential run is a run of a textbook LRU list and keeps exactly the most recently used sectors; every interleaving of readers is a run of a shared list and gives each reader the sector it asked for |
| Boot ordering, `boot/registry.c` | `BootGraph`, `BootRegistry` | the sort succeeds exactly when the graph is acyclic and two side conditions hold, and then yields the unique phase-first topological order |
| Physical pages and pool, `mm/mminit.c`, `ex/pool.c` | `PhysicalPages`, `PoolBlocks`, `Pool` | blocks exactly tile the pages taken; the expand-and-retry loop ends; the hint never skips a free page |
| User virtual memory, `mm/mmuser.c` | `Vad` | the restart loop ends at the lowest fit, whatever the list order |
| Dispatcher, `ke/dispatch.c`, `ps/psmgr.c`, lists of `include/nt/ntdef.h` | `ListEntry`, `DispatchLog`, `Dispatcher`, `DispatcherRuns` | one list per thread, one wait per signal, mutual exclusion and no overtaking, over every run; first ready, first run |
| Timers, `ke/timer.c` | `TimerLog`, `Timers`, `TimerRuns` | a DPC runs once per arm, never early, never after a cancel, over every run; an undisturbed scan pass fires every timer that is due |
| Push lock, `ex/pushlock.c` | `PushLock` | every interleaving of any number of threads refines a readers-writer lock; exactly who is let in |
| Registry, `cm/cm.c`, `cm/cmpers.c` | `KeyTree`, `HiveFormat`, `HiveLayout`, `HiveRoundTrip`, `HiveStore`, `HiveLoad` | the reader inverts the writer exactly on the trees within its limits and accepts no other byte strings; no two trees share an encoding; exactly what a save and load keeps |
| FAT32 chains, `fs/fat32.c` | `Fat32` | chain allocation and freeing on every FAT, with the cache equal to the disk |

The form follows the source. Code that updates globals in place is a class with fields or arrays and methods with
loops; locked regions are atomic steps. Each such method is tied to a function or predicate on values, and the
promises are proved about those. The push lock is a step system, because its promise is about interleavings. NULL
is -1 or 0, as each module states.

## What the code does differently from what one would expect

Where a desirable property turned out false, the code is modelled as it is, a witness is given, and the exact
condition is proved.

- A write beyond the end of the allocated chain lands at the end of the chain (`fs/fs.c:606`). The written bytes stand
  where they were asked for if and only if the offset is not beyond the chain: `Fat16Gaps.LandsRightExactly`, with
  `Fat16.GapWriteLandsElsewhere` as the witness. A write inside the chain but beyond the stored bytes lands right and
  exposes what the clusters held before; the contents are a function of the old contents if and only if the offset is
  not beyond the stored bytes: `Fat16Gaps.FlatExactly`. The runs of `Fat16Flat` are the runs of such writes;
  `Fat16Gaps.ServeAll` covers all others.
- The FAT of a RAM disk of 2 to 7 MB is too small for its clusters: `Fat16Layout.FatCoversExactly`.
- NtReadFile's comment speaks of zero-filling (`fs/fs.c:491`); the code stops and returns a short count, as modelled.
- A failed device read leaves its cache entry neither used nor findable until the next invalidation
  (`SectorCache.Cache.FailRead`), so the cache holds the most recently used sectors, as many as it has entries less the
  failed reads since the last invalidation: `SectorCacheRuns.CacheHoldsMostRecent`. As many failed reads as entries
  leave a cache that holds nothing (`SectorCacheRuns.FailuresWearDown`, `SectorCacheRuns.WornOut`).
- An invalidation keeps the cache's invariant if and only if no read is in progress: `SectorCache.Cache.Invalidate`.
- The boot sort also fails without any cycle when an in-profile dependency is listed twice or a phase is 0xFFFFFFFF,
  and reports a cycle then: `BootRegistry.Registry.TopoSort`, `BootGraph.RepeatedDependencyBlocks`.
- The not-woken branch of KiWaitThread (`ke/dispatch.c:47`) is reached exactly when a thread has to block while the
  ready list is empty, because KiDispatchNextThread then returns at once (`ps/psmgr.c:67-71`). It is never reached in
  a run with a thread that never waits; the timer scan thread and the boot thread are such threads. Reached, it leaves
  the running thread on the ready list, and the invariant is kept if and only if it is not reached:
  `Dispatcher.Kernel.Wait`. Since both lists use the thread's one list entry, blocking again then destroys the ready
  list: `Dispatcher.BlockingAgainBreaks`, from `ListEntry.InsertingMemberBreaks`.
- A negative timer period turns into an absolute due tick, so the timer fires again at once:
  `TimerLog.RearmIsLater`, `Timers.NegativePeriodFiresTwice`. A periodic timer that its own DPC arms anew is armed once
  more by the scan thread, with the old DPC: `Timers.TimerQueue.Rearm`.
- The comment in the push lock says that the waiting flag keeps readers out (`ex/pushlock.c:96-97`); the shared acquire
  ignores and clears it (`PushLock.ReaderIsLetIn`, `PushLock.EveryWordIsExact`). A flag left behind on a free lock keeps writers out instead: `PushLock.FreeLockServesWriter`
  is the exact condition, `PushLock.WaitingFlagIsLeftOver` a run that gets there.
- The hive header is documented with three counts (`cm/cmpers.c:7-10`) and written with two. Values without data cannot
  be set, and are refused on loading.
- Loading attaches every value of the tree to the root key and creates no subkey (`cm/cmpers.c:309-311`). CmSetValue
  keeps the caller's buffer as the name of a value (`cm/cm.c:196`), which on a load is a local array of the reader
  (`cm/cmpers.c:336`, `358`): types, data and order of the values survive, their names are whatever the stack holds
  later. `HiveLoad.LoadCarries` states this for every tree, `HiveLoad.NamesSurvive` and `HiveLoad.Rebuilds` exactly
  when names and tree survive: up to value names the tree is rebuilt if and only if the root has no subkeys, and with
  them if and only if moreover no value has a name.
- An empty segment of a registry path, as between two backslashes, is taken to be everything that is left of the path
  (`cm/cm.c:118-119`), which is then read on: `KeyTree.EmptySegment`.
- Fat32AllocateChain yields one cluster less than asked exactly when the start cluster was itself the lowest free
  one: `Fat32.Mount.AllocateChain`.

## Model

| member | source | states |
|---|---|---|
| `Fat16Chains.ChainsAreAcyclic` | fs/fs.c:174-180 | a terminated chain never revisits a cluster |
| `Fat16Chains.ChainsAreUnique` | fs/fs.c:164-185 | the FAT alone determines the chain of a file, so the refinement speaks about the real links |
| `Fat16Chains.StoreEffect` | fs/fs.c:128-131 | a store into the k-th cluster of a file is a splice at k cluster sizes of that file and is invisible through every other chain |
| `Fat16Chains.LoadInside` | fs/fs.c:502-502 | a stretch of a cluster is the matching stretch of the file |
| `Fat16Chains.ExtentGrows` | fs/fs.c:604-606 | appending a cluster only adds bytes at the end of the file |
| `Fat16Chains.LinkKeepsChains` | fs/fs.c:591-603 | linking a free cluster extends exactly one chain, keeps all chains well formed and disjoint, and takes exactly that cluster from the free ones |
| `Fat16.RamDisk.constructor` | fs/fs.c:97-105 | a new disk has empty files, all allocatable clusters free and satisfies the invariant |
| `Fat16.RamDisk.Resolve` | fs/fs.c:164-185 | finds a cluster exactly when the offset is inside both size and chain, and it is the right one |
| `Fat16.RamDisk.Read` | fs/fs.c:467-519 | end of file exactly at or past the recorded size; otherwise exactly the requested slice of the contents, cut where they end |
| `Fat16.RamDisk.ReadChunk` | fs/fs.c:488-505 | one iteration delivers a nonempty slice of the contents, or fails exactly where they end |
| `Fat16.RamDisk.FindFree` | fs/fs.c:589-590 | the lowest free cluster, none exactly when none is free |
| `Fat16.RamDisk.LastCluster` | fs/fs.c:596-601 | the chase ends at the last cluster of the chain |
| `Fat16.RamDisk.Grow` | fs/fs.c:583-613 | the lowest free cluster is appended to this file's chain; every other file keeps chain, entry and bytes |
| `Fat16.RamDisk.CopyIn` | fs/fs.c:623-623 | the copy is a splice of this file and leaves every other file alone |
| `Fat16.RamDisk.WriteChunk` | fs/fs.c:578-626 | where the piece lands, how the chain grows, that it fails exactly on a full disk, and cluster conservation |
| `Fat16.RamDisk.Write` | fs/fs.c:558-636 | size, landing place, contents, untouched files and free clusters after any write; a short count exactly describes a full disk |
| `Fat16.GapWriteLandsElsewhere` | fs/fs.c:581-614 | a byte written at offset 1 of an empty file is read back at offset 0 |
| `Fat16Flat.WriteIsFlat` | fs/fs.c:572-627 | what the write loop guarantees about the clusters pins down the flat file it leaves |
| `Fat16Flat.FlatWriteKeeps` | fs/fs.c:572-627 | a flat write keeps sizes consistent and comes up short only on a full disk |
| `Fat16Flat.PerformRead` | fs/fs.c:467-519 | a read on clusters returns what the flat file returns |
| `Fat16Flat.PerformWrite` | fs/fs.c:558-636 | a gap-free write on clusters is the flat write of one file and of no other |
| `Fat16Flat.Perform` | fs/fs.c:432-639 | one request is one step of the flat disk |
| `Fat16Flat.PerformAll` | fs/fs.c:432-639 | every run of reads and gap-free writes gives the results and the final contents of the flat disk |
| `Fat16Flat.RunFromFormat` | fs/fs.c:46-639 | every gap-free run on a newly formatted disk gives the results of flat files |
| `Fat16Flat.ReadBack` | fs/fs.c:432-639 | a read inside a write returns the written bytes, before and behind it the old ones |
| `Fat16Gaps.LandsRightExactly` | fs/fs.c:604-606 | the written bytes stand at their offset exactly when the offset is not beyond the clusters of the file |
| `Fat16Gaps.FlatExactly` | fs/fs.c:572-575 | a write inside the clusters leaves contents that depend on the old contents alone exactly when its offset is not beyond them |
| `Fat16Gaps.ServeAll` | fs/fs.c:432-639 | every run of reads and writes at any offsets: what each read returns, where each write lands, and what else it leaves alone |
| `Fat16Gaps.RunKeeps` | fs/fs.c:432-639 | over every such run a file that is not written does not change, and no cluster is lost or won |
| `Fat16Layout.FatCoversExactly` | fs/fs.c:75-95 | the FAT has an entry for every allocatable cluster exactly for 1 MB and for 8 MB and more; the data area always fits |
| `CacheLists.HashIndex` | mm/cache.c:50-54 | every LBA falls into a bucket of the table |
| `HashSpread.SameBucketExactly` | mm/cache.c:50-54 | with a power of two of buckets two sectors share a bucket exactly when their numbers leave the same rest |
| `SectorCache.Cache.constructor` | mm/cache.c:113-123 | the empty cache satisfies the invariant |
| `SectorCache.Cache.Invalidate` | mm/cache.c:216-225 | everything is blank; the invariant holds again exactly when no read is in progress, and an entry in flight looks unused |
| `SectorCache.Cache.LruInsertFront` | mm/cache.c:56-67 | the list gains the entry in front; nothing but LRU links changes |
| `SectorCache.Cache.LruRemove` | mm/cache.c:69-76 | the list loses the entry; nothing but LRU links changes |
| `SectorCache.Cache.LruMoveFront` | mm/cache.c:78-82 | the entry moves to the front, all invariants kept |
| `SectorCache.Cache.HashFind` | mm/cache.c:84-93 | the first entry of the bucket with this LBA, or none exactly when there is none |
| `SectorCache.Cache.HashInsert` | mm/cache.c:95-102 | the bucket gains the entry; nothing but hash links changes |
| `SectorCache.Cache.HashRemove` | mm/cache.c:104-111 | the bucket loses the entry; nothing but hash links changes |
| `SectorCache.Cache.FindUnused` | mm/cache.c:149-155 | the lowest unused entry, none exactly when there is none |
| `SectorCache.Cache.Evict` | mm/cache.c:156-168 | the last entry of the LRU list leaves both structures |
| `SectorCache.Cache.Claim` | mm/cache.c:175-178 | the claimed entry is in flight for this LBA and in neither structure |
| `SectorCache.Cache.BeginRead` | mm/cache.c:133-180 | a hit exactly when the LBA is cached, with the device's data; otherwise an entry no other reader can reach |
| `SectorCache.Cache.CommitRead` | mm/cache.c:190-196 | the entry enters both structures and the device's sector is delivered |
| `SectorCache.Cache.FailRead` | mm/cache.c:183-188 | the entry is dropped, and is not found unused again |
| `SectorCacheRuns.LruKeepsOrder` | mm/cache.c:136-194 | each read keeps list order equal to order of last use |
| `SectorCacheRuns.EvictionTakesLeastRecent` | mm/cache.c:156-168 | over every run the entry an eviction takes was used before every other cached sector |
| `SectorCacheRuns.IdealStep` | mm/cache.c:136-194 | one read turns the most recently used sectors into the most recently used sectors |
| `SectorCacheRuns.CacheHoldsMostRecent` | mm/cache.c:126-225 | over every run of reads, failed reads and invalidations the cache holds exactly the most recently used sectors, as many as it has entries less those lost to failed reads |
| `SectorCacheRuns.FailuresWearDown` | mm/cache.c:183-188 | each failed read of an empty cache costs an entry until none is left |
| `SectorCacheRuns.WornOut` | mm/cache.c:170-173 | a cache without usable entries caches nothing until it is invalidated |
| `SectorCacheRuns.ReadSector` | mm/cache.c:126-197 | an undisturbed read is one step of the textbook list and delivers the device's sector |
| `SectorCacheRuns.RunSequential` | mm/cache.c:126-225 | every sequential run of reads, failed reads and invalidations is a run of the textbook list, and returns exactly what the list and the device say |
| `SectorCacheReaders.EachReaderGetsItsSector` | mm/cache.c:126-197 | every delivery goes to the reader whose turn it is, for the LBA of its own latest entry, with the device's data |
| `SectorCacheReaders.StoppedReaderReturns` | mm/cache.c:180-196 | a reader stopped in the unlocked part returns when it resumes, with its sector exactly when the device delivers |
| `SectorCacheReaders.TakeTurn` | mm/cache.c:126-197 | one turn of any reader is one turn of the shared list: hit, miss, bypass and both ends of a device read, with their answers |
| `SectorCacheReaders.RunInterleaved` | mm/cache.c:126-197 | every interleaving across the dropped lock is a run of the shared list, and no two readers hold the same entry |
| `SectorCacheRuns.RunFromInit` | mm/cache.c:113-225 | every sequential run of a newly initialised cache returns the device's sector exactly when it is cached or the device delivers, and ends holding the most recently used sectors |
| `SectorCacheReaders.InterleaveFromInit` | mm/cache.c:113-197 | the same for every interleaving of readers on a newly initialised cache |
| `BootGraph.FindRec` | boot/registry.c:118-131 | the first record in use with the name, -1 exactly when there is none |
| `BootGraph.TargetMeans` | boot/registry.c:170-178 | a dependency counts as satisfied exactly when no record has its name or the first that has it is off profile |
| `BootGraph.CountIsSize` | boot/registry.c:168-180 | counting dependency entries counts records exactly when none is listed twice |
| `BootGraph.CompleteMeansAcyclic` | boot/registry.c:186-219 | a complete topological order rules out every cycle |
| `BootGraph.StuckMeansCyclic` | boot/registry.c:202-202 | records that all wait for one another contain a cycle |
| `BootGraph.GreedyIsTopological` | boot/registry.c:188-219 | picking ready records puts each after all its in-profile dependencies, without repetition |
| `BootGraph.ZeroMeansReady` | boot/registry.c:196-196 | an in-degree of zero means ready and no dependency listed twice |
| `BootGraph.NothingToPick` | boot/registry.c:202-202 | a sort that gets stuck has a cycle or a record that can never be emitted |
| `BootGraph.CompleteGreedy` | boot/registry.c:220-237 | a complete run delivers the boot order, without cycles |
| `BootGraph.BootOrderIsUnique` | boot/registry.c:183-201 | there is only one order in which each pick is the lowest (phase, index) among the ready |
| `BootGraph.RepeatedDependencyBlocks` | boot/registry.c:169-178 | two records, one naming the other twice: no cycle, and yet they cannot be sorted |
| `BootRegistry.SameName` | boot/registry.c:123-128 | the bounded comparison decides equality of the whole strings |
| `BootRegistry.Registry.Find` | boot/registry.c:118-131 | computes the first matching record |
| `BootRegistry.Registry.Register` | boot/registry.c:66-100 | each status exactly when it is due; the first free slot gets the record, with the name cut to 31 characters |
| `BootRegistry.Registry.MarkShouldInit` | boot/registry.c:135-144 | exactly the registered records are marked, by an arbitrary profile |
| `BootRegistry.Registry.CountDeps` | boot/registry.c:168-180 | the number of entries that refer to in-profile records |
| `BootRegistry.Registry.DependsOn` | boot/registry.c:211-217 | whether the record waits for the target |
| `BootRegistry.Registry.PickBest` | boot/registry.c:190-202 | the first ready record by (phase, index), none exactly when none can be emitted |
| `BootRegistry.Registry.Release` | boot/registry.c:207-218 | all in-degrees are again those of what is left |
| `BootRegistry.Registry.InitialDegrees` | boot/registry.c:163-181 | the in-degrees before anything is emitted |
| `BootRegistry.Registry.CountProfile` | boot/registry.c:153-156 | the number of in-profile records |
| `BootRegistry.Registry.TopoSort` | boot/registry.c:150-238 | success exactly when acyclic, no repeated in-profile dependency, no phase 0xFFFFFFFF; then the boot order |
| `PhysicalPages.Pages.constructor` | mm/mminit.c:136-141 | the free count is exact and the hint is 0x100 |
| `PhysicalPages.Pages.Allocate` | mm/mminit.c:153-174 | the lowest free page at or above 1 MB, 0 exactly when there is none |
| `PhysicalPages.Pages.Release` | mm/mminit.c:176-189 | the page is free again, the count exact, no page below the hint free |
| `PhysicalPages.Lowest` | mm/mminit.c:160-169 | the reference scan: lowest free page from a start on, -1 exactly when there is none |
| `PhysicalPages.Run` | mm/mminit.c:153-189 | every run gives the results of an allocator that has no hint and rescans from 1 MB |
| `PoolBlocks.ExactlyOneBlock` | ex/pool.c:17-22 | every byte of a pool page belongs to exactly one block and no other byte to any |
| `PoolBlocks.AddBlock` | ex/pool.c:53-58 | a fresh run of pages becomes one block and all pages stay tiled |
| `PoolBlocks.SplitBlock` | ex/pool.c:89-97 | cutting a block in two leaves the pages tiled |
| `PoolBlocks.CutList` | ex/pool.c:90-97 | the free list with the remainder in the place of the split block |
| `PoolBlocks.WholeList` | ex/pool.c:98-100 | the free list without the block handed out whole |
| `Pool.Rounded` | ex/pool.c:77-77 | the least multiple of the granularity that holds the request |
| `Pool.Manager.Grab` | ex/pool.c:42-51 | consecutive pages from the lowest free one on, as many as wanted or as follow one another; a page that breaks the run goes back |
| `Pool.Manager.Expand` | ex/pool.c:29-60 | one more free block in front, of 16 pages or what the request needs, or as many as follow one another; failure exactly when no page is free |
| `Pool.Manager.FindFit` | ex/pool.c:82-86 | the first free block that is large enough, with its predecessor; none exactly when none is |
| `Pool.Manager.Take` | ex/pool.c:88-102 | the block is in use with less than a header and a granule to spare, its rest takes its place in the list, nothing else changes |
| `Pool.Manager.Allocate` | ex/pool.c:69-115 | terminates; the first block that fits, without taking a page, if there is one; else a block in new pages, which succeeds if the lowest free pages are enough consecutive ones; NULL only for size 0 or when no page and no block is left; size in [N, N + header + 16) |
| `Pool.Manager.Free` | ex/pool.c:117-135 | exactly this block becomes free, at the front of the list; anything but the body of a block in use, and a wrong tag, is reported, each exactly when it is the case |
| `Pool.Manager.PageForOthers` | mm/mminit.c:153-174 | pages handed to others are never the pool's |
| `Pool.Manager.PageFromOthers` | mm/mminit.c:176-189 | pages given back by others do not disturb the pool |
| `Vad.PlacementIgnoresOrder` | mm/mmuser.c:105-115 | the placement depends on the set of regions only |
| `Vad.PageRound` | mm/mmuser.c:96-96 | the least whole number of pages that holds the request |
| `Vad.PageAlign` | mm/mmuser.c:99-100 | the start of the page of an address |
| `Vad.CollisionIsOverlap` | mm/mmuser.c:108-108 | the collision test holds exactly when range and region share a byte |
| `Vad.RestartShrinks` | mm/mmuser.c:108-112 | each restart leaves fewer regions ending above the candidate |
| `Vad.LowestIsAligned` | mm/mmuser.c:96-103 | the lowest fit stays page aligned |
| `Vad.AddressSpace.constructor` | mm/mmuser.c:41-54 | the empty address space satisfies the invariant |
| `Vad.AddressSpace.Place` | mm/mmuser.c:105-115 | terminates at the lowest address from the base on that overlaps no region |
| `Vad.AddressSpace.Allocate` | mm/mmuser.c:95-139 | the lowest fit, holding at least the request and less than a page more, refused exactly when it passes the highest address or the pool fails; regions stay disjoint |
| `Vad.AddressSpace.Free` | mm/mmuser.c:144-163 | exactly the first region at that page is unlinked; an error exactly when there is none |
| `Vad.AddressSpace.AllocateThenFree` | mm/mmuser.c:95-163 | freeing what was allocated restores the list, in every reachable address space |
| `ListEntry.InsertAppends` | include/nt/ntdef.h:163-170 | inserting an unlinked entry appends it to the list, in both directions |
| `ListEntry.RemoveDrops` | include/nt/ntdef.h:181-188 | removing an entry drops it and nothing else |
| `ListEntry.InsertingMemberBreaks` | include/nt/ntdef.h:163-170 | inserting an entry that is still linked destroys the list it is linked on |
| `ListEntry.InsertKeepsBoth` | include/nt/ntdef.h:163-170 | two lists survive an insertion exactly when the entry was on neither |
| `DispatchLog.OneWaitPerSet` | ke/dispatch.c:151-160 | between two satisfied waits on a synchronization event it was set: a set satisfies at most one wait |
| `DispatchLog.MutualExclusion` | ke/dispatch.c:259-290 | a mutex is granted again only after its holder released it |
| `DispatchLog.NoOvertaking` | ke/dispatch.c:27-35 | a thread served before another one that waits had begun to wait earlier |
| `Dispatcher.WakeKeepsLinks` | ke/dispatch.c:85-102 | waking keeps every thread on exactly the list its state names |
| `Dispatcher.YieldKeepsLinks` | ps/psmgr.c:58-94 | so does dispatching the next thread |
| `Dispatcher.RoundRobin` | ps/psmgr.c:58-94 | each ready thread runs after as many yields as its place in the list; a full turn restores the system |
| `Dispatcher.FirstReadyFirstRun` | ps/psmgr.c:74-85 | the thread at place k of the ready list runs after exactly k + 1 switches, whether the threads before it yield or block |
| `Dispatcher.SuspendKeepsLinks` | ke/dispatch.c:27-57 | so does blocking with a ready thread, and line 47 is not taken |
| `Dispatcher.SuspendAlone` | ke/dispatch.c:47-55 | blocking with an empty ready list leaves the thread running and on the ready list |
| `Dispatcher.Kernel.constructor` | ke/dispatch.c:127-134 | objects as initialised, thread 0 running, the others ready in order; the invariant holds |
| `Dispatcher.Kernel.DispatchNext` | ps/psmgr.c:58-94 | the head of the ready list runs, a running caller goes to its tail, an empty list changes nothing |
| `Dispatcher.Kernel.Suspend` | ke/dispatch.c:27-57 | KiWaitThread from every state with sound links, line 47 included |
| `Dispatcher.Kernel.WakeFirst` | ke/dispatch.c:85-102 | the longest waiter becomes ready, at the tail of the ready list; none exactly when nobody waits |
| `Dispatcher.Kernel.WakeAll` | ke/dispatch.c:114-121 | all waiters become ready in the order of waiting, and nothing else changes |
| `Dispatcher.Kernel.SetEvent` | ke/dispatch.c:136-164 | who wakes, the new signal state, and that a signaled event has no waiters |
| `Dispatcher.Kernel.ResetEvent` | ke/dispatch.c:166-174 | only the signal state changes |
| `Dispatcher.Kernel.ReleaseMutex` | ke/dispatch.c:259-290 | only the owner releases; the first waiter becomes owner; signaled exactly when unowned |
| `Dispatcher.Kernel.Wait` | ke/dispatch.c:296-330 | each outcome exactly when it is due; after a block the first ready thread runs and nothing else has changed; line 47 exactly when the thread must block with nobody ready, and the invariant kept exactly when line 47 is not reached |
| `DispatcherRuns.SomeoneIsReady` | ps/psmgr.c:67-83 | with a thread that never waits there is always a thread to switch to |
| `DispatcherRuns.Act` | ke/dispatch.c:136-330 | every call of the running thread has exactly its effect on threads, lists, objects and log |
| `DispatcherRuns.Run` | ke/dispatch.c:27-330 | every run with such a thread consists of such steps, with sound links and a sound log throughout |
| `DispatcherRuns.NeverNotWoken` | ke/dispatch.c:47-55 | in no such run is line 47 reached |
| `DispatcherRuns.RunFromStart` | ke/dispatch.c:27-330 | the same from the initial system, for any objects and any number of threads |
| `Dispatcher.BlockingAgainBreaks` | ke/dispatch.c:33-54 | after line 47 the links are wrong, and blocking once more leaves no ready list |
| `TimerLog.DueTicksMeans` | ke/timer.c:105-117 | a relative time lies ahead by its whole milliseconds, at least one tick; an absolute one does not depend on the clock |
| `TimerLog.NextDueMeans` | ke/timer.c:232-236 | a positive period counts from the re-arm; a negative one becomes an absolute tick |
| `TimerLog.RearmIsLater` | ke/timer.c:232-236 | the next due tick lies ahead exactly when the period is positive or its absolute tick does |
| `TimerLog.FiringAnswersArm` | ke/timer.c:219-230 | every firing answers one due arm, with that arm's DPC and nothing about the timer in between |
| `TimerLog.AtMostOncePerArm` | ke/timer.c:219-230 | between two firings of a timer it was armed |
| `TimerLog.NeverAfterCancel` | ke/timer.c:161-178 | between a cancel and a later firing it was armed |
| `TimerLog.PeriodApart` | ke/timer.c:232-236 | firings of a timer that only the scan thread re-arms are at least its positive period apart |
| `Timers.Split` | ke/timer.c:199-213 | expired and unexpired timers split the list between them |
| `Timers.TimerQueue.constructor` | ke/timer.c:258-265 | the empty queue satisfies the invariant |
| `Timers.TimerQueue.Arm` | ke/timer.c:127-157 | the timer is linked once, at the tail of the active list, wherever it was; true exactly when an arm was pending |
| `Timers.TimerQueue.Cancel` | ke/timer.c:161-178 | the timer is unlinked wherever it was, collected ones included; true exactly when an arm was pending |
| `Timers.TimerQueue.Collect` | ke/timer.c:194-216 | exactly the expired timers move to the fired list, in order |
| `Timers.TimerQueue.TakeFired` | ke/timer.c:219-230 | the first fired timer is due and its DPC, if any, runs |
| `Timers.TimerQueue.Rearm` | ke/timer.c:232-240 | re-armed exactly when periodic and not cancelled meanwhile; otherwise only Cancelled is cleared |
| `TimerRuns.One` | ke/timer.c:127-241 | every arm, cancel, tick and scan step has exactly its effect on lists, fields and log |
| `TimerRuns.Run` | ke/timer.c:183-255 | every run, with DPCs free to arm or cancel anything at any point, consists of such steps and has a sound log; a timer is linked exactly while an arm is pending |
| `TimerRuns.DueTimersFire` | ke/timer.c:187-241 | in every run, an undisturbed scan pass fires every timer due at its start at that very tick, and leaves those with a positive period pending for that many ticks later |
| `TimerRuns.RunFromStart` | ke/timer.c:183-265 | the same from the initial queue |
| `Timers.NegativePeriodFiresTwice` | ke/timer.c:233-236 | with a negative period a timer fires twice at the same tick |
| `PushLock.StepKeeps` | ex/pushlock.c:39-135 | every atomic step of every thread keeps the invariant, stale copies of the word included |
| `PushLock.EveryRunIsSafe` | ex/pushlock.c:39-135 | over every interleaving: never two writers, never a writer with a reader, the low 16 bits are the number of shared holders |
| `PushLock.EveryStepIsLegal` | ex/pushlock.c:39-135 | every step is one of a readers-writer lock; no routine returns without having done its job |
| `PushLock.EveryWordIsExact` | ex/pushlock.c:48-124 | the word is exactly the holders and the waiting flag; readers clear the flag, a leaving writer leaves 0 |
| `PushLock.ReaderIsLetIn` | ex/pushlock.c:44-53 | in every reachable state an undisturbed reader is let in at once, whatever the waiting flag, exactly when there is no writer and the count has room |
| `PushLock.ReleaseReturns` | ex/pushlock.c:62-134 | in every reachable state an undisturbed release returns at once, having released exactly what was held |
| `PushLock.TwoStepsSuffice` | ex/pushlock.c:39-135 | however stale its copy, a thread gets through in two undisturbed steps if the lock is free for it |
| `PushLock.LoneWriterTriesOn` | ex/pushlock.c:95-114 | a writer that finds a nonzero word does not get the lock by itself, however long it tries |
| `PushLock.FreeLockServesWriter` | ex/pushlock.c:84-116 | on a free lock a lone writer succeeds exactly when the waiting flag is clear |
| `PushLock.WaitingFlagIsLeftOver` | ex/pushlock.c:62-82 | a run after which nobody holds the lock and the waiting flag is set |
| `KeyTree.LookupInSteps` | cm/cm.c:106-153 | looking up a path is looking up its parts in turn |
| `KeyTree.FindKidMeans` | cm/cm.c:52-61 | a child is found exactly when one has a matching name, and it is the first |
| `KeyTree.SameNameMeans` | rtl/rtl.c:96-113 | names match exactly when they differ in the case of ASCII letters only |
| `KeyTree.LookupIgnoresCase` | cm/cm.c:106-153 | changing the case of letters anywhere in a path leads to the same key |
| `KeyTree.PathOfJoined` | cm/cm.c:100-119 | a path written with backslashes is read as its segments, with or without a leading one |
| `KeyTree.EmptySegment` | cm/cm.c:118-119 | an empty segment is taken to be all that is left, and the rest is read on |
| `KeyTree.AppendKeepsLinks` | cm/cm.c:129-141 | a new node extends exactly one child list, with the right count |
| `KeyTree.LookupKept` | cm/cm.c:129-141 | a path that led somewhere leads there still |
| `KeyTree.Registry.constructor` | cm/cm.c:65-80 | the root alone is a well-linked tree |
| `KeyTree.Registry.FindChild` | cm/cm.c:52-61 | the first child whose name matches without regard to case |
| `KeyTree.Registry.AddChild` | cm/cm.c:124-141 | the new key is the last child; all other keys keep names, values and children |
| `KeyTree.Registry.CreateKey` | cm/cm.c:84-159 | the path leads to the returned key; existing keys are kept; exactly one key without values is created for each segment from the first missing one on |
| `KeyTree.Registry.SetValue` | cm/cm.c:173-207 | appends the value, with a copy of the data and the caller's name buffer, and counts it; refused exactly without data |
| `HiveFormat.ReadValue` | cm/cmpers.c:331-364 | a value record consumes at least ten bytes and never passes the end |
| `HiveFormat.ReadKey` | cm/cmpers.c:290-368 | defined on every byte string; a key record consumes at least ten bytes and never passes the end |
| `HiveLayout.ValueLayout` | cm/cmpers.c:142-155 | every field of a value record at its offset, little-endian |
| `HiveLayout.KeyLayout` | cm/cmpers.c:116-158 | every field of a key record at its offset, little-endian |
| `HiveLayout.FileLayout` | cm/cmpers.c:176-190 | the letters MINNTREG, two zero counts, the root key |
| `HiveRoundTrip.ReadsValue` | cm/cmpers.c:142-155 | a written value is read back, or refused exactly when outside the reader's limits |
| `HiveRoundTrip.ReadsKey` | cm/cmpers.c:116-158 | a written tree is read back whole and nothing behind it, or refused exactly when outside the limits |
| `HiveRoundTrip.KeyWasWritten` | cm/cmpers.c:290-368 | whatever the reader accepts is the encoding of a tree within its limits |
| `HiveRoundTrip.OneKey` | cm/cmpers.c:116-158 | at most one tree has its encoding at a given place |
| `HiveRoundTrip.EncodingIsPrefixFree` | cm/cmpers.c:116-158 | no tree's encoding is another's or its prefix, within the reader's limits or not |
| `HiveStore.SerBuffer.constructor` | cm/cmpers.c:72-79 | an empty buffer |
| `HiveStore.SerBuffer.Ensure` | cm/cmpers.c:81-93 | room for the bytes, by no more doublings than it takes, contents kept |
| `HiveStore.SerBuffer.Write` | cm/cmpers.c:95-102 | the bytes are appended |
| `HiveStore.SerializeValue` | cm/cmpers.c:142-155 | appends exactly the encoding of the value |
| `HiveStore.SerializeKey` | cm/cmpers.c:116-158 | appends exactly the encoding of the tree that the links spell, value names as memory shows them |
| `HiveLoad.Cursor.Read` | cm/cmpers.c:221-227 | the next bytes, or failure exactly when they would pass the end |
| `HiveLoad.Cursor.ReadString` | cm/cmpers.c:292-300 | reads a name as the format does |
| `HiveLoad.DeserializeValues` | cm/cmpers.c:326-365 | accepts what the format accepts and appends exactly those types and data, the names left in the local array |
| `HiveLoad.DeserializeKey` | cm/cmpers.c:290-368 | terminates on every input, accepts exactly the encodings, and what it does to the tree |
| `HiveLoad.SaveHive` | cm/cmpers.c:172-190 | the file is magic, two zero counts and the encoding of the root |
| `HiveLoad.LoadHive` | cm/cmpers.c:253-287 | succeeds exactly on well-formed files; types and data of all values are appended to the root key, their names borrowed from the stack |
| `HiveLoad.SaveThenLoad` | cm/cmpers.c:164-288 | succeeds exactly when every name and value is within the limits; every value arrives at the root key with type and data and a borrowed name |
| `HiveLoad.LoadCarries` | cm/cmpers.c:331-364 | for every tree, each value a load keeps has its type, data and name length, and its name in the stack |
| `HiveLoad.NamesSurvive` | cm/cm.c:196-196 | borrowed names are right under every later memory exactly when there is no name to lose |
| `HiveLoad.Rebuilds` | cm/cmpers.c:309-315 | loading into a fresh registry rebuilds the tree up to value names exactly when the root has no subkeys, and always with names exactly when moreover no value has one |
| `HiveLoad.Restart` | cm/cmpers.c:164-288 | what a fresh registry shows after a save and load, and exactly when that is always the saved tree |
| `Fat32.ExtendChain` | fs/fat32.c:232-237 | linking a free cluster behind a chain makes it one longer and touches nothing else |
| `Fat32.ChainIsReachable` | fs/fat32.c:677-681 | what is reachable from the start of a chain is the chain |
| `Fat32.Mount.SetEntry` | fs/fat32.c:186-207 | exactly one entry changes, in the cache and on disk alike, and nothing else on disk |
| `Fat32.Mount.FindFree` | fs/fat32.c:209-218 | the lowest free cluster, disk full exactly when there is none |
| `Fat32.Mount.AllocateChain` | fs/fat32.c:220-240 | a terminated chain without repetition from the start, of the lowest free clusters in rising order; its exact length; a shorter one only on a full disk |
| `Fat32.Mount.FreeChain` | fs/fat32.c:673-682 | terminates on every FAT, cyclic ones included, and frees exactly the reachable in-range clusters |
| `Fat32.AllocateThenFree` | fs/fat32.c:220-240 | freeing what was allocated restores the FAT, with the start free |

## Left out

- Fat16.RamDisk.Read: ByteOffset and CurrentOffset of the handle, handle lookup and status blocks are not modelled; the sum of offset and length must stay below 2^32.
- Fat16.RamDisk.Write: as for Read; the FAT must have an entry for every allocatable cluster, which Fat16Layout.FatCoversExactly decides for the sizes the kernel computes.
- Fat16Flat.PerformWrite: only writes at offsets not beyond the stored bytes, since exactly those behave as on a flat file (Fat16Gaps.FlatExactly); Fat16Gaps.ServeAll covers all others.
- Fat16Flat.Perform: as for PerformWrite.
- Fat16Flat.PerformAll: as for PerformWrite.
- Fat16Flat.RunFromFormat: as for PerformWrite.
- SectorCacheReaders.RunInterleaved: no invalidation between the two halves of a miss, since exactly then the invariant is lost (SectorCache.Cache.Invalidate).
- SectorCache: the statistics counters, the dirty flag's write-back (a log message in the source) and the uninitialised cache.
- BootRegistry.Registry.TopoSort: the order array is as long as the registry; the log of stuck records is not modelled.
- PhysicalPages.Pages.Release: only pages that are active, as the source asserts; reference counts and the zeroing of pages are not modelled.
- Pool.Manager.Allocate: the zeroing and the contents of bodies are not modelled; sizes must not wrap 64 bits.
- Pool.Manager.Free: bytes of a body that happen to hold the magic number of a header in use are not modelled.
- Vad.AddressSpace.Allocate: NULL arguments, protection flags and page tables are not modelled; sizes must not wrap 64 bits.
- Dispatcher.Kernel.Wait: timeouts other than zero (the source ignores them), WaitStatus, IRQL and several processors are not modelled.
- DispatcherRuns.Run: thread creation and termination are not part of the runs.
- Timers.TimerQueue.Arm: ticks and due times are unbounded integers; the InUse flag, which nothing reads on these paths, is not modelled, here or in Rearm.
- PushLock.EveryRunIsSafe: threads release only what they hold; the wake event, which only affects when a paused writer looks again, is not modelled, so nothing is said about liveness beyond the waiting flag.
- KeyTree.Registry.CreateKey: memory exhaustion is not modelled.
- KeyTree.Registry.SetValue: memory exhaustion and NULL arguments are not modelled.
- HiveLoad.DeserializeKey: what reading leaves in the name arrays while it runs is not modelled, only that the names point there.
- HiveStore.SerBuffer.Ensure: memory exhaustion is not modelled.
- HiveLoad.SaveHive: the file write and the mount test are not modelled.
- HiveLoad.LoadHive: the file read, the mount test and its 1 MB limit are not modelled.
- Fat32.Mount.SetEntry: sector reads and writes succeed.
- Semaphores and executive resources: their counts are never decremented, so no conservation law holds.
- FAT32 directories and whole-file writes, RAM-disk names, creation, deletion and listing.
- Registry value queries and enumeration: plain linear searches over the lists modelled here.
- NTFS, PE loading, LPC, volume snapshots, audio, networking, input, display, applications and installers.
- Spin locks, IRQL, page tables, interrupts, device drivers and assembly: hardware; locked regions are atomic steps.
