# Operating-systems labs and Pintos: a Dafny model

This project models the algorithmic core of a set of operating-systems labs and of three Pintos
trees, and proves what they are for. Each module follows one component; every stateful program is a
class or a method with loops, proved against a specification that does not mention it.

- **Page replacement** (`Paging`, `MinPaging`, `LruPaging`, `FifoPaging`, `ClockHistory`,
  `ClockPaging`, `SecondChancePaging`, `PolicyComparison`, `Competitive`, `ClockCompetitive`,
  `SegmentCompetitive`). A demand-paging schedule is any sequence of resident sets. `min` is optimal
  among all of them: its lead in hits always covers the pages a competitor has in store
  (`LeadCoversDemand`). LRU keeps exactly the `k` most recent distinct pages, so it has the inclusion
  property, and its two implementations agree; so do the two FIFOs, which drop the page that came in
  first. CLOCK is told without bits, by what was requested since the hand last left a frame; the
  two-segment cache is LRU over the faults of a FIFO half its size. None of them beats MIN.
  All four policies satisfy the same competitive bound against schedules with fewer frames and fault
  at most `k` times as often as MIN.
- **Banker's algorithm** (`BankerSpec`, `BankerLedger`, `Banker`). The greedy check decides the
  existence of a completion order; claims and requests are accepted exactly when that leaves a safe
  bank; every run conserves resources, stays safe and keeps the books of its commands; from every
  reachable state all processes can be granted their whole need one after the other and every
  resource comes back.
- **File system** (`BufferCache`, `IndexSector`, `InodeLayout`, `Volume`, `InodeAllocation`,
  `ByteFile`, `InodeFile`, `FileLifecycle`, `Files`, `FileSession`). A write-back cache behaves as the
  plain disk; the inode tree above it behaves as a byte file, which is the bytes of its sectors and a
  length (`ByteFile.Step`). On a volume with any number of files, any run of creations, writes and
  removals keeps them pairwise disjoint, changes one file at a time and accounts for every sector.
  An empty write at offset 0 cuts a file without giving its sectors back; the model says which bytes
  later writes expose and how many sectors the last close then loses.
- **64-bit division** (`Division`), **priority donation** (`Donation`), the **MLFQS** feedback loop
  (`FixedPoint`, `Mlfqs`, `MlfqsLaws`), **readers and writers** (`ReadersWriters`), the **memory manager**
  (`MemoryManager`), the **kernel allocator** (`ArenaPages`, `ArenaHeap`, `Arenas`) and **ustar
  headers** (`Octal`, `Ustar`; the ustar Interchange Format of the `pax` utility in IEEE Std 1003.1).
- `Machine`, `Arith`, `Sets` and `Lists` hold what these share: machine words, arithmetic, sets, lists.
  `Guard` keeps large definitions folded until a proof asks for them.

Where a promise does not hold of the code, the model keeps the code and states exactly when it holds:
`UmodExact`, `SmodExact`, `Sdiv64`, `NewLengthExact` and `StepIsOverlay`, `Allocate`, `RoundExact`,
`ReportedExact`, `PageCountExact`, `MadeParses`, `MergedExact`, `FreedExact`.

The comment before `inode_write_at` says that growth is not implemented; the code grows files, and
the model follows the code.

`dafny verify dfyconfig.toml` checks the whole project.

## Model

| member | source | states |
|---|---|---|
| `MinPaging.Min` | lab9/main.cpp:81-125 | the hits returned are achievable by a demand-paging schedule with `k` frames and no such schedule scores more |
| `MinPaging.FarthestIsOptimal` | lab9/main.cpp:94-123 | Belady's theorem: evicting the page with the farthest next use reaches the best score of all schedules |
| `MinPaging.LeadCoversDemand` | lab9/main.cpp:94-123 | at every point of two runs and for every horizon, MIN's lead in hits is at least the competitor's surplus of pages needed by that horizon |
| `MinPaging.BuildLists` | lab9/main.cpp:85-93 | each requested page's list holds all its positions in ascending order, closed by N + 1 |
| `MinPaging.Prune` | lab9/main.cpp:101-113 | lazy pruning leaves the true next use at the head of the list, N + 1 if there is none |
| `MinPaging.FindVictim` | lab9/main.cpp:98-114 | whatever the iteration order, the victim is resident and has the farthest next use |
| `MinPaging.Serve` | lab9/main.cpp:94-123 | one request is a farthest-next-use step, hit exactly when resident |
| `LruPaging.LruListIsRecent` | lab9/main.cpp:57-77 | the list holds exactly the `k` most recently used distinct pages of the prefix, defined from the request string alone |
| `LruPaging.Inclusion` | lab9/main.cpp:57-77 | contents with `k` frames are included in the contents with more |
| `LruPaging.HitsMonotone` | lab9/main.cpp:49-79 | LRU hits never fall as frames are added |
| `LruPaging.Lru` | lab9/main.cpp:49-79 | the linked-list program counts the requests that hit one of the `k` most recent distinct pages |
| `LruPaging.LruServe` | lab9/main.cpp:57-77 | list and index stay in step through hit and miss |
| `LruPaging.LruByStamp` | lab8/replacement.cpp:41-61 | the timestamp program counts the same hits on every input |
| `LruPaging.FindOldest` | lab8/replacement.cpp:52-57 | the scan finds an entry with the smallest timestamp |
| `LruPaging.StampServe` | lab8/replacement.cpp:44-60 | one timestamp step drops exactly the front of the recency list, and only on an overflowing miss |
| `LruPaging.LruIsAchievable` | lab9/main.cpp:49-79 | LRU is a demand-paging schedule |
| `FifoPaging.Fifo` | lab9/main.cpp:21-47 | hits are the requests outside the last `k` faults, and those of the schedule that on a full miss drops the page that came in first |
| `FifoPaging.FifoIsByAge` | lab9/main.cpp:29-45 | the queue of faults is that schedule: a hit changes nothing, and the front is the resident page loaded longest ago |
| `FifoPaging.AgeUnique` | lab9/main.cpp:29-45 | there is only one such schedule, so the hits are determined |
| `FifoPaging.Serve` | lab9/main.cpp:29-45 | queue and index hold exactly the last `k` faulted pages after each request |
| `FifoPaging.FifoByList` | lab8/replacement.cpp:26-40 | push-then-pop counts the same hits as pop-then-push |
| `FifoPaging.FifoIsAchievable` | lab9/main.cpp:21-47 | FIFO is a demand-paging schedule |
| `ClockPaging.GetInd` | lab9/main.cpp:127-132 | the position is reduced into 1..k modulo k |
| `ClockPaging.Find` | lab9/main.cpp:134-141 | the first slot holding the page is found |
| `ClockPaging.Sweep` | lab9/main.cpp:156-168 | the hand stops within k + 1 probes at the specified victim, having cleared exactly the bits it passed |
| `ClockPaging.Miss` | lab9/main.cpp:155-170 | slots, hand and index set after a miss are those of the specified step |
| `ClockPaging.Serve` | lab9/main.cpp:152-177 | after every request index set, slots and bits are those of the step, a hit setting the reference bit of its page |
| `ClockPaging.RunClock` | lab9/main.cpp:143-179 | the hits are those of the clock told without bits: on a full miss the first frame from the hand goes whose page was not requested since the hand last left it, or the frame under the hand; every slot index stays inside the N + 1 slots |
| `ClockPaging.BitMeansRequested` | lab9/main.cpp:143-179 | after any requests a frame's bit is set exactly when its page was requested since the hand last left that frame, and the frames and the hand are those of the clock told without bits |
| `ClockPaging.SecondChance` | lab9/main.cpp:152-177 | a page just hit survives the next miss while another frame has a clear bit |
| `ClockPaging.StepValid` | lab9/main.cpp:152-177 | frames stay distinct and at most `k`, and the hand is at the first free frame while one is free |
| `ClockPaging.ClockIsAchievable` | lab9/main.cpp:143-179 | CLOCK is a demand-paging schedule |
| `SecondChancePaging.Serve` | lab9/main.cpp:193-257 | exactly one case applies; both lists and both index sets become those of the step, and a hit in the FIFO part changes nothing |
| `SecondChancePaging.StepValid` | lab9/main.cpp:193-257 | the parts stay duplicate-free and disjoint, within their sizes, the LRU part empty until FIFO is full |
| `SecondChancePaging.StepResident` | lab9/main.cpp:193-257 | a request brings in only its page, and a hit changes no membership |
| `SecondChancePaging.SecondChance` | lab9/main.cpp:181-259 | the program counts the hits of LRU with `k` frames over the fault sequence of FIFO with `k / 2` frames |
| `SecondChancePaging.StateIsLayered` | lab9/main.cpp:193-257 | after any requests the FIFO part holds the last `k / 2` faults of FIFO with `k / 2` frames, and LRU part and FIFO part together are the LRU list with `k` frames over those faults |
| `SecondChancePaging.HitsAreLayered` | lab9/main.cpp:181-259 | a request hits exactly when its page is among the `k` most recent distinct FIFO faults |
| `SecondChancePaging.SecondChanceIsAchievable` | lab9/main.cpp:181-259 | the segmented cache is a demand-paging schedule with `k` frames |
| `PolicyComparison.NoneBeatsMin` | lab9/main.cpp:21-259 | FIFO, LRU, CLOCK and the segmented cache never score more than MIN |
| `Competitive.BoundedLoss` | lab9/main.cpp:21-125 | a policy that faults at most k times while at most k pages are requested satisfies (k - h + 1) * faults <= k * faults of any schedule with h frames + k * (k - h) |
| `Competitive.StickyCompetes` | lab9/main.cpp:143-259 | so does any schedule under which a page that faults while at most k pages are requested stays resident |
| `Competitive.LruCompetitive` | lab9/main.cpp:49-79 | LRU satisfies that bound on every request string |
| `Competitive.FifoCompetitive` | lab9/main.cpp:21-47 | FIFO satisfies that bound on every request string |
| `ClockCompetitive.ClockSafe` | lab9/main.cpp:152-177 | while at most k pages are requested, every page that faults stays resident, and once its bit is clear every frame the hand has passed since holds a requested page |
| `ClockCompetitive.SafeIsNotVictim` | lab9/main.cpp:156-168 | the hand never stops at such a page: the new page would be one too many |
| `ClockCompetitive.ClockCompetes` | lab9/main.cpp:143-179 | CLOCK satisfies the bound on every request string |
| `SecondChancePaging.QueueStep` | lab9/main.cpp:193-257 | the LRU part followed by the FIFO part is one queue: a request appends or moves its page to the end and drops at most the front |
| `SegmentCompetitive.SegmentTrail` | lab9/main.cpp:193-257 | while at most k pages are requested, every page that faults stays in that queue and is followed by requested pages alone |
| `SegmentCompetitive.SegmentCompetes` | lab9/main.cpp:181-259 | the segmented cache satisfies the bound on every request string |
| `PolicyComparison.WithinFactorOfMin` | lab9/main.cpp:21-259 | with equal frames each of the four policies faults at most k times as often as MIN |
| `Banker.IsSafe` | lab7/banker.cpp:37-74 | true exactly when some order of all processes lets each need fit the accumulated work |
| `Banker.StuckIsUnsafe` | lab7/banker.cpp:45-70 | if no unfinished process fits, no completion order exists at all: greed and iteration order lose nothing |
| `Banker.Pass` | lab7/banker.cpp:48-66 | a pass finishes somebody, or nobody left fits |
| `Banker.Program.constructor` | lab7/banker.cpp:135-145 | nothing allocated, everything free, no process |
| `Banker.Program.SafeCheck` | lab7/banker.cpp:36-90 | commits the tentative tables exactly when they are safe, else changes nothing |
| `Banker.Program.IsAffordable` | lab7/banker.cpp:93-97 | the request exceeds neither the claim nor the free resources |
| `Banker.Program.TryTentative` | lab7/banker.cpp:99-112 | the tentative tables replace the current ones exactly when they are safe |
| `Banker.Program.RequestJudge` | lab7/banker.cpp:92-113 | grants exactly the affordable requests that leave a safe state; a refusal changes nothing |
| `Banker.Program.NewJudge` | lab7/banker.cpp:115-125 | admits exactly new pids whose claim fits the resources |
| `Banker.Program.NewProcess` | lab7/banker.cpp:127-133 | registers the claim with nothing allocated and keeps the invariant |
| `Banker.Program.Recycle` | lab7/banker.cpp:27-34 | returns the allocation, forgets the process and keeps the invariant |
| `Banker.Program.Execute` | lab7/banker.cpp:147-175 | each command is a step of the bank, answered as specified; a refused command changes nothing |
| `BankerSpec.RequestKeeps` | lab7/banker.cpp:92-113 | a granted request conserves resources, respects claims and leaves a safe state |
| `BankerSpec.GrantedExact` | lab7/banker.cpp:92-113 | a request is granted exactly when the tables after it conserve resources, respect claims and are safe |
| `BankerSpec.NewKeeps` | lab7/banker.cpp:115-133 | an admitted process keeps the state safe: it can always run last |
| `BankerSpec.AdmittedExact` | lab7/banker.cpp:115-133 | a new claim is admitted exactly when the bank with the new process, nothing allocated to it, is safe: no claim is refused that could be served |
| `BankerSpec.TerminateKeeps` | lab7/banker.cpp:27-34 | termination at any time keeps the state safe |
| `BankerSpec.StepKeeps` | lab7/banker.cpp:147-175 | every command keeps the whole invariant |
| `BankerSpec.EveryRunIsSafe` | lab7/banker.cpp:135-175 | after every run from the start: remain plus allocated is the resource vector, need is claim minus allocation and nonnegative, a completion order exists |
| `BankerLedger.RunMatchesBooks` | lab7/banker.cpp:135-175 | after every run each process is registered exactly when its last admission was not ended, with that claim, and holds exactly the sum of its granted requests since |
| `BankerSpec.NoDeadlock` | lab7/banker.cpp:92-113 | while a process exists, some process would be granted its whole remaining need |
| `BankerSpec.WindUp` | lab7/banker.cpp:92-175 | from every reachable state some order of all processes exists in which each, in the state it meets, is granted its whole remaining need and then terminates; afterwards the bank is empty and every resource is back |
| `BufferCache.Cache.constructor` | pintos_pro3/src/filesys/cache.c:71-77 | an empty cache represents the device |
| `BufferCache.Cache.Flush` | pintos_pro3/src/filesys/cache.c:20-29 | a dirty buffer reaches its sector, the entry becomes clean, the abstract disk stays |
| `BufferCache.Cache.Find` | pintos_pro3/src/filesys/cache.c:31-42 | the entry of a cached sector, or none exactly when it is not cached |
| `BufferCache.Cache.SkipSpared` | pintos_pro3/src/filesys/cache.c:48-62 | the search loop ends after at most one full turn, before the first entry that is free or not accessed; exactly the entries passed lose their access bit |
| `BufferCache.Cache.ReplaceFind` | pintos_pro3/src/filesys/cache.c:44-69 | ends within 65 probes at the first entry from the hand that is free or not accessed; exactly the entries passed lose their access bit |
| `BufferCache.Cache.Evict` | pintos_pro3/src/filesys/cache.c:63-68 | the victim is written back if dirty and invalidated, the abstract disk stays |
| `BufferCache.Cache.Load` | pintos_pro3/src/filesys/cache.c:98-106 | after a miss the victim's entry, and no other, caches the sector, clean; the victim alone was written back, and exactly the entries passed lost their access bit |
| `BufferCache.Cache.ReadEntry` | pintos_pro3/src/filesys/cache.c:92-109 | a hit touches no other entry, the hand or the device and sets the access bit; a miss loads one entry |
| `BufferCache.Cache.WriteEntry` | pintos_pro3/src/filesys/cache.c:111-129 | the same, leaving the entry dirty with the new block and the device as it was but for the victim |
| `BufferCache.Cache.Read` | pintos_pro3/src/filesys/cache.c:92-109 | returns the last block written to the sector and changes no abstract sector |
| `BufferCache.Cache.Write` | pintos_pro3/src/filesys/cache.c:111-129 | changes exactly one sector of the abstract disk |
| `BufferCache.Cache.Close` | pintos_pro3/src/filesys/cache.c:79-90 | afterwards the device itself equals the abstract disk |
| `BufferCache.Cache.Replay` | pintos_pro3/src/filesys/cache.c:20-129 | any sequence of reads and writes answers as a plain disk and leaves, after closing, the plain disk's contents |
| `BufferCache.SweptIs` | pintos_pro3/src/filesys/cache.c:48-62 | after `d` probes exactly the first `d` entries from the hand have lost their access bit |
| `BufferCache.SecondChance` | pintos_pro3/src/filesys/cache.c:44-109 | a sector whose access bit is set stays cached over a miss while another entry is free or not accessed |
| `IndexSector.WordsPack` | pintos_pro3/src/filesys/inode.c:30-33 | an index table survives being stored in a sector |
| `IndexSector.LowestFirst` | pintos_pro3/src/filesys/inode.c:30-33 | words are stored lowest byte first |
| `Volume.Volume.constructor` | pintos_pro3/src/filesys/free-map.c:11-20 | every sector is free but the free map's and the root directory's |
| `Volume.Volume.TakeSector` | pintos_pro3/src/filesys/free-map.c:27-41 | the lowest free sector leaves the free set; fails exactly when none is free, leaving the entry as it was |
| `Volume.Volume.TakeZeroed` | pintos_pro3/src/filesys/inode.c:413-420 | the sector taken is zeroed; on a full volume the ignored failure leaves the entry 0 and zeroes sector 0 |
| `Volume.Volume.Release` | pintos_pro3/src/filesys/free-map.c:43-50 | a sector in use joins the free set |
| `Volume.Volume.AllocateLeaf` | pintos_pro3/src/filesys/inode.c:413-420 | an unallocated entry gets a zeroed free sector, or stays 0 on a full volume; an allocated one is kept |
| `Volume.Volume.FillTable` | pintos_pro3/src/filesys/inode.c:433-438 | the first entries of a table become allocated as far as the free sectors last, each new one zeroed; beyond that entries stay 0, no sector is free and sector 0 is zeroed |
| `Volume.Volume.AllocateIndex` | pintos_pro3/src/filesys/inode.c:422-441 | a table grows to at least the number asked, old entries kept, new ones zeroed free sectors, nothing else touched; with too few free sectors none is left and sector 0 is zeroed |
| `Volume.Volume.GrowGroup` | pintos_pro3/src/filesys/inode.c:433-438 | one group of the tree grows to its share, or the free sectors run out, and then the whole tree needs more than there were |
| `Volume.Volume.AllocateDouble` | pintos_pro3/src/filesys/inode.c:422-441 | the same for the tree of tables, group by group, with the exact number of sectors that suffices |
| `InodeLayout.GrewTrans` | pintos_pro3/src/filesys/inode.c:443-480 | growth stages compose: earlier mappings and contents survive, sectors move only from the free set to the inode |
| `InodeLayout.OwnedCost` | pintos_pro3/src/filesys/inode.c:443-480 | the sectors owned are exactly the data sectors plus the index sectors that many need |
| `InodeAllocation.AllocateDirect` | pintos_pro3/src/filesys/inode.c:452-464 | the direct entries are allocated exactly when the free sectors suffice |
| `InodeAllocation.AllocateSingle` | pintos_pro3/src/filesys/inode.c:466-470 | the indirect table likewise, for an inode that owns more than is asked as well |
| `InodeAllocation.AllocateDoubly` | pintos_pro3/src/filesys/inode.c:472-476 | the doubly indirect tree likewise |
| `InodeAllocation.Allocate` | pintos_pro3/src/filesys/inode.c:443-480 | exactly with enough free sectors the tree reaches the length, every earlier mapping and its contents kept, all sectors distinct, nonzero and out of the free set, and sectors beyond the length stay listed; otherwise success is reported too, no sector is free and sector 0 is zeroed |
| `InodeAllocation.RoomWasThere` | pintos_pro3/src/filesys/inode.c:443-480 | a tree that has grown to a number of sectors had the free sectors for it |
| `InodeAllocation.GrewCard` | pintos_pro3/src/filesys/inode.c:443-480 | growth takes exactly the difference of the costs from the free set |
| `InodeAllocation.DeallocateIndex` | pintos_pro3/src/filesys/inode.c:482-507 | a table's entries and the table itself are released, each still in use at its turn |
| `InodeAllocation.DeallocateDouble` | pintos_pro3/src/filesys/inode.c:482-507 | the same for the tree of tables |
| `InodeAllocation.CoveredDisjoint` | pintos_pro3/src/filesys/inode.c:509-540 | the sectors a length covers are owned, distinct and as many as that length costs |
| `InodeAllocation.Deallocate` | pintos_pro3/src/filesys/inode.c:509-540 | exactly the sectors the length covers return to the free set, every release precondition holding; what the tables list beyond the length does not |
| `InodeFile.InodeRoundTrip` | pintos_pro3/src/filesys/inode.c:17-28 | an inode survives being stored in its sector |
| `InodeFile.InodeOnDisk` | pintos_pro3/src/filesys/inode.c:17-28 | the inode's sector holds the length, the 124 direct entries, the two table entries and the magic number, in this order |
| `InodeFile.LookupIs` | pintos_pro3/src/filesys/inode.c:67-101 | the direct, indirect or doubly indirect path leads to the file's k-th data sector |
| `InodeFile.MappingInjective` | pintos_pro3/src/filesys/inode.c:61-106 | every sector index maps to a nonzero sector on the device, apart from index sectors and the free set, and distinct indices to distinct sectors |
| `InodeFile.GrownFile` | pintos_pro3/src/filesys/inode.c:443-480 | growth keeps every old byte and adds zeros |
| `ByteFile.NewLengthExact` | pintos_pro3/src/filesys/inode.c:316-322 | the length after the growth test is the larger of old length and end of write, except exactly for an empty write at offset 0 of a nonempty file, which cuts it to 0 |
| `ByteFile.StepBytes` | pintos_pro3/src/filesys/inode.c:316-376 | every byte after a write: the written ones, then whatever the sectors already hold, then zeros |
| `ByteFile.StepIsOverlay` | pintos_pro3/src/filesys/inode.c:316-376 | a write overlays the byte array exactly when it does not cut and no old byte hides between the end of the file and the offset |
| `ByteFile.TightStep` | pintos_pro3/src/filesys/inode.c:316-376 | a file that never was cut stays zero beyond its length and holds no further sector, so every gap it opens reads as zero |
| `ByteFile.OldBytesReappear` | pintos_pro3/src/filesys/inode.c:316-376 | cut the file 1, 2 and write 9 at offset 1: it reads 1, 9 where a byte array reads 0, 9 |
| `ByteFile.ExcessExact` | pintos_pro3/src/filesys/inode.c:509-540 | no sector is beyond the length exactly when the sectors end with the length |
| `InodeFile.Inode.Reach` | pintos_pro3/src/filesys/inode.c:316-322 | the file is resized to the end of the write unless its last byte exists: new sectors are zeroed, old ones kept; without enough free sectors the new length is stored all the same, none is left and sector 0 is zeroed |
| `InodeFile.LostSectors` | pintos_pro3/src/filesys/inode.c:509-540 | what closing does not give back is in use, apart from the free set, as many sectors as the file costs beyond its length, and none exactly when its tables end with its length |
| `InodeFile.OtherFileKept` | pintos_pro3/src/filesys/inode.c:305-377 | a write to one file keeps the tree and the bytes of another one apart from it, and the two are still apart |
| `InodeFile.Inode.Open` | pintos_pro3/src/filesys/inode.c:174-187 | the stored inode is read back and opened once |
| `InodeFile.Inode.ByteToSector` | pintos_pro3/src/filesys/inode.c:61-106 | the sector of a byte inside the file, -1 outside |
| `InodeFile.Inode.ReadAt` | pintos_pro3/src/filesys/inode.c:245-297 | returns exactly the file's bytes from the offset, cut at the end of file, and changes nothing |
| `InodeFile.Inode.GrowTo` | pintos_pro3/src/filesys/inode.c:317-321 | the file is resized and the inode stored; sectors already allocated beyond the old length are not zeroed; the shortage as above |
| `InodeFile.Inode.WriteChunk` | pintos_pro3/src/filesys/inode.c:324-373 | one turn patches exactly the written range of one sector, bounce buffer or not |
| `InodeFile.Inode.WriteLoop` | pintos_pro3/src/filesys/inode.c:324-376 | across sector splits exactly the given range of bytes is replaced |
| `InodeFile.Inode.WriteAt` | pintos_pro3/src/filesys/inode.c:305-377 | in every state a run can reach, the bytes change as `ByteFile.Step` says, only free sectors and this inode's touched; denied writes change nothing |
| `InodeFile.Inode.Close` | pintos_pro3/src/filesys/inode.c:209-231 | the last close of a removed file frees its own sector and exactly what its length covers, any other close nothing |
| `InodeFile.Create` | pintos_pro3/src/filesys/inode.c:124-151 | a zero-filled file of the length, made of free sectors, exactly when they suffice; success is reported in any case |
| `FileLifecycle.Lifecycle` | pintos_pro3/src/filesys/inode.c:124-377 | create, any writes (empty ones included), read, remove, close: the bytes are those of the byte file after the same steps, and all sectors return but as many as that file costs beyond its length |
| `FileLifecycle.PlainRun` | pintos_pro3/src/filesys/inode.c:305-377 | without a cut the steps are overlays of a plain byte array, and nothing is beyond the length |
| `FileLifecycle.PlainLifecycle` | pintos_pro3/src/filesys/inode.c:124-377 | without a cut the bytes read are those of a plain byte array and the free set returns to what it was |
| `FileLifecycle.ApplyAll` | pintos_pro3/src/filesys/inode.c:305-377 | any sequence of writes replays on a byte file, free and owned sectors adding up throughout |
| `Files.MappingsDisjoint` | pintos_pro3/src/filesys/inode.c:61-106 | no sector of one file is a data, index or inode sector of another |
| `Files.WriteKeeps` | pintos_pro3/src/filesys/inode.c:305-377 | a write to one of any number of files keeps all of them sound and pairwise disjoint, and the contents of the others |
| `Files.WriteBeside` | pintos_pro3/src/filesys/inode.c:305-377 | the same of the program: all files stay sound and disjoint, one takes the step, no other changes |
| `Files.CreateBeside` | pintos_pro3/src/filesys/inode.c:124-187 | a new file is disjoint from all others and changes none |
| `Files.RemoveBeside` | pintos_pro3/src/filesys/inode.c:209-231 | removing and closing a file frees exactly what it returns and leaves the others sound, disjoint and unchanged |
| `FileSession.Execute` | pintos_pro3/src/filesys/inode.c:124-377 | one creation, write or removal on a volume with any number of files is one step on the list of byte files, and every sector stays accounted for |
| `FileSession.Session` | pintos_pro3/src/filesys/inode.c:124-377 | after any run of creations, writes and removals each file holds its own bytes, no two share a sector, and the free sectors, those in use and those lost add up to the sectors at the start |
| `FileSession.NothingLost` | pintos_pro3/src/filesys/inode.c:305-322 | in a run without a cut no sector is ever lost |
| `Division.Nlz` | pintos_pro3/src/lib/arithmetic.c:41-73 | the shift brings the leading one to bit 31 |
| `Division.BySmall` | pintos_pro3/src/lib/arithmetic.c:80-112 | two divides give the 64-bit quotient by a one-word divisor, the low one inside `divl`'s domain |
| `Division.SmallDivisor` | pintos_pro3/src/lib/arithmetic.c:82-105 | the low quotient fits 32 bits and the two parts add up |
| `Division.Normalized` | pintos_pro3/src/lib/arithmetic.c:121-123 | shifting the divisor does not overflow and leaves its top bit set |
| `Division.Estimate` | pintos_pro3/src/lib/arithmetic.c:121-123 | the divide cannot trap and its shifted result is the quotient or one more |
| `Division.EstimateOffByOne` | pintos_pro3/src/lib/arithmetic.c:121-124 | dividing by the truncated divisor overshoots by at most one |
| `Division.Correct` | pintos_pro3/src/lib/arithmetic.c:124 | the wrapping comparison picks the true quotient |
| `Division.Udiv64` | pintos_pro3/src/lib/arithmetic.c:77-127 | floor division for all 64-bit n and d > 0 |
| `Division.Umod64` | pintos_pro3/src/lib/arithmetic.c:131-135 | the remainder cut to 32 bits, right exactly when it fits |
| `Division.UmodExact` | pintos_pro3/src/lib/arithmetic.c:131-135 | right for all dividends exactly when d <= 2^32 |
| `Division.Sdiv64` | pintos_pro3/src/lib/arithmetic.c:139-146 | truncation toward zero for all inputs but -2^63 / -1, and only there wrong |
| `Division.TruncLaw` | pintos_pro3/src/lib/arithmetic.c:137-154 | truncated division leaves the remainder smaller than the divisor, with the dividend's sign |
| `Division.Smod64` | pintos_pro3/src/lib/arithmetic.c:150-154 | the signed remainder cut to 32 bits, right exactly when it fits |
| `Division.SmodExact` | pintos_pro3/src/lib/arithmetic.c:150-154 | right for all dividends exactly when the divisor's magnitude is at most 2^31 |
| `Donation.UpdatePri` | pintos/src/threads/thread.c:631-643 | the priority is the largest of the thread's own and its held locks' |
| `Donation.SortLocks` | pintos/src/threads/thread.c:637 | the same locks in descending order of recorded priority |
| `Donation.InsertThread` | pintos/src/threads/thread.c:618-629 | insertion keeps the order and puts the thread behind all of its own priority |
| `Donation.SortThreads` | pintos/src/threads/synch.c:117-122 | the same threads in order, the first of the most urgent in front |
| `Donation.System.DonatePri` | pintos/src/threads/thread.c:618-629 | priority updated and the ready list in order again, the same threads on it |
| `Donation.System.DonateStep` | pintos/src/threads/synch.c:208-212 | one turn moves the only possible deficit to the next lock of the chain |
| `Donation.System.Walk` | pintos/src/threads/synch.c:206-212 | the loop ends on every chain, cyclic ones included, and restores all donation facts; exactly the locks of the chain that recorded less record the donor's priority, no other lock changes, and a thread's priority changes only if it holds such a lock, to the donor's |
| `Donation.System.RaisedExactly` | pintos/src/threads/synch.c:208-212 | where the loop stops, at a lock recorded high enough or at the chain's end, no lock further on records less than the donor's priority |
| `Donation.System.Donate` | pintos/src/threads/synch.c:204-213 | with the new waiter recorded, every fact holds again, and exactly the chain was raised |
| `Donation.System.NoInversion` | pintos/src/threads/synch.c:204-213 | nobody waited on, directly or through others, has lower priority than the waiter |
| `Donation.System.AcquireFree` | pintos/src/threads/synch.c:214-224 | taking a free lock keeps every fact |
| `Donation.System.Release` | pintos/src/threads/synch.c:252-261 | the releaser loses exactly that lock and falls to the largest of its own priority and what its other locks record, which stays as it was; only the released lock lacks a holder |
| `Donation.System.ReleaseUnwaited` | pintos/src/threads/synch.c:252-263 | releasing a lock nobody waits for keeps every fact |
| `Donation.PopWaiter` | pintos/src/threads/synch.c:117-122 | sorting and popping yields the first of the most urgent waiters and leaves the others in order |
| `Donation.System.HandOver` | pintos/src/threads/synch.c:214-263 | release followed by the popped waiter taking the lock keeps every fact; the lock records the new holder's priority, the other locks and their holders stay as they were, and nobody else stops waiting |
| `FixedPoint.RoundExact` | pintos-GDB/src/threads/fixed-point.h:28-30 | over all 32-bit words: rounds to nearest exactly for nonnegative values that one half does not push over the top and for negative halves that it does not push under the bottom; other negative values come out one too low |
| `Mlfqs.LoadBounded` | pintos-GDB/src/threads/thread.c:447-456 | the load average stays in [0, L] |
| `Mlfqs.DecayBounded` | pintos-GDB/src/threads/thread.c:442 | the decay factor is at most 2L / (2L + 1) |
| `Mlfqs.RecentBounded` | pintos-GDB/src/threads/thread.c:430-445 | each per-second update brings recent_cpu back to [-20(2L + 1), 240L + 20] |
| `Mlfqs.StepInRange` | pintos-GDB/src/devices/timer.c:175-195 | every tick, spawn, nice change and exit keeps the range |
| `Mlfqs.Run` | pintos-GDB/src/devices/timer.c:175-195 | every run stays in range |
| `Mlfqs.LoadNoWrap` | pintos-GDB/src/threads/thread.c:455 | for L <= 136 the 32-bit macros compute the exact load average |
| `Mlfqs.DecayNoWrap` | pintos-GDB/src/threads/thread.c:442 | for L <= 136 the 32-bit macros compute the exact decay factor and never divide by zero |
| `Mlfqs.RecentNoWrap` | pintos-GDB/src/threads/thread.c:442 | for L <= 136 the 32-bit macros compute the exact recent_cpu |
| `Mlfqs.PriorityNoWrap` | pintos-GDB/src/threads/thread.c:480 | for L <= 136 the 32-bit macros compute the exact priority before clamping |
| `Mlfqs.ReportedExact` | pintos-GDB/src/threads/thread.c:411-416 | over all 32-bit words: the reported value is the nearest integer to the hundredfold exactly where the product fits and rounds right, or lies less than one half below the bottom; 328 is reported negative |
| `Mlfqs.Kernel.UpdateRecentByOne` | pintos-GDB/src/threads/thread.c:419-428 | exactly the running thread gains one |
| `Mlfqs.Kernel.UpdateLoadAverage` | pintos-GDB/src/threads/thread.c:447-456 | the wrapped arithmetic gives the exact new load average |
| `Mlfqs.Kernel.UpdateRecentAll` | pintos-GDB/src/threads/thread.c:430-445 | every thread decays by the exact formula, in any order |
| `Mlfqs.Kernel.UpdatePriority` | pintos-GDB/src/threads/thread.c:473-483 | the exact formula clamped to the priority range |
| `Mlfqs.Kernel.UpdatePriorityAll` | pintos-GDB/src/threads/thread.c:458-471 | every thread's priority recomputed, in any order |
| `Mlfqs.Kernel.TimerInterrupt` | pintos-GDB/src/devices/timer.c:175-195 | a tick is the specified step, computed without overflow, and stays in range |
| `MlfqsLaws.ChargedExactly` | pintos-GDB/src/threads/thread.c:418-428 | between two per-second updates a thread's recent_cpu grows by one for every tick on which it ran and by nothing else, in any run |
| `MlfqsLaws.ChargedInTotal` | pintos-GDB/src/threads/thread.c:418-428 | over any set of threads the total grows by one for every tick on which one of them ran |
| `MlfqsLaws.LoadIsAverage` | pintos-GDB/src/threads/thread.c:447-456 | over any number of updates the load average is behind the real weighted average with weights 59/60 and 1/60 by less than 60 units of 2^-16 |
| `MlfqsLaws.RunLoad` | pintos-GDB/src/devices/timer.c:175-195 | after every run from the start the load average is that of the ready counts sampled on every hundredth tick |
| `MlfqsLaws.RecentIsClose` | pintos-GDB/src/threads/thread.c:430-445 | recent_cpu decays by 2L / (2L + 1) and gains the nice value, in real arithmetic, up to the stated rounding error |
| `MlfqsLaws.RawIsFormula` | pintos-GDB/src/threads/thread.c:480 | the priority before clamping is the real PRI_MAX - recent_cpu / 4 - 2 nice, rounded to within one |
| `MlfqsLaws.PriorityIsClosest` | pintos-GDB/src/threads/thread.c:481-482 | the clamp takes the closest priority in the range |
| `MlfqsLaws.CurrentAfterTick` | pintos-GDB/src/devices/timer.c:183-192 | on every fourth tick the running thread's priority is that of its recent_cpu, and on every hundredth everybody's |
| `MlfqsLaws.PriorityStays` | pintos-GDB/src/devices/timer.c:183-192 | between two fourth ticks no thread's priority changes unless its nice value is set |
| `MlfqsLaws.SecondIsFormula` | pintos-GDB/src/devices/timer.c:180-192 | on every hundredth tick the charge comes first, then the load average, then the decay with the new average, then the priorities from the result |
| `ReadersWriters.StepInv` | lab6/reader-writer/read.h:3-15 | every step of every thread keeps the semaphore and counter invariant |
| `ReadersWriters.Exclusion` | lab6/reader-writer/write.h:3-8 | a writer never overlaps a reader or another writer |
| `ReadersWriters.StepReadcountInv` | lab6/reader-writer/read.h:5-13 | readcount is the number of readers between entry and exit, although its updates are split into load and store |
| `ReadersWriters.Progress` | lab6/reader-writer/read.h:3-15 | as long as a thread is unfinished, some thread can step |
| `ReadersWriters.RunInv` | lab6/reader-writer/read.h:3-15 | every run keeps the invariant and is no longer than the work to be done |
| `ReadersWriters.CompleteRun` | lab6/reader-writer/Main_file.c:13-50 | a run that cannot continue has finished every thread, with both semaphores 1, readcount 0 and the buffer raised once per writer |
| `MemoryManager.FindFirst` | lab8/mm.cpp:187-201 | the first hole that fits, none only if no hole fits |
| `MemoryManager.FindBest` | lab8/mm.cpp:203-223 | the first smallest hole that fits, none only if no hole fits |
| `MemoryManager.FindWorst` | lab8/mm.cpp:225-245 | the first largest hole that fits, none only if no hole fits |
| `MemoryManager.InsertBlock` | lab8/mm.cpp:157-185 | the block joins the list, which stays in address order |
| `MemoryManager.SortHoles` | lab8/mm.cpp:312-323 | the exchange sort orders by address and covers the same addresses |
| `MemoryManager.MergeHoles` | lab8/mm.cpp:324-331 | merging keeps order and the addresses covered, and is the specified single pass |
| `MemoryManager.MergedExact` | lab8/mm.cpp:324-331 | one pass joins all touching holes exactly when no three in a row touch; three such holes end up as two |
| `MemoryManager.FreedExact` | lab8/mm.cpp:308-375 | where no holes touch, freeing a block leaves none touching exactly when it did not lie between two holes |
| `MemoryManager.Manager.constructor` | lab8/mm.cpp:119-149 | one hole over all of memory, no block, first fit |
| `MemoryManager.Manager.Allocate` | lab8/mm.cpp:247-283 | the chosen hole loses its front to the block; fails exactly when no hole fits, changing nothing; memory stays tiled |
| `MemoryManager.Manager.Create` | lab8/mm.cpp:285-299 | only positive sizes are served, a pid is spent even on failure |
| `MemoryManager.Manager.FreeMem` | lab8/mm.cpp:337-375 | exactly the block's addresses become free, in address order |
| `MemoryManager.Manager.Kill` | lab8/mm.cpp:422-434 | the process's first block disappears and exactly its addresses become free; holes that did not touch still do not, unless exactly the block lay between two holes; an unknown pid changes nothing |
| `MemoryManager.Manager.Execute` | lab8/mm.cpp:247-434 | one command does what it should: nothing but the policy changes, or one block is placed by the policy in force, or one block removed and its addresses freed |
| `MemoryManager.Manager.FindProcess` | lab8/mm.cpp:103-117 | the first block of the process, or none |
| `MemoryManager.Manager.Session` | lab8/mm.cpp:247-434 | in any mix of policies, creations and kills every creation takes the front of the hole chosen by the policy last asked for, every kill removes the process's first block alone, holes and blocks tile memory and their sizes add up to it |
| `MemoryManager.BytesConserved` | lab8/mm.cpp:247-434 | in every tiling free and allocated bytes add up to the memory size |
| `ArenaPages.SlotIs` | pintos_pro3/src/threads/malloc.c:266-294 | the arena of the i-th block of an arena is that arena, and the block passes the alignment checks |
| `ArenaPages.SlotInside` | pintos_pro3/src/threads/malloc.c:284-294 | a block lies inside its page, past the header |
| `ArenaPages.SlotsDisjoint` | pintos_pro3/src/threads/malloc.c:284-294 | two blocks of an arena do not overlap |
| `ArenaPages.FullPage` | pintos_pro3/src/threads/malloc.c:241-246 | the count reaches the arena's block number exactly when all its blocks are on the free list |
| `ArenaPages.BlocksFill` | pintos_pro3/src/threads/malloc.c:81 | an arena's blocks fit behind the header and leave less than one block over |
| `ArenaPages.BlockSizesDouble` | pintos_pro3/src/threads/malloc.c:75-84 | block sizes double from 16 up to the last one below half a page |
| `ArenaHeap.UsedInside` | pintos_pro3/src/threads/malloc.c:177-186 | every block in use lies in its arena's pages, past the header |
| `ArenaHeap.UsedDisjoint` | pintos_pro3/src/threads/malloc.c:89-154 | blocks in use never overlap |
| `ArenaHeap.ArenaBusy` | pintos_pro3/src/threads/malloc.c:241-253 | an arena that has not been given back has a block in use |
| `ArenaHeap.NothingInUse` | pintos_pro3/src/threads/malloc.c:218-264 | with no block in use every page is back in the pool |
| `ArenaHeap.PopGood` | pintos_pro3/src/threads/malloc.c:148-153 | taking the front block keeps every count right and puts exactly that block in use |
| `ArenaHeap.GrowGood` | pintos_pro3/src/threads/malloc.c:124-146 | a fresh arena keeps every count right and puts no block in use |
| `ArenaHeap.PushGood` | pintos_pro3/src/threads/malloc.c:238-242 | a freed block keeps every count right and takes exactly that block out of use |
| `ArenaHeap.DropGood` | pintos_pro3/src/threads/malloc.c:241-253 | giving a wholly free arena back keeps the invariant and no block's use changes |
| `Arenas.Allocator.constructor` | pintos_pro3/src/threads/malloc.c:70-85 | seven descriptors of doubling block size, nothing in use |
| `Arenas.Allocator.FindDesc` | pintos_pro3/src/threads/malloc.c:100-104 | the smallest sufficient descriptor |
| `Arenas.Allocator.Malloc` | pintos_pro3/src/threads/malloc.c:89-154 | null exactly for size 0, or without a page when the block is big or the right free list is empty, and then nothing changes; otherwise exactly one new block in use, of the smallest sufficient size, large enough exactly when the size is more than 11 bytes below 2^32; it is the front of that free list, or the first block of the page given, whose others are listed rising; the pool loses pages only then, and exactly those |
| `Arenas.PageCountExact` | pintos_pro3/src/threads/malloc.c:109 | the rounded page count is the smallest that suffices, or is zero, exactly below 2^32 - 11; then it wraps to one |
| `Arenas.Purge` | pintos_pro3/src/threads/malloc.c:247-251 | exactly the arena's blocks leave the free list, each being on it, and the others keep their order |
| `Arenas.Allocator.Free` | pintos_pro3/src/threads/malloc.c:218-264 | exactly one block fewer in use, put in front of its free list; the arena's pages return to the pool exactly when that was its last, and then exactly its blocks leave the list, the others keeping their order |
| `Arenas.LastFreedFirst` | pintos_pro3/src/threads/malloc.c:148-239 | a block freed last is handed out first, and the free lists are then as before |
| `Octal.FormatOctal` | pintos_pro3/src/lib/stdio.c:501-547 | digits denoting the value, exactly the field width when it fits |
| `Octal.DigitsUnique` | pintos_pro3/src/lib/stdio.c:501-547 | of a given length only one string of octal digits denotes a number, so the value determines the text |
| `Octal.ParseOctal` | pintos_pro3/src/lib/ustar.c:129-162 | accepts exactly the terminated octal numbers that fit an unsigned long, with their value |
| `Ustar.Strip` | pintos_pro3/src/lib/ustar.c:65-73 | the loop ends and gives the stripped name |
| `Ustar.Stripped` | pintos_pro3/src/lib/ustar.c:56-73 | the result has no dangerous prefix and is never empty or ".."; a harmless name is left alone, so stripping is idempotent |
| `Ustar.StrippedSuffix` | pintos_pro3/src/lib/ustar.c:65-73 | dropped is exactly the longest front of components "", "." and ".." with their slashes; "." stands in for nothing and for ".." |
| `Ustar.CalculateChksum` | pintos_pro3/src/lib/ustar.c:35-54 | the sum of the bytes before and behind the checksum field and of eight spaces, fitting seven octal digits |
| `Ustar.MakeHeader` | pintos_pro3/src/lib/ustar.c:82-118 | every field of the 512 bytes, mode and modification time digit by digit; refuses exactly stripped names over 99 bytes and then writes nothing |
| `Ustar.FixedFields` | pintos_pro3/src/lib/ustar.c:102-107 | regular files have mode 0000644, directories 0000755, and the time is 10355706000 |
| `Ustar.ParseHeader` | pintos_pro3/src/lib/ustar.c:181-227 | the meaning of the header, every error in the order of the checks |
| `Ustar.FirstFailure` | pintos_pro3/src/lib/ustar.c:189-222 | a header that is not all zeros is accepted exactly when it passes all eight checks, and otherwise the error is that of the first check it fails |
| `Ustar.AcceptedFields` | pintos_pro3/src/lib/ustar.c:211-226 | an accepted header yields its own type, its stripped name and, for a regular file, the number its size field denotes |
| `Ustar.MadeParses` | pintos_pro3/src/lib/ustar.c:82-227 | a made header parses to the stripped name, the type and the size (0 for directories); a negative regular size is refused as too large |
| `Ustar.RoundTrip` | pintos_pro3/src/lib/ustar.c:82-227 | making and parsing through one buffer |
| `Ustar.ParsedIsCanonical` | pintos_pro3/src/lib/ustar.c:181-227 | whatever parses can be archived again and would parse to the same entry |
| `Ustar.DamageIsNoticed` | pintos_pro3/src/lib/ustar.c:181-227 | changing any one byte outside the checksum field of an accepted header makes it an error |

## Left out

- Device drivers, interrupts, context switches, inline assembly, console input and output, signals and processes of the labs; request strings and commands are arguments. `divl` is its arithmetic contract.
- The other labs and user programs, heap sort, merge sort, string functions, RC4, `intq`: textbook or easy additions.
- lab8/cache.cpp, lab8/mm_paging.cpp, lab10 and lab4: incomplete or with unclear intent. The MIN and CLOCK branches of lab8/replacement.cpp are not modelled.
- Mutual exclusion around the buffer cache and the allocator's descriptor locks: each call is one step.
- Persistence of the free map and its `bitmap_write` failures: the free map is a set of free sectors.
- Failure of `malloc` and `calloc` inside the file system, and the leaked table in `byte_to_sector`: memory allocation always succeeds there.
- The list of open inodes, reopening, `inode_deny_write` and `inode_allow_write` calls: the counters are fields, an inode is opened once.
- MinPaging.Min: needs `k` at least 1, as a cache of no frames makes the source evict from an empty list.
- LruPaging.Lru: needs `k` at least 1, as a cache of no frames makes the source read an empty queue.
- FifoPaging.Fifo: needs `k` at least 1, as a cache of no frames makes the source read an empty queue.
- ClockPaging.RunClock: needs page numbers other than -1, which marks an empty slot.
- SecondChancePaging.SecondChance: needs `k` at least 2, because with one frame the FIFO part has size 0 and its front is read while empty.
- Banker.Program.Execute: requests name registered pids and have nonnegative entries; the source creates empty rows and reads past them otherwise. At least one resource type, since with none `new` registers nothing.
- Volume.Volume.AllocateLeaf: level 0 of the recursion on the level, which is unrolled into one method per level, likewise in `InodeAllocation.DeallocateIndex` and `InodeAllocation.DeallocateDouble`.
- Volume.Volume.AllocateIndex: level 1 of the unrolled recursion.
- Volume.Volume.AllocateDouble: level 2 of the unrolled recursion.
- InodeAllocation.Allocate: lengths up to 124 + 128 + 128 * 128 sectors, beyond which the source's assertion fails; which of the entries stay 0 when the free sectors do not last is stated for each table (`Volume.Filled`), not for the whole tree.
- InodeFile.Inode.WriteAt: lengths up to 124 + 128 + 128 * 128 sectors, which also keeps offsets within 32 bits; enough free sectors when the file really grows. Without them `Reach` states the damage; the write loop that follows would write through entries that are 0 into sector 0 and then read it as an index table.
- FileSession.Session: creations and writes for which the free sectors suffice, as `WriteAt` needs them.
- Division.Sdiv64: conversions and negations of 64-bit values that C leaves implementation-defined or undefined are taken to wrap.
- Donation.System.HandOver: release, wake-up and the waiter resuming are one step; the window in between, `lock_try_acquire` and `thread_set_priority` do not maintain the donation facts. The semaphore's waiter list is an argument that holds exactly the threads waiting for the lock, and `thread_yield` is left out.
- Donation.System.AcquireFree: the branch raising the taker's priority in `thread_get_lock` never applies, because the lock's priority has just been set to the taker's.
- Mlfqs.Kernel.UpdateRecentAll: the sort of the ready list afterwards and the choice of the next thread are left out; the idle thread is no member of the thread table.
- ReadersWriters.CompleteRun: thread creation and joining in `main` are left out, all threads exist from the start.
- MemoryManager.Manager.Kill: lists are sequences: relinking of nodes and a fresh node's uninitialised link are not modelled.
- Arenas.Allocator.Malloc: the page allocator's choice, or refusal, is an argument; `calloc`, `realloc` and the clearing of freed memory are left out.
- Ustar.MakeHeader: the printed message on failure is left out.
