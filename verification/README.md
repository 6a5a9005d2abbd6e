# Clubcos: verified models of its kernel and of its disk-image editor

Clubcos is a small x86 kernel with a FAT disk-image editor beside it.  This project models the parts of
both that keep state over long runs and proves what they promise about it.  Every module follows one
part of the program; classes hold the fields the program updates in place, and their methods are proved
against functions on values, about which the whole-run theorems are proved.

- **Dynamic memory** (`BuddyBlocks`, `BuddyArena`, `BuddyBitmaps`, `DynMem`).  A buddy allocator over an
  arena whose number of units need not be a power of two, so every odd level has a block without a buddy.
  `BuddyArena` is the allocator on sets of blocks; `DynMem` is the allocator on the metadata bytes, with its
  byte scan, bit scan, split loop and merge loop.
- **The FAT file store** (`FatChains`, `FatDirectory`, `FatData`, `FatFiles`, `FatVolume`, `FatLayout`, `Fat12`).  Cluster
  chains, 8.3 directory records, copying through chains, and the packing of 12-bit tables.  Together they
  behave as a map from 11-byte names to bytes, and `FatLayout` says where in the image each byte of it lies.
- **Tasks** (`Scheduler`, `TaskSystem`, `TaskCalls`, `TaskKernel`, `LazyFpu`).  The counting scheduler as a mixed-radix
  odometer, the life cycle of tasks with its lists and with joining, and the FPU that changes hands lazily.
- **Concurrency and lists** (`RecursiveMutex`, `LinkedList`, `Timer`, `TimerList`, `CircularQueue`, `HitKeys`).  The recursive
  mutex and the key protocol of the terminal as interleavings of single accesses, the intrusive list as a
  sequence, and the timer's list ordered by 32-bit circular distance: `Timer` on values, `TimerList` on the
  links, which timeouts share between the timer's list and their notice queues.
- **Numerals** (`Numerals`).  `number` of the formatted output against `atoi`.
- `Basics` holds the few definitions that several modules share.

All widths that matter are written out: the 32-bit rounding of sizes, the 32-bit tick and the circular
distance, the 32-bit wrap of the time slice and of `atoi`, 16-bit table entries, 32-bit file sizes.

## Where the code does less than is said of it

Each of these is kept as the code has it, and the exact condition under which the promise holds is proved.

- With no free slot `ckTaskCreate_unsafe` leaves its loop with the last slot and returns the identifier found
  there, although src/task.h promises an invalid one.  The identifier returned is a new one exactly when a slot
  is free; otherwise it is an old task's and never the invalid one (`TaskKernel.TaskStruct.CreateForId`).  A run
  of the kernel that fills the table is given by `TaskSystem.FullTableReachable`.
- Ending a suspended task that waits for nobody trips the assertion at src/task.c:373.  For a target that is
  not running the assertions hold exactly when it has not suspended itself (`TaskKernel.TerminateAssertsIff`,
  with the failing run in `TaskKernel.EndingSuspendedFails`).
- Resuming a task that waits in a join leaves it on a waiter list.  Resuming keeps the life-cycle invariant
  exactly when the task waits for nobody (`TaskSystem.ResumeInvIff`, with the failing run in
  `TaskSystem.ResumeAfterJoinBreaks`).
- Changing the priority of a waiting task moves it out of the wait list into a ready list.  The invariant
  survives exactly when the task does not wait or its priority stays the same (`TaskSystem.ChangePriorityInvIff`, with
  the failing run in `TaskSystem.ChangePriorityAfterJoinBreaks`).
- A running task is preempted after exactly as many timer interrupts as its time slice says, a slice of 0 standing
  for 2^32 (`TaskKernel.TaskStruct.TimerInts`); so within the 20 of src/task.h:43 exactly if the slice is from 1 to
  20.  It is not once the idle task has used up a slice with nothing else ready: the slice is then not renewed
  and wraps (`TaskKernel.TaskStruct.SliceWraps`).
- `_ceil_uint32` wraps.  The search for a level ends exactly for sizes up to 2^31 and above 0xfffff000
  (`DynMem.LevelSearchEnds`).  The latter are rounded to 0: they are handed one unit, less than was asked for, and
  the used size does not grow (`DynMem.WrappedRequest`).
- `ckDynMemFree` refuses an address beyond the end of the memory but not the end itself.  For a size whose level
  exists an address is let through exactly when it lies in the arena or is its end
  (`DynMem.DynMem.AcceptedAddresses`).  What is let through there is no block of the arena
  (`DynMem.DynMem.EndIsNoBlock`), and this call exists in every state (`DynMem.DynMem.EndIsLetThrough`).  It sets a
  padding bit of its level or the first bit of the next level, after which the arena's invariant is lost
  (`DynMem.DynMem.EndSetsOtherBit`).
- The list link of a timeout and its queue node share one place (src/timer.h:65-69), so the expiry walk goes on from
  where the delivery has pushed the timeout.  It stops exactly when the timeout was not the back of its queue
  already and the new length of the queue differs from the tick.  If only the length equals the tick, the
  walk takes the queue for an expired timeout; if the timeout was the back of its queue, the walk never ends
  (`TimerList.TimerStruct.Tick` and `TimerList.TimerStruct.AnotherRound`).  A timeout that is set again before it is
  taken from its queue can lead there (`TimerList.SetWhileQueued`), and a first timeout for tick 1 leads into its
  queue (`TimerList.FirstTickGoesAstray`).  While timeouts are only set when they are neither pending nor queued, a
  tick leaves list and queues whole exactly when the length differs (`Timer.IntactInRuns`).  The delivery theorems
  `Timer.DeliveredExactlyOnTime` and `TimerList.RunFromBoot` are about such runs, up to the first tick where it does not.
- For the same reason one tick delivers at most one timeout: it takes all due timeouts off exactly when at most one
  is due (`Timer.TickTakesAllDue`, with a concrete failure in `TimerList.SecondOfTwoIsMissed`).
- The timeout list keeps its order over a tick exactly when no timeout set for the present tick heads it
  (`Timer.TickKeepsOrder`).
- With room for a single key the key protocol wakes its reader in vain; from two keys on it never does
  (`HitKeys.SafeFromTwoKeysOn`).  The terminal has room for 1024.
- An empty file takes the error path of the copy loop, so a write succeeds only with at least one cluster
  (`FatVolume.Image.WriteFile` and `Succeeds`).

## Model

| member | source | states |
|---|---|---|
| BuddyBlocks.LevelExists | src/memory.c:93-116 | halving the unit count goes on exactly while a level has a block, and the last level is the one with a single block |
| BuddyBlocks.InitialFreeTiles | src/memory.c:93-116 | the leftover blocks of the odd levels tile the arena exactly, and no two of them are buddies |
| BuddyBlocks.SplitTile | src/memory.c:157-166 | cutting one tile into its halves keeps a tiling of the arena |
| BuddyBlocks.MergeTiles | src/memory.c:223-241 | replacing two buddies by their parent keeps a tiling of the arena |
| BuddyArena.LevelFromIsLeast | src/memory.c:130-133 | the level search ends at the lowest level whose blocks hold the request |
| BuddyArena.InitialInv | src/memory.c:71-120 | the initial state tiles the arena with free blocks and has no mergeable pair |
| BuddyArena.SplitDownTiles | src/memory.c:157-166 | the whole split loop keeps free, live and held blocks a tiling, with no two free buddies |
| BuddyArena.CoalesceTiles | src/memory.c:209-243 | the whole merge loop keeps the tiling and leaves no two free buddies |
| BuddyArena.AllocateInv | src/memory.c:122-177 | allocation keeps the invariant and hands out a block of the right level that was not live |
| BuddyArena.ReleaseInv | src/memory.c:179-247 | release of a live block keeps the invariant |
| BuddyArena.RunInv | src/memory.c:122-247 | tiling and full coalescing hold over every run of allocations and releases of live blocks |
| BuddyArena.Canonical | src/memory.c:223-241 | in every reachable state a block is marked free exactly when it is a maximal aligned run of unallocated units, odd leftovers included |
| BuddyArena.NothingElseIsFree | src/memory.c:211-213 | in no reachable state can a further block be marked as free: the arena is full of free and live blocks |
| BuddyArena.SameUnitsSameBitmaps | src/memory.c:122-247 | two reachable states with the same allocated units have the same free blocks, however they were reached |
| BuddyArena.AllocationComplete | src/memory.c:127-177 | allocation succeeds if and only if some aligned in-range block of the needed level is wholly free |
| BuddyArena.AllocatedWasFree | src/memory.c:141-176 | the block handed out was wholly free and is of the level the size asks for |
| BuddyArena.AllocationRecords | src/memory.c:127-176 | the block is of the least level that holds the units, begins at the lowest place of the lowest level with a free block, and is recorded with exactly the units asked for; nothing else is recorded or forgotten |
| BuddyArena.ReleaseForgets | src/memory.c:209-244 | a release forgets exactly that block, and the used units go down by what was recorded for it |
| BuddyArena.AllocateThenFree | src/memory.c:122-247 | freeing what was just allocated restores the whole state, every level's free blocks included |
| BuddyArena.FreeingAllRestores | src/memory.c:122-247 | every run that ends with nothing live, in whatever order things were freed, ends in exactly the initial state |
| BuddyArena.SameLiveSameArena | src/memory.c:122-247 | a run that ends with the same blocks live as it began with ends in the same state |
| BuddyArena.LiveBlocksApart | src/memory.c:122-177 | live blocks never share a unit and lie inside the arena |
| BuddyArena.UsedRemove | src/memory.c:209-244 | releasing a block lowers the sum of the rounded live sizes by that block's size |
| BuddyArena.UsedWithinArena | src/memory.c:168-170 | the sum of the rounded live sizes never exceeds the arena, so the 32-bit counter never wraps |
| BuddyBitmaps.InitialBitmaps | src/memory.c:93-116 | the bytes written by the initialisation mean exactly the leftover blocks, padding bits zero |
| BuddyBitmaps.SetBit | src/memory.c:58-61 | setting a bit adds exactly that block to the free blocks of all levels |
| BuddyBitmaps.ClearBit | src/memory.c:62-65 | clearing a bit removes exactly that block from the free blocks of all levels |
| BuddyBitmaps.LowestFreeIs | src/memory.c:141-156 | the lowest bit of the first non-zero byte is the lowest free block of its level |
| BuddyBitmaps.BytesFromFree | src/memory.c:93-116 | the bitmap bytes, padding included, are determined by the free blocks |
| BuddyBitmaps.BytesHold | src/memory.c:93-100 | a level's bitmap has the least number of bytes that hold its bits |
| DynMem.RoundingUp | src/memory.c:53-56 | a size of 1 to 2^31 is rounded up to the least multiple of the unit without 32-bit wrap, and one above 0xfffff000 to 0 |
| DynMem.LevelSearchEnds | src/memory.c:127-131 | the level search, in 32 bits, ends if and only if the size is at most 2^31 or above 0xfffff000 |
| DynMem.WrappedRequest | src/memory.c:122-177 | a size above 0xfffff000 rounds to 0; an allocation for it is a block of one unit, shorter than asked for, and the used size stays |
| DynMem.MetadataFits | src/memory.c:71-88 | for every memory of 1 MB to 0xbf700000 bytes headers and bitmaps fit the 49 mapped pages and leave an arena |
| DynMem.ShrunkFits | src/memory.c:86-116 | the bitmaps of the arena that is left fit where those of the whole memory were budgeted |
| DynMem.ArenaSize | src/memory.c:75-91 | the arena begins behind whole metadata pages and has exactly the remaining units |
| DynMem.BlockSlot | src/memory.c:215-221 | the bit of the buddy of an in-range block lies inside the bytes of its level, even when the buddy does not exist |
| DynMem.DynMem.FirstNonZero | src/memory.c:46-51 | the unbounded scan finds the first non-zero byte and never passes a given non-zero one |
| DynMem.DynMem.LowestFree | src/memory.c:141-156 | on a level with a positive count both scans stop inside the level and find its lowest free block |
| DynMem.DynMem.InitializeLevel | src/memory.c:93-113 | one round of the initialisation writes the level's bytes and its count and leaves earlier levels alone |
| DynMem.DynMem.MeasureArena | src/memory.c:73-91 | the first address and the unit count of the arena follow from the memory size |
| DynMem.DynMem.BuildBitmaps | src/memory.c:89-119 | the bitmaps of all levels follow each other without overlap and mean the leftover blocks, each count right |
| DynMem.DynMem.Initialize | src/memory.c:71-120 | whatever the metadata held before, the allocator is valid, empty and in the initial state |
| DynMem.DynMem.TakeLowest | src/memory.c:141-156 | the lowest free block of the level, and nothing else, leaves the free blocks |
| DynMem.DynMem.SplitTo | src/memory.c:157-166 | the split loop marks exactly the upper halves as free and holds the leftmost block of the wanted level |
| DynMem.DynMem.Allocate | src/memory.c:122-177 | bytes, counts, used size and returned address change as the arena's allocation says: the used size grows by the size rounded up, and exactly one block becomes live, with its rounded units and at the address returned; null leaves everything as it was |
| DynMem.DynMem.MergeUp | src/memory.c:209-243 | the merge loop yields the coalesced free blocks and never leaves by the exit for a missing parent level |
| DynMem.DynMem.Free | src/memory.c:179-247 | a size of 0, a size without a level and an address before or beyond the arena are refused and change nothing; a live block, and nothing else, is live no more, its units go back as the arena's release says and its rounded size leaves the used size |
| DynMem.DynMem.AllocateAndFree | src/memory.c:122-247 | in any valid state, allocating and freeing the address returned with the same size restores bytes, counts, live blocks and used size |
| DynMem.DynMem.AcceptedAddresses | src/memory.c:181-198 | a call is let through if and only if the size is not 0, some level's blocks are long enough for it, and the address lies in the arena or is its end |
| DynMem.DynMem.EndIsNoBlock | src/memory.c:184-201 | the end of the arena is let through and means a block one past its level, which is in no arena and never live |
| DynMem.DynMem.EndIsLetThrough | src/memory.c:184-201 | in every valid state the end of the arena with a size of one byte is let through and means no live block |
| DynMem.DynMem.EndSetsOtherBit | src/memory.c:201-213 | one past a level the bit tested and set is a clear padding bit or the first bit of the next level; unless the test stops the program, the arena's invariant is lost then |
| DynMem.DynMem.AllocationsApart | src/memory.c:122-177 | live allocations occupy disjoint aligned address ranges inside the managed memory, each at least as long as its rounded size |
| DynMem.DynMem.FreeFindsBlock | src/memory.c:186-208 | any address inside a live allocation, with its size, names exactly that allocation |
| DynMem.SameUnitsSameBytes | src/memory.c:71-247 | two valid allocators over equal arenas with the same allocated units agree in every count and every bitmap byte |
| FatChains.ChainUnique | tools/edimg/edimg.c:1082-1121 | a start cluster has at most one well-formed chain, so chains are acyclic paths |
| FatChains.FreeListSpec | tools/edimg/edimg.c:1071-1080 | the free list is exactly the free clusters from a place on, in increasing order |
| FatChains.ResizeSucceedsIff | tools/edimg/edimg.c:1071-1121 | a resize goes through if and only if the clusters of the chain and the free ones are at least as many as asked for |
| FatChains.ResizeTakesLowest | tools/edimg/edimg.c:1082-1121 | the new chain keeps the beginning of the old one and goes on with the lowest free clusters in increasing order |
| FatChains.ResizeConserves | tools/edimg/edimg.c:1082-1121 | a resize keeps the set of free and chained clusters, and no chained cluster is free |
| FatChains.ResizeKeepsOthers | tools/edimg/edimg.c:1082-1121 | every other chain survives a resize unchanged and stays disjoint from the resized one |
| FatChains.FatTable.FreeCluster | tools/edimg/edimg.c:1071-1080 | finds the lowest free cluster from a place on, and none only when there is none |
| FatChains.FatTable.FreeChain | tools/edimg/edimg.c:1085-1095 | frees every cluster of a chain and no other entry changes |
| FatChains.FatTable.Resize | tools/edimg/edimg.c:1082-1121 | stops exactly when free clusters run out; otherwise the chain is exactly as long as asked, its kept part in place and the new part the lowest free clusters |
| FatDirectory.Directory.ParseName | tools/edimg/edimg.c:925-947 | the name conversion computes the 11-byte name |
| FatDirectory.To83Splits | tools/edimg/edimg.c:925-947 | base and extension come out in upper case, padded to 8 and 3 |
| FatDirectory.UpperLetters | tools/edimg/edimg.c:932-933 | each of the 26 small letters becomes its capital and no other byte changes |
| FatDirectory.PlainBytes | tools/edimg/edimg.c:925-947 | a name without a dot, of any length, becomes its first 11 bytes in upper case, padded |
| FatDirectory.DottedBytes | tools/edimg/edimg.c:925-947 | a name with one dot, with parts of any length: the base, padded only below 8 bytes, then the extension, cut at 11 bytes |
| FatDirectory.OtherBytes | tools/edimg/edimg.c:1085-1101 | storing a start cluster or a size changes no other byte of the record |
| FatDirectory.CreateAddsOne | tools/edimg/edimg.c:1123-1147 | creating a record adds one record in use and leaves all others with their contents |
| FatDirectory.Directory.Search | tools/edimg/edimg.c:948-961 | finds the file of that name before the end mark, and nothing only when there is none |
| FatDirectory.Directory.Create | tools/edimg/edimg.c:1123-1147 | returns the existing file or an empty new record, and stops exactly when there is neither file nor slot |
| FatData.ClusterInside | tools/edimg/edimg.c:1219-1222 | a cluster of a volume that fits the image lies inside the image, so the bounds test of the copy loops never stops them |
| FatFiles.FilesUpdated | tools/edimg/edimg.c:1178-1238 | when only one record and its clusters change, the map of files changes at that name only |
| FatFiles.FilesRemoved | tools/edimg/edimg.c:1340-1353 | when one record stops being a file, the map of files loses that name only |
| FatFiles.ResizedStep | tools/edimg/edimg.c:1082-1121 | resizing the chain of one record keeps the volume well formed and every other file's chain and bytes |
| FatFiles.DataStep | tools/edimg/edimg.c:1211-1237 | bytes stored in one file's clusters leave every other file as it was |
| FatFiles.DeletedStep | tools/edimg/edimg.c:1340-1353 | marking an emptied record as deleted keeps the volume well formed and every other file |
| FatVolume.Image.constructor | tools/edimg/edimg.c:1457-1600 | a volume whose directory ends at once is well formed and holds no file |
| FatVolume.ClustersHold | tools/edimg/edimg.c:1179-1180 | without a given number of clusters the least number that holds the bytes is asked for |
| FatVolume.Image.StoreCluster | tools/edimg/edimg.c:1222-1233 | one round of the copy loop changes exactly the bytes of one cluster: the bytes stored, then zeros when writing and the old bytes when overwriting |
| FatVolume.Image.CopyIn | tools/edimg/edimg.c:1211-1237 | the copy loop succeeds exactly when the chain is long enough, and then the chain holds the source bytes, followed by zeros up to the end of the last cluster stored when writing and by the old bytes when overwriting |
| FatVolume.Image.CopyOut | tools/edimg/edimg.c:1025-1045 | the copy loop reads the file's bytes out of the chain into the buffer |
| FatVolume.Image.WriteFile | tools/edimg/edimg.c:1178-1238 | succeeds exactly when there is a record, a cluster and room; then the map of files has the written bytes at that name and is otherwise unchanged |
| FatVolume.Image.OvrwriteFile | tools/edimg/edimg.c:1267-1325 | succeeds exactly when stated, and then the file is as long as the longer of old and new, its byte i the new byte i where there is one and the old byte i otherwise, and every other file is as it was |
| FatVolume.Image.ReadFile | tools/edimg/edimg.c:1017-1045 | succeeds exactly for a file with clusters that fits the buffer; then the buffer holds its bytes and the volume is unchanged |
| FatVolume.Image.DeleteFile | tools/edimg/edimg.c:1340-1354 | the map of files loses the name and nothing else; a missing file is skipped |
| FatVolume.Image.Execute | tools/edimg/edimg.c:1017-1354 | every command has exactly its effect on the map of files, and stops exactly when it cannot succeed |
| FatVolume.Image.Run | tools/edimg/edimg.c:1017-1354 | a whole script means what its commands mean one after the other, up to the first one that cannot succeed |
| FatVolume.Image.RunThenRead | tools/edimg/edimg.c:1017-1354 | after a script has run, a read yields byte by byte what the last storing command on the name left, the old tail of an overwrite included |
| FatVolume.LastWriteWins | tools/edimg/edimg.c:1178-1325 | after any script the file named last in a storing command holds the bytes written, or after an overwrite, byte by byte, those and the old tail |
| FatVolume.DeletedIsGone | tools/edimg/edimg.c:1340-1354 | after any script a file whose last command but reads was a deletion does not exist |
| FatVolume.OtherCommandsKeep | tools/edimg/edimg.c:1178-1354 | commands on other names leave a file as it was, however many there are |
| FatLayout.AttributeBits | tools/edimg/edimg.c:952-957 | a record passes for a file by its attribute if and only if bits 3, 4, 6 and 7 are clear |
| FatLayout.FileRecord | tools/edimg/edimg.c:948-961 | in the directory's bytes, record e is a file if and only if no first byte up to it is 0, its own is not 0xe5, and its attribute is plain |
| FatLayout.SlotRecord | tools/edimg/edimg.c:1130-1139 | the record taken for a new file is the first whose first byte is 0 or 0xe5 |
| FatLayout.RoomForFile | tools/edimg/edimg.c:1130-1140 | there is such a record as soon as any first byte is 0 or 0xe5 |
| FatLayout.NewRecordBytes | tools/edimg/edimg.c:1141-1146 | a new record is the name followed by zeros |
| FatLayout.FileNameAndSize | tools/edimg/edimg.c:1019-1023 | a file has the name and the size, lowest byte first, that stand in its record |
| FatLayout.FileChain | tools/edimg/edimg.c:1023-1044 | the chain of a file follows the table from the start cluster in its record and is long enough for its size |
| FatLayout.FileByte | tools/edimg/edimg.c:1025-1045 | byte j * (cluster length) + k of a file is byte k of the j-th cluster of its chain, the data area beginning with cluster 2 |
| FatLayout.OnlyRecords | tools/edimg/edimg.c:948-961 | every file of the volume is a record of the directory |
| Fat12.StoreAfterLoad | tools/edimg/edimg.c:1551-1563 | storing a loaded table reproduces every byte, for every length, multiples of 3 or not |
| Fat12.LoadAfterStore | tools/edimg/edimg.c:1627-1640 | loading a stored table gives back every normalised entry that lies wholly inside it |
| Fat12.EntryInWord | tools/edimg/edimg.c:1551-1563 | entry k is the lower or upper 12 bits of the word at byte k + k / 2, lifted by 0xf000 from 0xff7 on |
| Fat12.LowBitsStored | tools/edimg/edimg.c:1627-1640 | storing any entry keeps its lower 12 bits where loading finds them |
| Fat12.Load | tools/edimg/edimg.c:1551-1563 | the loading loop fills the table with the lifted 12-bit entries |
| Fat12.Store | tools/edimg/edimg.c:1627-1640 | the storing loop writes the packed bytes and nothing outside the table |
| Scheduler.SweepTakes | src/task.c:616-632 | a pass over the levels takes the first one with count left, resets those before it, and otherwise resets all |
| Scheduler.ChooseTakes | src/task.c:612-634 | at most two passes are needed: no level is found exactly when no task is ready |
| Scheduler.NoneResets | src/task.c:616-634 | with nothing ready every count is 0 afterwards |
| Scheduler.NumberIncreases | src/task.c:612-634 | read as a mixed-radix number the counts grow at every choice that does not wrap, and stay below the radix |
| Scheduler.NumberIncreasesAlways | src/task.c:612-634 | the same for any counts, even larger than the lists, once they are clamped |
| Scheduler.ClampCommutes | src/task.c:612-634 | counts beyond a list's length act as the length: clamping changes no choice and no wrap |
| Scheduler.PatienceShrinks | src/task.c:612-660 | a ready task runs next, or its number of turns to wait gets strictly smaller |
| Scheduler.NoStarvation | src/task.c:612-660 | with a fixed set of runnable tasks, position p of any queue runs within (p + 2) times the product of the list lengths plus one, from any counts |
| Scheduler.ServedBetweenWraps | src/task.c:612-660 | between two wraps every level that still has a ready task has been chosen |
| TaskSystem.InitialInv | src/task.c:88-187 | the kernel starts with the main task running and the idle task ready |
| TaskSystem.RelocatePlaced | src/task.c:321-386 | moving one task to the list of its new fields keeps every list exact |
| TaskSystem.ScheduleInv | src/task.c:612-676 | scheduling keeps the life-cycle invariant and leaves exactly one task running |
| TaskSystem.ScheduleIsNext | src/task.c:612-676 | scheduling is one step of the scheduler's queues, so its waiting bounds hold for the task system |
| TaskSystem.ReadyTaskRuns | src/task.c:612-676 | a ready task at position p of its list runs within (p + 2) times the product of the list lengths plus one, while nothing but scheduling happens |
| TaskSystem.TerminateInv | src/task.c:321-386 | ending any task that is neither resident nor suspended by itself keeps the invariant |
| TaskSystem.TerminateWakes | src/task.c:321-386 | ending a task for which the call goes through wakes exactly its joiners, clears what they wait for, and nobody waits for it afterwards |
| TaskSystem.JoinInv | src/task.c:554-575 | a join keeps the invariant, the caller waits for its target and another task runs |
| TaskSystem.SuspendInv | src/task.c:486-516 | suspending the current task keeps the invariant |
| TaskSystem.ResumeInvIff | src/task.c:534-552 | a resume keeps the invariant if and only if the task waits for nobody |
| TaskSystem.ResumeAfterJoinBreaks | src/task.c:534-575 | in every state in which a join is possible, joining and then being resumed by another task breaks the invariant |
| TaskSystem.ChangePriorityAfterJoinBreaks | src/task.c:443-575 | in every state in which a join is possible, joining and then being given another priority by another task breaks the invariant |
| TaskSystem.ChangePriorityInvIff | src/task.c:443-467 | a change of priority keeps every list exact if and only if the task does not wait or its priority stays the same |
| TaskSystem.CreateInv | src/task.c:212-255 | a new task keeps the invariant and has a larger identifier than every live one |
| TaskSystem.FullTableReachable | src/task.c:212-255 | a run of the kernel from its start reaches a valid state without a free slot, its identifiers still 32-bit numbers |
| TaskSystem.ReapInv | src/task.c:762-777 | freeing the exited tasks empties the exit list and keeps the invariant |
| TaskSystem.EffectInv | src/task.c:212-777 | every kernel call made where it goes through keeps the invariant |
| TaskSystem.RunInv | src/task.c:212-777 | over every run of kernel calls one task runs, every list is exact, and every waiter is on the list of a live target |
| TaskCalls.PriorityChanged | src/task.c:443-467 | the task has the new priority and nothing else in the table changes; unless it runs or keeps its priority it leaves its list, the others in order, and stands last in the ready list of the new priority |
| TaskCalls.NothingScheduled | src/task.c:616-636 | with nothing ready scheduling changes the counts only |
| TaskCalls.Scheduled | src/task.c:612-674 | otherwise the first task of the level that the counts choose runs, and the old one, if it ran, stands last in its own level's list; nothing else changes |
| TaskCalls.Suspended | src/task.c:486-516 | the current task stands last in the wait list, then another one is scheduled |
| TaskCalls.Joined | src/task.c:554-575 | the caller stands last in the wait list and last in the waiter list of its target, then another one is scheduled |
| TaskCalls.Resumed | src/task.c:534-552 | a waiting task leaves the wait list, the others in order, and stands last in the ready list of its priority |
| TaskCalls.Created | src/task.c:212-255 | a new task has the stated fields and stands last in the ready list of its priority |
| TaskCalls.Reaped | src/task.c:762-777 | exactly the slots of the exited tasks become free |
| TaskCalls.WokenUp | src/task.c:323-331 | the waiters of an ending task become ready in their order, each last in the list of its priority, and leave the wait list |
| TaskCalls.EndedItself | src/task.c:321-351 | a task that ends itself wakes its waiters and stands last in the exit list, then another one is scheduled |
| TaskCalls.EndedByOther | src/task.c:352-386 | a task ended by another wakes its waiters, leaves its list and the waiter list it is on, the others in order, and its slot is free |
| TaskKernel.TaskStruct.constructor | src/task.c:88-187 | the fields are set up as the initial state |
| TaskKernel.TaskStruct.PickLevel | src/task.c:612-634 | the two-pass loop over the fields computes the choice |
| TaskKernel.TaskStruct.ScheduleInternal | src/task.c:612-676 | fields and lists change as scheduling says, and the time slice becomes 20 exactly when another task is ready, otherwise it stays |
| TaskKernel.TaskStruct.DoSchedule | src/task.c:597-602 | a task gives up the processor: the structure stays valid and changes as scheduling says, on a new time slice if another task is ready |
| TaskKernel.TaskStruct.OnTimerInt | src/task.c:604-610 | the 32-bit time slice counts down and the scheduler runs exactly when it reaches 0; the slice then is 20 if another task is ready, else it stays 0 and wraps at the next interrupt |
| TaskKernel.TaskStruct.TimerInts | src/task.c:604-676 | while another task is ready the running one goes on for exactly as many interrupts as its slice says, 2^32 for a slice of 0, and is then preempted on a full slice for the next |
| TaskKernel.TaskStruct.SliceWraps | src/task.c:604-610 | with nothing else ready the idle task's slice runs out unrenewed and stands at 2^32 - 1 one interrupt later |
| TaskKernel.IdleIsReady | src/task.c:612-634 | whenever another task runs the idle task is ready, so only the idle task can use up a slice unrenewed |
| TaskKernel.TaskStruct.FromId | src/task.c:47-57 | finds the task with an identifier exactly when one exists that has not ended |
| TaskKernel.TaskStruct.CreateTask | src/task.c:212-255 | takes the lowest free slot; with none it returns the last slot and changes nothing |
| TaskKernel.TaskStruct.CreateForId | src/task.c:189-211 | the identifier returned is new exactly when a slot is free; otherwise it is that of an old task and never the invalid one |
| TaskKernel.TaskStruct.ResumeTask | src/task.c:518-552 | a suspended task becomes ready at the end of its priority's list; true exactly for a waiting one |
| TaskKernel.TaskStruct.SuspendCurrent | src/task.c:486-516 | the current task goes to the wait list and another one runs on a full slice |
| TaskKernel.TaskStruct.JoinTask | src/task.c:554-575 | the caller blocks on a live target and returns at once for any other identifier |
| TaskKernel.TaskStruct.ChangeTaskPriority | src/task.c:443-467 | fields and lists change as `TaskCalls.PriorityChanged` says, and the structure stays valid exactly when no waiting task changes its priority |
| TaskKernel.TaskStruct.WakeWaiters | src/task.c:323-331 | the wake-up loop makes every waiter ready in order |
| TaskKernel.TaskStruct.TerminateTask | src/task.c:321-386 | a running task goes to the exit list and another one runs, any other task's slot is freed, and its waiters are woken |
| TaskKernel.TaskStruct.ReapExited | src/task.c:762-777 | the idle loop frees the slots of all exited tasks |
| TaskKernel.TerminateAssertsIff | src/task.c:361-375 | ending a task that is not running passes the assertions exactly when it has not suspended itself |
| TaskKernel.EndingSuspendedFails | src/task.c:361-375 | a task that has suspended itself can never be ended by another one without an assertion failing |
| TaskKernel.OnlyOneId | src/task.c:212-255 | two tasks that have not ended never share an identifier |
| LazyFpu.FpuSwitch.SwitchTo | src/task.c:658-667 | a switch sets TS exactly when the new task is not the last user of the FPU, and leaves every task's FPU state as the task sees it |
| LazyFpu.FpuSwitch.DeviceNotAvailable | src/task.c:679-707 | the trap saves only the last user's state, and nothing when the current task is that, so that every task's view is unchanged and the FPU is the current task's |
| LazyFpu.FpuSwitch.Use | src/task.c:679-707 | an FPU instruction sees and changes the current task's own state only |
| LazyFpu.FpuSwitch.Create | src/task.c:212-255 | a new task sees the initial FPU state, whoever had its slot before |
| LazyFpu.FpuSwitch.EndOther | src/task.c:333-336 | ending a task removes its view and changes no other |
| LazyFpu.FpuSwitch.Run | src/task.c:658-707 | over every run of switches, uses, creations and ends, each use sees what a private FPU would show |
| LazyFpu.FindsWhatItLeft | src/task.c:658-707 | a task finds in the FPU what it left there, whatever other tasks do in between |
| RecursiveMutex.StepInv | src/recursive_mutex.c:36-83 | every single access by any task keeps the invariant, the read and the write of the count apart |
| RecursiveMutex.RunInv | src/recursive_mutex.c:36-83 | the invariant holds under every interleaving of any number of tasks |
| RecursiveMutex.MutualExclusion | src/recursive_mutex.c:36-83 | at most one task is inside, a task reads its own id only while it owns the lock, and the count is the owner's depth |
| RecursiveMutex.UnlockByStranger | src/recursive_mutex.c:60-83 | an unlock by a task that holds nothing changes no field and answers false |
| RecursiveMutex.AnswersAreTrue | src/recursive_mutex.c:36-83 | a lock answers the new nesting depth, an unlock answers true exactly when it gave one level back |
| RecursiveMutex.LockAlone | src/recursive_mutex.c:36-58 | from any reachable state a lock by a task left alone, of a mutex that is free or its own, ends with the mutex its own, the count and the answer one more than the depth before, other tasks untouched |
| RecursiveMutex.LockWaits | src/recursive_mutex.c:36-53 | a lock of a mutex that another task holds changes no field and comes to wait in the loop |
| RecursiveMutex.WaitingTakes | src/recursive_mutex.c:48-57 | a waiting task changes nothing while the mutex is held, and takes it at its next step once it is free |
| RecursiveMutex.UnlockAlone | src/recursive_mutex.c:60-83 | an unlock by a task left alone gives one level back and frees the mutex with the last; without a level to give back it answers false and changes no field |
| LinkedList.LinkedList.constructor | src/linkedlist.h:67-73 | the list is an empty ring |
| LinkedList.LinkedList.PushBack | src/linkedlist.h:113-124 | appends to the sequence, with forward links, backward links and size right |
| LinkedList.LinkedList.PopFront | src/linkedlist.h:131-145 | removes and returns the first node, or null from an empty list |
| LinkedList.LinkedList.Erase | src/linkedlist.h:152-160 | takes a member out and keeps the order of the others |
| LinkedList.LinkedList.PushBackLockFree | src/linkedlist.c:34-53 | run atomically, the lock-free append equals the plain one |
| LinkedList.LinkedList.PopFrontLockFree | src/linkedlist.c:55-78 | run atomically, the lock-free removal equals the plain one |
| LinkedList.WithoutAt | src/linkedlist.h:152-160 | erasing a member of a duplicate-free sequence closes exactly the gap it leaves |
| LinkedList.Perform | src/linkedlist.h:113-160 | a call on one of several lists changes that list as its sequence says and no other list |
| LinkedList.Run | src/linkedlist.h:113-160 | any run of calls over any number of lists answers and ends as the same run over plain sequences |
| Timer.SetKeepsOrder | src/timer.c:80-111 | setting a timeout of any deadline leaves the list ordered by circular distance with the sentinel farthest |
| Timer.TickKeepsOrder | src/timer.c:113-145 | a tick keeps the order if and only if the list is empty, its head is not already over, or the sentinel is over too |
| Timer.TickTakesAllDue | src/timer.c:123-145 | a tick takes every due timeout off the list exactly when at most one is due |
| Timer.TickMovesSentinel | src/timer.c:134-137 | the sentinel stays, but when the clock reaches it on an empty list it is put as far ahead as can be |
| Timer.SetInv | src/timer.c:80-111 | setting a timeout that is neither pending nor queued 1 to 2^32 - 2 ticks ahead, at a tick of its own, keeps all deadlines and adds one |
| Timer.TakeInv | src/linkedlist.c:55-78 | taking the front timeout out of a notice queue keeps the balance of alarms and puts no pending timeout into a queue |
| Timer.TickInv | src/timer.c:113-145 | a tick that leaves list and queues whole delivers exactly the alarm of that tick, across the wrap of either counter half |
| Timer.RunInv | src/timer.c:80-145 | order, distinct deadlines, the balance of set, pending and delivered alarms, and that no timeout is pending twice or pending and queued, hold over every run of sets, takes and intact ticks |
| Timer.IntactInRuns | src/timer.c:123-145 | in a run the timeout that fires is never in its queue, so a tick is intact exactly when the new length of that queue differs from the tick |
| Timer.DeliveredExactlyOnTime | src/timer.c:80-145 | over every run of sets, takes and intact ticks from boot each alarm is delivered exactly as often as it was set, at exactly its tick, and never before |
| Timer.QueueBalance | src/timer.c:123-145 | over every run what was taken from a notice queue and what is left in it is what was in it and what was put into it, in order |
| TimerList.PushBack | src/linkedlist.c:34-53 | pushing onto any queue links the timeout to the head, or to itself when it was the back already; a ring without it stays a ring with it at the back |
| TimerList.PopFront | src/linkedlist.c:55-78 | takes the front timeout out of a ring, or answers null for an empty one |
| TimerList.TimerStruct.FindPlace | src/timer.c:90-107 | the insertion walk over the links stops at the sentinel at the latest and finds the place of the ordered insertion |
| TimerList.TimerStruct.Set | src/timer.c:80-111 | links and sentinel change as the ordered insertion says; false, and no change, without a notice queue |
| TimerList.TimerStruct.Tick | src/timer.c:113-145 | counters, list, sentinel, queue and its size change as the tick says; after a delivery the walk never ends exactly if the timeout was the back of its queue, takes the queue for a timeout exactly if otherwise its new length is the tick, and else stops |
| TimerList.TimerStruct.AnotherRound | src/timer.c:124-145 | a round on a timeout that is the back of its queue and linked to itself leads back to the same place, one delivery more |
| TimerList.TimerStruct.Run | src/timer.c:80-145 | on the links sets, takes and ticks go through the states of a run of events, every queue a ring of what the run says it holds, up to the first tick whose walk takes a queue for a timeout |
| TimerList.RunFromBoot | src/timer.c:80-145 | from boot on every timeout was put into its queue exactly as often as it was set once its tick has come, at exactly that tick, and per queue the takes and what is left are the puts in order, up to the first tick whose walk takes a queue for a timeout |
| TimerList.FirstTickGoesAstray | src/timer.c:123-145 | a first timeout for tick 1 with an empty notice queue leads the expiry walk into that queue |
| TimerList.SetWhileQueued | src/timer.c:80-145 | a timeout set for tick 5 while it lies in its queue since tick 2 makes the walk of tick 5 never end |
| TimerList.SecondOfTwoIsMissed | src/timer.c:80-145 | of two timeouts set for one tick the one set first stays on the list past it though every walk stops, and one tick later the order is lost |
| CircularQueue.CircularQueue8.constructor | src/circular_queue.c:113-119 | the queue is empty |
| CircularQueue.CircularQueue8.Put | src/circular_queue.c:120-140 | appends, or answers false and changes nothing exactly when the queue is full |
| CircularQueue.CircularQueue8.Remove | src/circular_queue.c:165-187 | drops the front element, false exactly on an empty queue |
| CircularQueue.CircularQueue8.Get | src/circular_queue.c:141-164 | returns the front element, left in place when peeking, and 0 from an empty queue |
| HitKeys.WriterInv | src/terminal.c:301-306 | every step of a writing task keeps the protocol invariant when two keys find room |
| HitKeys.ReaderInv | src/terminal.c:674-688 | every step of the reader keeps the protocol invariant |
| HitKeys.NoLostWakeUp | src/terminal.c:674-688 | under every interleaving keys come out once each and in order, never from an empty queue, and the reader waits only while the queue is empty or a post is due |
| HitKeys.SingleKeyQueueFails | src/terminal.c:674-688 | with room for one key a run exists that wakes the reader with nothing to take |
| HitKeys.SafeFromTwoKeysOn | src/terminal.c:674-688 | the reader is safe from empty queues under every interleaving if and only if at least two keys find room |
| HitKeys.WriterRound | src/terminal.c:299-325 | an uninterrupted writer puts its key when there is room, posts the event and gives the mutex back |
| HitKeys.ReaderRound | src/terminal.c:674-688 | an uninterrupted reader returns the front key, posts the event again exactly when keys are left, and gives the mutex back |
| HitKeys.WaitsChangeNothing | src/terminal.c:674-678 | a reader or writer that finds a semaphore taken changes nothing |
| HitKeys.PutKey | src/terminal.c:305-305 | on the real circular queue a key goes in as the protocol step says, or is refused when the queue is full |
| HitKeys.TakeKey | src/terminal.c:680-680 | on the real circular queue the reader takes the key the protocol returns |
| Numerals.ValueOfDigits | src/snprintf.c:356-379 | the digits produced for any base stand for the number |
| Numerals.DigitsFit | src/snprintf.c:310-379 | a number of k bits has at most k digits in any base, so the digit buffer never overflows |
| Numerals.OutputLength | src/snprintf.c:306-441 | the output is as long as the larger of the width and of sign, prefix and digits or precision |
| Numerals.OutputMeans | src/snprintf.c:306-441 | for every base, width, precision and flags, signed or not, the output is spaces, sign, prefix, zeros and digits of the wanted case that read, character by character, as the absolute value or as the number modulo 2^32, with exactly the padding the width leaves |
| Numerals.PrintThenRead | src/snprintf.c:306-441 | the signed decimal output of any number, under any width, precision and flags, parses as that number |
| Numerals.LeadingGrows | src/string.c:145-155 | no value met while reading digits exceeds the final one, so nothing overflows when that fits |
| Numerals.Atoi | src/string.c:117-157 | returns the integer the text begins with, in 32 bits |
| Numerals.ParsedReads | src/string.c:117-157 | of any text of blanks, at most one sign, digits and a rest the integer read is the signed value of the digits |
| Numerals.WrapMeans | src/string.c:145-155 | the 32-bit result differs from that by a multiple of 2^32 |
| Numerals.WriteDigits | src/snprintf.c:356-379 | the digit loop leaves the digits in the buffer, lowest first, at most 32 of them |
| Numerals.Number | src/snprintf.c:306-441 | writes the whole output when the buffer is longer than it, otherwise a beginning of it, never past the buffer; null exactly for a bad base |
| Numerals.PrintAndRead | src/string.c:117-157 | reading back what was printed gives the number, for every 32-bit number but the least, if the buffer is longer than the output |

## Left out

- Hardware: ports, interrupt controller, descriptor tables, boot and paging set-up, and inline assembly beyond what it computes.
- The terminal's screen, line editing and shell, and the clearing of the key buffer, which throws keys away on purpose.
- Processes: their slots, page directories and their clean-up.
- `UsedCpuTime` and the time-of-day counters.
- Suspending another task than the current one: src/task.c:501 queues the current task, not the argument.
- Running out of 32-bit identifiers or lock counts.
- `TaskKernel.TaskStruct` holds the intrusive lists as sequences; that such a list is a sequence is proved in `LinkedList`.
- TaskKernel.TaskStruct.TerminateTask: requires a target that has not suspended itself, because the program stops at an assertion there; `TerminateAssertsIff` shows this is the only case.
- TaskKernel.TaskStruct.ResumeTask: requires a task that waits for nobody, because otherwise the invariant is lost, as `ResumeInvIff` shows.
- TaskKernel.TaskStruct.ChangeTaskPriority: does not show the sizes of the lists, of which the program lowers that of the wrong list when the task waits.
- DynMem.DynMem.Free: excludes the sizes that `DynMem.Allocate` excludes, and requires a live block with the size it was allocated with for every address that is let through, its end included, which the comment at src/memory.c:205-208 puts on the caller.
- DynMem.DynMem.Allocate: excludes sizes above 2^31 up to 0xfffff000, for which the level search of the program does not end.
- FatChains.FatTable.Resize: excludes a search for free clusters that begins below cluster 2, where the table holds no clusters; so do the writing commands of `FatVolume.Image`.
- FatDirectory.Directory.Search: excludes names that begin with 0 or 0xe5, which the directory uses as marks; a name that begins with 0xe5 would match deleted records.
- FatDirectory.Directory.Create: excludes the same names as `Directory.Search`, and so does every command of `FatVolume.Image`.
- FatVolume.Image.WriteFile: excludes the names and searches that `Directory.Search` and `FatTable.Resize` exclude.
- FatVolume.Image.OvrwriteFile: excludes the names and searches that `Directory.Search` and `FatTable.Resize` exclude.
- FatVolume.Image.ReadFile: excludes the names that `Directory.Search` excludes.
- FatVolume.Image.DeleteFile: excludes the names that `Directory.Search` excludes.
- FatVolume.Image.Execute: excludes the names and searches that `Directory.Search` and `FatTable.Resize` exclude.
- FatVolume.Image.constructor: builds an empty volume only; loading an image is host input, and every method works on any well-formed volume.
- The metadata pages that the arena's first pages are mapped to are a byte array of their own, and `BeginAddr` lies behind them.
- TimerList.TimerStruct.Tick: ends where the walk takes a queue for a timeout or begins to go round; what the program then reads behind a queue is not part of this model.
- TimerList.TimerStruct.Set: requires a timeout that is not pending already; setting one twice closes the list into a ring.
- TimerList.TimerStruct.Run: covers no run that sets a timeout while it is pending or queued, nor one that sets two for one tick; `SetWhileQueued` and `SecondOfTwoIsMissed` show what happens then.
- The notice queue of a timeout is fixed when it is made, and the `code` of a timeout is left out.
- The bodies of the lock-free list operations are atomic; interleavings inside them are not modelled.
- The line-input event of the terminal, and more than one reader of the key queue.
- The FAT copy in the image, the 16-bit options, attributes and time stamps of directory records, and volumes read from or written to the host.
- FatVolume.Image.Run: excludes the names and searches that `Directory.Search` and `FatTable.Resize` exclude; the state after a command that makes the program stop is not described, because no image is written then.
- Directory and data area are arrays of their own; that they lie side by side in the image is not modelled.
- `vsnprintf` around `number`, and what it does once the buffer is full.
- Numerals.Number: excludes the least 32-bit number in signed mode, whose negation overflows, and widths so small that subtracting from them overflows.
