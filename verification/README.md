# Plan 0 kernel core, modelled in Dafny

Plan 0 is a small 64-bit kernel written in C. This project models the parts of it that keep state
under invariants, and proves what they keep:

- the scheduler, the process table and the ready queue (`SchedModel`, `SchedLaws`, `Scheduler`);
- the kernel heap (`HeapModel`, `KHeap`);
- descriptor tables, shared nodes, pipes and mounts of the VFS (`VfsModel`, `VfsLayer`, `PipeBuffer`, `Mounts`);
- the physical frame allocator (`Bits`, `Pmm`);
- user address spaces: map, unmap, destroy, clone, copy-on-write, and whole lives of a space (`PageTables`,
  `Spaces`, `Cloning`, `Vm`, `Lifetimes`);
- the kernel's own page tables and the boot mappings (`KernelTables`, `Paging`);
- the hardware namespace: grammar, aliases, translation to filesystem paths (`Paths`, `NsModel`,
  `NsTree`, `Namespace`);
- the Internet checksum (`Checksum`).

`Basics` and `Sizes` hold what several of these share: the 64-bit word, options, sizes of sets.

Where the C code changes state, the model is a class whose methods follow the C functions step by
step. Each method is proved against a function or predicate on values, and the laws are lemmas about
those values, so that they hold after every sequence of calls. `dafny verify dfyconfig.toml` checks
everything.

## How the model reads the code

The model does what the code does, also where that is not what the code means to do. Where a law
fails, the project states the exact condition under which it holds and an instance where it fails.

- **Scheduler.** The invariant says: a process is queued exactly when it is READY, the queue has no
  duplicates, a RUNNING process is current, idle is never lost. A step keeps it if and only if it is
  `Legal`: block, sleep and exit need a current process that is neither idle nor already queued
  again; a dispatching timer tick needs a current process that is not queued; kill needs a process
  that is not queued and not idle. All other steps always keep it. Adding a process that is still
  linked leaves links that are no list at all: those queued behind it are cut off, or, if it was the
  last one, it follows itself. A wake time has 64 bits, so a sleep that overflows them ends early, and
  one that comes out at 0 never ends. A timer tick that dispatches makes a current process READY again
  that has just blocked, gone to sleep or exited.
- **Heap.** The test in lines 84 and 85 of kheap.c subtracts unsigned numbers. `Guard` has both
  readings, as written and as intended. As written, `kmalloc` leaves a heap that can still be
  described by block headers if and only if the block it takes has room for a header behind the
  request; with the intended reading it always does. Requests above 2^64 - 16 bytes round up to 0.
- **Descriptors.** When `vfs_pipe` fails for lack of room in the table, the nodes that were filled in
  are not all given back: with one empty slot the write node is lost to the pool, with none both are.
  The reference counts stay exact, as no descriptor points at a lost node. `vfs_open` closes the
  backend's descriptor when the node pool is empty, but not when there is no table or no slot. The
  history fields `gen`, `made` and `closed` of the model exist for the specification only.
- **Mounts.** A path of 256 characters or more is stored cut short, so a later registration of the
  same path is not recognised.
- **Physical frames.** `bitmap_test` returns the masked word as an `int`, so it reports a frame whose
  bit is in the upper half of its word as free, whatever the bit says. Such a frame is never freed,
  and as all frames start taken it is never handed out. Reserving it lowers the free count although it
  was taken already. The free count stays right if and only if no taken frame of
  this kind is reserved. Reserving an empty range that starts inside a frame takes that frame.
- **Address spaces.** `get_pte` does not test whether the allocation of a table succeeds. Mapping is
  therefore stated for the case that the frames for the missing tables are there. For each
  user-writable entry a clone meets, it raises the count of the frame by one, or from 1 to 3;
  read-only pages are shared without being counted. So, short of overflow, the first write after a
  fork copies the page if and only if its frame had a count before or has two user-writable entries in
  the space; with count 0, as every fresh frame has, and one entry the writer gets the shared frame
  itself. With count c, n user-writable entries and m entries in all, giving up a clone or destroying
  one of its sides frees a frame that is still mapped if and only if c + n is at most m, where one more
  is added if c = 1 and n > 0, or c = 0 and n > 1. `Closed` is the count with overflow.
  `vm_map_page` does not look whether the page is mapped already, and `vm_free_pages` does not look at
  counts. A space gives back every frame it took if and only if no page of it was given a frame while
  it had one.
- **Kernel tables.** `paging_init` ignores failed allocations. The boot mappings are complete if and
  only if eight frames are free.
- **Namespace.** Depth is checked before aliases are expanded, so a canonical path deeper than 16
  exists and has no canonical form itself. A comment in ns.c says that a translated path is never
  longer than the input. That holds for volume and user paths. For namespace content it holds exactly
  when the trailing slashes of the input make up for the slash in front and the growth of an alias.
- **Checksum.** For an odd length the last byte is added in the wrong half of its word. The result is
  that of the padded data exactly when this byte is 0.

## Model

| member | source | states |
|---|---|---|
| SchedModel.StepKeepsInvExactly | src/process/process.c:88-217 | every kernel step keeps the scheduler invariant if and only if the step is legal |
| SchedModel.TickKeepsInv | src/kernel/switch.c:81-132 | a timer tick keeps the invariant exactly when it does not dispatch with the current process already queued |
| SchedModel.TickBreaksInv | src/kernel/switch.c:123-127 | re-adding a current process that is queued and dispatching breaks the invariant in every state |
| SchedModel.SwitchKeepsInv | src/kernel/switch.c:30-69 | a switch always keeps the invariant, also when current was woken before it |
| SchedModel.WakeDueKeepsInv | src/process/process.c:367-379 | waking all due sleepers keeps the invariant |
| SchedModel.AddKeepsInv | src/process/scheduler.c:26-38 | queueing a process that is neither queued nor running keeps the invariant |
| SchedModel.SetStateKeepsInv | src/kernel/sys.c:192-197 | changing a state to BLOCKED, ZOMBIE or UNUSED keeps the invariant exactly for a process that is not queued and not idle |
| SchedModel.ReachableInv | src/process/process.c:55-86 | the invariant holds after every legal run from boot |
| SchedModel.RunKeepsInv | src/kernel/switch.c:30-69 | the invariant holds after every legal run from any state with it |
| SchedModel.QueueStep | src/process/scheduler.c:26-70 | a step only appends to the queue, except that a dispatch removes the head and runs it |
| SchedModel.DispatchBound | src/kernel/switch.c:30-69 | whatever steps interleave, position k of the queue moves up by one per dispatch and runs at dispatch k + 1 exactly |
| SchedModel.SwitchPops | src/kernel/switch.c:30-69 | a switch always takes a process from a queue that is not empty |
| SchedModel.SwitchBound | src/kernel/switch.c:30-69 | whatever legal steps interleave, position k of the queue runs by the time the switch function has been called k + 1 times |
| SchedModel.StoppedCurrentIsReplaced | src/process/process.c:35-40 | a blocked or exited current process is replaced at the next switch |
| SchedModel.BlockWakeBlockBreaksInv | src/process/process.c:195-208 | block, wake, block before a switch leaves a blocked process linked, and one more wake adds it a second time |
| SchedModel.TickRevivesStopped | src/kernel/switch.c:123-127 | a dispatching tick makes a blocked or exited current process READY and queued again |
| SchedModel.FirstInState | src/process/process.c:25-32 | the lowest slot in a given state, or none |
| SchedLaws.WakeDueQueue | src/process/process.c:367-379 | exactly the BLOCKED processes whose wake time is set and reached are appended, in the order of their slots |
| SchedLaws.WakeDueSlot | src/process/process.c:367-379 | they become READY and lose their wake time, and every other slot stays as it is |
| SchedLaws.SleepsExactly | src/process/process.c:210-217 | whatever legal steps interleave, a process that nobody wakes or kills stays BLOCKED through every switch before the time it asked for, and the next switch brings it back if and only if that time has come |
| SchedLaws.SleepStep | src/process/process.c:367-379 | a step that does not disturb a sleeper leaves it asleep, except a switch at or after its wake time, which makes it READY or runs it |
| SchedLaws.SleepRun | src/process/process.c:367-379 | the same over whole runs with switches before the wake time |
| SchedLaws.SleepThenSwitch | src/process/process.c:210-217 | a process that sleeps ms from now is queued by a switch at time t exactly if now + ms <= t |
| SchedLaws.Dies | src/process/process.c:175-193 | a process that exits or is killed becomes a ZOMBIE and nothing else changes |
| SchedLaws.ZombieStep | src/kernel/sys.c:162-190 | a ZOMBIE stays one through every legal step except being collected and steps by itself while it is still current |
| SchedLaws.ReapExactly | src/kernel/sys.c:162-190 | waiting frees exactly the lowest ZOMBIE other than the caller, or asks for a switch if there is none |
| SchedLaws.TimeSlice | src/process/scheduler.c:72-83 | a running process keeps the processor for what is left of ten ticks, and at the last of them the head of the queue runs and it is last in the queue |
| SchedLaws.YieldThenTick | src/process/process.c:219-221 | after a yield the next tick switches to the head of the queue |
| SchedLaws.TickStarts | src/kernel/switch.c:107-113 | when nothing is current a tick starts the head of the queue |
| SchedLaws.StopThenTick | src/kernel/switch.c:123-127 | the first tick after a block or a sleep makes the process READY again |
| SchedLaws.NothingReady | src/kernel/switch.c:30-69 | with nothing ready and nobody to wake, idle goes on and the request is dropped |
| SchedLaws.BlockThenWake | src/process/process.c:195-208 | block and wake before a switch: the process is current, READY and last in the queue |
| Scheduler.AppendIsList | src/process/scheduler.c:26-38 | linking at the tail gives the doubly linked list of the longer queue |
| Scheduler.UnlinkIsList | src/process/scheduler.c:40-54 | unlinking at any position gives the doubly linked list without it |
| Scheduler.DropHeadIsList | src/process/scheduler.c:56-70 | unlinking the head gives the doubly linked list of the rest |
| Scheduler.ReAddCuts | src/process/scheduler.c:26-38 | adding a process that is still linked cuts off all behind it, or makes the last one its own successor |
| Scheduler.ReAddBreaks | src/process/scheduler.c:26-38 | after that the links are a doubly linked list of no sequence at all |
| Scheduler.UnlinkOutsider | src/process/scheduler.c:40-54 | removing a process that is not linked and has null links empties the queue |
| Scheduler.TickIllegal | src/kernel/switch.c:107-127 | a tick is illegal exactly if it dispatches while the current process is linked behind the head |
| Scheduler.Kernel.constructor | src/process/process.c:55-86 | idle alone queued and READY, all other slots unused, nothing current, links well formed |
| Scheduler.Kernel.AddProc | src/process/scheduler.c:26-38 | performs the append on any links; a list stays a list if and only if the process was not linked, and is no list of anything otherwise |
| Scheduler.Kernel.RemoveProc | src/process/scheduler.c:40-54 | the effect on any links; of a linked process, at any position, it leaves the list without it |
| Scheduler.Kernel.Pick | src/process/scheduler.c:56-70 | returns the head and leaves the rest, or null on an empty queue |
| Scheduler.Kernel.RunnableCount | src/process/scheduler.c:89-98 | the walk along any links that come to an end, list or not, counts what it visits |
| Scheduler.Kernel.SetCurrent | src/process/scheduler.c:104-109 | the process becomes current and RUNNING |
| Scheduler.Kernel.CreateProc | src/process/process.c:88-157 | with a stack and an unused slot the lowest such slot becomes READY without a wake time and is appended, every other slot unchanged; otherwise null and no change; the invariant is kept |
| Scheduler.Kernel.BlockCurrent | src/process/process.c:195-201 | performs the block step; the invariant survives exactly if that is legal |
| Scheduler.Kernel.WakeProc | src/process/process.c:203-208 | a BLOCKED process becomes READY and is appended, anything else changes nothing; the links stay a list if and only if no BLOCKED process that is still linked is woken; the invariant is kept |
| Scheduler.Kernel.SleepCurrent | src/process/process.c:210-217 | the current process is BLOCKED until now + ms in 64 bits; the invariant survives exactly if that is legal; `SchedLaws.SleepsExactly` says when it comes back |
| Scheduler.Kernel.ExitCurrent | src/process/process.c:175-193 | performs the exit step; the invariant survives exactly if that is legal |
| Scheduler.Kernel.KillProc | src/kernel/sys.c:192-197 | performs the kill step; the invariant survives exactly if that is legal |
| Scheduler.Kernel.ReapZombie | src/kernel/sys.c:162-190 | null exactly without a current process or another ZOMBIE; otherwise the lowest of them is freed and no other slot changes; the invariant is kept |
| Scheduler.Kernel.CheckSleepers | src/process/process.c:367-379 | wakes exactly the due sleepers, in table order; the links stay a list if and only if none of them was still linked |
| Scheduler.Kernel.SwitchSchedule | src/kernel/switch.c:30-69 | performs the switch step on the linked queue, keeps the invariant, and names the process switched to |
| Scheduler.Kernel.TimerTick | src/kernel/switch.c:81-132 | performs the tick step; the invariant survives if and only if the tick is legal, and otherwise the links are no list of anything |
| HeapModel.GuardsAgree | src/memory/kheap.c:83-97 | the two readings of the split guard agree exactly when the slack holds a header |
| HeapModel.RoundUpCovers | src/memory/kheap.c:117-120 | the rounded request covers the request exactly up to 2^64 - 16 |
| HeapModel.FirstFit | src/memory/kheap.c:121-133 | the first free block that holds the request, or none |
| HeapModel.PiecesCorrect | src/memory/kheap.c:83-97 | the pieces of a split block tile it, the first is used and covers the request |
| HeapModel.CarveCorrect | src/memory/kheap.c:117-134 | allocation keeps the tiling, makes no free pair, moves exactly the carved size from free to used and keeps every live block |
| HeapModel.CoalesceCorrect | src/memory/kheap.c:99-114 | merging keeps the tiling and the live blocks, leaves no free pair, and turns removed headers into free bytes |
| HeapModel.TilesTotal | src/memory/kheap.c:203-238 | used, free and header bytes of a tiling add up to the region |
| HeapModel.PayloadsDisjoint | src/memory/kheap.c:117-134 | a payload byte of one block lies in no other block, header included |
| HeapModel.ReuseIsUnsafe | src/memory/kheap.c:84-85 | as written, allocating 16 bytes again after freeing 16 is already unsafe |
| KHeap.TakenHeadersSpell | src/memory/kheap.c:117-134 | on a safe request the headers written spell the carved block list |
| KHeap.TakenHeadersBroken | src/memory/kheap.c:83-97 | on an unsafe request no block list at all fits the headers afterwards |
| KHeap.ClobberSparesLive | src/memory/kheap.c:83-97 | a header written inside a free block destroys no live payload |
| KHeap.SpellingFollows | src/memory/kheap.c:203-238 | any two block lists spelled from one start pass the same addresses |
| KHeap.WrappedCopyOverruns | src/memory/kheap.c:151-170 | when the size wraps to zero, the copy stays inside the new block if and only if there is nothing to copy or the block taken was too small to split and is large enough; otherwise it runs over the next header or the end of the heap |
| KHeap.Heap.constructor | src/memory/kheap.c:53-81 | one free block over the region |
| KHeap.Heap.SplitBlock | src/memory/kheap.c:83-97 | the headers, bytes and counter after a split, or no change |
| KHeap.Heap.TakeAt | src/memory/kheap.c:121-133 | taking a block leaves a heap with a block list exactly if its slack does not wrap |
| KHeap.Heap.Kmalloc | src/memory/kheap.c:117-134 | fails exactly on zero or when nothing fits; takes the first fit; the heap stays sound if and only if the request is safe; live payloads keep their bytes |
| KHeap.Heap.MergeBlocks | src/memory/kheap.c:99-114 | the linked headers end up as the coalesced list, counters and live bytes kept |
| KHeap.Heap.Kfree | src/memory/kheap.c:137-149 | exactly the freed block becomes free and is merged; null and free blocks change nothing; live payloads keep their bytes |
| KHeap.Heap.Krealloc | src/memory/kheap.c:151-170 | keeps the old contents at the front of the new block, every other live block and its bytes; the four cases of null, zero, in place and move; the new block holds the size asked for exactly if that does not wrap |
| KHeap.Heap.WalkBlocks | src/memory/kheap.c:203-238 | on any chain of headers that ends, counts each bad magic, bad flag word and gap, the used blocks, and finds the largest free one |
| KHeap.NoFaultsExactly | src/memory/kheap.c:198-224 | it counts nothing if and only if the headers spell a list of blocks without gaps |
| KHeap.HealthyWalk | src/memory/kheap.c:203-238 | on a healthy heap it passes exactly the blocks and counts nothing |
| KHeap.Heap.Validate | src/memory/kheap.c:242-249 | returns 0, and used + free + headers is the region |
| VfsModel.PutInv | src/fs/vfs.c:723-734 | a descriptor added for a live node keeps all counts, installations, closes and pipe slots in step |
| VfsModel.DropInv | src/fs/vfs.c:741-757 | a descriptor dropped keeps them in step |
| VfsModel.PipeInv | src/fs/vfs.c:335-386 | a new pipe with both ends installed keeps them in step |
| VfsModel.AbortPipeInv | src/fs/vfs.c:376-383 | a pipe with one end installed and taken back keeps them in step and the tables as they were |
| VfsModel.Dup2Inv | src/fs/vfs.c:529-554 | dup2 keeps them in step, also onto a slot with the same node |
| VfsModel.Dup2Effect | src/fs/vfs.c:529-554 | dup2 changes one slot; onto the same node no count changes and nothing closes |
| VfsModel.RemoveTableInv | src/fs/vfs.c:706-721 | freeing an emptied table keeps them in step |
| VfsModel.NewTableInv | src/fs/vfs.c:695-704 | a new empty table keeps them in step |
| VfsModel.CloseRunsAtLastDrop | src/fs/vfs.c:741-757 | the backend close runs exactly when the dropped descriptor is the last one for its node in any table |
| VfsModel.ClosedOnce | src/fs/vfs.c:706-757 | no installation is closed twice, and a closed one is not referenced |
| VfsModel.PipeInUseExactly | src/fs/vfs.c:256-320 | a pipe slot is in use exactly while some descriptor in some table points at one of its ends |
| VfsModel.HeldIsInstalled | src/fs/vfs.c:723-734 | what a descriptor points at is a live, counted, described node |
| VfsLayer.Layer.constructor | src/fs/vfs.c:390-404 | only the kernel table, with the three standard descriptors and nothing else |
| VfsLayer.Layer.AllocNode | src/fs/vfs.c:150-160 | the lowest free pool entry, or none exactly when none is free |
| VfsLayer.Layer.FreeNode | src/fs/vfs.c:162-170 | clears an unreferenced pool entry |
| VfsLayer.Layer.FdTableAlloc | src/fs/vfs.c:723-734 | the lowest empty slot gets the node, or nothing changes and the table is full |
| VfsLayer.Layer.FdTableClose | src/fs/vfs.c:741-757 | empties exactly one open slot and drops its reference, or fails exactly on a bad or empty one |
| VfsLayer.Layer.CloseBackend | src/fs/vfs.c:304-320 | the end counter drops and the slot is released with its last end |
| VfsLayer.Layer.VfsClose | src/fs/vfs.c:476-481 | the same for the current table, invariant kept |
| VfsLayer.Layer.VfsDup | src/fs/vfs.c:514-527 | the lowest empty slot shares the node; fails exactly on a bad descriptor or a full table |
| VfsLayer.Layer.VfsDup2 | src/fs/vfs.c:529-554 | the result, the cases that change nothing, and the replaced slot |
| VfsLayer.Layer.VfsOpen | src/fs/vfs.c:429-474 | fails exactly when the backend, the node pool, the table or the heap does, and then no node is lost; the backend is shut exactly when the pool is empty; on success the lowest empty slot is the only reference to a new node, in the old table or in a new one right behind the standard descriptors the pool allowed; other tables untouched |
| VfsLayer.Layer.VfsPipe | src/fs/vfs.c:335-386 | fails exactly without a pipe slot, two free nodes or two empty slots; on success the first two empty slots hold the two ends of a slot that was not in use; on failure tables, installations and pipe slots are as before and exactly 0, 1 or 2 nodes are lost to the pool |
| VfsLayer.EndsLost | src/fs/vfs.c:376-383 | both filled-in nodes are lost when neither end found a slot, one when the read end did |
| VfsLayer.Layer.PipeAllocIndex | src/fs/vfs.c:256-261 | the lowest pipe slot not in use |
| VfsLayer.Layer.InstallStd | src/fs/vfs.c:676-691 | the first three slots get console nodes of their own: all three, or as many as there are free nodes |
| VfsLayer.Layer.FdTableCreate | src/fs/vfs.c:695-704 | a table with exactly the standard descriptors the pool allows |
| VfsLayer.Layer.FdTableDestroy | src/fs/vfs.c:706-721 | drops every descriptor of the table and the table; the invariant holds, so every last reference was closed once |
| VfsLayer.Layer.FdTableClone | src/fs/vfs.c:759-774 | the copy has the same descriptors; nothing is installed or closed |
| PipeBuffer.AtDistinct | src/fs/vfs.c:263-302 | positions less than a turn apart are different places of the ring |
| PipeBuffer.WindowSplit | src/fs/vfs.c:263-282 | the buffered bytes split at any point, across the wrap |
| PipeBuffer.WindowWrite | src/fs/vfs.c:284-302 | writing at the head extends the buffered bytes by one |
| PipeBuffer.Pipe.constructor | src/fs/vfs.c:335-348 | an empty pipe |
| PipeBuffer.Pipe.Write | src/fs/vfs.c:284-302 | accepts the longest prefix that fits; accepted bytes equal returned bytes followed by buffered ones |
| PipeBuffer.Pipe.Read | src/fs/vfs.c:263-282 | returns the oldest bytes in order, as many as asked for or there are |
| Mounts.CoversTest | src/fs/vfs.c:115-148 | the character tests of the lookup decide whole-component prefixes |
| Mounts.CoversChain | src/fs/vfs.c:115-148 | covering mountpoints of one path are ordered by length, so the longest is unique |
| Mounts.MountTable.Register | src/fs/vfs.c:406-427 | replaces a mounted path, appends another while there is room; one entry per mountpoint exactly unless a cut path collides |
| Mounts.MountTable.Choose | src/fs/vfs.c:115-148 | selects the unique longest covering mountpoint, or none exactly when nothing covers the path |
| Mounts.MountTable.FindOps | src/fs/vfs.c:115-148 | the operations of that mountpoint, with null meaning the virtual-file adapter; a bare name gets those of the root mountpoint, and nothing exactly when that is not mounted |
| Paths.PrefixByComponents | src/fs/vfs.c:129-141 | a component prefix is a character prefix that ends at a boundary |
| Bits.TestSet | src/memory/memory.c:45-47 | setting a bit changes that bit only |
| Bits.TestClear | src/memory/memory.c:49-51 | clearing a bit changes that bit only |
| Bits.TestIntBit | src/memory/memory.c:53-55 | converted to `int`, the test of a bit is true exactly if the bit is set and lies in the lower half of the word |
| Pmm.MatchesUnique | src/memory/memory.c:213-226 | the bitmap determines the set of free frames |
| Pmm.TakeFrame | src/memory/memory.c:45-47 | setting a frame's bit takes exactly that frame from the free set |
| Pmm.GiveFrame | src/memory/memory.c:49-51 | clearing a frame's bit adds exactly that frame to the free set |
| Pmm.WholeExactly | src/memory/memory.c:252-254 | the frames a range is freed by are those that lie whole in it, in bytes; what a sum of more than 64 bits changes |
| Pmm.TouchedExactly | src/memory/memory.c:240-242 | the frames a range is reserved by are those with a byte in it, and for an empty range the one it starts inside |
| Pmm.PhantomsFromBoot | src/memory/memory.c:240-250 | while only frames in lower halves are free, a range counts nothing twice exactly if it has only such frames |
| Pmm.FrameAllocator.constructor | src/memory/memory.c:58-183 | everything taken, no counts, tables placed at the first page behind the kernel |
| Pmm.FrameAllocator.ReservedCovers | src/memory/memory.c:252-280 | the kernel, the bitmap with a bit for each frame and the count array with four bytes for each frame do not overlap, and every byte of them lies in a reserved frame |
| Pmm.FrameAllocator.ReservedExactly | src/memory/memory.c:252-280 | reserved are exactly the frames that begin before the count array ends |
| Pmm.FrameAllocator.Alloc | src/memory/memory.c:210-229 | takes the lowest free frame, fails exactly when none is free or the count is 0, never hands out a reserved frame or one `bitmap_test` cannot see |
| Pmm.FrameAllocator.IsTaken | src/memory/memory.c:53-55 | reports a frame as taken exactly if it is and its bit lies in the lower half of its word |
| Pmm.FrameAllocator.Search | src/memory/memory.c:213-226 | the word scan finds the lowest free frame exactly if there is one |
| Pmm.FrameAllocator.FreePage | src/memory/memory.c:231-238 | frees the frame if and only if its bit lies in the lower half of its word; the count follows the free set; no reserved frame becomes free unless a caller frees one |
| Pmm.FrameAllocator.ReserveRange | src/memory/memory.c:240-250 | takes exactly the frames with a byte in the range, and for an empty range the one it starts inside; the free count falls short by exactly the number of taken frames of the range whose bit is in an upper half, and stays right if and only if there are none |
| Pmm.FrameAllocator.ReserveDriftsAtBoot | src/memory/memory.c:240-250 | reserving frame 32 right after boot leaves 2^64 - 1 as the number of free frames |
| Pmm.FrameAllocator.FreeRange | src/memory/memory.c:252-280 | a frame is free afterwards exactly if it was, or lies whole in the range of bytes, is not reserved and has its bit in the lower half of its word |
| Pmm.FrameAllocator.RefInc | src/memory/memory.c:306-311 | one count up, wrapping in 32 bits |
| Pmm.FrameAllocator.RefDec | src/memory/memory.c:313-320 | one count down, not below 0; the new count as an `int`, or -1 |
| PageTables.WalkExactly | src/process/vm.c:16-56 | a walk from a root finds a table exactly if it is the one located at the path |
| PageTables.WriteLeafForest | src/process/vm.c:200-224 | a leaf write keeps the tables disjoint unshared trees |
| PageTables.WriteLeafLookup | src/process/vm.c:200-224 | a leaf write changes the translation of one page of one space |
| PageTables.GrowForest | src/process/vm.c:26-53 | a new table linked at an absent entry keeps the trees |
| PageTables.GrowLookup | src/process/vm.c:26-53 | a new empty table changes no translation |
| PageTables.LeafDecides | src/process/vm.c:26-53 | the directories never restrict user access, at any depth |
| PageTables.AccessExactly | src/process/vm.c:26-53 | user mode may read or write a page if and only if its leaf entry says so |
| PageTables.PageOfExact | src/process/vm.c:17-20 | two addresses share all four indices exactly when they are in the same page of the 48-bit space |
| PageTables.LowPage | src/process/vm.c:17-20 | pages are the 4 KB pieces of the 48-bit address space |
| PageTables.UserHalf | src/process/vm.c:17-20 | the user half is the lower half of the 48-bit space |
| Spaces.NewRoot | src/process/vm.c:58-88 | a new root with an empty user half joins the trees and maps nothing |
| Spaces.LeafGrants | src/process/vm.c:206 | the entry for an address and flags is present, has each flag exactly as asked for, and the page of the low 52 bits of the address |
| Spaces.WriteLeafAll | src/process/vm.c:200-224 | after a leaf write every page of every space but one translates as before |
| Spaces.OwnedAlloc | src/memory/memory.c:210-229 | an allocated frame becomes held, and every other frame keeps its role |
| Spaces.OwnedFree | src/memory/memory.c:231-238 | a held frame given back becomes free, and every other frame keeps its role |
| Spaces.OneRole | src/memory/memory.c:210-238 | every frame the allocator can hand out has exactly one role: free, table, mapped or held |
| Spaces.OwnedWrite | src/process/vm.c:200-224 | mapping a held frame, or unmapping, leaves every frame with one role |
| Spaces.HeldWrite | src/process/vm.c:200-224 | after a leaf write exactly the frame just mapped is no longer held and exactly the one it replaced is |
| Spaces.LeafLookup | src/process/vm.c:16-56 | a leaf entry is the translation of the page at its place |
| Spaces.ReleasedBacked | src/process/vm.c:254-262 | freeing the frame of a page takes no frame from another page if and only if no other page was mapped to it |
| Spaces.RemoveSpace | src/process/vm.c:166-198 | without one space the others are still disjoint trees |
| Spaces.RemoveSpaceBacked | src/process/vm.c:166-198 | after a space is destroyed the pages of the others still own their frames if and only if none of those frames is lost, for whatever counts there were |
| Spaces.RemoveSpaceOwned | src/process/vm.c:166-198 | with one role per frame and no counts, exactly the tables and the mapped frames of the space are freed, and every frame has one role again |
| Spaces.RemoveSpaceHeld | src/process/vm.c:166-198 | and a frame is held exactly if it was |
| Cloning.CloneTranslations | src/process/vm.c:90-164 | a complete copy of the tables translates page by page like the source |
| Cloning.ClonedPage | src/process/vm.c:90-164 | parent and child map the frame the parent had; neither can write it from user mode; formerly writable pages are marked; all other entries are unchanged |
| Cloning.ClonedAccess | src/process/vm.c:90-164 | user mode may read on either side exactly what the parent could and write nothing; other spaces may do what they could |
| Cloning.ImageSlots | src/process/vm.c:97-155 | the copy maps each frame in as many entries as the copied part of the source does |
| Cloning.CountedMore | src/process/vm.c:127-136 | the counts after sharing the pages of several leaf tables add up table by table, in any order |
| Cloning.SharesExactly | src/process/vm.c:127-136 | the count after any number of user-writable entries, in closed form, overflow included |
| Cloning.ClosedSmall | src/process/vm.c:127-136 | without overflow it is the sum, and one more if the count was 1 on the way |
| Cloning.CostBounded | src/process/vm.c:97-155 | the frames needed to reach a leaf table are at most those for all tables |
| Cloning.ReachedStop | src/process/vm.c:97-155 | a copy that stops has reached exactly the leaf tables the free frames were enough for in the order of the loops |
| Cloning.RootEnds | src/process/vm.c:90-164 | a clone succeeds if and only if there are as many free frames as the source has tables |
| Cloning.ForkCopiesExactly | src/process/vm.c:127-136 | the first write to a user-writable page after a clone is told apart if and only if, short of overflow, its frame had a count or has two user-writable entries; with overflow, by the place of the count in its cycle |
| Cloning.FirstForkShares | src/process/vm.c:127-136 | with count 0, as every frame has that was just allocated, and one entry it is not |
| Cloning.FailedBacked | src/process/vm.c:161-164 | after a failed clone the pages of all spaces still own their frames if and only if none is lost with the half-built copy |
| Cloning.LostByExactly | src/process/vm.c:161-164 | which frames of the source are lost, from the count of the frame and the numbers of its entries |
| Cloning.FailedLoses | src/process/vm.c:161-164 | with one role per frame and no counts, exactly the frames below the top-level entries completed before the failure are lost |
| Cloning.FailedLosesPage | src/process/vm.c:161-164 | so every page below a completed entry loses its frame |
| Cloning.ForkLoses | src/process/vm.c:166-198 | destroying either side of a finished clone loses frames of the other side exactly when a clone given up behind the last entry would |
| Vm.AddressSpaces.constructor | src/process/vm.c:268-273 | no spaces |
| Vm.AddressSpaces.GetPte | src/process/vm.c:16-56 | the leaf table of the page, made if missing; no translation changes; exactly the frames of the missing tables leave the free set and are tables of this space |
| Vm.AddressSpaces.FindPte | src/process/vm.c:16-56 | the leaf table of the page, or nothing is mapped there |
| Vm.AddressSpaces.MapPage | src/process/vm.c:200-212 | this page translates to the page of the given address with user, writable, copy-on-write and other flags exactly as given, and user mode may read and write it exactly as the flags say; every other page of every space as before; old tables keep their place and exactly the missing tables leave the free set; the frame just mapped is no longer held, the one it replaced is, and all others keep their roles |
| Vm.AddressSpaces.MapThenFind | src/process/vm.c:200-233 | what was mapped is found: the address rounded down to its page |
| Vm.AddressSpaces.UnmapPage | src/process/vm.c:214-224 | removes exactly one page and fails exactly if it was not mapped; its frame becomes held and all others keep their roles |
| Vm.AddressSpaces.ObtainPage | src/process/vm.c:240-248 | fails exactly without a free frame; otherwise a frame that was free is mapped, and the frame the page had, if any, is left held |
| Vm.AddressSpaces.ReleasePage | src/process/vm.c:257-261 | the page is unmapped and its frame freed whatever its count; the frames of other pages stay taken if and only if none was mapped to it; with one role per frame nothing becomes or stops being held |
| Vm.AddressSpaces.GetPhysical | src/process/vm.c:226-233 | the frame the page translates to, or 0 |
| Vm.AddressSpaces.CreateSpace | src/process/vm.c:58-88 | a new root that maps nothing; all translations, frame roles, held and taken frames kept; fails exactly without a free frame |
| Vm.AddressSpaces.DestroyTable | src/process/vm.c:169-196 | gives back the table and all tables below it; each mapped frame has its count lowered once per entry and is freed exactly if that reaches or finds 0 |
| Vm.AddressSpaces.DropFrame | src/process/vm.c:181-187 | one count less, and the frame is freed exactly if none is left |
| Vm.AddressSpaces.DestroySpace | src/process/vm.c:166-198 | the free set and all counts afterwards, for whatever counts there were; mapped frames of the other spaces stay taken if and only if none is lost; with one role per frame and no counts, exactly the tables and mapped frames of the space are freed, held frames stay held and every frame has one role again |
| Vm.AddressSpaces.CopyPages | src/process/vm.c:119-141 | every present entry of a leaf table is copied, user-writable ones write-protected and marked on both sides, and the counts of their frames raised once per entry |
| Vm.AddressSpaces.CopyPage | src/process/vm.c:119-141 | the same for one entry |
| Vm.AddressSpaces.CloneTable | src/process/vm.c:97-155 | copies a table and all below it into frames that were free, with the counts of all pages it reached; succeeds exactly if the free frames suffice, and otherwise reaches exactly the leaf tables they were enough for |
| Vm.AddressSpaces.CloneSpace | src/process/vm.c:90-164 | succeeds if and only if there are as many free frames as the source has tables; success: the child translates like the parent, no table is shared, all counts, other spaces unchanged, mapped frames stay taken; failure: every page keeps its frame number, exactly the leaf tables the free frames were enough for are write-protected and counted, and the frames stay taken if and only if none is lost |
| Vm.AddressSpaces.ReadPage | src/process/vm.c:311-315 | the page read through its translation |
| Vm.AddressSpaces.WritePage | src/process/vm.c:320-323 | the page written through its translation, no other frame touched |
| Vm.AddressSpaces.HandleCowFault | src/process/vm.c:275-332 | the exact accepting condition; in place when counted at most once; otherwise a private writable frame with the same bytes, every other translation and the old frame unchanged, its count one lower; mapped frames stay taken |
| Vm.AddressSpaces.ForkThenFault | src/process/vm.c:275-332 | fork, then a write fault of either side: the writer gets a private copy and the other side keeps page and bytes if and only if the counts told the sharing apart; otherwise the writer writes to the frame both map |
| Vm.AddressSpaces.ForkThenDestroy | src/process/vm.c:166-198 | fork, then the end of either side: the mapped frames of the survivor stay taken if and only if the counts covered them |
| Lifetimes.Lifetime | src/process/vm.c:58-262 | create, any run of pages given and taken, destroy: the other spaces and their holders keep everything, and the free frames are those before except one for each time a page was given a frame while it had one; so they are the same if and only if that never happened |
| Lifetimes.LedgerClosed | src/process/vm.c:166-198 | once the space is gone, the free frames follow from what the others map and hold |
| Lifetimes.ObtainLedger | src/process/vm.c:240-248 | giving a page a frame loses exactly the frame it had |
| Lifetimes.ReleaseLedger | src/process/vm.c:257-261 | taking a page loses nothing |
| KernelTables.GrowTree | src/memory/paging.c:53-68 | a new table keeps the tree |
| KernelTables.GrowLookup | src/memory/paging.c:53-68 | a new table changes no lookup |
| KernelTables.WritePage | src/memory/paging.c:159-174 | a 4 KB entry changes the lookups of one page |
| KernelTables.WriteHuge | src/memory/paging.c:176-188 | a 2 MB entry changes the lookups of one region |
| KernelTables.WriteAllowed | src/memory/paging.c:53-68 | a mapped address may be written if and only if the flags of its own entry say so |
| KernelTables.RegionExact | src/memory/paging.c:36-39 | two addresses share three indices exactly when they are in the same 2 MB region |
| KernelTables.LowRegion | src/memory/paging.c:36-39 | regions are the 2 MB pieces of the 48-bit address space |
| Paging.BootAddresses | src/memory/paging.c:141-150 | with the boot mappings, whatever else is mapped, addresses below 4 GB translate to themselves and the 2 MB from 0xFFFFFFFF80000000 to physical 0 on |
| Paging.BootStays | src/memory/paging.c:159-174 | a 4 KB mapping where no 2 MB page is keeps the boot mappings, after any number of such mappings, and looks up as its frame plus offset |
| Paging.BootedHasBoot | src/memory/paging.c:141-150 | the state after boot has the boot mappings |
| Paging.BootComplete | src/memory/paging.c:141-150 | the identity loop and the kernel window together are the boot mappings and nothing else |
| Paging.EightTables | src/memory/paging.c:126-150 | the boot mappings need eight frames |
| Paging.KernelSpace.GetOrCreateTable | src/memory/paging.c:53-68 | the table behind an entry, made if missing, 0 exactly when no frame is free for it; no lookup changes |
| Paging.KernelSpace.LastTable | src/memory/paging.c:159-170 | the walk to the last table succeeds exactly if the frames for the missing tables are there, and changes no lookup |
| Paging.KernelSpace.Map | src/memory/paging.c:159-174 | every address of the page translates to the same offset in the page of the physical address, with the flags given, and may be written exactly if these say so, when the tables can be made; nothing changes otherwise, and no other lookup ever; the boot mappings stay |
| Paging.KernelSpace.MapThenFind | src/memory/paging.c:159-211 | what was mapped is found, at every address of the page |
| Paging.KernelSpace.MapHuge | src/memory/paging.c:176-188 | every address of the region translates to the same offset in the 2 MB around the physical address, with the flags given, when the tables can be made; nothing changes otherwise, and no other lookup ever |
| Paging.KernelSpace.GetPhysical | src/memory/paging.c:190-211 | the physical address of the lookup, or 0 |
| Paging.KernelSpace.MapIdentity | src/memory/paging.c:141-144 | with seven frames free the loop maps the first 4 GB to themselves and nothing else |
| Paging.KernelSpace.Init | src/memory/paging.c:126-150 | the boot mappings, and nothing else, are in place exactly when eight frames were free |
| NsModel.SplitConcat | src/fs/ns.c:102-115 | the components of a concatenated text |
| NsModel.ExpandedTwice | src/fs/ns.c:117-147 | one round of alias expansion is enough |
| NsModel.CanonicalIsNormal | src/fs/ns.c:122-152 | a canonical path is its own canonical path exactly when it respects the depth limit |
| NsModel.TooDeep | src/fs/ns.c:122-152 | every canonical path beyond the depth limit has no canonical form itself |
| NsModel.CanonicalTooDeep | src/fs/ns.c:122-152 | a path of depth 16 below an alias has a canonical path that is not itself valid |
| NsModel.AliasAgrees | src/fs/ns.c:34-38 | an alias and its canonical spelling have the same canonical path before every suffix the longer one admits |
| NsModel.AliasResolves | src/fs/ns.c:181-304 | and name the same resource |
| NsModel.ParentResolves | src/fs/ns.c:181-304 | if a path resolves, so does every path above it, for every spelling |
| NsModel.BelowResolves | src/fs/ns.c:181-304 | below a volume, a user store or namespace content every valid path is the same resource |
| NsTree.ResolvesByTable | src/fs/ns.c:181-304 | against a table of 18 nodes: a valid path names what the node that matches its canonical components says, with the device and partition number where the node marks them, and is unresolved exactly if no node matches |
| NsTree.KindByTable | src/fs/ns.c:181-304 | the kind of a path is k if and only if a node of kind k matches |
| NsTree.OneMatch | src/fs/ns.c:181-304 | at most one node of the table matches |
| NsTree.FsOutcome | src/fs/ns.c:475-527 | the outcome of the translation by kind: unknown, no file, another volume exactly for a partition that is not listed or starts elsewhere, and otherwise the text that is written, exactly if it fits |
| NsModel.UserPath | src/fs/ns.c:475-527 | 0/user/x translates to a slash and x in lower case without trailing slashes |
| NsModel.PartitionPath | src/fs/ns.c:475-527 | device/partitions/N/x with N mounted translates to the same, for every spelling of the device |
| NsModel.SamePath | src/fs/ns.c:475-527 | both spellings give the same filesystem path, no longer than either |
| NsModel.ContentPathGrows | src/fs/ns.c:465-527 | for 0/system/x the result is one longer than the input |
| NsModel.GrowthOf | src/fs/ns.c:34-38 | expansion lengthens a path by 16 characters for 0/hmr, by 17 for the other two aliases and by none otherwise |
| NsModel.ContentPathLength | src/fs/ns.c:465-527 | for namespace content, aliases included, the result fits in the input's length exactly when the stripped input, the growth of its alias and one slash do |
| Namespace.Normalize | src/fs/ns.c:46-59 | lower case without trailing slashes, character by character, failing exactly from 256 characters on |
| Namespace.NormalTwice | src/fs/ns.c:122-125 | normalising a normalised path changes nothing |
| Namespace.ParseValid | src/fs/ns.c:70-99 | accepts exactly a digit followed by at most 16 components of valid characters that are not all dots |
| Namespace.CharSet | src/fs/ns.c:61-64 | the characters of a component are the lower-case letters, the digits and three signs |
| Namespace.NoDotDot | src/fs/ns.c:70-99 | no component of a valid path is empty, a dot or two dots |
| Namespace.ScanComponents | src/fs/ns.c:78-98 | the character scan decides the grammar of components |
| Namespace.SplitPath | src/fs/ns.c:102-115 | the components of the text, at most as many as asked for |
| Namespace.ExpandAliases | src/fs/ns.c:127-147 | the loop expands the leading alias by components and never needs a second replacement |
| Namespace.CanonicalPath | src/fs/ns.c:122-152 | normalise, check and expand give the canonical path, shorter than 256 characters and than the buffer, or fail exactly when one of these does not hold |
| Namespace.ParseIndex | src/fs/ns.c:168-179 | exactly the decimal numbers from 1 to 1000000 |
| Namespace.LeadingDigit | src/fs/ns.c:168-179 | numbers are read in decimal: the leading digit counts a power of ten for each digit behind it |
| Namespace.ResolvePath | src/fs/ns.c:181-304 | the resource of the canonical components, which `NsTree.ResolvesByTable` gives by a table |
| Namespace.SkipComponents | src/fs/ns.c:467-473 | the text behind the first n components |
| Namespace.ToFsPath | src/fs/ns.c:475-527 | the translation on texts agrees with the one on components |
| Checksum.Fold | src/net/ip.c:19-22 | adding carries back in keeps the sum modulo 65535 and 0 apart |
| Checksum.TotalIsWeighted | src/net/ip.c:14-24 | the sum of the words counts the bytes 1 and 256 in turn, and the last byte of an odd number 256 |
| Checksum.Checksum16 | src/net/ip.c:14-24 | the value below 2^16 that makes the weighted bytes a multiple of 65535, and 0xFFFF exactly for data that is all zero; the complement of the one's complement sum of the words |
| Checksum.StoredChecksumChecks | src/net/ip.c:14-24 | a header with the checksum stored in its zeroed field checks to 0 |
| Checksum.ChangedWord | src/net/ip.c:14-24 | a change of one word goes unnoticed exactly for 0 exchanged with 0xFFFF |
| Checksum.OddLength | src/net/ip.c:21-23 | for odd lengths the value is that of the padded data exactly when the last byte is 0 |

## Left out

- KHeap.Heap.Kfree: pointers that are neither null nor the payload of a block are not modelled.
- KHeap.Heap.Krealloc: a move is stated for a request that is safe for `kmalloc` and for a copy that fits; `KHeap.Heap.Kmalloc` and `KHeap.WrappedCopyOverruns` say what happens up to the point where a header is overwritten.
- Scheduler.Kernel.RunnableCount: on links that lead in a circle the walk has no end and the model no call.
- Vm.AddressSpaces.GetPte: does not cover an exhausted frame allocator, where a table is written to address 0.
- Vm.AddressSpaces.MapPage: the same holds for the mapping that calls it, and kernel-half addresses are not modelled.
- Vm.AddressSpaces.CreateSpace: the record of the space and its region bounds, allocated with kmalloc, are not modelled.
- Vm.AddressSpaces.HandleCowFault: faults in the kernel half of the address space are not modelled.
- Paging.KernelSpace.Map: a target behind a 2 MB entry, where a data page would be used as a table, is excluded, and the flags are kept apart from the address, so flags that hold PAGE_HUGE or address bits are not modelled.
- Paging.KernelSpace.MapHuge: flags that hold address bits are not modelled.
- Paging.KernelSpace.Init: the extension of the boot tables and the early exits before it are not modelled.
- Namespace.ResolvePath: the detected storage device is a parameter; null pointers are not modelled.
- Namespace.ToFsPath: buffer sizes of 2^31 and more, which the code turns into a negative number, are not modelled.
- Vm.AddressSpaces.ObtainPage: one round of vm_alloc_pages; where the heap of the process ends, and physical addresses of more than 52 bits, are not modelled.
- paging_alloc, which loops over calls modelled here.
- TLB invalidation, CR3 loads, PCIDs and register contents: every kernel operation is one step.
- The memory map walk of pmm_init: which ranges are freed at boot is up to the caller of `FreeRange`.
- Reading, writing and seeking on descriptors other than pipes, and the ramfs and virtual-file backends: dispatch and formatting.
- The on-disk filesystem, the state graph, the intent dispatcher, the language parser, the shell and the drivers.
- ICMP and TCP beyond the checksum.
