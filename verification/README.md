# Proofs about the kernel

AKOS is a 32-bit hobby kernel. This project models five parts of it that carry invariants of their own,
and proves what they are relied on for. They stack up: the user heap asks for a break, the break for
pages, the pages for frames, and the scheduler gives the frames back when it reaps a process.

1. **Scheduler.** The ready queue is a linked list that is rotated by removing the head and inserting it
   by priority. `Scheduler.dfy` has the list in place; `ReadyQueue.dfy`, `Starvation.dfy`,
   `Dispatching.dfy`, `SchedulerRuns.dfy`, `SleepTimes.dfy` and `CpuProgress.dfy` say what its operations
   mean: the 2^k - 1 starvation bound and that it is tight, when the dispatch loop ends, how long a sleep
   lasts. `ThreadFlags.dfy` follows the entry of one thread through a run: what a tick, a sleep and a
   suspension do to it and what they leave. `Reaping.dfy`, `ProcessRuns.dfy` and `ProcessTable.dfy` add process blocks: the last reaped
   thread frees its process, exactly once.
2. **Memory.** `Words.dfy` and `Bitmaps.dfy` are the bitmap that the frame allocator and both heaps share;
   `BlockHeap.dfy` and `KernelHeap.dfy` the kernel heap. `PageEntries.dfy`, `PageTables.dfy`,
   `Ownership.dfy`, `AddressSpaces.dfy` and `Teardown.dfy` are two-level page tables in frames taken from
   that bitmap (32-bit paging, Intel SDM volume 3A, section 4.3), with `VirtualMemory.dfy` for the code in
   place. `UserHeap.dfy` and `ProcessHeap.dfy` put malloc, the break and the page tables together, and
   `BorrowedPage.dfy` and `ProcessTeardown.dfy` follow an address space from its creation to the reap.
3. **FAT12.** `FatEntries.dfy` is the packing of 12-bit entries (Microsoft FAT specification 1.03, section
   "FAT Data Structure"), `FatChains.dfy` the chains, `FatFiles.dfy` the recursive transfer, `FatRuns.dfy`
   runs of it, `FatDirectory.dfy` the root directory and the round trip, `FatCreate.dfy` the creation of a file
   in it, `FatDrive.dfy` the driver in place.
4. **Line editor.** `TextLines.dfy` says what an edit of a chunked line does to the flat text,
   `TextCursor.dfy` which region the cursor hands to it, `TextRegions.dfy` has the linked regions and their
   shifting loops, `TextEditor.dfy` the cursor in place.
5. **Strings.** `Strings.dfy`: print and parse, split and join.

Code that works by changing things is modelled by classes and loops. Each such method is proved equal to a
function of the old state, and the theorems are about those functions. One kernel call is one step.

## What the proofs show to be false

The code is modelled as it is. Where it does not do what one would expect, the condition under which it does
is proved, or a concrete case in which it does not.

- After it has reaped a thread, `scheduler_dispatch` rotates the new head away without looking at it, so a
  runnable thread right behind a dead one is passed over (`CpuProgress.PassedOverIff`). It can then wait for
  every other thread in the queue, however few were ahead of it (`CpuProgress.PassedOverWaits`). The bound on
  dispatches in `CpuProgress.GetsTheCpu` therefore asks that it is not passed over, which
  `CpuProgress.NotPassedOver` gives a test for; the bound on rotations in `Starvation.NoStarvation` does not.
- With no runnable thread in the queue the dispatch loop never ends properly (`Dispatching.DispatchEndsIffRunnable`).
- `thread_sleep` of less than 10 ms blocks the thread with a delta of 0, and no tick wakes it
  (`SleepTimes.SleepIsExact`).
- A FAT transfer that exactly fills the last cluster of a chain leaves the position where it was
  (`FatRuns.HandleMovesOn`, `FatRuns.HandleMovesOnReading`), so the next write overwrites what was just written
  (`FatRuns.SecondWriteOverwrites`, `FatRuns.TwoWritesIff`).
- A transfer that ends in the middle of a sector beyond the length of its file goes on with a remaining length
  that has wrapped, beyond its buffer. When that is, is exact: `FatFiles.ReadEffect` for reads and
  `FatDirectory.WriteCallDoneIff` for writes. A read does not move the absolute position, so a write after a
  read can do it (`FatDirectory.ReadThenWriteIff`, `FatDirectory.ReadThenWriteRunsOn`).
- `fat12fsys_create` looks for the name only up to the first free slot, so that it can create a second file of a
  name that stands behind it (`FatCreate.CreatedIff`); opening then gives the new one (`FatCreate.CreatedIsFound`).
- On a full disk `fat12fsys_rw` goes on with cluster 0xFF0, a sector that no disk here has
  (`FatRuns.WriteOnFullDisk`, `FatRuns.WriteIsDoneIffRoom`).
- In the editor a backspace with the cursor in the first column of a region deletes another character, since
  the cursor is then in the region behind the one that holds the character before it
  (`TextCursor.BackspaceIff`, `TextLines.RemovesAtRegionStart`). With an empty last region it drops that region
  and does not shorten the text (`TextLines.RemovesIff`, `TextLines.SecondRemoveKeepsLength`).
- A line entered from above or below does not always have the cursor in the region of its column. The exact
  condition is `TextCursor.EntersRegionIff`: well inside the line, that the column is the first of a region or
  lies in the last one; at its end or behind its newline, that the last region is not empty; behind the end of
  a line without a newline, that the line does not fill its regions. For entering from the next line it is
  `TextCursor.EntersEndRegionIff`. What is typed then goes to the wrong place or is lost
  (`TextCursor.TypingAfterEntering`, `TextCursor.EnteringFullLine`, `TextCursor.EnteringEmptyTail`).
- A cursor on the text and in the region of its column is left on a null region by typing the last character
  that the regions of the line have room for, by the right arrow in the last column that they have
  (`TextCursor.RightLosesRegion`), and by no other key (`TextCursor.LosesRegionIff`).
- `vmmngr_free_virt` clears only the present bit, and mapping only adds flags, so a page that is freed and mapped
  again keeps every flag of its former mapping (`Ownership.RemappedKeepsFlags`).
- Termination releases the image, the break's range and the stacks and nothing else
  (`ProcessTeardown.TerminationReleasesIff`): a process that has another page mapped, such as a window's buffer,
  does not give all its frames back (`ProcessTeardown.ProcessLifeGivesAllBackIff`).

## Model

| member | source | states |
|---|---|---|
| `Scheduler.Scheduler.QueueInsert` | kernel/scheduler.c:198-225 | The linked list then holds the old threads followed by the new one; the current thread is the same as before, also when it was null. |
| `Scheduler.Scheduler.QueueInsertPrioritizedEntry` | kernel/scheduler.c:259-285 | The relinked list holds the thread behind the first entry of strictly lower priority, or at the end, never before the head. |
| `Scheduler.Scheduler.QueueInsertPrioritized` | kernel/scheduler.c:228-256 | A new thread goes to the same place, and no thread is lost. |
| `Scheduler.Scheduler.QueueRemove` | kernel/scheduler.c:288-298 | Takes the head out of the list and leaves the rest in order. |
| `Scheduler.Scheduler.QueueDeleteFirst` | kernel/scheduler.c:341-353 | Drops the head, or does nothing on an empty list. |
| `Scheduler.Scheduler.RotateHead` | kernel/scheduler.c:425-427 | Removing the head and inserting it by priority is one rotation of the queue, and the new head is current. |
| `Scheduler.Scheduler.ReleaseThread` | kernel/scheduler.c:439-451 | A reaped thread is taken off its process; the last one takes directory and block with it, and no earlier one does. |
| `Scheduler.Scheduler.SchedulerDispatch` | kernel/scheduler.c:418-459 | The loop ends on every queue with a runnable thread, with a runnable head as current; queue and process blocks are exactly the outcome of the dispatch function that the lemmas below are about. |
| `Scheduler.Scheduler.SchedulerTick` | kernel/scheduler.c:488-514 | Dispatch, then every sleep delta that is not 0 one lower, the block flag gone from those that reach 0, and nothing else changed of any thread (ThreadFlags.TickOfEntry). |
| `Scheduler.Scheduler.ThreadSleep` | kernel/scheduler.c:126-132 | The current thread is blocked with delta ms/10, then dispatch. |
| `Scheduler.Scheduler.ThreadWake` | kernel/scheduler.c:134-139 | The current thread loses the block flag and its delta; nothing else changes. |
| `Scheduler.Scheduler.ThreadSuspend` | kernel/scheduler.c:141-145 | The current thread is marked suspended, then dispatch. |
| `Scheduler.Scheduler.SetStateById` | kernel/scheduler.c:68-95 | Sets the flags on the first thread with the id, and on no other. |
| `Scheduler.Scheduler.RemoveStateById` | kernel/scheduler.c:97-124 | Clears the flags on the first thread with the id, and on no other. |
| `Scheduler.Scheduler.UnsuspendThreads` | kernel/scheduler.c:152-180 | Clears the suspended flag on exactly the threads whose process has the id. |
| `Scheduler.Scheduler.GetFreeTid` | kernel/scheduler.c:396-415 | Returns the id that FreeTid promises to be larger than every id in the queue. |
| `Scheduler.Scheduler.DisableScheduling` | kernel/scheduler.c:36-39 | The current task becomes null and the queue keeps its invariant. |
| `Scheduler.Scheduler.EnableScheduling` | kernel/scheduler.c:41-44 | The current task becomes the head of the queue. |
| `SchedulerRuns.FreeTid` | kernel/scheduler.c:396-415 | The id is positive and larger than every thread id in the queue. |
| `SchedulerRuns.FreeTidIsNext` | kernel/scheduler.c:396-415 | And it is 1 or one more than some id in the queue, so no id is skipped. |
| `ReadyQueue.InsertPlace` | kernel/scheduler.c:259-285 | Where an inserted thread stands: right behind the first entry of strictly lower priority, or at the end; all others keep their order. |
| `ReadyQueue.RotateElements` | kernel/scheduler.c:259-298 | A rotation neither loses nor duplicates a thread. |
| `ReadyQueue.RotateAround` | kernel/scheduler.c:259-298 | Where a rotation leaves an entry: the set ahead of it never gains a member, and the old head stays ahead only if a lower-priority entry is ahead too. |
| `Starvation.RotationLowersPotential` | kernel/scheduler.c:259-298 | Each rotation lowers a potential below 2^k of the k entries ahead of an entry, whatever their priorities. |
| `Starvation.NoStarvation` | kernel/scheduler.c:198-298 | An entry with k entries ahead is at the head at some point of every run with 2^k - 1 rotations, with tail inserts, removals of the head and state changes in between. |
| `Starvation.BoundIsTight` | kernel/scheduler.c:259-298 | Behind k entries of strictly falling priority the head is reached after exactly 2^k - 1 rotations and never before. |
| `Dispatching.Dispatch` | kernel/scheduler.c:418-459 | The loop as a function, with its lexicographic measure (queue length, rotations left for the first runnable thread): a runnable thread is at the head when it ends. |
| `Dispatching.PassDecreases` | kernel/scheduler.c:423-459 | Every pass that does not end the loop lowers that measure, also the one that reaps and leaves the next head unchecked. |
| `Dispatching.DispatchEndsIffRunnable` | kernel/scheduler.c:418-459 | The loop comes to an end if and only if some queued thread is neither terminated, asleep nor suspended. |
| `Dispatching.DispatchKeepsThreads` | kernel/scheduler.c:418-459 | The queue afterwards and the reaped threads are together the queue before, and only terminated threads of processes whose directory is not loaded are reaped. |
| `Dispatching.ReapsItsHeads` | kernel/scheduler.c:423-459 | The passes look at one head after another until the first runnable one, which becomes current; every one of them that is terminated and whose directory is not loaded is reaped, in that order, and nothing else. |
| `CpuProgress.GetsTheCpu` | kernel/scheduler.c:418-514 | A thread with k entries ahead that is runnable at each dispatch is current within 2^k - 1 dispatches, whatever is appended, put to sleep or reaped, as long as no dispatch reaps right in front of it and nothing is inserted in front of it. |
| `CpuProgress.GetsTheCpuIfClear` | kernel/scheduler.c:418-514 | The same with a condition that can be tested on the queue: at each dispatch, while it waits, no thread that would be reaped stands ahead of it. |
| `CpuProgress.NotPassedOver` | kernel/scheduler.c:423-459 | A dispatch of such a queue does not pass it over. |
| `CpuProgress.PassedOverIff` | kernel/scheduler.c:423-459 | A pass that does not end the loop leaves a waiting runnable thread at the head if and only if it reaps the one entry left in front of it. |
| `CpuProgress.HeadIsNotCurrentNext` | kernel/scheduler.c:453-459 | And the next pass, which does not look at it first, does not make it current. |
| `CpuProgress.PassedOverWaits` | kernel/scheduler.c:418-459 | Then no bound holds that depends on the entries ahead: among threads of one priority, one with two entries ahead, one of them dead, is current at dispatch n and no earlier, where n is the number of all the others alive plus one. |
| `SchedulerRuns.TidsStayDistinct` | kernel/scheduler.c:396-415 | Thread ids stay distinct under every event: dispatches, ticks, sleeping, inserts with the free id, state changes by id. |
| `SleepTimes.SleepAlongRun` | kernel/scheduler.c:126-132 | The delta and the block flag of one thread along any run that leaves it alone, as functions of the ticks in the run. |
| `SleepTimes.SleepIsExact` | kernel/scheduler.c:126-132 | After thread_sleep(ms) the delta is the number of ticks to go and the thread is unblocked at exactly tick ms/10; for ms < 10 no tick ever unblocks it. |
| `SleepTimes.NeverCurrentBeforeItsTick` | kernel/scheduler.c:488-514 | Until that tick no dispatch of the run makes it current. |
| `ThreadFlags.RunnableBits` | deps/scheduler.h:5-7 | A thread is runnable exactly when the bits 2, 4 and 8 of its state are clear. |
| `ThreadFlags.FlagCalls` | kernel/scheduler.c:46-66 | Setting or clearing flags does that, and keeps every other flag and every other field. |
| `ThreadFlags.TickOfEntry` | kernel/scheduler.c:500-513 | A tick leaves a thread with delta 0 exactly as it is; of another it takes one from the delta, clears the block flag when none is left, and keeps every other flag and field. |
| `ThreadFlags.ByIdAt` | kernel/scheduler.c:68-124 | The calls by thread id change the entry with that id and no other. |
| `ThreadFlags.UnsuspendAt` | kernel/scheduler.c:152-180 | Every thread of the process, and no other, loses the suspended flag and nothing else. |
| `ThreadFlags.EntryAlongRun` | kernel/scheduler.c:418-514 | Over every run that does not address a thread its whole entry is a function of the entry at the start and the number of ticks. |
| `ThreadFlags.SleepIsUndone` | kernel/scheduler.c:126-132 | A thread that sleeps for ten milliseconds or more is after that many ticks, in every field, what it was when it called thread_sleep. |
| `ThreadFlags.SuspendStarts` | kernel/scheduler.c:141-145 | After thread_suspend the thread is suspended and another one is current. |
| `ThreadFlags.SuspendedAlongRun` | kernel/scheduler.c:141-180 | Over every run without an unsuspend for its process or a removal of the flag by its id, a suspended thread stays suspended and no dispatch makes it current. |
| `ThreadFlags.SuspensionEnds` | kernel/scheduler.c:97-180 | Either of those two ends it: the flag is cleared, and every other flag and field is as before. |
| `Reaping.ReapOneAccounted` | kernel/scheduler.c:439-456 | Reaping one entry keeps livingThreads equal to the number of queue entries of each process, and the block goes exactly with the last one. |
| `Reaping.ReapCounts` | kernel/scheduler.c:439-451 | A reap takes one off the process of a thread with a kernel stack, frees the process exactly if that was the last, and touches no other process. |
| `Reaping.DispatchAccounted` | kernel/scheduler.c:431-457 | The same for all that one dispatch reaps. |
| `Reaping.LoadedSpaceSurvives` | kernel/scheduler.c:434-437 | A dispatch never frees the address space it runs in: the loaded directory is not among what it frees, and the process that owns it keeps its block, even when all its threads are terminated. |
| `ProcessRuns.TerminationMarksItsThreads` | kernel/process.c:592-602 | terminateProcessById marks every queue entry of its process and no other. |
| `ProcessRuns.Perform` | kernel/process.c:540-610 | Creating a process, adding threads, terminating by id and dispatching each keep the whole invariant of queue, blocks, process list and thread lists. |
| `ProcessRuns.FreedExactlyOnce` | kernel/scheduler.c:431-457 | After any interleaving of those operations livingThreads is the number of queue entries of the process, a block is in use exactly while it has one, and every block and directory created and no longer in use has been freed exactly once. |
| `ProcessTable.ProcessTable.TerminateProcessById` | kernel/process.c:540-610 | Reaches exactly that step of the run: entries marked, process unlisted, then dispatch; an unknown id changes nothing. |
| `ProcessTable.ProcessTable.CreateProcess` | kernel/process.c:229-284 | The bookkeeping of createProcess: a free id, the block listed, its main thread queued and counted. |
| `ProcessTable.ProcessTable.InsertThreadToProc` | kernel/process.c:496-513 | The thread is last on the list of its process, which counts one more. |
| `ProcessTable.ProcessTable.Fork` | kernel/scheduler.c:1105-1106 | The counting and queueing that fork ends with. |
| `ProcessTable.ProcessTable.FindById` | kernel/process.c:55-72 | The first listed process with the id. |
| `ProcessTable.ProcessTable.GetFreeId` | kernel/process.c:74-92 | An id larger than that of every listed process, by FreeId. |
| `ProcessRuns.FreeIdIsNext` | kernel/process.c:74-92 | That id is 1 or one more than the id of some listed process. |
| `Words.BitAfterUpdate` | kernel/pmm.c:29-39 | Setting or clearing one bit of a word changes that bit and no other. |
| `Bitmaps.SetBit` | kernel/pmm.c:29-32 | The bitmap as a sequence of blocks changes at that block only. |
| `Bitmaps.UnsetBit` | kernel/pmm.c:36-39 | The same for clearing. |
| `Bitmaps.FirstFree` | kernel/pmm.c:48-64 | The least free block, or -1 exactly when all are used. |
| `Bitmaps.FirstFreeRun` | kernel/pmm.c:67-103 | The word-skipping scan gives the least start of seq_len free blocks in a row, across word boundaries too, and -1 exactly when there is none. |
| `Bitmaps.FirstRun` | kernel/heap.c:97-133 | What that result means: the run is free and no earlier start has one; shared by the three copies of the scan. |
| `Bitmaps.UsedAfterRange` | kernel/heap.c:182-186 | Marking a free run adds its length to the number of set bits, clearing a used one takes it away. |
| `KernelHeap.BlockMap.AllocBlock` | kernel/pmm.c:207-223 | Gives and marks the least free block and counts it; null changes nothing. |
| `KernelHeap.BlockMap.AllocBlocks` | kernel/pmm.c:226-245 | Gives and marks the first long enough run and counts it; null changes nothing. |
| `KernelHeap.BlockMap.FreeBlock` | kernel/pmm.c:248-256 | Clears that block only and counts it off. |
| `KernelHeap.BlockMap.FreeBlocks` | kernel/pmm.c:258-269 | Clears exactly the run and counts it off. |
| `BlockHeap.BlocksFor` | kernel/heap.c:18-23 | The least number of 8-byte blocks that hold the request and its header. |
| `BlockHeap.MallocKeepsInv` | kernel/heap.c:15-35 | Allocation keeps: live ranges inside and apart, exactly their blocks marked, every header right, counter = set bits = sum of lengths. |
| `BlockHeap.MallocFailsIffNoRun` | kernel/heap.c:170-178 | Null is returned exactly when no long enough run is free; otherwise the run given was free. |
| `BlockHeap.FreeKeepsInv` | kernel/heap.c:48-56 | Freeing a live pointer by its header keeps the invariant. |
| `BlockHeap.FreeUndoesMalloc` | kernel/heap.c:48-56 | Freeing what was just allocated restores bitmap, counter and live ranges. |
| `BlockHeap.PayloadWriteKeepsInv` | kernel/heap.c:30-33 | A store anywhere in the payload of a live allocation touches no header. |
| `BlockHeap.EveryHistory` | kernel/heap.c:15-56 | Over every run of allocations, frees and payload stores on an empty heap the invariant holds. |
| `BlockHeap.PayloadSurvives` | kernel/heap.c:15-56 | Allocating and freeing leave every payload word of every live block; the only word that is written is the header of the new block. |
| `BlockHeap.PayloadHolds` | kernel/heap.c:15-56 | Over every run of allocations, frees and stores a payload word of a block that stays live holds what was last stored there. |
| `KernelHeap.KernelHeap.KMalloc` | kernel/heap.c:15-35 | kmalloc in place does that step, which leaves every live payload alone, and returns the address behind the header, with the whole request below the ceiling, or 0. |
| `KernelHeap.KernelHeap.KFree` | kernel/heap.c:48-56 | kfree in place; a null pointer changes nothing. |
| `KernelHeap.KernelHeap.Poke` | kernel/heap.c:30-33 | A store by the owner of a block behind its header, in place, is the payload store of the histories. |
| `PageEntries.AttribLeavesFrame` | kernel/pte.c:3-10 | On the packed word, setting or clearing flags among the low twelve bits leaves the frame. |
| `PageEntries.SetFrameLeavesFlags` | kernel/pte.c:11-15 | A new frame leaves the flags, and the frame read back is the one given, masked to 4K. |
| `PageEntries.AddAttribToFlags` | kernel/pde.c:3-6 | Flags are added to those there, so old ones persist. |
| `PageEntries.DelAttribFromFlags` | kernel/pde.c:7-10 | Exactly the given flags go. |
| `PageEntries.UnpackAdd` | kernel/pte.c:3-6 | Unpacked into frame and flags, the word has the flags that the operation on entries gives it; the entries of the model are the words. |
| `PageEntries.UnpackDel` | kernel/pte.c:7-10 | The same for clearing flags. |
| `PageEntries.UnpackSetFrame` | kernel/pte.c:11-15 | The same for a new frame. |
| `PageEntries.UnpackPresent` | kernel/pte.c:16-21 | The entry is present exactly when the lowest bit of the word is set. |
| `Ownership.UnmarkedIsUnused` | kernel/vmm.c:11-24 | A frame the bitmap has free serves no directory, table or page of any address space. |
| `Ownership.AllocFailsIff` | kernel/pmm.c:207-223 | No frame is given if and only if the counter has reached its limit or every frame is marked. |
| `Ownership.CreatePdirEffect` | kernel/vmm.c:73-84 | A new directory is a frame of its own, empty, and changes no other directory and no translation. |
| `Ownership.AllocVirtEffect` | kernel/vmm.c:145-180 | Ownership is kept; only the addressed page can change its translation, from unmapped to a frame that was free; a present page keeps its frame. |
| `Ownership.AllocVirtFlags` | kernel/vmm.c:151-180 | The directory entry has the requested flags if there is a table; a newly mapped page has the requested flags; a page already present keeps its entry, so it has them if and only if it had them. |
| `Ownership.AllocVirtExactFlags` | kernel/vmm.c:151-180 | And no others: the slot has the flags it had and the requested ones, a new page those its entry had, present and the requested ones. |
| `Ownership.OtherEntriesKept` | kernel/vmm.c:145-180 | No entry of any other page of the directory changes, flags included, in whatever table it is. |
| `Ownership.MapPageEffect` | kernel/vmm.c:228-262 | If there is a table the page is mapped to the given frame with the requested flags, virt2phys gives it plus the offset, and no other translation in any directory changes; without a table nothing changes. |
| `Ownership.MapPageExactFlags` | kernel/vmm.c:228-262 | With exactly the flags that slot and entry had, present and the requested ones. |
| `Ownership.FreeVirtEffect` | kernel/vmm.c:204-226 | The page is unmapped, its frame and no other is given back, no other translation changes. |
| `Ownership.UnmapVirtEffect` | kernel/vmm.c:272-293 | The page is unmapped, no frame is given back, no other translation changes. |
| `Ownership.UnmappedEntry` | kernel/vmm.c:204-293 | What both leave in the entry: every flag but present, and for free_virt the frame number. |
| `Ownership.RemappedKeepsFlags` | kernel/vmm.c:145-226 | So a page freed and mapped again has every flag that it had before, asked for or not. |
| `Ownership.EnsureTableEffect` | kernel/vmm.c:151-171 | Installing or finding the table of a slot changes no translation. |
| `AddressSpaces.CloneKernelSpace` | kernel/process.c:613-634 | Exactly the kernel slots of the new directory are copied, which are the addresses of KernelSlotAddresses; every other entry of every frame stays. |
| `AddressSpaces.ClearKernelSpace` | kernel/process.c:646-663 | Exactly those slots are cleared. |
| `AddressSpaces.AddressParts` | deps/vmm.h:12-14 | A virtual address is its directory index times 4 MB, its table index times 4 KB and its offset. |
| `AddressSpaces.KernelSlotAddresses` | kernel/process.c:613-634 | The kernel slots are the addresses below 4 MB, the 16 MB from 0xC0000000 and the 16 MB from 0xCD000000. |
| `AddressSpaces.NewSpacePages` | kernel/process.c:613-681 | After create_address_space the new directory maps at exactly those addresses what the loaded one maps there, and nothing anywhere else; every other address space is as before. |
| `AddressSpaces.CreationFailsIff` | kernel/vmm.c:73-84 | There is no new directory if and only if no frame can be had, and then nothing changes. |
| `AddressSpaces.ClearedSpacePages` | kernel/process.c:646-663 | After clear_kernel_space exactly those addresses are unmapped in that directory, and no other translation has changed. |
| `AddressSpaces.CreateSpaceKeeps` | kernel/process.c:673-681 | A new address space keeps: kernel tables in the kernel slots and nowhere else, all other frames owned once. |
| `AddressSpaces.FreeTablesEffect` | kernel/vmm.c:86-95 | The loop of free_pdir frees exactly the frames of the tables left in the directory, each once. |
| `AddressSpaces.FreePdirEffect` | kernel/vmm.c:86-99 | free_pdir gives back the directory and the frame of every table in it, from the first slot to the last, and nothing else. |
| `AddressSpaces.DestroyEffect` | kernel/vmm.c:86-99 | Clearing the kernel slots and freeing the directory frees the directory, its private tables and nothing else; counter and bitmap stay in step. |
| `AddressSpaces.DestroyKeeps` | kernel/scheduler.c:446-447 | All other address spaces and the kernel tables are as they were. |
| `Teardown.FramesHaveOneUse` | kernel/vmm.c:73-226 | In every state reachable by creating, using and destroying address spaces, directories, private tables and pages have distinct, marked frames, and the next free frame is none of them. |
| `Teardown.LifeDrift` | kernel/pmm.c:207-256 | alloc_virt and free_virt keep the difference of counter and set bits. |
| `Teardown.ReleasesUnmap` | kernel/vmm.c:204-226 | free_virt on a list of addresses unmaps those pages and leaves all others. |
| `Teardown.DestroyLeaves` | kernel/scheduler.c:446-447 | Destroying an address space, in any state, gives back all it took but the frames of the pages that are still mapped. |
| `Teardown.TeardownGivesAllBackIff` | kernel/process.c:646-681 | An address space created, used in any way outside the kernel slots and destroyed gives back exactly the starting bitmap and counter if and only if it has no page of its own left, and frees no kernel table. |
| `ProcessTeardown.MappedWasTaken` | kernel/vmm.c:145-226 | A page of an address space that is mapped was asked for by some alloc_virt. |
| `BorrowedPage.LoanHosts` | kernel/process.c:209-265 | A page of someone else that createProcess maps into the new space and unmaps again, with anything done to other pages in between, costs the space its table and nothing else. |
| `ProcessTeardown.TerminationReleasesEveryPage` | kernel/process.c:557-597 | The release loops of terminateProcessById reach every page of the image, below the break limit, and of the stacks. |
| `ProcessTeardown.TerminationReleasesIff` | kernel/process.c:557-597 | And no other page: exactly those of the image, of the 1 GB behind it and of the stacks. |
| `ProcessTeardown.HeapPagesAreOwn` | kernel/process.c:302-321 | Every page that the break asks for is among those. |
| `ProcessTeardown.ProcessLifeGivesAllBackIff` | kernel/process.c:207-265 | A user process, loaded while the stack of its creator is lent to it, then mapping and unmapping any pages, terminated and its threads reaped, gives back from creation to the last reap exactly the frames it took if and only if every page mapped at its termination is one of those released. |
| `ProcessTeardown.ProcessLifeGivesAllBack` | kernel/process.c:557-602 | So it does when it only asks for pages of its image, heap, stacks and kernel stacks. |
| `VirtualMemory.VirtualMemory.AllocVirt` | kernel/vmm.c:145-180 | The entries written in place give exactly the machine state that the lemmas above are about. |
| `VirtualMemory.VirtualMemory.MapPage` | kernel/vmm.c:228-262 | The same for map_page, the physical address masked to its page. |
| `VirtualMemory.VirtualMemory.FreeVirt` | kernel/vmm.c:204-226 | The same for free_virt; frame 0 is not given back. |
| `VirtualMemory.VirtualMemory.UnmapVirt` | kernel/vmm.c:272-293 | The same for unmap_virt. |
| `VirtualMemory.VirtualMemory.Virt2PhysPdir` | kernel/vmm.c:123-143 | Frame and offset of the translation, or 0 if unmapped. |
| `VirtualMemory.VirtualMemory.CloneKernelSpace` | kernel/process.c:613-634 | The three copies from the loaded directory, slot by slot in place, copy exactly the kernel slots. |
| `VirtualMemory.VirtualMemory.ClearKernelSpace` | kernel/process.c:646-663 | The three clearings in place clear exactly the kernel slots. |
| `VirtualMemory.VirtualMemory.CreateAddressSpace` | kernel/process.c:673-681 | A new directory with the kernel slots of the loaded one; what it then maps, address by address, is AddressSpaces.NewSpacePages. |
| `VirtualMemory.VirtualMemory.CreatePdir` | kernel/vmm.c:73-84 | The same for create_pdir; 0 when no frame is free. |
| `VirtualMemory.VirtualMemory.FreePdir` | kernel/vmm.c:86-99 | The same for free_pdir. |
| `UserHeap.AllocVirtMaps` | kernel/vmm.c:145-180 | With as many free frames as are missing for a page and its table, alloc_virt maps it and takes exactly those. |
| `UserHeap.BreakMoves` | kernel/process.c:287-325 | Within the heap's range inc_proc_brk returns the old break, moves it as asked and every page up to it is then present, also when the request stays in the last page and allocates nothing. |
| `UserHeap.MallocSettles` | root/cstdlib/heap.c:156-185 | malloc grows the break by just what the new blocks need: top and break stay equal and every live block lies below them. |
| `UserHeap.HeapIsBacked` | root/cstdlib/heap.c:113-209 | After any run of malloc, free and stores with enough frames at its start the break limit was never hit, _sbrk_top is the process break, every live block lies below it, every page from the image's end to the break is present, and those that were not before have the bits present, writable and user set in both entries. |
| `UserHeap.NewBreakPagesAreOpen` | kernel/process.c:312-321 | Every page that inc_proc_brk maps, also when frames run out on the way, has the bits present, writable and user set in its own entry and in its directory entry. |
| `UserHeap.BreakKeepsOthers` | kernel/process.c:305-321 | And no page but those from the old break to the new one changes. |
| `UserHeap.WordsHold` | root/cstdlib/stdlib.c:105-146 | Over every run of malloc, free and stores a payload word of a block that stays live holds what was last stored there. |
| `UserHeap.LiveByteIsPresent` | root/cstdlib/stdlib.c:105-146 | So each byte of a live block is below the break and in a mapped page. |
| `ProcessHeap.UserProcess.IncProcBrk` | kernel/process.c:287-325 | inc_proc_brk in place, with its page loop, is that move of the break, with the pages it maps open to the program (NewBreakPagesAreOpen). |
| `ProcessHeap.UserProcess.HeapInit` | root/cstdlib/heap.c:113-126 | heap_init in place: the break holds the bitmap, which is cleared, and the heap starts behind it. |
| `ProcessHeap.UserProcess.Malloc` | root/cstdlib/stdlib.c:105-125 | malloc in place, initializing first if need be, is that step; the result is the address behind the header, or 0. |
| `ProcessHeap.UserProcess.Free` | root/cstdlib/stdlib.c:138-146 | free in place; a null pointer changes nothing. |
| `FatEntries.SameAsShiftsAndMasks` | drivers/fat12fsys.c:320-336 | The arithmetic used here is bit for bit the shifting and masking of the 16-bit word. |
| `FatEntries.SetEntryReadsBack` | drivers/fat12fsys.c:348-384 | Entry n reads back as written, for odd, even and sector-straddling entries. |
| `FatEntries.SetEntryKeepsOthers` | drivers/fat12fsys.c:348-384 | No other entry changes, though neighbours share a byte. |
| `FatEntries.EntryBytes` | drivers/fat12fsys.c:304-341 | Where an entry lies: entries 2m and 2m + 1 share bytes 3m to 3m + 2 behind the boot sector, the even one with the low half of the middle byte and the odd one with its high half. |
| `FatEntries.SetEntryBytes` | drivers/fat12fsys.c:348-384 | Setting either of the two writes none of the other bytes of the table. |
| `FatEntries.TableAfterSet` | drivers/fat12fsys.c:331-341 | So the table of all entries changes at n only. |
| `FatEntries.SectorWriteKeepsTable` | drivers/fat12fsys.c:488-488 | A sector written outside the table changes no entry. |
| `FatDrive.FatDrive.ReadEntry` | drivers/fat12fsys.c:503-522 | The two-sector buffer is loaded and the entry taken out of its word. |
| `FatDrive.FatDrive.WriteEntry` | drivers/fat12fsys.c:361-384 | The word changed in the buffer and both sectors written back set that entry of the disk. |
| `FatChains.Acyclic` | drivers/fat12fsys.c:503-550 | A chain that ends never comes back to a cluster. |
| `FatChains.AppendsLowestFree` | drivers/fat12fsys.c:295-390 | With a free cluster, allocation for a chain's tail appends exactly the lowest free one. |
| `FatChains.CreateKeepsFiles` | drivers/fat12fsys.c:242-250 | With chain_cluster 0 a new chain starts, and all others stay. |
| `FatChains.AppendKeepsFiles` | drivers/fat12fsys.c:295-390 | Appending for one file leaves all chains end-marked and disjoint. |
| `FatDrive.FatDrive.OccupyFreeCluster` | drivers/fat12fsys.c:295-390 | The scan and the two entry writes in place: the lowest free entry, or 0xFF0 and nothing written. |
| `FatRuns.TransferKeepsFiles` | drivers/fat12fsys.c:462-555 | Any read or write through a handle on a file, whatever its outcome, keeps all chains and extends only that file's. |
| `FatRuns.EveryRunKeepsChains` | drivers/fat12fsys.c:295-555 | Over every run of creations, reads and writes all chains stay acyclic, end-marked and pairwise disjoint, also when the disk is full. |
| `FatFiles.WriteEffect` | drivers/fat12fsys.c:462-555 | A write with enough free clusters stores exactly the given bytes along the chain, extends it by the lowest free clusters and no more than it needs, touches no other sector, and leaves the handle as stated. |
| `FatFiles.ReadEffect` | drivers/fat12fsys.c:462-555 | A read inside a chain fills the buffer with exactly its bytes and leaves the disk alone; it is done if and only if it stays inside the length or ends in the last cluster, and else runs on beyond its buffer. |
| `FatFiles.ReadMarksEnd` | drivers/fat12fsys.c:524-537 | A read that is done leaves the end-of-file mark if and only if it takes the last byte of the chain or ends inside a sector beyond the length. |
| `FatFiles.WriteMarksEnd` | drivers/fat12fsys.c:524-537 | A write that is done leaves it if and only if it fills the chain that it ends up with. |
| `FatFiles.WriteFile` | drivers/fat12fsys.c:434-460 | The same for a handle anywhere in a file, in terms of the whole file. |
| `FatRuns.WrittenToDisk` | drivers/fat12fsys.c:462-488 | On the disk each byte written is in sector 33 plus its cluster less 2, at its offset in the file modulo 512. |
| `FatRuns.ReadFromDisk` | drivers/fat12fsys.c:462-475 | And each byte read comes from there. |
| `FatRuns.WriteIsDoneIffRoom` | drivers/fat12fsys.c:540-552 | A write inside the file's length is done if and only if there are as many free clusters on the disk as it needs. |
| `FatRuns.WriteOnFullDisk` | drivers/fat12fsys.c:540-555 | With no free cluster at all, a write beyond the chain goes on with cluster 0xFF0 and leaves the table alone. |
| `FatRuns.WriteKeepsOtherFiles` | drivers/fat12fsys.c:484-489 | A write to one file leaves every sector of every other file. |
| `FatRuns.HandleMovesOn` | drivers/fat12fsys.c:491-531 | After a write the handle stands behind the last byte if and only if that byte is not the last of the chain. |
| `FatRuns.HandleMovesOnReading` | drivers/fat12fsys.c:491-531 | The same after a read. |
| `FatRuns.TwoWrites` | drivers/fat12fsys.c:491-531 | Two writes through one handle store both buffers one behind the other, unless the first fills the last cluster. |
| `FatRuns.SecondWriteOverwrites` | drivers/fat12fsys.c:491-531 | If it does, the second is stored over what the first has just written: from where that began, or from the start of the last cluster. |
| `FatRuns.TwoWritesIff` | drivers/fat12fsys.c:491-531 | So both are stored one behind the other if and only if the first does not fill the last cluster. |
| `FatDirectory.SetLengthEffect` | drivers/fat12fsys.c:405-424 | The recorded size reads back; names, clusters and other slots stay. |
| `FatDirectory.OpenFindsSlot` | drivers/fat12fsys.c:128-176 | Opening gives the first slot of sectors 19 to 32 with the name in its first eleven bytes; cluster, size and kind are its bytes 26 to 27, 28 to 31 and 11, low byte first. |
| `FatDirectory.RootUntouched` | drivers/fat12fsys.c:467-488 | Data writes never hit the boot sector or the root directory. |
| `FatDirectory.WriteCallDoneIff` | drivers/fat12fsys.c:441-555 | With enough free clusters a write is done if and only if it stays inside the length that is then recorded, and else runs on beyond its buffer. |
| `FatDirectory.WriteCallIsDone` | drivers/fat12fsys.c:441-460 | A write through a handle whose position is not beyond its absolute position, with enough free clusters, is done and never runs on beyond its buffer, and leaves such a handle. |
| `FatDirectory.ReadThenWriteIff` | drivers/fat12fsys.c:434-555 | After a read of len bytes from the start of a file, a write is done if and only if its end, within its sector, is not beyond the recorded length or the length of the write. |
| `FatDirectory.ReadThenWriteRunsOn` | drivers/fat12fsys.c:434-555 | An input for which it is not: one cluster, recorded length 0, 100 bytes read, 10 written. |
| `FatDirectory.WriteReopenRead` | drivers/fat12fsys.c:434-555 | One write of any bytes to a root file, a reopen and one read of as many bytes give the same bytes, with as many free clusters as the write needs; the rest of the read buffer stays. |
| `FatCreate.WithSlotEffect` | drivers/fat12fsys.c:236-256 | The slot that is filled in reads back with its name, kind, cluster and a size of 0, and no other slot of the sector changes. |
| `FatCreate.CreatedIsFound` | drivers/fat12fsys.c:178-288 | What fat12fsys_create has created in the root directory is what opening the name then finds, with the lowest free cluster as a chain of its own. |
| `FatCreate.CreateKeepsOpens` | drivers/fat12fsys.c:178-288 | Opening any other name gives what it gave before, unless that was a slot without a cluster. |
| `FatCreate.CreatedIff` | drivers/fat12fsys.c:230-282 | It creates the file if and only if an entry of the table is free and some slot is free with no used slot of the name before it; a file of the name behind that slot is not noticed. |
| `FatCreate.CreateWriteReopenRead` | drivers/fat12fsys.c:178-288 | A file created, opened, written, opened again and read gives the bytes written. |
| `FatDrive.FatDrive.Rw` | drivers/fat12fsys.c:462-555 | The recursion in place is that transfer: disk, handle and buffer all agree, and it terminates because the length drops. |
| `FatDrive.FatDrive.Write` | drivers/fat12fsys.c:441-460 | fat12fsys_write in place: position and length recorded, then the transfer. |
| `FatDrive.FatDrive.Read` | drivers/fat12fsys.c:434-439 | fat12fsys_read in place. |
| `FatDrive.FatDrive.UpdateFlen` | drivers/fat12fsys.c:392-432 | The size of the first slot with the name is replaced, or nothing. |
| `FatDrive.FatDrive.OpenInRoot` | drivers/fat12fsys.c:128-176 | The file of the first slot with the name in the root directory, or none. |
| `FatDrive.FatDrive.CreateInRoot` | drivers/fat12fsys.c:178-288 | fat12fsys_create in the root directory in place: the walk to a free slot, the cluster, the slot written back, and a new directory's cluster filled with zeros. |
| `TextRegions.AppendAtPosition` | root/bin/tedit.c:417-463 | For any region of the line and any column: the shifting in place inserts the character into the flat text at the place that region and column stand for, or behind the text, which then grows by a stale character; all but the last region stay full, and a full last one gets a successor. |
| `TextRegions.RemoveAtPosition` | root/bin/tedit.c:613-672 | For any region of the line and any column but 0: the shifting in place removes the character at the place that region and column stand for, or the last one if that is behind the text; an empty last region is dropped instead, and a stale character stays in the text; with nothing to remove the call fails. |
| `TextRegions.TypeThenErase` | root/bin/tedit.c:412-672 | Typing at a column in the region that holds it and removing at the next column in that region restores the text. |
| `TextRegions.SavedIsText` | root/bin/tedit.c:70-88 | The flat text is what write_file writes for the line. |
| `TextLines.AppendsAtColumnIff` | root/bin/tedit.c:450-460 | For a line of any shape, the character goes to the column, whatever the text, if and only if the call is handed the region that holds the column. |
| `TextLines.RemovesIff` | root/bin/tedit.c:613-670 | A removal deletes just the character before the column, whatever the text, if and only if it is handed the region that holds that character and the last region is not empty. |
| `TextLines.RemovesAtRegionStart` | root/bin/tedit.c:616-629 | Handed the region that begins at the column, it deletes the character 127 places behind the cursor, or the last one of the line. |
| `TextLines.SecondRemoveKeepsLength` | root/bin/tedit.c:661-670 | After one removal has emptied the last region, the next leaves the text as long as it was. |
| `TextCursor.RegionFollowsColumn` | root/bin/tedit.c:239-297 | Over every run of keys in a line, a cursor that starts in the region of its column stays in the region of its column. |
| `TextCursor.AtLineEndIff` | root/bin/tedit.c:267-267 | On the flat text, the right arrow leaves the line at the end of a text without a newline and on the newline of one with it, and nowhere else. |
| `TextCursor.TypingMovesOn` | root/bin/tedit.c:774-780 | A character can be typed at every place of the text, and the cursor then stands behind it. |
| `TextCursor.BackspaceIff` | root/bin/tedit.c:769-782 | So a backspace deletes the character before the cursor, whatever the text, if and only if the cursor is not in the first column of a region and the last region is not empty. |
| `TextCursor.BackspaceUndoesIff` | root/bin/tedit.c:769-782 | Typing a character and pressing backspace restores every line if and only if typing has not moved the cursor into the next region. |
| `TextCursor.LosesRegionIff` | root/bin/tedit.c:242-247 | A key leaves the cursor on a null region if and only if it types the last character that the regions have room for, or is a right arrow in the last column that they have. |
| `TextCursor.RightLosesRegion` | root/bin/tedit.c:267-295 | The right arrow does so on the last character of any line that fills its regions and has no newline. |
| `TextCursor.RunLosesRegionIff` | root/bin/tedit.c:239-297 | Over every run the cursor has a region of its line exactly as long as its column is one that the regions have. |
| `TextCursor.KeysRefineFlat` | root/bin/tedit.c:412-676 | Over every run of arrows, characters and backspaces without such a backspace, the chunked line with its cursor is the flat text with its column. |
| `TextCursor.EntersRegionIff` | root/bin/tedit.c:312-336 | For every line and column, the exact condition under which a line entered from above or below has the cursor in the region of its column. |
| `TextCursor.EntersInside` | root/bin/tedit.c:316-335 | Well inside the line the column is kept, and the cursor is in its region if and only if it is the first of a region or lies in the last; else it is one region too far. |
| `TextCursor.EntersAtEnd` | root/bin/tedit.c:316-335 | At the end or behind it the cursor is in the last region, at the column stated. |
| `TextCursor.EntersEndRegionIff` | root/bin/tedit.c:214-232 | Entered from the start of the next line, if and only if the last region has at least two characters; with fewer than two in the line the column wraps. |
| `TextCursor.TypingAfterEntering` | root/bin/tedit.c:412-463 | One region too far, a typed character goes 128 places too far, or is lost behind the text. |
| `TextCursor.EnteringFullLine` | root/bin/tedit.c:320-330 | Entered behind the end of a line that fills its last region and has no newline, a typed character goes to the front of that region. |
| `TextCursor.EnteringEmptyTail` | root/bin/tedit.c:320-335 | Entered at the end of a line whose last region is empty, a typed character is lost behind the text. |
| `TextEditor.AdvanceCursorLeft` | root/bin/tedit.c:239-251 | The step to the left in place gives the region and the column of the cursor function, also from a region that has just been dropped. |
| `TextEditor.AdvanceCursorRight` | root/bin/tedit.c:267-297 | The step to the right in place, or none at the end of the line. |
| `TextEditor.EnterLine` | root/bin/tedit.c:314-335 | The walk over the regions of the new line in place gives the cursor of the lemmas above. |
| `TextEditor.TypeCharacter` | root/bin/tedit.c:774-780 | A printable key in place: the insertion in the region of the cursor and the step to the right. |
| `TextEditor.EraseCharacter` | root/bin/tedit.c:774-778 | Backspace in place: the removal in the region of the cursor and the step to the left; the pointer is to the region that the cursor function names, also if that has just been freed. |
| `Strings.IntToStrPadding` | utils/strings.c:9-59 | The buffer then holds the sign, the zeros and the digits, ended by NUL. |
| `Strings.PrintedIsPadded` | utils/strings.c:35-45 | The output is as long as the larger of the padding and what digits and sign need. |
| `Strings.DecimalToUint` | utils/strings.c:90-107 | The value of the digits modulo 2^32, with the power wrapping as well. |
| `Strings.PrintThenParse` | utils/strings.c:9-107 | For every 0 <= n < 2^31 and any padding, parsing the decimal output gives n. |
| `Strings.DigitsStandFor` | utils/strings.c:9-59 | In every base from 2 to 16 the digits stand for the number, letters counted from A, and none is a leading zero. |
| `Strings.PrintedStandsFor` | utils/strings.c:9-59 | Read back with its sign, the output stands for the number, for every number, base and padding. |
| `Strings.SeperateAndTake` | utils/strings.c:244-287 | The index-th substring between separators, or the whole string if there is none. |
| `Strings.PieceOutside` | utils/strings.c:276-287 | An index beyond the number of separators, or a negative one, gives the whole string. |
| `Strings.CountSubstrings` | utils/strings.c:290-305 | One more than the separators behind the first character. |
| `Strings.SplitThenJoin` | utils/strings.c:244-305 | A string that does not start with the separator is its counted substrings joined by it. |
| `Strings.SplitThenPrefix` | utils/strings.c:244-305 | A string that starts with it is its substrings 1 to count, each prefixed with it. |
| `Strings.PiecesAreFree` | utils/strings.c:249-270 | No such substring contains the separator. |

## Left out

- Overflow of 32-bit thread and process ids, and of the thread counter.
- The process list and the thread lists of processes are sequences here, not linked nodes; process blocks are
  addresses in a map, so where the kernel heap puts them, and their names, are not modelled.
- Kernel-process termination, which frees the block before its queue entries are reaped.
- Scheduler.Scheduler.ReleaseThread: the kernel stack page that a reap releases is in
  ProcessTeardown.ProcessLifeGivesAllBack and not in this method; process names are not modelled.
- ProcessTable.ProcessTable.TerminateProcessById: the page releases are in ProcessTeardown and not in this method;
  the files and windows that termination closes are not modelled.
- ProcessTable.ProcessTable.CreateProcess: loading the program, its stacks and its address space are given; the
  pages it takes are in ProcessTeardown.
- fork copies a stack and its frames; only its bookkeeping is modelled.
- Preemption inside a kernel call.
- Page-table entries are a frame number and twelve flags; that the packed words behave so for flags among
  the low twelve bits is PageEntries.UnpackAdd and its companions. Flags outside those bits are not modelled.
- VirtualMemory.VirtualMemory.CreateAddressSpace: the source does not check for a null directory; this method and
  the theorems ask that a frame was free.
- TLB flushes, CR3 loads and 4 MB pages.
- Region initialisation of the frame bitmap, and the kernel heap_init, which clears only part of its bitmap.
- Run lengths of zero in the first-fit search.
- KernelHeap.KernelHeap.KMalloc: request sizes that wrap when the header is added are excluded.
- ProcessHeap.UserProcess.Malloc: so are they here.
- ProcessTeardown.ProcessLifeGivesAllBackIff: when the lent page is mapped, a frame for its table is free; a program
  that fails to load is not followed; the window system's own mapping of a window's buffer, through which it
  later frees those frames, is not modelled.
- ProcessTeardown.ProcessLifeGivesAllBack: window pages are excluded here; the condition is in the member before it.
- The words of the user heap are one array; that a page's content changes when it is first mapped is not modelled,
  and no live block is on such a page.
- UserHeap.HeapIsBacked: only this heap uses the break and takes frames during the run, and the frames it needs
  for its whole range are free at the start.
- ProcessHeap.UserProcess.IncProcBrk: the calls for a null current process are left out.
- The FAT model has one copy of the table, sectors 1 to 13, which is as far as the scan reads; a scan beyond
  2848 clusters runs into the second copy on a real floppy.
- FatFiles.WriteEffect: where the remaining length wraps below zero the model stops with its own outcome, because
  the source then leaves its buffer; what it does there is not modelled.
- FatRuns.TransferKeepsFiles: a transfer whose next sector is not on the disk, or that runs on beyond its buffer,
  ends there, where the source goes on.
- FatRuns.EveryRunKeepsChains: the same, and a creation is only its cluster allocation here.
- 8.3 names are given; subdirectories, paths and mounting are not modelled.
- FatDrive.FatDrive.CreateInRoot: creation in a subdirectory is not modelled.
- FatDrive.FatDrive.OpenInRoot: dates, times and ids of the directory entry are not read.
- The root directory is at sector 19, as on a floppy with two tables of nine sectors.
- The editor's newline branches, joining lines, overwriting in insert mode, loading and display.
- TextCursor.KeysRefineFlat: the keys of a run stay in one line, and what lies in front of a region's buffer, which
  the source reads for an empty region, is not a newline.
- Strings.IntToStrPadding: INT_MIN, which cannot be negated, is excluded; bases are 2 to 16.
- Strings.SeperateAndTake: a failing allocation is not modelled.
- Boot code, descriptor tables, interrupts, device drivers, the window system, the shell, executable loading,
  the virtual file system and tmpfsys.
