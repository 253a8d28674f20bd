# Pintos kernel model

A Dafny model of the parts of this Pintos-based kernel where most can go wrong, and proofs of what
they promise: demand paging with a clock and a swap disk, the scheduler with semaphores, locks and
condition variables, the file system, the page and block allocators, and the library code they rest
on (intrusive lists with a stable merge sort, bitmaps, a chained hash table, heap sort, 64-bit
division, integer formatting, argument passing, page tables).

`dafny verify dfyconfig.toml` checks the whole project.

## How it is laid out

Code that changes things in place is a class or a method with loops (`SwapTable`, `Memory`, `List`,
`Scheduler`, `Bitmap`, `Volume`, `Arenas`, `Chained`, `Directory`, `Sorting`, `Arguments`, `Printf`).
Each is proved against functions on values, and the promises are proved about those functions, over
all inputs and all runs.

- `Base`, `Swap`, `FrameTable`, `Paging`, `MappedPages`, `PagingTheorems`, `VirtualMemory`: virtual
  memory. The main results are `Paging.ReadsSeeLastStore`, `Swap.RunRefines`,
  `MappedPages.SurvivesEvictionIff`, and `DeathsHaveReasons`, `DiesIff` and `LeavesOnlyWhenFull` of
  `PagingTheorems`.
- `Threads`, `Synch`, `Conditions`, `Concurrency`, `Primitives`, `Kernel`: threads as a transition
  system in which any thread may be preempted between any two steps. The main results are
  `NoWakeupLost`, `MutualExclusion`, `OneQueueEach`, `DispatchedInTurn`, `SignalledInTurn`,
  `WaiterGoesOnIff` and `WaitReturnsHolding` of `Concurrency`; `Primitives` says what each call and
  each turn does, with `AcquireReturnsHolding` and `DownReturnsTaking` over every run; the methods of
  `Kernel` take its steps.
- `Disk`, `DiskFormat`, `FileSys`, `FileCalls`, `FileRuns`, `FileTheorems`, `FileOutcomes`,
  `FileSystem`: the file system down to the bytes of its sectors. The main results are
  `FileHoldsWrites`, `OpenStaysLive`, `RunKeepsInvIff`, `FormatIsInv` and `CreatedFileOpens` of
  `FileTheorems`, `FileCalls.CreateAccounts`, `FileRuns.CloseReleases`, `FileRuns.RemoveSucceedsIff`,
  and `CreateSucceedsIff` and `RemoveFrees` of `FileOutcomes`.
- `Malloc`, `Allocator`: `LiveBlocksSound`, `AllocFailsIff`, `PageReturnedIff` and `AllocFitsIff` of
  `Malloc`.
- `SortSpec`, `IntrusiveList`: `IntrusiveList.List.Sort`.
- `Bits` (in `Bitmap.dfy`), `Hash`, `HashTable`, `Sorting`, `Arithmetic`, `PageDirectory`,
  `Arguments`, `Printf`, `Formatting`: the library and hardware-facing code.

Outcomes the code takes from elsewhere are parameters: whether memory for a structure, a page table,
a bounce buffer or new buckets is available and, in a scan of a directory, how far it lasts; whether
the free map can be written; the user stack pointer at a fault; and which thread does what next.
Where the source uses a null pointer from a failed allocation, the model panics.

## Where the code falls short of what one expects

Each is stated as an if-and-only-if over all inputs, and comes with an input on which it happens.

- A `filesys_create` that fails because the directory does not add the name frees the inode's sector
  but not the data sectors (`FileCalls.LosesIff`, `FileCalls.CreateAccounts`; input
  `FileTheorems.EmptyNameLoses`).
- A read of a directory that comes back short for want of memory is taken for its end: a name can be
  added twice, and an entry in use can be written over (`FileCalls.CreateKeepsIff`,
  `FileCalls.CreateKeepsNamesIff`; input `FileTheorems.LookupCutShort`).
- Bytes of a mapped page at or behind `zero_after`, or of a write-denied file, do not survive
  eviction, and without memory for a bounce buffer neither do bytes in a part of a sector, as what
  `file_write_at` returns is ignored (`MappedPages.SurvivesEvictionIff`; inputs
  `MappedPages.StoredByteLost` and `MappedPages.ShortWriteLost`).
- Removing the only frame leaves the clock hand on freed memory (`FrameTable.RemoveDanglesIff`; input
  `MappedPages.OneFrameDangles`).
- `umod64` and `smod64` return 32 bits (`Arithmetic.UmodExactIff`, `Arithmetic.SmodExactIff`; inputs
  `Arithmetic.RemaindersCut`), and `sdiv64` has one overflowing pair (`Arithmetic.SdivExactIff`).
- A command line of more than 100 tokens makes `execute_thread` write behind the end of its array
  (`Arguments.Split`; input `Arguments.TooManyTokens`).
- `printf` with flags - and 0 both set pads twice; a negative width from the arguments sets the former
  and leaves the latter (`Formatting.RenderWidthIff`; input `Formatting.PaddedTwice`).
- `malloc` of a size that wraps around when the header is added returns too small a block
  (`Malloc.AllocFitsIff`; input `Malloc.WrappedRequest`).

## Where code and comments disagree

The model follows the code.

- The comment in `threads/malloc.c` puts the limit for small blocks at 2 kB; the loop stops below half
  a page, so the largest descriptor is 1 kB.
- `vm/DESIGNDOC` describes a loop that frees a page and then tries again to get one, and a sweep that
  pushes the frames it passes to the back of the list; `ft_replacement` hands over the victim's page
  directly, and the hand walks around a list that stays in place.

## Model

| member | source | states |
|---|---|---|
| Swap.FirstFit | vm/swap.c:86-125 | The extent chosen is the first one with room for a slot; the length of the list says there is none. |
| Swap.AllocKeepsValid | vm/swap.c:86-125 | Allocation takes one aligned slot that was not taken, and the free list still covers exactly the sectors of no taken slot, in maximal, ordered, disjoint extents. |
| Swap.AllocFailsOnlyWhenFull | vm/swap.c:86-125 | Allocation fails if and only if every aligned whole slot of the disk is taken: the list never fragments below slot size. |
| Swap.ReleaseKeepsValid | vm/swap.c:128-168 | Freeing a taken slot, with the two merges, gives back exactly its sectors and restores the maximal, ordered form. |
| Swap.StoredReadsBack | vm/swap.c:39-83 | The eight sectors written for a page read back as that page. |
| Swap.StoredElsewhere | vm/swap.c:60-83 | Writing one slot leaves the bytes of every other aligned slot alone. |
| Swap.WriteRefines | vm/swap.c:60-83 | On a disk that stands for a map from slots to pages, a write adds one fresh slot with the page, or fails with all slots taken and nothing changed. |
| Swap.ReadRefines | vm/swap.c:39-56 | A read of a taken slot returns the page in the map and removes exactly that slot. |
| Swap.SlotsUnique | vm/swap.c:10-36 | The disk and its free list determine the taken slots and their pages. |
| Swap.RunRefines | vm/swap.c:39-168 | Over every run of writes and reads, each write gets a slot nobody holds unless all are held, each read gets the page last written to its slot, and the free list stays exact. |
| Swap.SwapTable.constructor | vm/swap.c:21-36 | The free list is one extent for the whole disk; no slot is taken. |
| Swap.SwapTable.AllocSwapSlot | vm/swap.c:86-125 | The list loop takes the first-fit slot off the list, or leaves the list alone. |
| Swap.SwapTable.FreeSwapSlot | vm/swap.c:128-168 | Ordered insertion and the two merge steps yield the released list. |
| Swap.SwapTable.SlotWrite | vm/swap.c:60-83 | The eight sector writes refine the abstract write: the map of slots gains one entry, or every slot was taken. |
| Swap.SwapTable.SlotRead | vm/swap.c:39-56 | Returns the page that was written to the slot; the slot is free again, the others keep their pages. |
| FrameTable.RemoveDanglesIff | vm/frame.c:65-95 | Unlinking a frame leaves the clock hand on freed memory if and only if the list held one frame, under the hand. |
| MappedPages.OneFrameDangles | vm/frame.c:161-215 | A failing input from boot: with one page of memory the fault on a second page unlinks the only frame, which leaves the hand on it and ends in the panic. |
| FrameTable.RemoveKeepsFrame | vm/frame.c:65-95 | With two or more frames the hand keeps its frame, or moves to the next in the circle if its own was removed. |
| FrameTable.SecondChance | vm/frame.c:135-159 | The victim is the nearest loaded unaccessed frame after the hand if one exists, else the nearest loaded one; an accessed bit stays set exactly if its frame lies behind a victim found in the first round. |
| FrameTable.PassedIff | vm/frame.c:135-159 | The pages whose bit is cleared are those of the frames at a smaller circular distance than the stop. |
| Paging.UnlinkKeepsShape | vm/frame.c:161-215 | Unlinking the victim keeps frame list, page tables and page pool in one-to-one correspondence; the victim's kernel page is the one spare page. |
| Paging.SaveToFile | vm/frame.c:161-215 | Writing a dirty mapped page back, with or without a bounce buffer, keeps every byte still promised of that page and of every other page, resident or not. |
| Paging.SentIsTransfer | filesys/inode.c:206-324 | How much of a page a file transfer moves is what the loops over the sectors of the file transfer: all of it, or without a bounce buffer the whole sectors. |
| Paging.LeftIsSpared | vm/frame.c:161-215 | What is still promised after an access without a bounce buffer is safe from the write-back of any page but the one accessed. |
| Paging.SwapOutKept | vm/frame.c:161-215 | Writing a dirty page to swap keeps its promised bytes in the slot and all others where they were. |
| Paging.ScanFinds | vm/frame.c:135-159 | From an exact frame table the sweep ends at a frame whose page is present, and has changed accessed bits only. |
| Paging.EvictAtKeepsInv | vm/frame.c:161-215 | An eviction keeps the memory still promised to every process; it fails only with a single frame, or with a dirty victim and a full swap disk or no memory for the structures of a slot. |
| Paging.ReplaceKeepsInv | vm/frame.c:161-215 | The whole replacement, sweep included, keeps the memory still promised to every process, and fails only with fewer than two frames, a full swap disk or no memory for the structures of a slot. |
| Paging.GetPageKeepsInv | vm/frame.c:30-62 | A kernel page is found in the pool or by eviction, with all bytes still promised kept, unless pages and swap are exhausted or there is no memory for a structure. |
| Paging.GrowKeepsInv | userprog/exception.c:141-268 | A new stack page is installed, or the frame given back, with all promises kept. |
| Paging.SwapInKeepsInv | userprog/exception.c:141-268 | Swapping in frees the slot, restores the table entry it had replaced and makes the promised bytes resident and dirty. |
| Paging.ReadInKeepsInv | userprog/exception.c:141-268 | Loading makes the page resident with the byte of its file at that offset before zero_after and zero behind it, or all zeros; the process is killed only for a short read, for want of a bounce buffer too, or a missing page table. |
| Paging.InstallKeepsInv | userprog/pagedir.c:173-191 | Mapping a page that is not present to a spare kernel page filled with its promised bytes keeps the promises of every process. |
| Paging.PageFaultKeepsInv | userprog/exception.c:141-268 | A fault makes the page present or kills its process for one of three reasons, keeps everybody else's promised memory, and panics only when pages and swap are exhausted or there is no memory for a structure. |
| Paging.StoreKeepsInv | userprog/exception.c:141-268 | A store to a present page changes that byte of that page only, and marks the page so that eviction saves it. |
| Paging.HitIsTransparent | userprog/exception.c:141-268 | An access to a present page replies with the promised byte, or stores it, or kills on a read-only page. |
| Paging.DoIsTransparent | userprog/exception.c:141-268 | One access with all faults and evictions it causes replies with the promised memory and keeps it, but for the stores to other pages that a write-back without a bounce buffer may lose, unless the kernel is out of memory. |
| Paging.BootIsInv | vm/frame.c:20-27 | The empty frame table with lazy pages only meets the paging invariant. |
| Paging.RunIsTransparent | userprog/exception.c:141-268 | Over every run of accesses by any processes, with any memory failures, each reply agrees with the memory promised by the accesses before it, and a process is killed only for a store to a read-only page, an address with neither page nor stack, a short read or a missing page table. |
| Paging.PromisedIsLastStore | userprog/exception.c:141-268 | What is promised at an address is the last store there by its process, or the initial byte if there was none; a store is not promised exactly if it is not written back, or goes through a bounce buffer and an access to another page since had no memory for one. |
| Paging.ReadsSeeLastStore | userprog/exception.c:141-268 | From boot, over every run and all memory failures, a byte read is the one its process last stored there, or else, if there was no store, the byte of its file at that offset before zero_after and zero behind it and in stack pages; except where the write-back of a mapped page leaves it out: denied, behind zero_after, or in a part of a sector when an access to another page since the store had no memory for the bounce buffer. |
| Paging.ReadOnlyStaysReadOnly | userprog/exception.c:141-268 | From boot, over every run, no store completes on a page of a read-only segment, whatever evictions came between. |
| MappedPages.SurvivesEvictionIff | vm/frame.c:161-215 | If an access evicts a dirty mapped page and, after any run of accesses to other pages, a load brings a byte of it back, the byte is what it was if and only if the write-back sent it (all before zero_after, or without a bounce buffer the whole sectors of that) to a file that is not write-denied, or it was equal to the byte of the file, or zero behind zero_after; else it is that byte. |
| MappedPages.StoredByteLost | vm/frame.c:161-215 | A failing input from boot: two pages of memory, a byte stored behind the end of a mapped file, two other pages visited; the byte reads as 0. |
| MappedPages.ShortWriteLost | vm/frame.c:161-215 | A failing input from boot: a byte stored within a mapped file is lost if the eviction has no memory for the bounce buffer, and comes back if it has. |
| PagingTheorems.DeathsHaveReasons | userprog/exception.c:124-268 | From boot, over every run, the first access on which a process dies is a store to a read-only page, lacks memory for a page table, needs a page its file cannot give, or is to an address that is in no page of its and not near its stack. |
| PagingTheorems.UnmappedDies | userprog/exception.c:124-268 | From boot, after any run, an access to a page never registered and never accessed dies if it is not near the stack, and changes nothing. |
| PagingTheorems.DiesIff | userprog/exception.c:124-268 | A fault kills its process if and only if the address is in no page and not near the stack, a page table is missing, the page cannot be read from its file, or it is a store to a read-only page. |
| PagingTheorems.EvictsByClock | vm/frame.c:30-215 | With a free page nothing is evicted and nothing else changes; with none the victim of the clock leaves, its kernel page is the one handed out, and the hand goes on behind it. |
| PagingTheorems.LeavesOnlyWhenFull | vm/frame.c:30-215 | An access makes at most one page leave memory, none while the pool has a free page or its own page is present, and an accessed one only if all are accessed. |
| PagingTheorems.AccessMarks | userprog/exception.c:141-268 | An access that does not kill leaves its page present and marked accessed; a store leaves its byte in the frame and the page dirty; a page brought in is last in the frame list. |
| VirtualMemory.Memory.constructor | vm/frame.c:20-27 | An object with an empty frame table that meets the paging invariant. |
| VirtualMemory.Memory.CheckAndSetHand | vm/frame.c:217-225 | If there is a frame the hand is on one, and stays if it was. |
| VirtualMemory.Memory.GetFrameForReplacement | vm/frame.c:135-159 | The sweep loop stops at the specified victim and clears exactly the specified accessed bits; it terminates within two rounds. |
| VirtualMemory.Memory.FtReplacement | vm/frame.c:161-215 | The imperative replacement does to the whole state what the specified one does, and fails exactly where that panics. |
| VirtualMemory.Memory.EvictUnderHand | vm/frame.c:161-215 | Unmapping, saving, unlinking and moving the hand on, in the order of the source, is the specified eviction. |
| VirtualMemory.Memory.SavePage | vm/frame.c:161-215 | A dirty page goes to its file, as far as the memory for a bounce buffer allows, or to a fresh swap slot that remembers the entry it replaces. |
| VirtualMemory.Memory.FtGetPage | vm/frame.c:30-62 | The lowest free page of the pool, or the page of an evicted frame. |
| VirtualMemory.Memory.InstallPage | userprog/pagedir.c:173-191 | The page is mapped to the kernel page and listed last, and the promised memory of every process is still backed: present pages, frames and pool stay in one-to-one correspondence. |
| VirtualMemory.Memory.FtFreePage | vm/frame.c:65-95 | A frame that was not installed goes back to the pool, and the whole paging invariant holds with no page spare. |
| VirtualMemory.Memory.FillFrame | userprog/exception.c:180-268 | The frame holds the bytes of the file before zero_after and zeros behind it, zeros, or the page of the slot, by the type of the page; or it is given back and the process killed, also for a read cut short for want of memory; either way the paging invariant holds. |
| VirtualMemory.Memory.PageFault | userprog/exception.c:141-268 | The handler computes the specified outcome and state, and panics exactly where that does. |
| VirtualMemory.Memory.Access | userprog/exception.c:141-268 | The reply agrees with the promised memory, the new promised memory is the old one with the access observed, and failure means memory is exhausted. |
| IntrusiveList.List.constructor | lib/kernel/list.c:60-68 | An empty, well-linked list. |
| IntrusiveList.List.Insert | lib/kernel/list.c:168-178 | Four pointer assignments leave a well-linked list with the element in front of the given one and all others in order. |
| IntrusiveList.List.Remove | lib/kernel/list.c:256-263 | Two pointer assignments leave a well-linked list without the element, and return the next one. |
| IntrusiveList.List.Splice | lib/kernel/list.c:183-204 | The elements from first up to last, of this list or of another one, move in front of the given element, in order; both lists stay well-linked and nothing else moves. |
| IntrusiveList.List.FindEndOfRun | lib/kernel/list.c:365-380 | Returns the element where the maximal nondecreasing run that starts at the given one ends. |
| IntrusiveList.List.InplaceMerge | lib/kernel/list.c:387-407 | Two adjacent sorted runs become one sorted run of the same elements, moving an element only in front of larger ones; the rest of the list is untouched. |
| IntrusiveList.List.MergeNextRuns | lib/kernel/list.c:412-448 | One turn of a pass merges the next two runs, or leaves a single last run alone. |
| IntrusiveList.List.Pass | lib/kernel/list.c:412-448 | A pass reports half the number of runs, rounded up, leaves at most that many, and reorders only as forced. |
| IntrusiveList.List.Sort | lib/kernel/list.c:412-448 | The list is well-linked, of the same nodes, sorted, stable, after at most as many passes as halving the run count allows. |
| IntrusiveList.PassBoundIsLogarithmic | lib/kernel/list.c:412-448 | That number of passes is at most the binary logarithm of the number of runs, rounded up, or one. |
| IntrusiveList.List.InsertOrdered | lib/kernel/list.c:453-467 | Insertion into a sorted list keeps it sorted, behind exactly the elements the new one is not less than. |
| SortSpec.ForcedIsStable | lib/kernel/list.c:382-407 | Reordering two elements only if the order forces it is stability. |
| SortSpec.RunsConcat | lib/kernel/list.c:409-448 | Joining two stretches joins at most one run of each. |
| Threads.StepKeepsFlow | threads/thread.c:254-280 | Every step of any thread keeps the ready list and all semaphore queues exact. |
| Threads.ScheduleKeepsScheduled | threads/thread.c:549-627 | Choosing the next thread restores: one running thread, the ready list holding each other ready thread once. |
| Threads.WakeKeepsQueued | threads/synch.c:108-121 | Waking the first waiter leaves every semaphore queue exactly the threads asleep on it. |
| Threads.SleepKeepsQueued | threads/synch.c:60-76 | A thread that blocks in sema_down is on that queue and no other. |
| Threads.UpKeepsNoneLost | threads/synch.c:108-121 | sema_up keeps the bound of the value by the woken threads while anybody sleeps. |
| Threads.DownKeepsNoneLost | threads/synch.c:60-76 | A turn of sema_down, taking or sleeping, keeps that bound. |
| Synch.StepKeepsNoneLost | threads/synch.c:60-121 | No step of any thread loses a wake-up. |
| Synch.StepMoves | threads/synch.c:60-338 | A step changes the place of the running thread only, and semaphores, locks and conditions never disappear. |
| Synch.StepKeepsBase | threads/synch.c:60-338 | Every step keeps the scheduler's queues, the semaphores' queues and the sense of each thread's continuation. |
| Synch.TurnKeepsLock | threads/synch.c:192-236 | If one thread takes a fair turn, the lock still has one holder or none, and its semaphore is 0 exactly if it has one. |
| Synch.StepTurn | threads/synch.c:192-236 | Every step is a fair turn with respect to every lock. |
| Synch.StepKeepsLocks | threads/synch.c:192-236 | Every step keeps every lock. |
| Conditions.EnterKeepsConds | threads/synch.c:287-302 | A thread that enters cond_wait joins the back of one queue, with a fresh semaphore nobody has posted. |
| Conditions.PopKeepsConds | threads/synch.c:311-322 | The waiter taken off by cond_signal is in the hands of one signaller and on no queue. |
| Conditions.PostKeepsConds | threads/synch.c:311-322 | The signaller posts its waiter's semaphore once. |
| Conditions.PassKeepsConds | threads/synch.c:287-302 | A signalled waiter consumes its post and stops being a waiter. |
| Conditions.DownGoesTo | threads/synch.c:60-76 | Where one turn of sema_down leaves the thread and the value, in both cases, and that it touches no other semaphore, lock or condition. |
| Conditions.StepKeepsConds | threads/synch.c:287-338 | Every step keeps: each waiter is queued once, or popped by one signaller, or posted once. |
| Concurrency.FreshIsInv | threads/thread.c:87-118 | The state at the start of scheduling meets the invariant. |
| Concurrency.StepKeepsAccounted | threads/synch.c:60-121 | No step breaks value + downs = initial value + ups. |
| Concurrency.StepKeepsInv | threads/synch.c:60-338 | Every step of any thread keeps the whole invariant. |
| Concurrency.RunKeepsInv | threads/synch.c:60-338 | Every run keeps it. |
| Concurrency.NoWakeupLost | threads/synch.c:60-121 | In every run, value + downs = initial value + ups, and while a thread sleeps on a semaphore its value is at most the number of woken threads still to retry. |
| Concurrency.MutualExclusion | threads/synch.c:192-236 | In every run, at most one thread is between lock_acquire completing and lock_release, and the semaphore is 0 exactly if there is one, else 1. |
| Concurrency.OneQueueEach | threads/thread.c:549-627 | In every run, one thread runs; each ready thread but the idle one is on the ready list once; each blocked one is on one semaphore's queue, once. |
| Concurrency.StepReady | threads/thread.c:549-627 | A call of schedule takes the front of the ready list; nothing else takes anything off it. |
| Concurrency.DispatchedInTurn | threads/thread.c:549-627 | The thread at place k of the ready list is n places further ahead after n calls of schedule, and is dispatched by call k + 1, over every run. |
| Concurrency.StepQueue | threads/synch.c:287-338 | Only cond_signal takes waiters off a condition, from the front; newcomers join at the back. |
| Concurrency.SignalledInTurn | threads/synch.c:287-322 | The waiter at place k sleeps through the first k signals of every run, and signal k + 1 is for it, whether or not it has reached its sema_down by then. |
| Concurrency.WaiterGoesOnIff | threads/synch.c:287-302 | A thread in cond_wait gets past its semaphore if and only if it is neither queued nor held by a signaller, that is, has been signalled; else it sleeps. |
| Concurrency.StepInWait | threads/synch.c:192-302 | One step of any thread leaves a thread in its cond_wait, or has it return holding the lock. |
| Concurrency.WaitReturnsHolding | threads/synch.c:192-302 | Over every run, cond_wait and lock_acquire return only with the lock held. |
| Primitives.UpWakesFirst | threads/synch.c:108-121 | sema_up adds one to the value and makes exactly the first waiter ready, last on the ready list; every other thread and semaphore is as it was. |
| Primitives.UpCall | threads/synch.c:108-121 | The same holds of the step with which a client calls it. |
| Primitives.DownTakes | threads/synch.c:60-76 | A turn of sema_down on a positive value takes one and goes on to what follows it: the return, the holder field of a lock, or the lock of a condition. |
| Primitives.DownSleeps | threads/synch.c:60-76 | On value 0 the thread blocks, last among the waiters, and the next thread runs. |
| Primitives.DownReturnsTaking | threads/synch.c:60-76 | Over every run, a call of sema_down returns only with the step that takes one off the value. |
| Primitives.TryDownCall | threads/synch.c:83-102 | sema_try_down takes one exactly if the value is positive, and changes nothing else. |
| Primitives.FreeIff | threads/synch.c:192-236 | The semaphore of a lock is 1 if and only if no thread is inside the lock, and at most one ever is. |
| Primitives.AcquireReturnsHolding | threads/synch.c:192-201 | After the call of lock_acquire its caller is in it, and over every run it returns only with the lock held. |
| Primitives.AcquireCall | threads/synch.c:192-201 | The call enters lock_acquire at the semaphore of the lock and changes nothing else. |
| Primitives.AcquireFree | threads/synch.c:192-201 | There, with nobody inside the lock, the thread gets in and is the holder and back at its caller with one more step. |
| Primitives.AcquireTaken | threads/synch.c:192-201 | With somebody inside it blocks, last among the waiters, and the next thread runs. |
| Primitives.TryAcquireCall | threads/synch.c:209-221 | lock_try_acquire gets into the lock, and is its holder with one more step, exactly if nobody is inside; else nothing changes. |
| Primitives.ReleaseCall | threads/synch.c:228-236 | lock_release clears the holder field of that lock alone and goes on to its semaphore. |
| Primitives.LeavesLock | threads/synch.c:228-236 | With the next step nobody is inside the lock, its first waiter is ready, and the thread is back at its caller, or at its own semaphore if it is in cond_wait. |
| Primitives.WaitCall | threads/synch.c:287-302 | cond_wait queues its caller last, and over every run returns only with the lock held. |
| Primitives.WaitLetsGo | threads/synch.c:287-302 | In two more steps of its own the waiter is out of the lock, with nobody inside, and at its own semaphore. |
| Primitives.SignalCall | threads/synch.c:311-322 | cond_signal without waiters changes nothing; else exactly the front one leaves the queue, and the caller's next step posts its semaphore, once, and returns. |
| Primitives.YieldAlone | threads/thread.c:378-393 | thread_yield with nobody else ready changes nothing. |
| Primitives.YieldCall | threads/thread.c:378-393 | Else the front of the ready list runs, and the caller is ready, last on the list unless it is the idle thread. |
| Primitives.CreateCall | threads/thread.c:218-246 | thread_create makes a thread that was not there, ready and last on the list, and changes nothing else. |
| Primitives.ExitCall | threads/thread.c:317-374 | thread_exit removes its caller, and the next thread runs. |
| Primitives.IdleCall | threads/thread.c:449-476 | The idle thread blocks and the front of the ready list runs, or itself if there is none. |
| Kernel.Scheduler.constructor | threads/thread.c:87-118 | The state at the start of scheduling; it meets the invariant. |
| Kernel.Scheduler.ThreadUnblock | threads/thread.c:268-280 | A blocked thread becomes ready and the ready list is exact again: every ready thread but the idle one, once, and nobody else. |
| Kernel.Scheduler.NextThreadToRun | threads/thread.c:549-556 | While nobody runs: a ready thread, or the idle one exactly if no other is ready; every other ready thread is still on the list, once. |
| Kernel.Scheduler.Switch | threads/thread.c:574-627 | From a thread that gave up the CPU to the next: one thread runs, the ready list is exact, a dead thread is gone. |
| Kernel.Scheduler.ThreadBlock | threads/thread.c:254-263 | The running thread sleeps and the next one runs; the ready list stays exact. |
| Kernel.Scheduler.RaiseSema | threads/synch.c:108-121 | The first waiter becomes ready, and the ready list and every semaphore queue stay exact. |
| Kernel.Scheduler.DownTurn | threads/synch.c:60-76 | One turn of the loop, taking one or going to sleep, keeps the ready list exact. |
| Kernel.Scheduler.ThreadYield | threads/thread.c:378-393 | The step Preempt of the transition system, keeping its whole invariant. |
| Kernel.Scheduler.ThreadExit | threads/thread.c:317-374 | The step Exit, keeping the whole invariant. |
| Kernel.Scheduler.IdleSleeps | threads/thread.c:449-476 | The step IdleBlock, keeping the whole invariant. |
| Kernel.Scheduler.ThreadCreate | threads/thread.c:218-246 | The step Create: the thread is new and on the ready list, and the whole invariant holds. |
| Kernel.Scheduler.SemaUp | threads/synch.c:108-121 | The step CallUp, keeping the whole invariant: no wake-up is lost. |
| Kernel.Scheduler.SemaTryDown | threads/synch.c:83-102 | The step CallTryDown, keeping the whole invariant; it returns true exactly if it has taken one. |
| Kernel.Scheduler.SemaDown | threads/synch.c:60-76 | The step CallDown, keeping the whole invariant; the caller is in sema_down, which over every run it leaves only by taking one (Primitives.DownReturnsTaking). |
| Kernel.Scheduler.LockAcquire | threads/synch.c:192-201 | The step CallAcquire, keeping the whole invariant; the caller is in lock_acquire, which over every run it leaves only with the lock held (Primitives.AcquireReturnsHolding). |
| Kernel.Scheduler.LockTryAcquire | threads/synch.c:209-221 | The step CallTryAcquire, keeping the whole invariant; it succeeds if and only if no thread was inside the lock, and then the caller is the one inside. |
| Kernel.Scheduler.LockRelease | threads/synch.c:228-236 | The step CallRelease, keeping the whole invariant; the lock has no holder, and the semaphore is next. |
| Kernel.Scheduler.CondWait | threads/synch.c:287-302 | The step CallWait, keeping the whole invariant; the caller is last in the queue, and over every run returns only with the lock held. |
| Kernel.Scheduler.CondSignal | threads/synch.c:311-322 | The step CallSignal, keeping the whole invariant; the front of the queue, if any, is the one to be posted. |
| Kernel.Scheduler.Continue | threads/synch.c:60-322 | The step Continue: the rest of sema_down, lock_acquire, lock_release, cond_wait and cond_signal, region by region, keeping the whole invariant. |
| Bits.WordOps | lib/kernel/bitmap.c:145-204 | Setting or clearing one bit of a word changes that bit only. |
| Bits.Scan | lib/kernel/bitmap.c:296-311 | The group found is all of the value asked for, and every earlier group is not; none found means there is none. |
| Bits.Bitmap.constructor | lib/kernel/bitmap.c:78-94 | All bits are false. |
| Bits.Bitmap.Test | lib/kernel/bitmap.c:198-204 | Word and mask give the bit of the bit string the words stand for. |
| Bits.Bitmap.Mark | lib/kernel/bitmap.c:157-167 | The bit string with that one bit true. |
| Bits.Bitmap.Reset | lib/kernel/bitmap.c:170-180 | The bit string with that one bit false. |
| Bits.Bitmap.Set | lib/kernel/bitmap.c:145-154 | The bit string with that one bit as given. |
| Bits.Bitmap.SetMultiple | lib/kernel/bitmap.c:218-229 | The bit string with that stretch as given. |
| Bits.Bitmap.Contains | lib/kernel/bitmap.c:251-264 | True exactly if some bit of the stretch has the value. |
| Bits.Bitmap.ScanBits | lib/kernel/bitmap.c:296-311 | The first position with a whole group of the value, or none. |
| Bits.Bitmap.ScanAndFlip | lib/kernel/bitmap.c:320-327 | That group is flipped and no other bit; nothing changes if there is none. |
| Disk.PatchTwice | filesys/inode.c:263-324 | Writes that follow each other are one write. |
| Disk.SectorIsPatch | filesys/inode.c:263-324 | Reading a sector, copying over part of it and writing it back is a write of those bytes. |
| Disk.SliceOfPatch | filesys/inode.c:206-324 | What was written reads back. |
| Disk.ByteToSector | filesys/inode.c:52-60 | A byte of a file lies in one of the file's own sectors. |
| Disk.ChunkExtends | filesys/inode.c:206-256 | The next chunk continues the bytes read so far. |
| Disk.InodeReadAt | filesys/inode.c:206-256 | Returns the bytes of the file from the offset: all that were asked for up to the end, or without memory for the bounce buffer exactly the whole sectors before the first part of one. |
| Disk.TransferStops | filesys/inode.c:206-324 | With memory the chunk loops end after all bytes asked for, up to the end of the file; without it they end at the first chunk that is not a whole sector. |
| DiskFormat.Le32RoundTrip | filesys/inode.c:16-24 | A 32-bit number stored in four bytes reads back. |
| DiskFormat.NodeRoundTrip | filesys/inode.c:78-112 | An inode written to its sector reads back. |
| DiskFormat.AddedEntryReads | filesys/directory.c:141-179 | A directory entry written over any bytes reads back as that name and sector, in use. |
| DiskFormat.ErasedEntryReads | filesys/directory.c:184-216 | An erased entry reads back as the same entry, not in use. |
| FileSys.Find | filesys/directory.c:91-112 | The first entry in use with the name: no earlier one matches, and none found means no entry in use has it. |
| FileSys.PutSlotWrites | filesys/directory.c:141-216 | Writing one entry changes that entry, no other, and no other sector. |
| FileSys.SpaceAdd | filesys/inode.c:78-112 | A file on sectors that were all free shares none with any live file. |
| FileSys.SpaceRelease | filesys/inode.c:169-192 | Freeing all sectors of a file that is live no longer frees none of any other file. |
| FileSys.InodeOpenKeeps | filesys/inode.c:117-148 | Opening keeps one list entry per open inode, with as many openers as there are. |
| FileSys.InodeCloseKeeps | filesys/inode.c:169-192 | Closing keeps the invariant, on the last close of a removed inode too. |
| FileCalls.InodeCreateKeeps | filesys/inode.c:78-112 | Creating an inode changes nothing live; the new file owns its sectors alone and is zero. |
| FileCalls.DirAddKeeps | filesys/directory.c:141-179 | Unless a scan cut short for want of memory spoils it, a new file gets a name nobody has and all other entries stay, but for one in use where the search for a free entry was cut short: its file, which is not open, loses its name. |
| FileCalls.DirAddSpoils | filesys/directory.c:141-179 | A scan cut short does break the invariant if it misses an entry of the same name, or if the entry written over names an open file. |
| FileCalls.MemorySpoilsNothing | filesys/directory.c:141-179 | With memory for the bounce buffer no scan spoils anything, and the name is refused exactly if it is empty, too long or taken, or no entry is free. |
| FileCalls.CreateSucceeds | filesys/filesys.c:46-60 | A creation that succeeds and is not spoiled names one new zero file of the size asked for, changes no live file, and loses no sector but those of a file whose entry was written over. |
| FileCalls.CreateFails | filesys/filesys.c:46-60 | A failed creation changes no live file and no entry; the sectors it loses are exactly its data if the name was not added after the data was allocated. |
| FileCalls.LosesIff | filesys/filesys.c:46-60 | That happens if and only if there was memory and space for the inode and the directory does not add the name. |
| FileCalls.CreateKeeps | filesys/filesys.c:46-60 | A call of filesys_create that is not broken keeps the invariant; on success it names one new file, on failure no entry changes. |
| FileCalls.CreateKeepsIff | filesys/filesys.c:46-60 | filesys_create keeps the invariant if and only if it does not get to write a name that a scan cut short for want of memory spoils: a second entry of one name, or one over the entry of an open file. |
| FileCalls.CreateKeepsNamesIff | filesys/filesys.c:46-60 | Among those calls, no other file loses its name if and only if the search for a free entry did not stop at an entry in use. |
| FileCalls.CreateAccounts | filesys/filesys.c:46-60 | The sectors marked but owned by no live file stay the same, unless the name was not added: then exactly the new data joins them; or a file lost its name: then exactly its sectors do. |
| FileCalls.CloseFrees | filesys/inode.c:169-192 | The sectors of a removed inode are freed at the last close, exactly those, and none otherwise. |
| FileRuns.UnlinkKeeps | filesys/directory.c:184-216 | Removing an open file takes its name away and leaves it live for its openers. |
| FileRuns.RemoveKeeps | filesys/filesys.c:84-92 | Removal keeps the invariant, with or without memory; it succeeds if and only if there is memory for the directory, the name is among the entries read, its inode is open already or there is memory for it, and the entry can be written; on success exactly that entry is out of use, on failure the directory is unchanged. |
| FileRuns.RemoveSucceedsIff | filesys/filesys.c:84-92 | That condition, said of the entries on disk, the open inodes and the memory outcomes. |
| FileOutcomes.RemoveOfOpenFile | filesys/filesys.c:84-92 | A file removed while it is open stays: its inode is still listed with as many openers as files, marked removed, and its sectors are kept. |
| FileOutcomes.RemoveFrees | filesys/filesys.c:84-92 | A file removed while nothing has it open gives back exactly its own sectors, inode and data; an open one gives back none. |
| FileOutcomes.CreateSucceedsIff | filesys/filesys.c:46-60 | filesys_create succeeds if and only if memory suffices, besides the lowest free sector there are as many free sectors in a row as the data needs, the name is of 1 to 14 bytes and not among the entries read, and there is an entry to write it to and memory to do so. |
| FileOutcomes.DenyStopsWrites | filesys/file.c:110-120 | After file_deny_write no write through any file on that inode takes a byte. |
| FileOutcomes.AllowLetsWrite | filesys/file.c:124-133 | Once its only denier allows writes, a write takes all the bytes within the file, or without memory the whole sectors. |
| FileRuns.OpenKeeps | filesys/filesys.c:67-78 | Opening keeps the invariant; it succeeds if and only if there is memory for the directory and the file, the name is among the entries read, and its inode is open already or there is memory for it; the file returned is the one of that name, at position 0. |
| FileRuns.OpenSucceedsIff | filesys/filesys.c:67-78 | That condition, said of the entries on disk, the open inodes and the memory outcomes. |
| FileRuns.ReopenKeeps | filesys/file.c:30-34 | Reopening keeps the invariant and succeeds if and only if there is memory for the file, which is on the same inode, at position 0. |
| FileRuns.DenialKeeps | filesys/file.c:110-133 | Denying and allowing writes keeps the count of denials equal to the files that deny. |
| FileRuns.DenialsAtMostOpeners | filesys/inode.c:328-344 | There are never more denials than openers: the assertions of both functions hold. |
| FileRuns.CloseKeeps | filesys/file.c:37-46 | Closing keeps the invariant. |
| FileRuns.CloseReleases | filesys/file.c:37-46 | Closing frees the sectors of a removed file exactly if it was the last opener, and only then is the file live no longer. |
| FileRuns.WriteWithin | filesys/inode.c:263-324 | A write within a file touches the file's own data sectors only, and splices the bytes into its contents. |
| FileRuns.PatchKeeps | filesys/inode.c:263-324 | Writing into a live file keeps the invariant: no inode, directory or other file changes. |
| FileTheorems.WriteKeeps | filesys/file.c:86-92 | file_write keeps the invariant; it takes no byte if some opener denies writes, else all up to the end of the file, or without a bounce buffer the whole sectors of that from an aligned position; exactly those bytes change on disk, and the position moves by their number. |
| FileTheorems.StepKeepsInvIff | filesys/filesys.c:46-92 | Every call keeps the invariant if and only if it is not a creation broken by a directory scan cut short. |
| FileTheorems.RunKeepsInvIff | filesys/filesys.c:46-92 | The invariant holds at every point of a run if and only if no creation in it is broken that way. |
| FileTheorems.StepSplices | filesys/file.c:86-92 | No such call but a write to it changes a live file, and a write splices in exactly the bytes it must take: none if an opener denies writes, else those within the file, or without memory the whole sectors. |
| FileTheorems.FileHoldsWrites | filesys/inode.c:206-324 | Over every such run, short transfers included, a file that stays named or open holds its first contents with the bytes each write must take (none while an opener denies writes, else those within the file, or without memory the whole sectors) spliced in, in order, and nothing else. |
| FileTheorems.OpenStaysLive | filesys/inode.c:169-201 | Over every such run without its close, an open file keeps its sectors, also when it is removed. |
| FileTheorems.ReadReturns | filesys/file.c:60-66 | A read returns the bytes of the file from its position, up to the end or, without memory, up to the first part of a sector, and moves the position by their number. |
| FileTheorems.FormatIsInv | filesys/filesys.c:95-104 | Formatting establishes the invariant, with no name in use. |
| FileTheorems.FormatSucceedsIff | filesys/filesys.c:95-104 | Formatting succeeds if and only if there is memory and the disk has room for two inodes, a free map of its own size and the root directory; then exactly those sectors are marked. |
| FileTheorems.CreatedFileOpens | filesys/filesys.c:46-78 | A file just created can be opened by its name and reads as zeros of the size asked for. |
| FileTheorems.EmptyNameLoses | filesys/filesys.c:46-60 | A failing input: on a freshly formatted disk of eight sectors, creating a file with an empty name fails and leaves its data sector marked for nobody. |
| FileTheorems.LookupCutShort | filesys/directory.c:141-179 | A failing input: on that disk, creating a file twice succeeds twice if the second lookup has no memory, and the invariant is broken. |
| FileSystem.Volume.constructor | filesys/free-map.c:12-20 | Only the two reserved sectors are marked. |
| FileSystem.Volume.FreeMapAllocate | filesys/free-map.c:26-40 | The first run of free sectors of that length is marked; none is if there is no such run, or if the map cannot be written to its file. |
| FileSystem.Volume.FreeMapRelease | filesys/free-map.c:43-49 | That run, which was all marked as the source asserts, is unmarked, and nothing else changes. |
| FileSystem.Volume.InodeCreate | filesys/inode.c:78-112 | The object does what the specified creation does. |
| FileSystem.Volume.InodeOpen | filesys/inode.c:117-148 | The list search and insertion do what the specified opening does. |
| FileSystem.Volume.InodeClose | filesys/inode.c:169-192 | The object does what the specified close does, the two releases included. |
| FileSystem.Volume.InodeRemove | filesys/inode.c:196-201 | The inode is marked as removed and nothing else changes. |
| FileSystem.Volume.InodeWriteAt | filesys/inode.c:263-324 | The chunk loop with its bounce buffer writes the bytes up to the end of the file as one patch of the disk, or a prefix of them without memory. |
| FileSystem.Volume.Lookup | filesys/directory.c:91-112 | The loop over the entries finds the specified entry among those it can read, and returns its bytes. |
| FileSystem.Volume.FindFree | filesys/directory.c:141-179 | The search loop stops at the first free entry, at the end, or where a read comes back short, as specified. |
| FileSystem.Volume.DirAdd | filesys/directory.c:141-179 | The object does what the specified insertion does, short scans and a failed write included. |
| FileSystem.Volume.FilesysCreate | filesys/filesys.c:46-60 | The object does what the specified call does, and keeps the invariant if and only if no scan of the directory is cut short in a way that breaks it; it succeeds exactly if there is room for the file and the directory takes the name. |
| FileSystem.Volume.FilesysRemove | filesys/filesys.c:84-92 | The object does what the specified call does and keeps the invariant; it succeeds exactly if there is memory for the directory, the entry can be written, and the name is among the entries read with its inode open or memory for it. |
| FileSystem.Volume.FilesysOpen | filesys/filesys.c:67-78 | The object does what the specified call does and keeps the invariant; it succeeds exactly if there is memory for the directory and the file, and the name is among the entries read with its inode open or memory for it. |
| Malloc.MallocInit | threads/malloc.c:71-85 | The loop makes seven descriptors, 16 bytes to 1 kB, with the number of blocks that fit behind a header. |
| Malloc.AddrIndex | threads/malloc.c:267-294 | Block number and address in an arena determine each other, and the assertions of block_to_arena hold. |
| Malloc.AllocKeeps | threads/malloc.c:89-154 | malloc keeps the invariant; it returns null if and only if nothing is asked for, or a small request finds no block on its list and no page free, or a larger one no run of its pages; a block returned was not live, and is the only change to what is live. |
| Malloc.AllocFailsIff | threads/malloc.c:89-154 | That condition, said of the free lists and the free pages, for the smallest descriptor that serves the request and for the pages of a larger one in 32-bit arithmetic. |
| Malloc.AllocFromList | threads/malloc.c:89-154 | With a block on the list of its descriptor the first one is handed out and no page taken. |
| Malloc.AllocFromPage | threads/malloc.c:89-154 | With that list empty exactly the lowest free page is taken; its first block is handed out, and the list holds the others in order. |
| Malloc.AllocFromRun | threads/malloc.c:89-154 | A larger request takes exactly the lowest free run of as many pages as request and header need, and no list changes. |
| Malloc.FreedFirst | threads/malloc.c:218-264 | A block freed while another of its arena is live is the next one handed out for its descriptor. |
| Malloc.GetTakesLowest | threads/palloc.c:77-108 | Pages for anybody are the lowest free run of as many, exactly those are marked, and there are none exactly if there is no such run. |
| Malloc.FreeKeeps | threads/malloc.c:218-264 | free of a live block keeps the invariant; that block alone stops being live. |
| Malloc.PageReturnedIff | threads/malloc.c:218-264 | A page goes back to the page allocator if and only if the last live block in it is freed; then exactly the pages of its run become free. |
| Malloc.BigFitsIff | threads/malloc.c:105-120 | The pages for a big block hold the request if and only if adding the header does not wrap around; just below that size no pages are asked for. |
| Malloc.LiveBlocksApart | threads/malloc.c:89-264 | Two live blocks do not overlap. |
| Malloc.LiveApartFromFree | threads/malloc.c:89-264 | No live block overlaps a free one. |
| Malloc.LiveApartFromHeaders | threads/malloc.c:89-264 | No live block overlaps an arena header. |
| Malloc.StepKeepsInv | threads/malloc.c:89-264 | Every call keeps the invariant, those of other clients of the page allocator too. |
| Malloc.RunKeepsInv | threads/malloc.c:89-264 | Every run keeps it. |
| Malloc.LiveBlocksSound | threads/malloc.c:89-264 | In every run from boot, a live block is as large as was asked for, except requests that wrapped around, and no two live blocks overlap. |
| Malloc.AllocFitsIff | threads/malloc.c:89-154 | The block returned holds the request if and only if the size is below 2^32 - 11. |
| Malloc.WrappedRequest | threads/malloc.c:105-120 | A failing input: from boot with one page, a request of 2^32 - 1 bytes gets a block of 4084. |
| Allocator.Arenas.GetMultiple | threads/palloc.c:77-108 | The first free run of pages, now used; none if there is no such run or no pages were asked for. |
| Allocator.Arenas.FreeMultiple | threads/palloc.c:124-149 | A run of pages that were all in use, as the source asserts, is free again and nothing else changes. |
| Allocator.Arenas.FindDescriptor | threads/malloc.c:100-105 | The smallest descriptor that serves the size. |
| Allocator.Arenas.NewArena | threads/malloc.c:124-146 | The loop puts all blocks of the page on the free list, in order. |
| Allocator.Arenas.Allocate | threads/malloc.c:89-154 | The object does what the specified malloc does, and returns null if and only if there is no memory: no block on the list and no free page, or no run of pages. |
| Allocator.Arenas.Dissolve | threads/malloc.c:241-253 | The loop takes exactly the blocks of that page off the free list. |
| Allocator.Arenas.Release | threads/malloc.c:218-264 | The object does what the specified free does. |
| Arithmetic.Nlz | lib/arithmetic.c:41-73 | The halving search returns the number of leading zero bits, defined one bit at a time. |
| Arithmetic.ShortExact | lib/arithmetic.c:77-127 | With a 32-bit divisor the two-step division is exact and divl does not trap. |
| Arithmetic.LongExact | lib/arithmetic.c:77-127 | With a larger divisor the normalised estimate is at most one too large and the correction makes it exact; divl does not trap. |
| Arithmetic.UdivExact | lib/arithmetic.c:77-127 | udiv64 is exact for all 64-bit operands with a nonzero divisor. |
| Arithmetic.UmodExactIff | lib/arithmetic.c:131-135 | umod64 is exact if and only if the remainder fits its 32-bit return type. |
| Arithmetic.SdivExactIff | lib/arithmetic.c:139-146 | sdiv64 truncates toward zero for all operands but the one overflowing pair. |
| Arithmetic.SmodExactIff | lib/arithmetic.c:150-154 | smod64 is exact if and only if the remainder fits its 32-bit return type. |
| Arithmetic.RemaindersCut | lib/arithmetic.c:131-154 | Failing inputs: 2^32 mod 2^32 + 1 comes out as 0, and 2^31 mod 2^31 + 1 as -2^31. |
| Hash.TurnOffIs | lib/kernel/hash.c:331-335 | x & (x - 1) takes off the lowest one bit. |
| Hash.PowerTest | lib/kernel/hash.c:338-342 | The bit trick is true exactly of the powers of two. |
| Hash.MaskIsMod | lib/kernel/hash.c:307-312 | Masking with one less than a power of two is the remainder. |
| Hash.BestCount | lib/kernel/hash.c:353-415 | The loop finds the largest power of two not above half the elements, at least 4. |
| Hash.RehashKeeps | lib/kernel/hash.c:353-415 | Rehashing keeps the elements, each in its bucket; with memory the number of buckets is the best. |
| Hash.FindRefines | lib/kernel/hash.c:316-328 | A lookup finds the equal element of the set if and only if there is one. |
| Hash.StepRefines | lib/kernel/hash.c:98-156 | Each operation does to the table what it does to a set with one element per equality class, returns the equal element that was there, with or without memory for new buckets. |
| Hash.RunRefines | lib/kernel/hash.c:98-156 | Over every run, with any allocation failures, the table stands for that set. |
| Hash.EmptyIsInv | lib/kernel/hash.c:24-42 | The new table is a right table for the empty set. |
| Hash.CountIsSize | lib/kernel/hash.c:249-253 | elem_cnt is the number of elements. |
| HashTable.Chained.constructor | lib/kernel/hash.c:24-42 | Four empty buckets. |
| HashTable.Chained.FindElem | lib/kernel/hash.c:316-328 | The bucket loop finds the first equal element. |
| HashTable.Chained.HashFind | lib/kernel/hash.c:131-135 | The equal element, if any; the table is unchanged. |
| HashTable.Chained.MoveBucket | lib/kernel/hash.c:391-410 | The inner loop moves all elements of a bucket to the front of their new buckets, in order. |
| HashTable.Chained.DoRehash | lib/kernel/hash.c:353-415 | The loops yield the specified table, or leave it alone without memory. |
| HashTable.Chained.HashInsert | lib/kernel/hash.c:98-110 | The object does what the specified insertion does. |
| HashTable.Chained.HashReplace | lib/kernel/hash.c:114-127 | The object does what the specified replacement does. |
| HashTable.Chained.HashDelete | lib/kernel/hash.c:144-156 | The object does what the specified deletion does. |
| HashTable.Chained.HashNext | lib/kernel/hash.c:220-237 | The next element in the order of the buckets, or the end. |
| HashTable.Chained.VisitAll | lib/kernel/hash.c:201-237 | The iteration idiom visits each element once. |
| Sorting.Swap | lib/stdlib.c:66-79 | Byte by byte, the two elements change places and no other changes. |
| Sorting.ExchangedIsSwapped | lib/stdlib.c:66-79 | Exchanging the bytes of two elements is swapping the two in the sequence of elements. |
| Sorting.Heapify | lib/stdlib.c:96-123 | The element sinks until the heap from it on is right; only elements of the heap are rearranged. |
| Sorting.RootIsMax | lib/stdlib.c:131-152 | The root of a heap is not less than any element of it. |
| Sorting.Sort | lib/stdlib.c:131-152 | The elements in the array of bytes are in order, and a permutation of what they were. |
| Sorting.BinarySearch | lib/stdlib.c:184-207 | The offset of a matching element of a sorted array of bytes if and only if there is one. |
| PageDirectory.SetFlagOnly | userprog/pagedir.c:148-250 | Changing one flag of an entry leaves the other flags and the frame alone. |
| PageDirectory.UserPteReads | threads/pte.h:95-104 | A fresh entry reads back as its frame, present, user, writable as asked, neither accessed nor dirty. |
| PageDirectory.Indexes | threads/pte.h:31-39 | Page number and the two table indexes determine each other. |
| PageDirectory.NewTable | userprog/pagedir.c:59-89 | A new, empty table changes no entry of any page. |
| PageDirectory.PutWord | userprog/pagedir.c:101-124 | Writing one word of a table changes the entry of one page. |
| PageDirectory.Directory.constructor | userprog/pagedir.c:19-26 | No user page is mapped. |
| PageDirectory.Directory.LookupPage | userprog/pagedir.c:59-89 | The word of the page's entry exactly if there is a table for it. |
| PageDirectory.Directory.CreateTable | userprog/pagedir.c:59-89 | There is a table for the address unless no page was available; no entry changes. |
| PageDirectory.Directory.SetPage | userprog/pagedir.c:101-124 | The page is mapped to the frame and no other entry changes; failure means a table was missing and no page available. |
| PageDirectory.Directory.GetPage | userprog/pagedir.c:130-142 | The kernel address of the byte, exactly if its page is present. |
| PageDirectory.Directory.ClearPage | userprog/pagedir.c:148-162 | The page is not present; the rest of its entry and all other entries stay. |
| PageDirectory.Directory.SetUse | userprog/pagedir.c:207-250 | The dirty or accessed flag of one entry changes if the page has a table, and nothing else. |
| PageDirectory.Directory.InstallPage | userprog/pagedir.c:173-191 | Maps a page that is not present, refuses one that is, and reads back as that frame. |
| Arguments.TokensOfJoin | userprog/process.c:90-165 | Splitting undoes joining by spaces. |
| Arguments.TokensAreTokens | userprog/process.c:90-165 | Splitting gives nonempty strings without spaces, made of bytes of the line. |
| Arguments.StrtokR | lib/string.c:234-275 | The token returned is the first of the rest, ended by a null in the buffer; the tokens after it are those of the new rest. |
| Arguments.Split | userprog/process.c:90-165 | The loop runs over the end of its array of 100 if and only if the line has more tokens; else the array holds the start of every token, in order, still readable as a string after the later calls. |
| Arguments.Aligned | userprog/process.c:90-165 | The padding aligns every word below it. |
| Arguments.HeadReads | userprog/process.c:90-165 | Above the stack pointer are argc and a pointer to the argument pointers, which end with a null pointer. |
| Arguments.ArgReads | userprog/process.c:90-165 | Each argument pointer leads to its argument; the arguments follow each other above all words. |
| Arguments.StoreStrings | userprog/process.c:90-165 | The copy loop puts the strings with their nulls behind one another and changes nothing else. |
| Arguments.StorePointers | userprog/process.c:90-165 | The pointer loop stores the addresses of those strings and changes nothing else. |
| Arguments.BuildStack | userprog/process.c:90-165 | The page holds the layout at its top; below the stack pointer nothing changes. |
| Arguments.BuiltPasses | userprog/process.c:90-165 | Following argc and argv from the stack pointer, as main does, reads every argument and the null pointer. |
| Arguments.PassArguments | userprog/process.c:90-165 | For lines of 1 to 100 tokens, from the command line in its buffer to the stack page: following argc and argv from the stack pointer, which is aligned, reads exactly the tokens of the line, and nothing below the layout changes. |
| Arguments.TooManyTokens | userprog/process.c:90-95 | A failing input: a line of 101 one-letter words, 201 bytes long, whose arguments would fit the stack page. |
| Printf.DoAtoi | lib/stdlib.c:9-41 | The loops skip space, take a sign and digits, and return the specified value, for every string on which no step overflows an int. |
| Printf.Accumulate | lib/stdio.c:469-547 | The digit loop fills the buffer with the digits of a 64-bit value, least significant first, grouped if asked, and stays within 44 of its 64 bytes. |
| Printf.BufferFits | lib/stdio.c:469-547 | Digits, separators, zeros up to any precision and the zero of %#o of every 64-bit value fit the 64 bytes. |
| Printf.FormatInteger | lib/stdio.c:469-547 | With its buffer of 64 bytes, the output for every 64-bit value is the specified rendering for every base, width, precision and flag. |
| Printf.AtoiOfRender | lib/stdio.c:469-547 | atoi of the %d rendering of an int, without digit grouping, gives it back with no overflow on the way, whatever width, precision and flags. |
| Formatting.TableLegible | lib/stdio.c:138-141 | The digits of the four bases are told apart, and from the separator. |
| Formatting.BufferValue | lib/stdio.c:469-547 | The digits written stand for the value, in every base, with any grouping, precision, flags and zeros before them. |
| Formatting.RenderLayout | lib/stdio.c:469-547 | The output is spaces, the sign the flags ask for, 0x exactly for a nonzero value of base 16 with #, digits that stand for the value, and spaces, on the side the flags say. |
| Formatting.RenderWidthIff | lib/stdio.c:469-547 | The output is as wide as asked for, or as sign, prefix and digits are, if and only if flags - and 0 are not both set with a width beyond that; then it is padded twice. |
| Formatting.PaddedTwice | lib/stdio.c:469-547 | A failing input: 42 in a field of 5 with both flags is written as 8 characters. |
| Formatting.DigitCount | lib/stdio.c:469-547 | Without grouping there are exactly as many digits as the value needs in its base. |
| Formatting.BufferLength | lib/stdio.c:469-547 | That many are written, or zeros up to the precision, at most 63. |
| Formatting.CommasGroup | lib/stdio.c:469-547 | With the grouping flag a separator stands after every group of digits counted from the right, and nowhere else. |
| Formatting.OctalStartsWithZero | lib/stdio.c:469-547 | With # an octal conversion starts with a zero. |
| Formatting.AtoiReads | lib/stdlib.c:9-41 | atoi of spaces, a sign or none, digits and anything that is no digit is the number of the digits with that sign, if and only if that is an int; else a step overflows. |
| Printf.Vsnprintf | lib/stdio.c:25-52 | Returns the full length, stores the prefix that fits and a null, and touches nothing behind it. |

## Left out

- Paging: evictions and faults run one at a time; what two processes faulting at once could do to each other is not modelled.
- Paging: unmapping a file and process exit (`expire_page`, `ft_destroy`), a protection fault's second look at the page table before the kill, the first stack frame of `setup_stack`, and the building of the lazy page table by `load_segment` and `mmap` are not modelled; the table at the start is arbitrary except that mappings of a file do not overlap, unless it denies writes.
- Swap: the unchecked allocations of `vm/swap.c` are outcomes of the page fault that makes them, where they lead to a panic; the swap table's own methods have memory.
- Paging: the TLB and the switch of page directories are not modelled.
- Threads: each list operation is one step with interrupts off, as in the source; time slices are not counted, a thread may be preempted at any step.
- Kernel: a method is one uninterrupted region of the source; a primitive with several regions is its call and then `Continue`, as other threads may run in between.
- Threads: `cond_broadcast` is a sequence of `cond_signal` calls; the rest of `thread_exit` (files, children, memory), `process_wait` and priorities are not modelled.
- Threads: a lock's holder is a thread identifier, which is never reused; the source compares addresses of thread pages, and a page can be reused after a thread has exited with a lock held.
- Threads: the initial thread's page, which `schedule_tail` never frees, is not part of the state.
- IntrusiveList: `list_reverse`, `list_unique`, `list_max`, `list_min` and the walking helpers would only add easy members.
- Bits: `bitmap_flip`, `bitmap_count`, `bitmap_dump` and the copy of a bitmap in a file are not modelled.
- FileSystem: the bytes of the free map's copy on disk are not modelled; the map in memory is, and so is a failure to write the copy.
- FileCalls.CreateKeeps: file sizes are at most 2^31 - 512, where rounding up to sectors does not overflow `off_t`; the magic number of an inode is written but never checked by the code, and is not modelled.
- FileSystem: `dir_readdir`, `file_seek` beyond what reads and writes need, and subdirectories, which the file system does not have, are not modelled.
- FileRuns: the calls of `filesys/file.c`, the denial counters and `do_format` are functions on the state, not methods that update it; the free map, inodes, directory and the calls of `filesys/filesys.c` are both.
- Malloc: `calloc`, `realloc`, the fill of freed memory and the user pool are not modelled; the kernel pool is.
- Hash: the hash functions are a parameter, and so is the order of elements; `hash_clear`, `hash_apply` and `hash_destroy` are not modelled.
- Hash: the assertion in `hash_delete` on an element that is not in the table can never fire, as it tests a string; the model returns nothing there, as the code does.
- PageDirectory: the kernel's part of a page directory, `pagedir_destroy` and activation are not modelled.
- Arguments.BuildStack: layouts that do not fit the stack page are outside its contract.
- Arguments.PassArguments: the same holds for it; a line without a token, of which the source would read the first one, is outside its contract too, and the load of the executable between splitting and building is not modelled.
- Printf.DoAtoi: strings on which the int arithmetic overflows, where C leaves the result open, are outside its contract.
- Printf.AtoiOfRender: does not cover digit grouping, whose separators `atoi` does not read.
- Printf: bases below 8, which the source's table does not have, are outside the contracts; the parsing of the format string, `%s` and `%c` are not modelled.
- Arithmetic: the machine instruction in `divl` is a function that is defined where the instruction does not trap.
- Devices, interrupts, system call argument checks, ELF loading and the assembly are not modelled.
