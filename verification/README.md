# Verification of the Pintos kernel

This project models the hard parts of the completed Pintos kernel under `pintos/src` in Dafny and
proves what its code and comments promise: 64-bit division, heapsort and binary search, the
scheduler and its semaphores, locks and condition variables, the block allocator, sector I/O, the
file system, the process table, the argument stack, page tables, number formatting and the loading
of executables. `dafny verify dfyconfig.toml` checks all of it.

The code that works in place is modelled in place: methods over arrays and class fields with the
source's loops, branches and error paths. Each such method is tied to a function or predicate on
values, and what the source promises is proved about those. Code that runs concurrently is a
transition system. A step is what no other thread can divide: a section with interrupts off, or one
look at shared data or one change of it. `Monitor` proves from such steps what a lock does;
`ReadersWriters` and `TableSteps` take from it that of the threads acquiring a lock one gets it. The
operations on the process table are one step each in `Processes`; `TableSteps` has their single looks
and stores, and shows that this makes no difference.

## Modules

- `Sequences`, `Options`, `Bytes`, `Nonlinear`: shared small facts.
- `Arithmetic`: 64/64-bit division from the 64/32-bit `divl` instruction, whose precondition is the
  absence of the divide trap.
- `Heap`, `Stdlib`: heapsort on byte arrays of `size`-byte elements, and binary search.
- `Scheduler`, `Threads`: threads and semaphores; each section with interrupts off is one step.
- `Monitor`: locks, condition variables and the synchronised list; acquiring, releasing, waiting,
  signalling and broadcasting are several steps each, and so are the routines of the list library.
- `Bitmap`, `Arenas`, `Malloc`: first-fit bitmaps, the allocator's bookkeeping, and the allocator.
- `InodeIO`, `ReadersWriters`: the sector loops of an inode, and the protocol around them.
- `Directory`, `FileSystem`, `Filesys`: directory slots, ownership of disk sectors over runs of calls, and
  the calls.
- `ProcessTable`, `Processes`, `TableSteps`: the table of processes, their life with waits in between,
  and waits between the single stores of an operation.
- `ArgStack`: `count_args`, `strtok_r` and the frame that `main` finds.
- `PageTables`, `Pagedir`: entries as bit masks, and the two-level table as a map.
- `Stdio`, `Printf`, `Formats`, `Atoi`: formatting numbers, format strings, what they print, and reading
  integers.
- `Load`: the segments of an ELF file.

## Where the code and its comments differ

The model follows the code.

- `__umoddi3` and `__moddi3` are described as the 64-bit remainders, but the routines behind them
  return 32 bits (`pintos/src/lib/arithmetic.c:131`, `pintos/src/lib/arithmetic.c:150`).
  `Umod64ExactDivisors` and `Smod64ExactDivisors` say for which divisors they are right.
- `malloc` promises a block of at least the size asked for. For sizes of 2^32 - 12 and up the sum
  with the header wraps around (`pintos/src/threads/malloc.c:109`): `BigPageCountSuffices`,
  `GrantedTooSmallIff`, and `LargestSizeTakesOnePage` for an input.
- `calloc` means to refuse products that do not fit (`pintos/src/threads/malloc.c:164-167`):
  `CallocMissesOverflow` gives one it accepts, and the contract of `Calloc` says that the block then
  falls short, and only then.
- `dir_add` relies on complete directory reads, which a lack of memory can cut short
  (`pintos/src/filesys/directory.c:178-183`): `AddRefinesMapIff` says exactly when it then goes wrong,
  and `CutScanLosesFile` gives a case.
- `filesys_create` releases only the inode's sector when `dir_add` fails
  (`pintos/src/filesys/filesys.c:58-59`), so the data sectors stay marked: the contract of `Create` says
  exactly when, `CreateExistingLeaks` that it takes no fault at all, and `CreateLeakExample` gives a disk.
- The precision of an integer conversion is cut at 63 digits, and commas count towards it
  (`pintos/src/lib/stdio.c:521`): `PrecisionHonouredIff`, `PrecisionNotHonoured`.
- A field is to be as wide as asked for. A negative `*` width sets the `-` flag after the code has
  dropped `0` for `-` (`pintos/src/lib/stdio.c:373-374`, `pintos/src/lib/stdio.c:390-394`), and with
  both set the field is padded on both sides: `FieldWidthIff`, `BothFlagsIff`, `PaddedTwice`.
- The slot `argv[argc]` is reserved but never written (`pintos/src/userprog/process.c:213-230`);
  `SetupMainStack` states that it is left alone.
- The zero-filling branch of `inode_write_at` (`pintos/src/filesys/inode.c:364-365`) cannot be
  reached, since a whole sector is never bounced; the model asserts so.

## Model

| member | source | states |
|---|---|---|
| Arithmetic.Nlz | pintos/src/lib/arithmetic.c:41-73 | the window-halving shifts return the number of leading zeros of any nonzero word |
| Arithmetic.LeadingZerosNormalises | pintos/src/lib/arithmetic.c:41-73 | shifting a nonzero word left by its leading zeros sets its top bit and loses none |
| Arithmetic.EstimateIsRoundedQuotient | pintos/src/lib/arithmetic.c:119-124 | the wide path's estimate is the floor quotient by a divisor rounded down to its 32 top bits |
| Arithmetic.RoundedQuotientOvershoot | pintos/src/lib/arithmetic.c:119-124 | a divisor rounded down by less than c, with quotient bits to spare, overshoots the quotient by at most one |
| Arithmetic.EstimateOffByAtMostOne | pintos/src/lib/arithmetic.c:119-124 | for every dividend and every wide divisor the estimate is the true quotient or one more |
| Arithmetic.CorrectionIsExact | pintos/src/lib/arithmetic.c:124 | the final correction never wraps around in 64 bits and picks the true quotient |
| Arithmetic.TwoDigitDivision | pintos/src/lib/arithmetic.c:80-112 | for a narrow divisor both partial divisions stay clear of the divide trap and add up to the true quotient |
| Arithmetic.Udiv64 | pintos/src/lib/arithmetic.c:77-127 | equals floor(n/d) for every 64-bit n and nonzero d, both `divl` calls meeting their no-trap precondition |
| Arithmetic.TruncatedDivisionUnique | pintos/src/lib/arithmetic.c:137-154 | the quotient and remainder of section 6.5.5 of ISO C99 are unique, so meeting its equations is being the quotient |
| Arithmetic.Sdiv64Truncates | pintos/src/lib/arithmetic.c:137-146 | signed division truncates toward zero if and only if the operands are not INT64_MIN and -1 |
| Arithmetic.Umod64IsTruncatedRemainder | pintos/src/lib/arithmetic.c:129-135 | the unsigned remainder is the true one reduced to 32 bits, equal to it exactly when that fits |
| Arithmetic.Umod64ExactDivisors | pintos/src/lib/arithmetic.c:129-135 | the 32-bit unsigned remainder is right for every dividend if and only if d <= 2^32 |
| Arithmetic.Smod64IsTruncatedRemainder | pintos/src/lib/arithmetic.c:148-154 | the signed remainder is the C99 remainder reduced to 32 bits, for every operand pair |
| Arithmetic.Smod64ExactDivisors | pintos/src/lib/arithmetic.c:148-154 | the 32-bit signed remainder is right for every dividend if and only if the magnitude of d is at most 2^31 |
| Stdlib.ExchangeBytes | pintos/src/lib/stdlib.c:67-80 | the byte loop exchanges two disjoint ranges and changes nothing else |
| Stdlib.DoSwap | pintos/src/lib/stdlib.c:66-80 | on the array seen as elements, exactly the two elements change places |
| Stdlib.Heapify | pintos/src/lib/stdlib.c:95-121 | the in-place loop computes float-down on the elements |
| Heap.SiftDownRestores | pintos/src/lib/stdlib.c:91-121 | float-down restores the 1-based heap from any node whose subtrees are heaps |
| Heap.SiftDownPermutes | pintos/src/lib/stdlib.c:95-121 | float-down rearranges the elements of the heap and leaves those past it |
| Heap.RootIsLargest | pintos/src/lib/stdlib.c:146-151 | the root of a heap is its largest element under any total preorder |
| Heap.ExtractStep | pintos/src/lib/stdlib.c:146-151 | one round of the second loop moves the largest element in front of the sorted tail and leaves a heap |
| Stdlib.Sort | pintos/src/lib/stdlib.c:123-152 | for every total preorder the array ends up ordered and holds the same elements |
| Stdlib.SortedIsPartitioned | pintos/src/lib/stdlib.c:171-207 | a sorted array has the elements below any key first and those above it last |
| Stdlib.BinarySearch | pintos/src/lib/stdlib.c:171-207 | finds a matching element exactly when there is one, and returns where it is |
| Scheduler.StepKeepsInv | pintos/src/threads/thread.c:244-345 | block, unblock, create, yield, exit and every semaphore step keep one running thread, an exact duplicate-free ready list, exact wait lists and no lost wakeup |
| Scheduler.BootInv | pintos/src/threads/thread.c:84-141 | the state once idle has started is sound |
| Scheduler.RunKeepsInv | pintos/src/threads/thread.c:244-345 | every state of every run is sound |
| Scheduler.ElemOnOneList | pintos/src/threads/thread.h:79-84 | a thread's list element is on at most one list, and there once |
| Scheduler.ValueConservation | pintos/src/threads/synch.c:60-121 | in every run a semaphore's value is its initial value plus the ups minus the completed downs |
| Scheduler.FreeUnitHasTaker | pintos/src/threads/synch.c:60-121 | while a thread sleeps on a semaphore with a free unit, a woken thread that has yet to test the value is running or ready |
| Scheduler.UpOnSem | pintos/src/threads/synch.c:108-121 | the thread taken from a wait list is blocked, as `thread_unblock` asserts, and an up loses no wakeup |
| Scheduler.WaitPositionStep | pintos/src/threads/synch.c:60-121 | a sleeper moves up exactly one place in its wait list at each up of the semaphore and keeps its place at every other step |
| Scheduler.UpWakesFirst | pintos/src/threads/synch.c:108-121 | an up takes the first sleeper off the wait list and puts it, ready, at the end of the ready list |
| Scheduler.WokenInTurn | pintos/src/threads/synch.c:60-121 | over every run the sleeper at position i of a wait list is asleep until the (i+1)-th later up, which puts it on the ready list |
| Scheduler.NextInLine | pintos/src/threads/thread.c:480-556 | when the running thread gives up the processor the ready threads, and behind them a yielding one, run in that order, and idle when there is none |
| Scheduler.SwitchedFrom | pintos/src/threads/thread.c:244-345 | a thread switched from is ready after a yield, blocked after a block, destroyed after an exit, and after a down asleep at the end of the wait list |
| Scheduler.StaysRunning | pintos/src/threads/thread.c:158-274 | creating, unblocking, trying, upping and a down that finds a unit leave the running thread running; an unblocked thread is the last of the ready ones, a created one is blocked |
| Scheduler.OthersStay | pintos/src/threads/thread.c:244-345 | no step changes the status of a thread other than the running one, the next one and the one it is for |
| Scheduler.OtherSemsStay | pintos/src/threads/synch.c:60-121 | nor any semaphore but the one it is for |
| Scheduler.ReadyPositionStep | pintos/src/threads/thread.c:480-556 | a ready thread moves up exactly one place at each `schedule` and keeps its place otherwise |
| Scheduler.RoundRobin | pintos/src/threads/thread.c:480-556 | the thread at position i of the ready list runs at exactly the (i+1)-th later `schedule` and not before |
| Threads.ThreadSystem.constructor | pintos/src/threads/thread.c:84-141 | boots into the sound state of the model |
| Threads.ThreadSystem.ScheduleNext | pintos/src/threads/thread.c:542-556 | switching in place is the model's `Schedule`, reaping a dying thread |
| Threads.ThreadSystem.ThreadBlock | pintos/src/threads/thread.c:244-252 | updating status and scheduling in place is the model's step, and keeps the invariant |
| Threads.ThreadSystem.ThreadUnblock | pintos/src/threads/thread.c:262-274 | appends to the ready list and marks ready |
| Threads.ThreadSystem.ThreadYield | pintos/src/threads/thread.c:331-345 | is the model's step, idle excepted from the ready list, and keeps the invariant |
| Threads.ThreadSystem.ThreadExit | pintos/src/threads/thread.c:311-327 | is the model's step and keeps the invariant |
| Threads.ThreadSystem.SemaDownPass | pintos/src/threads/synch.c:60-75 | one pass of the waiting loop takes a unit or goes to sleep on the wait list, as the model says, and keeps the invariant |
| Threads.ThreadSystem.SemaTryDown | pintos/src/threads/synch.c:83-101 | takes a unit if there is one, without sleeping |
| Threads.ThreadSystem.SemaUp | pintos/src/threads/synch.c:108-121 | wakes the first sleeper and adds a unit, as the model says, and keeps the invariant |
| Monitor.StepKeepsInv | pintos/src/threads/synchlist.c:63-97 | each part of acquire, release, wait, signal, broadcast, append and remove, looking at a list and changing it being parts of their own, keeps the whole invariant, in any interleaving |
| Monitor.RunKeepsInv | pintos/src/threads/synchlist.c:63-97 | every state of every run is sound |
| Monitor.MutualExclusion | pintos/src/threads/synch.c:192-238 | the lock's value and the threads past it add up to one; `holder` is null or names the only such thread |
| Monitor.LockAssertionsHold | pintos/src/threads/synch.c:192-320 | `lock_acquire` is never called by the holder, and release, wait and signal only by the holder |
| Monitor.DeliveredSignalIsKept | pintos/src/threads/synch.c:287-320 | a signal sent after the waiter queued but before it sleeps is kept: the waiter is let through once |
| Monitor.FirstInFirstOut | pintos/src/threads/synchlist.c:63-97 | in every run items leave in append order, each once; what a thread's `sl_remove` calls return is, in order, what it took; signals take waiters in queue order, each once; no list assertion fails |
| Monitor.UnlockedPushesLoseAnItem | pintos/src/threads/synchlist.c:63-75 | the lock is what this rests on: of two appends past the lock together, one item is lost |
| Monitor.NeverPopsEmpty | pintos/src/threads/synchlist.c:83-97 | `sl_remove` never pops an empty list, nor `cond_signal` an empty queue of waiters |
| Monitor.TryKeepsInv | pintos/src/threads/synch.c:209-220 | `lock_try_acquire` takes the lock or gives up, and keeps the whole invariant |
| Monitor.BroadcastReachesAll | pintos/src/threads/synch.c:330-338 | however others interleave, a broadcast ends after five steps for each waiter queued when it began, with all of these signalled in order and nobody queued since |
| Monitor.NeverStuck | pintos/src/threads/synchlist.c:63-97 | when no thread can take a step, all are outside or waiting for items, and then there are none |
| Bitmap.BitMap.ScanAndFlip | pintos/src/lib/kernel/bitmap.c:296-327 | takes the first run of that many clear bits and sets it, or there is none and nothing changes |
| Bitmap.BitMap.SetMultiple | pintos/src/lib/kernel/bitmap.c:218-228 | sets exactly the bits of the range |
| Malloc.MallocInit | pintos/src/threads/malloc.c:70-85 | the descriptors are 16, 32, 64, 128, 256, 512 and 1024 bytes with 255, 127, 63, 31, 15, 7 and 3 blocks each |
| Malloc.Allocator.PallocGetMultiple | pintos/src/threads/palloc.c:84-115 | takes a free run of pages, marks it, and fails only when there is none or none was asked for |
| Malloc.Allocator.PallocFreeMultiple | pintos/src/threads/palloc.c:130-156 | the pages must all be in use, as the source asserts; they are overwritten and marked free, no other byte changes |
| Malloc.BigPageCountSuffices | pintos/src/threads/malloc.c:105-119 | the pages taken for a big block hold it if and only if size plus header does not wrap around in 32 bits, and one page less would not |
| Malloc.GrantedTooSmallIff | pintos/src/threads/malloc.c:105-119 | a big block is granted yet too small if and only if size plus header exceeds 2^32, and then has one page |
| Malloc.LargestSizeTakesOnePage | pintos/src/threads/malloc.c:105-119 | 2^32 - 1 bytes take one page |
| Malloc.Allocator.Malloc | pintos/src/threads/malloc.c:87-154 | a success makes exactly one new block live, of the smallest class that fits, large enough unless the size wrapped around, and changes no other block, page owner or byte of memory; a failure changes nothing and means that no run of pages is free |
| Malloc.Allocator.BlockToArena | pintos/src/threads/malloc.c:266-283 | rounding down a live block finds its arena, and the alignment the source asserts holds |
| Malloc.Allocator.BlockSize | pintos/src/threads/malloc.c:177-186 | the size of a live block, never zero |
| Malloc.Allocator.Free | pintos/src/threads/malloc.c:216-264 | exactly the freed block stops being live; every live block keeps its bytes and size, every other page its owner |
| Malloc.Allocator.ReleaseArena | pintos/src/threads/malloc.c:240-258 | every block of an entirely unused arena is found on its free list to be unlinked, and its page returned |
| Malloc.Allocator.Calloc | pintos/src/threads/malloc.c:156-175 | the new block's bytes are zero, as many as the 32-bit product says; the block holds a * b bytes if and only if that product fits in 32 bits; other blocks keep their bytes; null for nonzero factors whose product fits means that no run of pages is free |
| Malloc.CallocAcceptsFittingProducts | pintos/src/threads/malloc.c:164-167 | the overflow test accepts every product of nonzero factors that fits |
| Malloc.CallocMissesOverflow | pintos/src/threads/malloc.c:164-167 | the overflow test also accepts 65537 * 65537, which does not fit |
| Malloc.Allocator.Realloc | pintos/src/threads/malloc.c:188-214 | keeps the first min(old, new) bytes, the other blocks and their bytes; zero size frees, null allocates, failure changes nothing and means that no run of pages is free |
| Arenas.LiveBlocksDisjoint | pintos/src/threads/malloc.c:87-154 | live blocks do not overlap and lie inside the pool |
| Arenas.ArenaHasLiveBlock | pintos/src/threads/malloc.c:245-258 | a page is held as an arena only while one of its blocks is live |
| Arenas.NothingLiveNothingHeld | pintos/src/threads/malloc.c:216-264 | once everything is freed no arena is left, every free list is empty and every page is returned |
| Arenas.NewArenaInv | pintos/src/threads/malloc.c:124-146 | a page added to an empty free list keeps lists, counts, pages and live blocks in agreement, up to the block about to be taken |
| Arenas.TakeBlockInv | pintos/src/threads/malloc.c:148-153 | taking the head of a free list keeps them in agreement |
| Arenas.PutBlockInv | pintos/src/threads/malloc.c:236-243 | putting a block back keeps them in agreement and makes just that block not live |
| Arenas.FullArenaAllFree | pintos/src/threads/malloc.c:242-248 | a count equal to the number of blocks means that all of the arena's blocks are on the free list |
| Arenas.DropArenaInv | pintos/src/threads/malloc.c:245-253 | taking an unused arena apart keeps them in agreement and changes no live block |
| Arenas.TakePagesInv | pintos/src/threads/malloc.c:105-119 | a big block keeps them in agreement and is the only new live block |
| Arenas.DropPagesInv | pintos/src/threads/malloc.c:259-264 | freeing a big block keeps them in agreement |
| Arenas.OtherBlocksUntouched | pintos/src/threads/malloc.c:230-233 | overwriting the block being freed changes no other live block's bytes |
| InodeIO.Inode.ReadAt | pintos/src/filesys/inode.c:244-309 | returns exactly the number of bytes there are to read, or the whole sectors before the bounce buffer was missed, and fills just that much of the buffer with the file's content at the offset |
| InodeIO.Inode.WriteAt | pintos/src/filesys/inode.c:316-381 | over the whole disk exactly the bytes of [offset, offset + n) of the file are replaced, the rest of each sector kept |
| InodeIO.TransferredIs | pintos/src/filesys/inode.c:244-381 | what is transferred reaches to the end of the file or of the request, or without a bounce buffer is the whole sectors before that |
| InodeIO.TransferredAllIff | pintos/src/filesys/inode.c:284-298 | a transfer falls short of what is there if and only if it needs a bounce buffer and gets none |
| InodeIO.ChunkWithinSector | pintos/src/filesys/inode.c:53-61 | consecutive bytes of the file that stay in one sector lie consecutively in the sector that `byte_to_sector` names |
| InodeIO.ContentOverwritten | pintos/src/filesys/inode.c:316-381 | a write replaces just its window of the file's content |
| InodeIO.OtherExtentUntouched | pintos/src/filesys/inode.c:316-381 | a write leaves the content of every file with other sectors |
| InodeIO.ReadAfterWrite | pintos/src/filesys/inode.c:244-381 | reading back what was written returns it |
| ReadersWriters.StepKeepsInv | pintos/src/filesys/inode.c:244-381 | each step of a reader or writer keeps the lock, the count, the semaphore and the copies consistent, in any interleaving |
| ReadersWriters.RunKeepsInv | pintos/src/filesys/inode.c:244-381 | so does every run, copy loops that end early included |
| ReadersWriters.Exclusion | pintos/src/filesys/inode.c:316-381 | at most one writer is in its copy loop, and no reader with it |
| ReadersWriters.ReaderHoldsGroup | pintos/src/filesys/inode.c:251-257 | while any reader copies, its group has the semaphore |
| ReadersWriters.StepShare | pintos/src/filesys/inode.c:301-306 | the group's share changes only with the first reader's down and the last reader's up |
| ReadersWriters.StepKeepsContent | pintos/src/filesys/inode.c:259-375 | what a reader has copied is one stretch of one content, and the content is what the writer found with its bytes laid over |
| ReadersWriters.QuietAgain | pintos/src/filesys/inode.c:301-306 | when all have left, the semaphore is one, no reader is counted and the lock is free |
| ReadersWriters.NeverStuck | pintos/src/filesys/inode.c:244-381 | some thread inside can always take a step |
| Directory.Dir.Lookup | pintos/src/filesys/directory.c:98-122 | the first used slot with the name among the entries read; with complete reads, found if and only if the map has the name, and at its sector |
| Directory.Dir.Add | pintos/src/filesys/directory.c:152-196 | with complete reads succeeds if and only if the name is new, a slot is free and the write goes through, and then adds just that file to the map; its exact effect when reads are cut short |
| Directory.Dir.Erase | pintos/src/filesys/directory.c:224-227 | writing the entry back as free removes just that name from the map |
| Directory.Dir.ReadDir | pintos/src/filesys/directory.c:243-263 | each call advances to the next name in use, the last one to the end or to where reads fail |
| Directory.Dir.List | pintos/src/filesys/fsutil.c:15-28 | a full pass yields the names in use in slot order; one cut short, those before the cut |
| Directory.ListingIsFiles | pintos/src/filesys/directory.c:243-263 | that listing has each name of the map exactly once |
| Directory.AddRefinesMapIff | pintos/src/filesys/directory.c:170-190 | when an entry read can be cut short, an added name refines the map if and only if it was not further on and the slot written was free |
| Directory.CutScanLosesFile | pintos/src/filesys/directory.c:178-190 | with one slot, in use, and a scan cut short before it, adding a file loses the one there was |
| Directory.FilesAt | pintos/src/filesys/directory.c:98-122 | with distinct names, looking a used slot's name up in the map gives its sector |
| FileSystem.FormattedInv | pintos/src/filesys/filesys.c:109-119 | a disk just formatted, with the free map file open, is sound |
| FileSystem.OpenedKeepsInv | pintos/src/filesys/inode.c:121-167 | opening an inode keeps sectors disjoint and marked, one in-memory inode per sector and `open_cnt` equal to its handles |
| FileSystem.OpenCanRelease | pintos/src/filesys/free-map.c:49-58 | the assertion of `free_map_release` holds for every inode that can be closed |
| FileSystem.ClosedKeepsInv | pintos/src/filesys/inode.c:191-226 | closing keeps the invariant; what a last close gives back belongs to nobody else |
| FileSystem.CreatedIsPending | pintos/src/filesys/filesys.c:49-63 | a sector and an extent just found make an inode that shares nothing with any file that can be reached |
| FileSystem.EnteredKeepsInv | pintos/src/filesys/directory.c:186-190 | entering it in the directory keeps the invariant, even in a slot that was in use |
| FileSystem.ErasedKeepsInv | pintos/src/filesys/directory.c:224-227 | erasing an entry keeps the invariant |
| FileSystem.MarkedKeepsInv | pintos/src/filesys/inode.c:230-239 | marking an inode for removal keeps the invariant once its entry is gone |
| FileSystem.CloseAfterOpen | pintos/src/filesys/inode.c:121-226 | closing undoes opening |
| FileSystem.UsedIsOwned | pintos/src/filesys/free-map.c:29-60 | as long as no call has lost sectors the sectors marked used are exactly those that a reachable inode owns |
| FileSystem.CallLosesIff | pintos/src/filesys/filesys.c:49-109 | a call keeps it so if and only if it is neither a create that fails for a file with data nor one that takes a slot in use |
| FileSystem.CallRunSound | pintos/src/filesys/filesys.c:49-109 | from a disk just formatted every run of opens, closes, creates and removes keeps the file system sound, and without such calls loses no sector |
| FileSystem.CreatedIs | pintos/src/filesys/filesys.c:49-63 | a successful create marks just the inode's and the file's sectors and adds just the name |
| FileSystem.ExtentsApart | pintos/src/filesys/inode.c:80-116 | the data of two files that can be reached never overlap |
| FileSystem.WriteKeepsOtherFiles | pintos/src/filesys/inode.c:316-381 | writing one file changes no other file's content and no inode |
| FileSystem.AllocationAvoidsFiles | pintos/src/filesys/free-map.c:28-47 | sectors allocated next belong to no file that can be reached, a removed one still open included |
| Filesys.FileSys.constructor | pintos/src/filesys/filesys.c:109-119 | formatting gives the sound initial state |
| Filesys.FileSys.FreeMapAllocate | pintos/src/filesys/free-map.c:28-47 | takes the first free run, or undoes the flip when writing the map fails |
| Filesys.FileSys.FreeMapRelease | pintos/src/filesys/free-map.c:50-58 | frees a run that is marked, as the source asserts |
| Filesys.FileSys.InodeOpen | pintos/src/filesys/inode.c:121-167 | shares the in-memory inode if there is one, and fails only for want of memory |
| Filesys.FileSys.InodeClose | pintos/src/filesys/inode.c:194-226 | drops a handle; the last one of a removed file frees its sectors |
| Filesys.FileSys.InodeRemove | pintos/src/filesys/inode.c:230-239 | marks the in-memory inode |
| Filesys.FileSys.InodeCreate | pintos/src/filesys/inode.c:80-116 | finds an extent for the length and writes the inode, or changes nothing |
| Filesys.FileSys.Create | pintos/src/filesys/filesys.c:49-63 | succeeds if and only if it gets to `dir_add` and that succeeds; the whole new state: the file on the first free sectors; if `dir_add` fails all as before but for data sectors left marked, so the free map changes on failure if and only if `dir_add` was reached with a size above zero; otherwise nothing |
| Filesys.CreateExistingLeaks | pintos/src/filesys/filesys.c:49-63 | creating a name that is taken, with a positive size and no fault of any kind, marks sectors that were free and belong to no file |
| Filesys.CreateLeakExample | pintos/src/filesys/filesys.c:49-63 | on a disk of seven sectors just formatted, creating an empty file and then again with 512 bytes takes the last free sector |
| Filesys.FileSys.Open | pintos/src/filesys/filesys.c:70-85 | a handle on the inode the directory names, or no change at all; the invariant is kept |
| Filesys.FileSys.Remove | pintos/src/filesys/filesys.c:97-107 | takes the name out of the map and frees the sectors at once or at the last close, or changes nothing; the invariant is kept |
| ProcessTable.PList.Init | pintos/src/userprog/plist.c:121-133 | every slot becomes free and changes in no other way |
| ProcessTable.PList.GetProcess | pintos/src/userprog/plist.c:15-32 | the first slot with the id, free or not |
| ProcessTable.PList.CheckIfParentAlive | pintos/src/userprog/plist.c:37-55 | whether the first slot with the id is alive |
| ProcessTable.PList.KillChildren | pintos/src/userprog/plist.c:61-74 | every child is told, and freed if it is dead; no other slot changes |
| ProcessTable.PList.Insert | pintos/src/userprog/plist.c:149-181 | fills the first free slot, or returns -1 and changes nothing |
| ProcessTable.PList.ChangeExitStatus | pintos/src/userprog/plist.c:79-93 | stores the status in the first slot with the id |
| ProcessTable.PList.Remove | pintos/src/userprog/plist.c:202-231 | ends the process, frees its slot if the parent is not alive, tells the children and ups the semaphore |
| Processes.StepKeepsInv | pintos/src/userprog/plist.c:79-231 | inserting, storing, removing and each step of a wait keep the table and the waits sound, in any order |
| Processes.InsertKeepsInv | pintos/src/userprog/plist.c:149-181 | an insertion, into whichever free slot or none, keeps non-zero ids unique and disturbs no process or wait, also when it reuses a slot |
| Processes.RemoveKeepsInv | pintos/src/userprog/plist.c:202-231 | a removal keeps `parent_alive` true to the parents' state and leaves no dead slot without a living parent |
| Processes.AdvanceKeepsInv | pintos/src/userprog/plist.c:101-116 | so does each unlocked step of a wait |
| Processes.HistoryIsSteps | pintos/src/userprog/plist.c:79-231 | a process's last status is -1 when it is inserted and what it stored last after that; it is gone once removed |
| Processes.RunKeepsInv | pintos/src/userprog/plist.c:79-231 | every state of every run is sound |
| Processes.ParentAliveIsReal | pintos/src/userprog/plist.c:149-231 | in a used slot `parent_alive` is the parent's real state |
| Processes.NoneAliveAllFree | pintos/src/userprog/plist.c:202-231 | when no process is alive every slot is free |
| Processes.WaitHolds | pintos/src/userprog/plist.c:101-116 | during a wait the child's slot stays the child's and is not freed or reused |
| Processes.WaitReturnsLastStatus | pintos/src/userprog/process.c:488-514 | a wait that has returned saw the child removed, and returned the status it last stored, or -1 if none |
| Processes.WaitProceeds | pintos/src/userprog/plist.c:101-116 | a wait is held up only while its child runs |
| TableSteps.MoveKeepsSound | pintos/src/userprog/plist.c:79-231 | with waits coming in between any two looks or stores of an operation, the table is at each moment what the operation has made so far of a sound one, and what its searches have found is so |
| TableSteps.MoveRefines | pintos/src/userprog/plist.c:79-231 | every look, store and step of a wait is a step of Processes or none: an operation takes effect as a whole, at its last store |
| TableSteps.FineRunRefines | pintos/src/userprog/plist.c:79-231 | every run store by store is a run of Processes, with the same waits, and the same table whenever no operation is under way |
| TableSteps.WaitSawLastStatus | pintos/src/userprog/plist.c:101-116 | in such a run too a wait that has returned saw the child removed, and returned the status it last stored |
| TableSteps.SearchSeesChild | pintos/src/userprog/plist.c:14-35 | whatever an operation is at, the search of a wait takes the child's slot, and no other, for the child's |
| ArgStack.CountArgs | pintos/src/userprog/process.c:49-64 | counts exactly the words |
| ArgStack.StartsAreWords | pintos/src/userprog/process.c:49-64 | each word has one start, which is what the loop counts |
| ArgStack.WordsAreText | pintos/src/lib/string.c:235-275 | the words are not empty and together are the line without its delimiters |
| ArgStack.Strtok | pintos/src/lib/string.c:235-275 | finds the first word if there is one, ends it with a null in place, returns where the rest with the other words starts, and changes no other memory |
| ArgStack.Strchr | pintos/src/lib/string.c:112-126 | the first place of the character, the end for a null, or none |
| ArgStack.Strlcpy | pintos/src/lib/string.c:325-343 | copies as much of the string as fits, with its null, and writes no further |
| ArgStack.WordsFit | pintos/src/userprog/process.c:123-135 | the words, each with its null, need no more room than the line |
| ArgStack.SetupMainStack | pintos/src/userprog/process.c:104-233 | builds the frame: null return address, argc, argv, slot i pointing to word i, all aligned and below the top; the slot after the last and all other memory are left alone |
| ArgStack.FillArgs | pintos/src/userprog/process.c:213-230 | the token loop places the words one after the other and points to each |
| PageTables.PteRoundTrip | pintos/src/threads/pte.h:83-104 | an entry made for a page is present, has the permission asked for and gives the page back |
| PageTables.PdeRoundTrip | pintos/src/threads/pte.h:70-81 | a directory entry gives its table back, and is present, writable and open to users |
| PageTables.IndicesArePage | pintos/src/threads/pte.h:31-39 | the two indices are equal if and only if the addresses are on the same page |
| PageTables.UserIndex | pintos/src/threads/pte.h:36-39 | user addresses are exactly those with a directory index below 768 |
| PageTables.ClearedEntry | pintos/src/userprog/pagedir.c:143-157 | clearing the present bit keeps the address |
| Pagedir.EntryWritten | pintos/src/userprog/pagedir.c:113-115 | writing one entry changes exactly that page's entry and keeps the tables distinct |
| Pagedir.TableAdded | pintos/src/userprog/pagedir.c:66-81 | a fresh zeroed table changes no mapping |
| Pagedir.Mmu.Create | pintos/src/userprog/pagedir.c:16-23 | a copy of the kernel's directory that maps and grants no user address and has no frame twice |
| Pagedir.Mmu.LookupPage | pintos/src/userprog/pagedir.c:56-86 | finds a page's table, or adds one if asked and possible, without changing a mapping |
| Pagedir.Mmu.SetPage | pintos/src/userprog/pagedir.c:98-119 | maps exactly that page to the frame; the processor, going by the present, write and user bits of both entries, grants users that frame there with the permission asked for and everywhere else what it did; or fails and changes nothing; kernel entries, kernel page tables and other directories stay; frames stay distinct if this one is new |
| Pagedir.GrantedIsMapped | pintos/src/userprog/pagedir.c:56-137 | in a sound directory the processor, walking it by the address bits, grants users exactly the mappings |
| Pagedir.OtherDirectorySame | pintos/src/userprog/pagedir.c:98-157 | what setting or clearing a page leaves alone keeps every mapping and grant of any other directory |
| Pagedir.Mmu.GetPage | pintos/src/userprog/pagedir.c:125-137 | the kernel's address of the byte that the processor lets a user reach there, and null if it lets none |
| Pagedir.Mmu.ClearPage | pintos/src/userprog/pagedir.c:143-157 | unmaps exactly that page, so that users are granted it no more; kernel entries, kernel page tables and other directories stay, and frames stay distinct |
| Pagedir.Mmu.Destroy | pintos/src/userprog/pagedir.c:27-48 | frees, table by table, the frames present, then the table, and the directory last |
| Pagedir.DestroyFreesExactly | pintos/src/userprog/pagedir.c:27-48 | for distinct frames every frame some user address still maps to, every page table and the directory is freed, each once, and nothing else |
| Stdio.Sink.Put | pintos/src/lib/stdio.c:44-52 | keeps the first characters that fit and counts them all |
| Stdio.RawDigitsFit | pintos/src/lib/stdio.c:504-513 | a 64-bit value with its commas takes at most 44 characters in bases 8, 10 and 16 |
| Stdio.FillBuffer | pintos/src/lib/stdio.c:501-524 | for every 64-bit value, base and conversion the 64-byte buffer is never overrun, and holds the digits, precision zeros and octal zero |
| Stdio.FormatInteger | pintos/src/lib/stdio.c:469-547 | outputs sign, prefix, padding and digits as specified |
| Stdio.FieldWidthIff | pintos/src/lib/stdio.c:526-546 | a field is as wide as asked for, or as its content needs if that is more, if and only if it needs no padding or is not both left-justified and zero-padded |
| Printf.BothFlagsIff | pintos/src/lib/stdio.c:343-416 | parsing leaves `-` and `0` both set if and only if there is a `0` flag, no `-` flag, a `*` width whose argument is a negative int, and no precision |
| Formats.SignedShown | pintos/src/lib/stdio.c:469-547 | a signed number is its digits in decimal, as many as precision and value ask for, with commas in their places and a minus, `+` or blank in front; zeros stand between sign and digits, blanks in front, or behind for `-` |
| Formats.UnsignedShown | pintos/src/lib/stdio.c:469-547 | an unsigned number is its digits in the base and case, behind 0x or 0X for `#`, laid out likewise |
| Formats.StringLaidOut | pintos/src/lib/stdio.c:560-572 | a string has its blanks in front, or behind for `-` |
| Formats.PaddedTwice | pintos/src/lib/stdio.c:526-546 | `%0*d` of -5 and 1 is nine characters long |
| Stdio.PrecisionHonouredIff | pintos/src/lib/stdio.c:515-524 | for every value, base and flag, commas not counted: as many digits as the precision are shown if and only if the value has them (or has with the octal zero), or the precision is at most 63 and no comma falls between the digits |
| Stdio.PrecisionNotHonoured | pintos/src/lib/stdio.c:515-524 | a precision of 64 gives 63 digits; with grouping a precision of 5 gives 1234 four |
| Stdio.BufferDenotes | pintos/src/lib/stdio.c:501-524 | in every base, with every grouping and precision, the digits put out denote the value |
| Stdio.FormatString | pintos/src/lib/stdio.c:560-572 | the string padded to the width on the side asked for |
| Printf.Vsnprintf | pintos/src/lib/stdio.c:25-52 | for every format string and buffer size returns the full length, stores the first min(length, size - 1) characters and a null, and leaves the rest of the buffer |
| Atoi.ParseInt | pintos/src/lib/stdlib.c:9-41 | overflows, on the way or at the end, if and only if no int holds the number denoted, and otherwise returns it |
| Atoi.DenotedIs | pintos/src/lib/stdlib.c:9-41 | after white space and a sign or none the digits are read, to the first other character, and negated for a minus |
| Atoi.AtoiReadsBack | pintos/src/lib/stdlib.c:9-41 | reading back what `%d` printed gives the value, for every int, flags, width and precision without grouping |
| Atoi.AtoiReadsBackIff | pintos/src/lib/stdio.c:469-547 | with grouping as well, it gives the value if and only if that has at most three digits |
| Printf.ParseConversion | pintos/src/lib/stdio.c:339-460 | the loops find the flags, width, precision and length modifier that the specification means, and take the arguments that stars ask for |
| Formats.SpecParses | pintos/src/lib/stdio.c:339-460 | parsing a specification written out, with any flags and with stars, gives what these mean, its modifier and its letter, and takes the arguments of the stars |
| Formats.SignedArgIs | pintos/src/lib/stdio.c:185-221 | the argument of a signed conversion is the number passed, when its type holds it |
| Printf.Vprintf | pintos/src/lib/stdio.c:156-333 | the loop outputs, piece by piece, the text that the format string means |
| Formats.FormatPrints | pintos/src/lib/stdio.c:156-333 | every sequence of texts and conversions prints piece by piece, the j-th showing its own argument: d and i its value in decimal, o, u, x and X in base 8, 10 and 16, p its address, c its character, s its characters up to the precision; unsupported letters say so and take none |
| Formats.PlainText | pintos/src/lib/stdio.c:160-169 | a format string without percent signs is output as it is |
| Formats.PrintedIntReadsBack | pintos/src/lib/stdio.c:156-333 | one int conversion, however written, prints text that reads back as the int, grouped numbers of four digits and more excepted |
| Load.AcceptedSizes | pintos/src/userprog/load.c:158-181 | for every header accepted no 32-bit sum or difference wraps around; read and zero bytes are whole pages, hold the segment, and end at or below the kernel |
| Load.AcceptedIff | pintos/src/userprog/load.c:208-249 | the 32-bit tests accept a header if and only if, in true arithmetic, the page offsets agree, the file is long enough for the offset, memory size is positive and at least the file size, and the segment lies between page one and the kernel |
| Load.OnePageLess | pintos/src/userprog/load.c:274-306 | no counter of the loop goes below zero |
| Load.Process.LoadSegment | pintos/src/userprog/load.c:265-308 | succeeds if and only if there is memory for every page, the file has the bytes and no page was mapped before, and then maps exactly the segment's pages, with the file's bytes then zeros; earlier mappings stay |
| Load.SegmentPagesAre | pintos/src/userprog/load.c:265-308 | the pages of a segment are those from its first page on, and no others |
| Load.LoadedSegmentInMemory | pintos/src/userprog/load.c:158-184 | after loading, byte b of the segment is byte p_offset + b of the file, or zero past p_filesz |
| Load.LoadSegments | pintos/src/userprog/load.c:132-189 | succeeds if and only if no kind is refused and every loadable header is acceptable, has its bytes in the file, its pages taken by nothing before it, and memory for them; then every segment is in memory with its permission, on these pages and no others |

## Left out

- Signed overflow, undefined in C, is modelled as wrapping around where it can occur.
- `divl`, `switch_threads`, the disk, the clock and memory for page tables are primitives or parameters: their outcome is an argument of the call.
- Stdlib.Heapify: the index `2 * i` does not wrap around, which holds for counts below 2^31.
- Threads.ThreadSystem.ThreadExit: does not model `process_cleanup`, which module Processes treats, nor the page of the dying thread.
- Threads.ThreadSystem.SemaUp: semaphore values are unbounded numbers, not 32-bit ones.
- The timer tick and thread priorities: a tick only causes a yield, and priorities are not used by the scheduler.
- `Monitor` has one lock and one condition, those of a synchronised list, and items are integers; a list routine is one look and one change, not single pointer accesses.
- Malloc.Allocator.Malloc: arena headers and list links are kept beside memory, not in its bytes, so overwriting them is not modelled; descriptor locks are left out.
- Malloc.Allocator.Calloc: excludes 32-bit products above 2^32 - 12, for which GrantedTooSmallIff shows that zeroing would run past the block.
- Malloc.Allocator.Realloc: excludes sizes above 2^32 - 12, for which GrantedTooSmallIff shows that copying could run past the block.
- The user page pool and `PAL_ASSERT`: the allocator uses the kernel pool without flags.
- InodeIO.Inode.ReadAt: offsets are not negative, which the callers ensure.
- ReadersWriters.NeverStuck: says nothing of fairness; readers arriving without a break can keep a writer waiting.
- ReadersWriters.StepKeepsInv: the lock and the semaphore are single steps here, resting on what Monitor and Scheduler show of them.
- Directory.Dir.Add: names are valid; for an invalid one the source reaches the unlock without having locked.
- Directory entries are slots, not the 20 bytes each takes in the directory's file.
- Filesys.FileSys.Create: the free map's copy on disk and the zeroing of new data sectors are not modelled.
- Filesys.FileSys.Remove: calls are whole steps; the locks inside them are taken in different orders in different calls, so freedom from deadlock is not claimed.
- File positions and `file_deny_write`; files do not grow in this tree.
- Processes.StepKeepsInv: waits are by the running, registered parent of a child it has not waited for before; the table does not reject others. Names in the table are left out.
- TableSteps.MoveKeepsSound: a step is one look at a slot or one store into one of its fields, seen by the others in that order; the ups and downs of its semaphore are single steps.
- `pintos/src/userprog/flist.c` and the system calls: the file table indexes past its end, and the pointer checks use a signed remainder.
- ArgStack.SetupMainStack: the stack has room and does not overlap the command line, as for the callers; memory is one flat array.
- Pagedir.Mmu.LookupPage: is for user addresses; the dirty and accessed bits and the processor's cache of entries are left out.
- Pagedir.DestroyFreesExactly: a page cleared before is no longer present, so its frame is not freed here.
- Printf.Vprintf: a format string that ends inside a conversion, after which the source reads on past its null, ends there; missing arguments, undefined in C, read as null.
- Formats.FormatPrints: widths and precisions are written without leading zeros, and each argument is of the type that its letter is for.
- Printf.ParseConversion: widths and precisions written with more digits than an int holds are not reduced; a `*` width of INT_MIN, whose negation overflows, is taken as 2^31.
- Load.Process.LoadSegment: a read fails for want of memory only at the page `failAt`; the ELF header's own checks and the stack page are left out.
- Load.LoadSegments: the program headers are given, not read from the file.
- Device drivers, interrupt handling, context switching, the hash and list libraries, and the example programs.
