# NG-OS: verified models of the kernel's memory, tasks and console

NG-OS is a small 32-bit kernel. This project models its allocators, its page tables, its
round-robin scheduler and its text console in Dafny and proves what they keep over every run.
`dafny verify dfyconfig.toml` checks everything.

- **Kernel heap** (`HeapList`, `HeapShape`, `HeapLaws`, `HeapBytes`, `HeapRuns`, `KernelHeap`).
  `HeapList` is the block list the headers describe: first fit, split, two-way coalescing.
  `HeapShape` says where the blocks lie: when their headers do not overlap, and when they are in address
  order with the ranges handed out clear of them. `HeapLaws` follows whole runs of calls.
  `HeapBytes` says what it means for the list to lie in the 4096 bytes at 0x1000000 as unaligned
  12-byte little-endian headers, and the class `KernelHeap` works on those bytes by following
  pointers and is proved to compute the list operations. `HeapRuns` interleaves the calls with clients writing into their ranges.
  A split takes a parameter `charge`: 0 is the code as written (`src/heap.c:34-41` gives the new block
  the whole leftover), 12 is the header that `src/heap.c:22-23` and `src/heap.c:76-77` account for.
  With 12 every run is safe. With 0 it is not, and both failures have their exact condition, which a
  caller could check before the call: a run keeps the headers from overlapping, whatever their order,
  exactly when the header of every split overlaps no other (`DisjointExactly`), and as long as it does
  the bytes describe the list (`Kmalloc`, `DecodeLayout`); it keeps the headers in address order and
  the ranges handed out clear exactly when every split's header, and every block taken whole, ends
  before the next header (`SafeExactly`). `HeaderForgedOverHeader`, `OverwrittenHeader`,
  `HeaderOutOfOrder`, `RangeOverHeader` and `ShippedSplitOverrunsPage` are short runs from boot that fail.
- **Frames** (`Bits`, `Frames`, `Pmm`, `MemoryMap`). `Pmm` is the bitmap allocator over 32-bit
  words with its word-skip search and cached counter; `Frames` the same allocator over the set of
  used blocks, with laws over whole runs; `MemoryMap` the variable-stride walk over the Multiboot
  map (section 3.3 of the Multiboot Specification 0.6.96) and the boot sequence. The counter and
  the bitmap's partial last word can disagree; the exact conditions are proved instead of assumed.
- **Paging** (`PageTables`, `Paging`, `PagingRuns`). Translation as the processor does it (section 4.3 of the
  Intel SDM, volume 3A) over a physical memory of words; `paging_init` and `map_page` against a
  flat page map. After `paging_init` every load and store of `map_page` goes through the
  translation itself, which may fault or show another frame. `PagingRuns` follows whole runs of
  `map_page` and `pmm_alloc_block`.
- **Tasks** (`RoundRobin`, `Scheduler`, `ContextSwitch`, `Tasking`, `TaskRuns`). `RoundRobin` is the ring as a
  step system over creations and ticks; `Scheduler` the linked control blocks; `ContextSwitch`
  what `timer_stub` saves and restores; `Tasking` puts task creation on the byte-level heap, failed
  allocations included; `TaskRuns` joins ring and stacks over whole runs.
- **Boot** (`Boot`) runs the pieces in the order of `kernel_main`: paging and the heap page, then
  tasks up to the first two ticks (the two calls of `create_task` stand in a comment, `src/kernel.c:134-135`).
- **Console** (`ConsoleText`, `Console`, `LineEditor`, `Keyboard`, `CStrings`, `Shell`). The 80x25
  buffer shows a window of an unbounded text; the lock, the line editor, the tokenizer, the commands
  and the hexadecimal printer and parser.

Words are integers below 2^32 with every wrap-around, mask and shift of the source written out in
arithmetic; only the allocator's bitmap uses bit-vectors.

## Model

| member | source | states |
|---|---|---|
| HeapList.FirstFit | src/heap.c:31-33 | the search stops at the first free block that is large enough |
| HeapShape.SplitDisjointExactly | src/heap.c:36-43 | kmalloc keeps the headers disjoint and inside the page, in whatever order, exactly when the header of a split overlaps no other |
| HeapShape.SplitSeparatedExactly | src/heap.c:36-43 | kmalloc keeps the headers disjoint, inside the page and in address order exactly when a split leaves the new header room before the next one |
| HeapShape.TakeSafeExactly | src/heap.c:33-53 | kmalloc keeps the headers in address order and every range handed out clear of them exactly when, besides, a block taken whole ends before the next header |
| HeapShape.FreeShape | src/heap.c:62-95 | kfree never endangers a range and loses no byte between blocks, whatever the list |
| HeapShape.FreeReleases | src/heap.c:73-92 | the allocated blocks after kfree are exactly those before, without the one freed, wherever its neighbours are free |
| HeapShape.FreeDetermined | src/heap.c:73-92 | in an exact layout that fixes kfree's result: the only exact, coalesced layout with those allocated blocks |
| HeapShape.MallocTakes | src/heap.c:33-53 | the allocated blocks after kmalloc are exactly those before and one more, of the size asked for or the whole block when no more than the charge would be left |
| HeapList.TakenDetermines | src/heap.c:76-92 | an exact layout without two free neighbours is determined by its allocated blocks |
| HeapShape.ChargedGrantable | src/heap.c:36-43 | with the header charged both conditions always hold in an exact layout |
| HeapShape.BlocksDisjoint | src/heap.c:30-60 | ranges handed out, headers included, are disjoint and inside the page |
| HeapShape.FailsOnlyWhenFull | src/heap.c:30-60 | kmalloc(n) returns 0 only when no stretch of n + 12 bytes lies outside the allocated blocks, and exactly then when the call may be granted |
| HeapLaws.MallocThenFree | src/heap.c:30-95 | kmalloc followed by kfree restores the block list exactly; an uncharged split leaves the one block 12 bytes larger |
| HeapLaws.DisjointExactly | src/heap.c:12-95 | over every run from disjoint headers: they stay disjoint in all states exactly when the header of every split overlaps no other |
| HeapLaws.SafeExactly | src/heap.c:12-95 | over every run: headers stay in address order and the ranges handed out clear in all states exactly when every call may be granted |
| HeapLaws.ChargedRuns | src/heap.c:12-95 | with splits charged every run from an exact layout meets both conditions |
| HeapLaws.StepSound | src/heap.c:30-95 | one kmalloc whose header overlaps no other, or kfree, keeps the laws of the next row |
| HeapLaws.RunLaws | src/heap.c:12-95 | after every run whose headers overlap no other: headers disjoint, no byte between blocks, no two neighbours both free, the claimed bytes are 4096 plus 12 per uncharged split, and the list is an exact layout of the page if and only if splits are charged or none happened |
| HeapLaws.AllFreed | src/heap.c:62-95 | such a run that has freed everything ends as one free block of 4084 bytes plus 12 per uncharged split |
| HeapLaws.HeaderForgedOverHeader | src/heap.c:34-43 | as shipped: a four-call run from boot forges a header over a live one |
| HeapLaws.HeaderOutOfOrder | src/heap.c:34-43 | as shipped: an eight-call run from boot whose last header overlaps no other but lies behind the next one, on the first bytes of a range handed out |
| HeapLaws.RangeOverHeader | src/heap.c:34-53 | as shipped: a five-call run from boot whose headers overlap no other hands out a range over a live header |
| HeapLaws.ShippedSplitOverrunsPage | src/heap.c:34-48 | as shipped: a two-call run from boot hands out a range that ends 12 bytes past the page |
| HeapBytes.DecodeLayout | src/heap.c:30-60 | following next pointers in the bytes yields exactly the list: acyclic, complete, in order |
| HeapBytes.MallocLives | src/heap.c:53 | kmalloc adds exactly the pointer it returns to those kfree accepts |
| HeapBytes.FreeLive | src/heap.c:62-95 | kfree takes exactly the freed pointer out of them |
| HeapBytes.MallocLiveKept | src/heap.c:30-60 | with either charge, as long as the headers stay in address order, ranges held before and clear keep their bytes, whatever kmalloc hands out |
| HeapBytes.FreeLiveKept | src/heap.c:62-95 | kfree writes no byte of a clear range still held |
| HeapBytes.UserWriteLayout | src/heap.c:30-60 | a holder writing inside its clear range disturbs no header |
| HeapRuns.AlwaysSafe | src/heap.c:12-95 | over every run of calls and client writes, those whose stores overwrite headers included: in all states the headers in memory decode to a coalesced list in address order with all held ranges clear, exactly when every kmalloc may be granted |
| HeapRuns.ChargedSafe | src/heap.c:12-95 | with splits charged all states of every run are exact layouts |
| HeapRuns.HeldBytesKept | src/heap.c:30-95 | over every such run, with either charge, a range handed out stays allocated with the same bytes until its own holder writes or frees it |
| KernelHeap.KernelHeap.constructor | src/heap.c:16-25 | the initial header describes one free block of 4084 bytes |
| KernelHeap.KernelHeap.Kmalloc | src/heap.c:30-60 | on the bytes: the headers afterwards describe the first-fit split list exactly when the new header overlaps no other; the pointer is that block's, allocated and large enough, 0 only when there is no room, and the only one to become live; only header bytes change, live bytes are kept while the headers stay in order, and the ranges stay clear exactly when the call may be granted; a step of the runs above with either charge |
| KernelHeap.KernelHeap.Forge | src/heap.c:36-47 | wherever the new header falls: both headers read as intended, the old flags stay, no byte outside the two headers changes |
| KernelHeap.KernelHeap.Kfree | src/heap.c:62-95 | on the bytes: the headers afterwards describe the coalesced list, the same list when the block was free already; the pointer is live no more and every other pointer is as live as before; only header bytes change, live bytes are kept and stay clear; a step of the runs above |
| KernelHeap.KernelHeap.FindPrevious | src/heap.c:84-87 | the backward search ends at the left neighbour |
| KernelHeap.OverwrittenHeader | src/heap.c:36-43 | the header forged in the four-call run makes the live header it covers read as 0x70000000 bytes with flags 0x10000 |
| KernelHeap.OutOfOrderDecodes | src/heap.c:36-43 | after the eight-call run the chain in the bytes still yields the list |
| Bits.AllBits | src/pmm.c:80-86 | a word other than 0xFFFFFFFF has a clear bit, so the inner search always returns |
| Bits.MaskDoubles | src/pmm.c:65 | in the shifted one, bit 0 counts one and every other bit twice the one before |
| Pmm.MarkedBit | src/pmm.c:65-97 | setting or clearing a block's bit changes that block only |
| Pmm.Pmm.constructor | src/pmm.c:12-27 | every whole word is locked, the tail is what memory held, and the counter is right exactly when no tail bit was clear |
| Pmm.Pmm.FreeMemory | src/pmm.c:36-67 | one allocator step on the used set and counter; out of range or already free changes nothing |
| Pmm.Pmm.FirstFree | src/pmm.c:78-89 | the word-skip search returns the least clear bit of the whole words, 0xFFFFFFFF exactly when there is none |
| Pmm.Pmm.AllocBlock | src/pmm.c:92-100 | the least free block is taken and its 4096-aligned address, below the sentinel, returned; the sentinel exactly when exhausted |
| Pmm.Pmm.LockMemory | src/pmm.c:113-121 | the block is used afterwards; the counter drifts by one exactly when it already was or does not exist |
| Pmm.ClearTailExample | src/pmm.c:12-27 | one block of RAM whose bit is clear in memory is counted as used |
| Pmm.CountIsSize | src/pmm.c:26-67 | the bit count the counter is compared with is the size of the used set |
| Pmm.AllocThenFree | src/pmm.c:65-97 | allocating then freeing a block restores the bitmap bit for bit |
| Frames.TakeThenRelease | src/pmm.c:36-100 | allocating then freeing restores used set and counter |
| Frames.ReissuedOnlyAfterRelease | src/pmm.c:36-100 | in any run two allocations return the same block only if it was freed in between |
| Frames.LockedNeverIssued | src/kernel.c:79-85 | a locked block (block 0 after boot) is not handed out until it is freed |
| Frames.CounterLaw | src/pmm.c:66-120 | over any run the counter gains on the number of used blocks by exactly the locks of used or non-existent blocks |
| Frames.CounterExact | src/pmm.c:113-121 | a run that starts consistent ends consistent exactly when it has no such lock |
| Frames.DoubleLockDrifts | src/pmm.c:113-121 | one lock of a used block puts the counter wrong |
| MemoryMap.ReleaseRegion | src/memory.c:53-59 | the loop over one region frees exactly the blocks its step addresses, cut to 32 bits, fall in |
| MemoryMap.LoopsForever | src/memory.c:57 | for the regions that leaves out the wrapping 64-bit counter never reaches the end |
| MemoryMap.ParseMemoryMap | src/memory.c:8-82 | exactly the blocks some available entry steps into become free, whatever the order or overlap; the counter stays consistent; nothing happens without flag bit 6 |
| MemoryMap.MapReadBack | src/memory.c:34-62 | the entries met are those a boot loader packed: size, base, length and type as six words, each entry at its own stride, between the address and the length of the structure |
| MemoryMap.UsualMap | src/memory.c:34-62 | a map given by its words, of the usual 127 MB from 1 MB up alone, releases exactly blocks 256 to 0x7FDF |
| MemoryMap.ReleasedBlocks | src/memory.c:55-59 | a region releases a block exactly when it steps into the block itself or into one a multiple of 4 GB further up |
| MemoryMap.AlignedExact | src/memory.c:55-59 | released and wholly available agree for every block below 4 GB exactly when the region is empty, or block-aligned and below 4 GB, or starts at 0 and covers the first 4 GB |
| MemoryMap.PartialBlockReleased | src/memory.c:55-59 | the region 0 to 0x9FC00 releases block 159, which it does not cover |
| MemoryMap.HighRegionReleasesLow | src/memory.c:57-59 | the block-aligned region from 4 GB to 8 GB releases blocks 0 and 256 |
| MemoryMap.BlocksSpared | src/memory.c:53-59 | a range of blocks below 4 GB, the kernel image's say, stays used through the walk exactly when every available region ends before its steps, taken modulo 4 GB, reach it |
| MemoryMap.KernelReleased | src/memory.c:55-59 | the usual region above 1 MB releases the block the kernel image starts in |
| MemoryMap.BootFrames | src/kernel.c:69-85 | after pmm_init, the walk and the lock of block 0: how many blocks there are, which are used, those of the bitmap's partial last word included, and when the counter is right |
| MemoryMap.Memcpy | src/memory.c:84-91 | each byte written is the stated original byte, also when the ranges overlap; no other byte changes |
| MemoryMap.CopyFaithful | src/memory.c:84-91 | the copy is faithful exactly when the destination does not start inside the source past its first byte |
| MemoryMap.CopyRepeats | src/memory.c:84-91 | a copy to d bytes above its source repeats the first d bytes for ever |
| PageTables.ClearedSame | src/paging.c:141-143 | clearing an unused frame changes no translation |
| PageTables.TableAdded | src/paging.c:137-144 | linking the new table keeps all tables distinct, used and low, and changes no translation |
| PageTables.PageMapped | src/paging.c:146-164 | the last store maps the one page to the one frame with flags 7 and leaves every other page |
| PageTables.FlatUpdate | src/paging.c:134-166 | hence map_page refines an update of a flat page map |
| PageTables.LastRequestWins | src/paging.c:134-166 | in the flat map after a run a page has what its last map_page call said, or what it had at first |
| PageTables.IdentityKept | src/paging.c:134-166 | mapping a page keeps the identity of the first 4 MB exactly when the page lies above it or is mapped to itself |
| PageTables.RemapKeeps | src/task.c:104-105 | mapping a page to the frame of its own number changes no translation exactly when it was mapped like that already |
| PageTables.InitialWalks | src/paging.c:32-81 | what paging_init's tables translate |
| PageTables.DirectoryOpened | src/kernel.c:138-141 | after all directory entries get flags 7 a page's translation survives exactly when its table was present or frame 0 reads as not present |
| PageTables.OpenedExample | src/kernel.c:138-141 | a memory in which page 1024 was unmapped and then translates to frame 0 |
| Paging.Vmm.PagingInit | src/paging.c:19-103 | succeeds exactly when two blocks are free; then the first 4 MB are the identity, all other directory entries are empty, and the tables are reachable exactly when both frames are low |
| Paging.Vmm.MapPage | src/paging.c:134-166 | through the translation itself, which of three ways it ends: the given page maps to the given frame with flags 7, all other pages and directory entries as before, and a block is taken only for a new table; or it cannot reach the directory or the table, faults and maps nothing; or it writes another frame |
| Paging.Vmm.LinkAstray | src/paging.c:139-146 | that last way: the frame the page at the new table's address shows is filled with empty entries and takes the new one |
| PagingRuns.RunCalls | src/paging.c:134-166 | any run of map_page and pmm_alloc_block calls, of any length, in which every missing table gets a frame below 4 MB: the flat map is updated call by call, tables and identity intact throughout |
| PagingRuns.SupplySuffices | src/paging.c:138-139 | for that as many free low blocks as the run takes are enough, counting each missing directory entry once |
| Paging.Vmm.UnlockStack | src/task.c:104-105 | create_task's remapping of the user stack's page, when it changes a translation, and that the allocator is not told |
| Paging.Vmm.LinkTable | src/paging.c:138-144 | the branch that adds a table |
| Paging.Vmm.TakeFrame | src/paging.c:139 | allocating a frame, or failing to, keeps the page tables valid |
| Paging.Vmm.MapHeapPage | src/heap.c:14-15 | the heap page is backed by whatever the allocator returned; when the mapping fails |
| RoundRobin.RunValid | src/task.c:36-52 | over every run the ring holds distinct tasks, as many as were created |
| RoundRobin.FirstTurn | src/timer.c:31-32 | a waiting task at ring distance d becomes current exactly when the ticks reach d plus the tasks created meanwhile |
| RoundRobin.EachOnce | src/timer.c:31-32 | n ticks with n tasks run each exactly once |
| RoundRobin.SavedPointer | src/timer.c:28-47 | every task holds the stack pointer saved when it was last preempted, or its forged one |
| RoundRobin.Resumed | src/timer.c:28-47 | that is what a tick returns for the task it switches to |
| RoundRobin.WaitersReady | src/timer.c:33-36 | no waiting task has a zero stack pointer, so the fallback is never taken |
| Scheduler.Scheduler.TaskInit | src/task.c:36-52 | the kernel becomes the only task of a one-element ring, with the kernel's page directory |
| Scheduler.Scheduler.AddTask | src/task.c:139-150 | the linked list afterwards is one cycle: the ring with the new task after the current one; all tasks share the kernel's page directory |
| Scheduler.Scheduler.TimerHandler | src/timer.c:11-48 | the linked list afterwards is the rotated ring with the pointer saved; what is returned; the page directory in use |
| ContextSwitch.ContextPreserved | src/interrupt.asm:80-88 | a task resumed from the pointer saved at its interruption has every register as before, for interrupts in ring 0 and ring 3 |
| ContextSwitch.FrameResumes | src/interrupt.asm:85-88 | popa and iret read a frame back into the registers it holds |
| ContextSwitch.InterruptWords | src/interrupt.asm:80-81 | where the processor and pusha leave each register, and that no other byte changes |
| TaskRuns.AlwaysParked | src/timer.c:28-47 | over every run in which the current task writes nothing of the waiting ones: each waiting task finds on its stack the registers it had when last interrupted, or forged |
| TaskRuns.RegistersReturn | src/timer.c:28-47 | so the task a tick returns to has all its registers back, from a pointer that is not zero |
| TaskRuns.OthersRegisters | src/timer.c:28-47 | with more than one task, those are the registers from before the tick |
| TaskRuns.CreatedParked | src/task.c:109-151 | what create_task leaves is such a stack |
| Tasking.ForgeFrame | src/task.c:109-137 | the 13 words on the new kernel stack, each at its place: eight zeros, the entry point, 0x1B, 0x202, the user stack's top, 0x23; nothing else changed |
| Tasking.LaunchState | src/task.c:109-137 | the registers a launch begins with, one by one |
| Tasking.TaskSystem.CreateTask | src/task.c:90-151 | the task's first resumption loads eip with the entry point, cs, ss and eflags with 0x1B, 0x23 and 0x202, zero into the seven general registers, and a stack pointer 1024 above what kmalloc returned for the user stack, null or not; its areas are new and disjoint; earlier areas keep their bytes; a null kernel stack puts the frame below address 1024 |
| Tasking.TaskSystem.TaskInit | src/task.c:36-52 | task_init on the heap: one control block, one task |
| Tasking.AreasDisjoint | src/task.c:90-143 | stacks and control blocks of all tasks are pairwise disjoint and inside the heap page |
| Tasking.AffordableExactly | src/task.c:90-139 | when only the heap's tail is free, create_task gets all its memory exactly when the tail holds two stacks with their charges and a control block |
| Tasking.SecondTaskStarved | src/task.c:90-99 | from boot the first create_task gets its memory, the second gets a null user stack, with either charge |
| Boot.StartPaging | src/kernel.c:96-98 | paging_init then heap_init: succeed exactly when four blocks below 4 MB are free, and then map the first 4 MB and the heap page and nothing else; otherwise the kernel halts or faults |
| Boot.UnlockAfterBoot | src/task.c:104-105 | after such a boot, unlocking a user stack in the heap page replaces the frame that backs it by frame 4096, which the allocator does not learn of |
| Boot.WipeAfterBoot | src/paging.c:139-143 | after such a boot, a new table taken from block 4096 is cleared through the heap page and wipes the heap's headers |
| Boot.StartTasks | src/kernel.c:100-135 | task_init, two calls of create_task without the remap of `src/task.c:105`, and two ticks from boot: the pointer each tick returns and the registers it resumes with; the second task runs first with its stack pointer at 1024, then the first on its own stack |
| ConsoleText.LockedTextKept | src/vga.c:19-21 | the text present at a lock is never changed by later prints, backspaces and locks, however often the screen scrolls |
| ConsoleText.RunValid | src/vga.c:102-130 | every run keeps the cursor below 2000 |
| ConsoleText.StepEdits | src/vga.c:102-130 | a newline fills the row with 1 to 80 gaps, a backspace deletes the last glyph exactly when the cursor is past the lock, anything else adds itself in its colour; the text scrolls exactly when that leaves the screen |
| Console.Console.PrintChar | src/vga.c:102-130 | the screen shows the window of the text with the character put in; case by case where the cursor goes and which cells change, all rows moving up when it leaves the screen; all writes are in range |
| Console.Console.PrintColor | src/vga.c:167-199 | printing a string is the fold of the single-character step |
| Console.Console.Scroll | src/vga.c:122-128 | rows move up one row and the last becomes blank |
| Console.Console.ClearScreen | src/vga.c:23-30 | the text is empty and the screen blank; the lock is not reset |
| Console.Console.LockCursor | src/vga.c:19-21 | the lock is at the cursor |
| LineEditor.PressEdits | src/keyboard.c:45-61 | backspace deletes the last character typed, any other key adds itself while fewer than 255 are there; the screen follows exactly then |
| LineEditor.BufferHoldsSurvivors | src/keyboard.c:45-61 | over every key sequence from a fresh prompt: of the characters that found room the buffer holds those that no later backspace deletes; 255 keys always find room |
| LineEditor.RubbedOut | src/keyboard.c:45-61 | a line of characters and then n backspaces leaves all but the last n, nothing after as many as there were |
| LineEditor.MirrorsWithoutScroll | src/keyboard.c:45-61 | from a fresh prompt, while the screen does not scroll, the text behind the prompt is the buffer and the cursor is the lock plus its length |
| LineEditor.MirrorsUnlessLost | src/keyboard.c:45-61 | over every key sequence screen and buffer agree exactly as long as no backspace was pressed whose character had scrolled up to the lock |
| LineEditor.LastRowLoses | src/keyboard.c:45-61 | on every prompt in the last row, typing to the row's end and one backspace lose the agreement |
| LineEditor.LossExample | src/keyboard.c:45-61 | such a loss: the prompt stands in the last row and ends at screen index 1933, 67 keys are typed, then backspace |
| Keyboard.Keyboard.Press | src/keyboard.c:27-62 | one key is one step of the line editor; in the buffer, backspace takes one place back, a character is stored at the end while there is room, releases and unmapped keys do nothing |
| Keyboard.DigitRow | src/keyboard.c:15 | what the digit keys type |
| Keyboard.TopRow | src/keyboard.c:16 | what the top letter row types |
| Keyboard.HomeRow | src/keyboard.c:17 | what the middle letter row types |
| Keyboard.BottomRow | src/keyboard.c:17-18 | what the bottom letter row types |
| Keyboard.OtherKeys | src/keyboard.c:14-19 | backspace, tab, Enter and space; modifiers, function keys and releases give nothing |
| Keyboard.Keyboard.Enter | src/keyboard.c:31-44 | the command line executed is exactly what was typed; afterwards a fresh prompt is locked, unless a peek faulted |
| Shell.ParseArgs | src/shell.c:18-38 | returns min(words, 16), and in the overwritten buffer the k-th argument is the k-th maximal run of non-separators |
| Shell.JoinThenTokenize | src/shell.c:18-38 | tokenizing words joined by any non-empty gaps gives the words back |
| Shell.Strcmp | src/shell.c:40-49 | zero exactly when both strings are the same |
| Shell.ExecuteCommand | src/shell.c:51-93 | what every command line does to the console: its first 16 words decide what is printed; it halts exactly on a peek at an unmapped address |
| Shell.TrailingGap | src/shell.c:18-38 | separators after the last word add nothing |
| Shell.CommandPrints | src/shell.c:51-93 | for words joined by any gaps: clear empties the text, help prints its list, echo the further ones of the first 16 words with a space after each, peek the word it read or how to use it, any other name that it was not found |
| Shell.BlankLine | src/shell.c:54-57 | a line without words does nothing |
| Shell.TextToHex | src/shell.c:96-127 | the value, modulo 2^32, of the longest hexadecimal prefix after an optional 0x |
| Shell.HexPrint | src/vga.c:82-100 | prints 0x and the eight digits of the number |
| Shell.PrintedReadsBack | src/shell.c:96-127 | the parser reads back every number the printer prints, as 0x and eight upper-case digits |
| Shell.DigitOrder | src/shell.c:105-117 | the values of the digits, in both cases |
| Shell.CaseIgnored | src/shell.c:96-117 | upper and lower case, also of the x, mean the same number |

## Left out

- KernelHeap.KernelHeap.Kmalloc: with charge 0 it requires that a split's header lies in the page, because past that the shipped code writes beyond it, and that the claimed total stays below 2^31, because past that it compares wrapped sizes; with charge 12 both always hold. A header that overlaps others is covered; what further calls make of the bytes then is not.
- KernelHeap.KernelHeap.Kfree: pointers to no block of the list are excluded, since the code takes the 12 bytes before any address for a header.
- HeapLaws.RunLaws: sizes are unbounded integers; for a run whose headers overlap no other the 32-bit code agrees while the claimed total stays below 2^31 and no header leaves the page. At charge 0, AllFreed and StepSound require the same of the headers, and MallocThenFree requires it at either charge, since the bytes need not describe the list otherwise.
- Pmm.Pmm.LockMemory: addresses beyond the bitmap are excluded, since the code writes outside its array for them, and so is a counter already 2^31 - 1 ahead of the bits.
- MemoryMap.ParseMemoryMap: entries must be readable and the pointer must not wrap; regions for which the loop never ends (`LoopsForever`) are excluded, in MemoryMap.ReleaseRegion as well.
- MemoryMap.BlocksSpared: says when the kernel's own blocks stay used; nothing in the code makes sure of it (`KernelReleased`, `HighRegionReleasesLow`), and frames that overlap the kernel image are not modelled further.
- Paging.Vmm.MapPage: excluded are a directory or a linked table above 4 MB that is seen through a mapping, a new table seen through a page that shows the directory or another table, and an exhausted allocator while the last page is mapped.
- Paging.Vmm.UnlockStack: translations are those of the tables in memory; map_page flushes no TLB entry, so until the next load of CR3 the processor may go on using the old translation of a page that was present.
- Tasking.TaskSystem.CreateTask: requires that the control block's allocation succeeds, since a control block at address 0 makes the timer take the ring for empty, and with charge 0 that each kmalloc may be granted. The remapping of the user stack's page is Vmm.UnlockStack; the heap's bytes and the frame behind them are separate memories, so that it puts another frame behind the heap (`UnlockAfterBoot`) is not carried over to the bytes.
- Boot.StartTasks: for the same reason; after the first remap the code's next kmalloc reads the bytes of frame 4096.
- Tasking.TaskSystem.TaskInit: requires that the control block's allocation succeeds; from boot it does.
- Scheduler.Scheduler.AddTask: control blocks are objects of their own, not decoded from the heap bytes allocated for them.
- Scheduler.Scheduler.TimerHandler: does not update esp0 of the TSS, because the source takes it from a field the task structure does not have; TaskRuns.RegistersReturn requires that interrupts find a stack in the interrupted task's own area.
- Shell.ExecuteCommand: what the page fault handler prints before it halts is not part of this model.
- Port I/O, the interrupt controller, descriptor tables, boot code and decimal printing.
