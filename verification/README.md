# Verified model of the kernel's memory, process, terminal and number code

This project models, in Dafny, the core of a small i386 kernel and proves properties of the model.

- **Physical memory** (`PmmModel`, `PmmInit`, `Pmm`): the word-packed bitmap allocator with its first-fit
  searches, its running counter, and its set-up from the boot loader's memory map. A bitmap word is a sequence
  of 32 bits.
- **Paging** (`Mmu`, `PagingModel`, `Paging`): i386 two-level translation (Intel SDM volume 3A, section 4.3) is
  the specification; the paging code reaches every directory and table entry at the virtual address it
  computes, through the directory entry that names the directory itself.
- **Boot and processes** (`BootModel`, `Boot`, `Start`, `Kheap`, `Words`, `ProcModel`, `AddressSpace`, `Isolation`,
  `KernelHalf`, `Supply`, `Backing`, `Proc`): `pmm_init` and `paging_init`, then process creation on top of the allocator and the
  page tables, when both succeed, and isolation between processes and of the kernel's own memory over every run of
  creations, switches and user stores.
- **Scheduler** (`RingModel`, `Scheduler`): the linked ring of processes, insertion, exit, the timer switch and
  saved contexts.
- **Terminal** (`AnsiModel`, `TermModel`, `ScreenModel`, `ControlModel`, `StatusLine`, `TerminalMemory`, `Tty`): the
  25x80 screen scrolled in place, its unbounded-page meaning, the escape-sequence interpreter against a
  split-and-parse reading (ECMA-48, section 5.4), and what each control sequence does to rows, columns and cells.
- **Numbers** (`NumberModel`, `Numbers`): `itoa`, `utoa`, `lltoa`, `atoi`, `atoll` (C11 sections 6.5.5 and
  7.22.1.2). `Arithmetic` holds two facts about remainders.

Each part has a module of values, where an operation is a function and its properties are lemmas, and a module
of classes or methods that change state as the source does; every such method is proved equal to the function.
Paging calls that end in `abort()` and allocator failures that the source does not check are outcomes
(`Aborted`, `Unchecked`): what the source does after an unchecked failure is not followed.

The allocator's bitmap is an object beside the modelled memory, although it lies in that memory, right after the
kernel. What makes this sound is proved: no step of any run writes the frames it lies in (`RunsKeepBitmap`), none
of them is a directory or a page table, and booting leaves them alone exactly when `pmm_init` has marked them all
used (`BitmapLeftAloneExactly`). Where it has not, the contracts from `paging_init` on do not apply.

`dafny verify dfyconfig.toml` checks everything.

## What the code does that its comments do not say

- The run search uses 0 both for "no run yet" and for "nothing found". It is leftmost and complete exactly when
  the first blocks are not all free (`SearchExact`); otherwise it can return a run that is not free.
- The memory-map loop does not move past an entry of length zero, and so never ends on one (`InitExact`).
- The range `pmm_init` retains is rounded down to whole blocks, so the block the bitmap ends in stays free when the
  map lists it as available, unless the bitmap ends with a block (`BitmapProtectedExactly`). It is then the first
  page handed out: `paging_init` makes it a page table and clears it, and with it the bitmap's end
  (`BitmapLeftAloneExactly`; `OrdinaryMapLosesBitmap` has an ordinary PC's map).
- Retained blocks that no available region lists are counted as used twice, and listed blocks beyond the block
  limit are counted as freed without ever having been counted as used (`InitDrift`). On a usual PC the two errors
  cancel and the counter is exact, unless rounding loses a block (`PcCounter`).
- `paging_virt_to_phys` ignores the present bit of the table entry and keeps answering for unmapped pages
  (`VirtToPhysStale`).
- `itoa` and `lltoa` drop the sign of a negative number in every base but 10 (`PrintedReadsBack`, `SignLost`).
- A parameter of exactly 32 digits, or a 33rd parameter, makes the escape interpreter write behind its arrays when
  it is ended; a 33rd digit makes it give the sequence up, after which nothing is ended (`OverrunExactly`,
  `SequenceOverrunsExactly`; `OneFieldOverruns`, `ManyFieldsOverrun` and `OverrunsAt` have the inputs).
- With one parameter, cursor positioning takes its column from an earlier sequence (`ColumnLeftOver`); setting a
  background colour stops blinking (`RenditionExact`).
- ESC before any character but [ is dropped, and that character is written (`EscapeDropped`).
- The number of the process switched to is written at the bottom right. From process 10 on its last digit reaches
  the edge of the screen, so that every such switch scrolls the whole screen up by one row (`StatusExact`).
- Clearing the screen by 2J points the terminal at the physical address of the VGA memory, which leads there if and
  only if the kernel's own directory is active (`ClearKeepsVgaExactly`); the address set at boot leads there in every
  address space (`VgaPageShared`).

## Model

| member | source | states |
|---|---|---|
| PmmModel.SearchExact | kernel/src/mem/pmm.c:193-225 | the run search returns the least start of a free run, or 0 when there is none, if and only if the first n blocks are not all free |
| PmmModel.SearchFailsWithBlockZeroFree | kernel/src/mem/pmm.c:201-215 | a bitmap with block 0 free for which the run returned contains a used block |
| PmmModel.AllocPagesFits | kernel/src/mem/pmm.c:133-149 | with block 0 reserved, a granted request is the leftmost free run, all of it was free, and exactly it becomes used; a refused one changes nothing |
| PmmModel.AllocPageFits | kernel/src/mem/pmm.c:89-104 | the single-page allocator gives the lowest free block, or 0 when there is none |
| PmmModel.AllocLargeFits | kernel/src/mem/pmm.c:107-131 | the large page is a multiple of 4 MB inside the free 8 MB run found, and exactly its 1024 blocks become used |
| PmmModel.AllocLargeComplete | kernel/src/mem/pmm.c:107-131 | with an exact counter, the large page is refused if and only if no 2048 free blocks are in a row |
| PmmModel.AllocPagesComplete | kernel/src/mem/pmm.c:133-149 | with an exact counter, a request for one or more blocks fails if and only if no free run of that length exists |
| PmmModel.AllocPagePanics | kernel/src/mem/pmm.c:89-99 | with an exact counter, the out-of-memory abort happens if and only if every block is used, and otherwise 0 is returned if and only if no block of the whole words below the limit is free |
| PmmModel.TakeKeepsDrift | kernel/src/mem/pmm.c:164-167 | taking free blocks keeps the difference between counter and used blocks |
| PmmModel.GiveKeepsDrift | kernel/src/mem/pmm.c:169-172 | freeing used blocks keeps it too |
| PmmModel.RunsKeepOwned | kernel/src/mem/pmm.c:89-172 | over any sequence of allocations and matched frees the live ranges are disjoint from each other and from the initially used blocks, and the bitmap and counter are the initial ones plus the live ranges |
| PmmModel.AddressRecovers | kernel/src/mem/pmm.c:151-162 | the address of a live range is not 0, does not wrap, and divides back to the range's first block |
| PmmModel.FreeingAllRestores | kernel/src/mem/pmm.c:151-162 | once everything allocated is freed, in any order, bitmap and counter are the initial ones |
| PmmInit.BlocksExact | kernel/src/mem/pmm.c:20-22 | a block is below the limit if and only if it lies in the reported memory, whose size in kilobytes is taken modulo 4 GB |
| PmmInit.InitExact | kernel/src/mem/pmm.c:19-87 | the memory-map loop ends if and only if no entry has length zero, and then every block is used if and only if it is retained, or was marked by the whole-byte fill or by what the memory held before and no available region lists it; for any block limit |
| PmmInit.BitmapProtectedExactly | kernel/src/mem/pmm.c:50-51 | low memory, kernel and bitmap, and the frames the bitmap lies in, are all marked used if and only if the bitmap ends with a block or the block it ends in was marked and is not listed |
| PmmInit.PoolForPaging | kernel/src/mem/pmm.c:19-57 | block 0 and the kernel's directory come out used whatever the map says, the bitmap's frames exactly under that condition |
| PmmInit.BitmapGivenAwayFirst | kernel/src/mem/pmm.c:50-51 | when it fails, the first page allocated is the block the bitmap ends in |
| PmmInit.OrdinaryMapLosesBitmap | kernel/src/mem/pmm.c:19-51 | an ordinary PC's map for which that happens |
| PmmInit.InitDrift | kernel/src/mem/pmm.c:22-51 | for regions that do not overlap, the counter after boot is ahead by the retained blocks no region listed and the unmarked ones, less the listed blocks beyond the limit, modulo 2^32 |
| PmmInit.CounterExactAfterInit | kernel/src/mem/pmm.c:22-51 | the counter is exact if and only if these cancel |
| PmmInit.PcCounter | kernel/src/mem/pmm.c:20-51 | on a usual PC, from what its boot loader reports, the counter is exact, or one ahead when rounding the two parts of memory to blocks separately loses one |
| PmmInit.PcRequestsComplete | kernel/src/mem/pmm.c:133-149 | on such a PC, right after boot, a request for one or more blocks fails if and only if no free run of that length exists |
| Pmm.Allocator.MmapFindFreeFrame | kernel/src/mem/pmm.c:194-225 | the nested word and bit loops, with full words skipped, compute the run search's specification |
| Pmm.Allocator.MmapFindFree | kernel/src/mem/pmm.c:179-191 | the single-bit search is the run search for one block |
| Pmm.Allocator.MmapSet | kernel/src/mem/pmm.c:164-167 | sets one bit and counts one more block |
| Pmm.Allocator.MmapUnset | kernel/src/mem/pmm.c:169-172 | clears one bit and counts one block less |
| Pmm.Allocator.AllocPage | kernel/src/mem/pmm.c:89-104 | abort, 0, or the address of the block taken, with the pool the specification says |
| Pmm.Allocator.AllocPages | kernel/src/mem/pmm.c:133-149 | 0 or the address of the run taken, bit by bit, with the pool the specification says |
| Pmm.Allocator.AllocAlignedLargePage | kernel/src/mem/pmm.c:107-131 | 0 or the address of the aligned run taken, with the pool the specification says |
| Pmm.Allocator.FreePage | kernel/src/mem/pmm.c:151-154 | exactly the block of the address becomes free |
| Pmm.Allocator.FreePages | kernel/src/mem/pmm.c:156-162 | exactly the blocks of the run become free |
| PmmInit.WalkReads | kernel/src/mem/pmm.c:33-47 | headers laid out one after another, each with any size field, are read entry by entry, in order and with nothing left out |
| Pmm.Allocator.ReadMap | kernel/src/mem/pmm.c:33-48 | the loop over the headers, stepping by each size field, frees what the specification says, or is found not to end |
| Pmm.Allocator.Init | kernel/src/mem/pmm.c:19-57 | the whole set-up yields the pool the specification says, or is found not to end |
| Mmu.DirectoryWindow | kernel/src/mem/paging.c:69 | the address 0xFFFFF000 + 4d walks to entry d of the active directory |
| Mmu.TableWindow | kernel/src/mem/paging.c:66-82 | the address computed for a page walks to the very word the walk uses as that page's table entry |
| Mmu.PutEntry | kernel/src/mem/paging.c:98 | writing one table entry changes the translation of that page only |
| PagingModel.TableMade | kernel/src/mem/paging.c:72-76 | a created table is a frame that was free, is cleared, and changes no translation |
| PagingModel.PagesMapped | kernel/src/mem/paging.c:88-108 | mapping a range is a map update on the walk: its pages, absent before, go to consecutive frames with the given rights, every other page keeps its translation, and only the directory, the range's tables and newly allocated frames are written |
| PagingModel.NotOccupied | kernel/src/mem/paging.c:91-96 | mapping a range of which no page is mapped never ends in the "already mapped" abort |
| PagingModel.PagesUnmapped | kernel/src/mem/paging.c:111-130 | unmapping makes exactly the pages of the range absent |
| PagingModel.MapThenUnmap | kernel/src/mem/paging.c:88-130 | mapping then unmapping restores every translation below the recursive window |
| PagingModel.EntriesWritten | kernel/src/mem/paging.c:72-98 | the entry of a mapped page has its frame, the present bit and the flags given, and that of a table made for it is writable besides |
| PagingModel.EntryCleared | kernel/src/mem/paging.c:111-123 | unmapping clears the present bit of the entry and nothing else |
| PagingModel.StoreExact | kernel/src/sys/proc.c:51-68 | a user store writes that one word of the page's frame if the page is present, user and writable, and nothing otherwise |
| PagingModel.VirtToPhysExact | kernel/src/mem/paging.c:169-176 | the lookup agrees with the walk on mapped pages, and for an unmapped one is 0 exactly when the table is missing or the stale entry and offset are 0 |
| PagingModel.VirtToPhysStale | kernel/src/mem/paging.c:169-176 | while mapped, every offset of a page looks up to its physical address; after unmapping it still does, although the walk finds nothing |
| Paging.Machine.FindPage | kernel/src/mem/paging.c:60-85 | gives the entry's address, null or abort, by reading the directory through its own entry |
| Paging.Machine.GetPage | kernel/src/mem/paging.c:60-85 | the same with a table created, written and cleared through the window when absent |
| Paging.Machine.MapPage | kernel/src/mem/paging.c:88-100 | one page is mapped as the specification says, or the code aborts on a present entry |
| Paging.Machine.MapPages | kernel/src/mem/paging.c:102-108 | the loop maps the range as the specification says, creating tables on the way |
| Paging.Machine.UnmapPages | kernel/src/mem/paging.c:125-130 | the loop unmaps the range as the specification says |
| Paging.Machine.VirtToPhys | kernel/src/mem/paging.c:169-176 | the lookup reads the entry through the window |
| BootModel.KernelMapped | kernel/src/mem/paging.c:21-47 | with block 0, the directory and the bitmap's frames marked used, the kernel's directory after paging_init walks to exactly low memory, the kernel image, the VGA page and the heap, none of it for user code; no frame that was in use is written but the directory, none became a table, and the bitmap's are unchanged |
| BootModel.BootIsolated | kernel/src/mem/paging.c:21-47 | that state is an isolated system without processes, in which the bitmap's frames are reserved |
| BootModel.BootNotOccupied | kernel/src/mem/paging.c:35-45 | booting finds no page it maps mapped already, so it fails for want of frames only |
| Supply.BootSupplied | kernel/src/mem/paging.c:35-45 | with an exact counter and 1027 free frames in a row, paging_init succeeds |
| BootModel.BootFromMap | kernel/src/mem/pmm.c:19-57 | from the pool pmm_init made of the memory map, when the bitmap ends well |
| BootModel.BitmapLeftAloneExactly | kernel/src/mem/paging.c:35 | paging_init allocates none of the bitmap's frames if and only if the bitmap ends well; otherwise its first page table is the block the bitmap ends in, which it clears |
| Boot.PagingInit | kernel/src/mem/paging.c:21-47 | the writes through the boot-time 4 MB page and the mappings compute that state and leave the bitmap's frames as they were; when they finish, the terminal has an address that leads to the VGA memory |
| Start.StartKernel | kernel/src/kernel.c:107-108 | pmm_init followed by paging_init finishes if and only if paging_init does on the pool made of the memory map, and then leaves a valid kernel with the bitmap's frames reserved |
| Kheap.AreasDisjoint | kernel/src/mem/kheap.c:12-36 | over any run of requests the areas handed out lie in the heap and never overlap |
| Kheap.Heap.Kmalloc | kernel/src/mem/kheap.c:12-21 | the area starts at the old heap pointer, which moves past it, if and only if it ends below 0xD0400000 |
| Kheap.Heap.Kamalloc | kernel/src/mem/kheap.c:26-36 | the same at the least multiple of the alignment above the heap pointer |
| KernelHalf.KernelHalfEverywhere | kernel/src/mem/paging.c:35-45 | over every run from boot, every directory has the kernel half that paging_init made, but for the temporary mapping, and the heap's frames are the kernel's |
| KernelHalf.AreasMapped | kernel/src/mem/kheap.c:4-21 | every byte of every area handed out after boot is mapped, in the kernel's directory and in every process's, to its own byte of the heap's frames, for the kernel only |
| KernelHalf.RecordsMapped | kernel/src/sys/proc.c:28-29 | so is every byte of each process's record and kernel stack |
| ProcModel.DirectoryOpened | kernel/src/sys/proc.c:30-44 | the new directory has an empty user half, the caller's kernel half and its own entry, stands on a frame that was free, and the caller's translations are unchanged |
| ProcModel.CodeLoaded | kernel/src/sys/proc.c:52-63 | the program's pages are mapped from 0 to fresh frames, user and read-only, and hold its bytes, for every length |
| Words.BlendIsBytes | kernel/src/sys/proc.c:57 | copying the last one to three bytes replaces exactly those bytes of the word's number |
| ProcModel.StackAdded | kernel/src/sys/proc.c:66-68 | ten fresh frames are mapped user and writable right below the kernel |
| ProcModel.SpaceBuilt | kernel/src/sys/proc.c:30-71 | the finished directory walks to exactly code and stack, shares entries 768 to 1022 with the caller, owns only frames that were free, and the caller's directory is active with its translations unchanged |
| ProcModel.NotTaken | kernel/src/sys/proc.c:30-71 | a process that is not built lacked frames: none of the pages it maps is mapped already, if the temporary mapping's is not |
| AddressSpace.FillDirectory | kernel/src/sys/proc.c:34-42 | the copy, own-entry and clearing writes at the temporary mapping give the new directory its row |
| AddressSpace.NewDirectory | kernel/src/sys/proc.c:30-44 | the imperative steps compute the specification's directory |
| AddressSpace.LoadCode | kernel/src/sys/proc.c:51-63 | mapping, copy and write protection compute the specification's state |
| AddressSpace.BuildSpace | kernel/src/sys/proc.c:30-71 | the whole construction, with both directory switches, computes the specification's state |
| Isolation.UserReach | kernel/src/sys/proc.c:51-68 | user code of a process can access only its own code and stack, and write only its stack |
| Isolation.UserReachIsOwn | kernel/src/sys/proc.c:24-98 | what user code can access is nobody else's, not reserved, and no directory or page table |
| Isolation.StoreHitsOwnStack | kernel/src/sys/proc.c:51-68 | a user store that succeeds changes one frame of the running process's own stack |
| Isolation.RunsKeepIsolation | kernel/src/sys/proc.c:24-98 | over any run of creations, switches and user stores: every process walks to exactly its own program, unchanged since loading, and its own stack; directories, tables, code and stack frames of different processes and of the kernel are disjoint; records and kernel stacks do not overlap; and no reserved frame is written but the kernel directory's entry for the shared table and that table |
| Isolation.KernelWalkKept | kernel/src/sys/proc.c:30-71 | so no page below the recursive window but those of the temporary mapping's four megabytes changes its translation in the kernel's directory |
| Isolation.RunsKeepBitmap | kernel/src/mem/pmm.c:21 | so the frames the bitmap lies in are unchanged by every run |
| Isolation.StepKeepsKernel | kernel/src/sys/proc.c:30-71 | the same for one step |
| Isolation.CreatedExactly | kernel/src/sys/proc.c:24-71 | in an isolated system, a creation is a step if and only if its two heap requests and all its frame requests succeed |
| Supply.Mappable | kernel/src/mem/paging.c:60-108 | a range of absent pages can be mapped when the free frames in a row are as many as the tables it may need |
| Supply.CreationSupplied | kernel/src/sys/proc.c:24-71 | in every isolated system with an exact counter, room in the heap, and free frames in a row for the directory, the program, the stack and their tables, a creation succeeds |
| Isolation.FewProcs | kernel/src/sys/proc.c:28-29 | the heap has room for the records and kernel stacks of at most 999 processes |
| Proc.Kernel.RunCode | kernel/src/sys/proc.c:24-98 | on the machine and the ring together, creation finishes if and only if it is a creation step of the isolated system, and then is that step, and the process joins the ring with the next number, its eip on the first byte of its read-only code, its esp on the last word of its writable stack, no flags and user selectors; otherwise the ring is as it was |
| Backing.FirstResume | kernel/src/sys/proc.c:73-85 | through any run of the system, and any of the scheduler that does not save or remove it, a created process's interrupt return is to user mode, to the first byte of its code and the last word of its stack in its own address space, with interrupts on |
| Backing.FirstWord | kernel/src/sys/proc.c:57 | the first word at that eip is the first of its program |
| Backing.PidsDiffer | kernel/src/sys/proc.c:74 | the numbers of the processes in the ring are all different |
| Proc.Kernel.TimerCallback | kernel/src/sys/proc.c:162-170 | a tick resumes the next process with its saved eip, esp and eflags, and is one switch step of the isolated system to the process whose address space and kernel stack the interrupt return uses; or it does nothing |
| Backing.OneProcessEach | kernel/src/sys/proc.c:73-96 | each ring member stands for exactly one process of the isolated system, and no two for the same one |
| Backing.StillBacked | kernel/src/sys/proc.c:87-96 | that is kept when a created process joins the ring |
| RingModel.OrderKept | kernel/src/sys/proc.c:87-96 | every step changes successors only where it must: an insertion after the current process, an exit at the predecessor, a switch nowhere |
| RingModel.DistanceStep | kernel/src/sys/proc.c:183 | a waiting process comes exactly one place nearer at a hand-over and one place further at an insertion |
| RingModel.RunsWithin | kernel/src/sys/proc.c:136-183 | a process runs within its distance plus the insertions made meanwhile, and until then it waits |
| RingModel.EachOncePerRound | kernel/src/sys/proc.c:162-183 | with a fixed ring of n >= 2, among any n consecutive ticks each process gets the processor after exactly one |
| RingModel.ContextKept | kernel/src/sys/proc.c:177-183 | however many others run, are created or exit, a process stays in the ring and keeps its saved context until an event saves or removes it, whether it waits or is current |
| RingModel.WaitingUnsaved | kernel/src/sys/proc.c:177-183 | a process that waits all along is neither saved nor removed |
| RingModel.ResumesWhereInterrupted | kernel/src/sys/proc.c:177-225 | a process interrupted by the timer, or that yielded, resumes, until it is saved again, with its eip and esp, its eflags with bit 9 set, in its own directory and kernel stack |
| RingModel.StartsAsCreated | kernel/src/sys/proc.c:73-85 | every created process, the first one included, starts with the registers, directory and kernel stack it was created with, until an event saves or removes it |
| RingModel.FirstOfThree | kernel/src/kernel.c:113-118 | the kernel's start-up: the first of three processes, current until the first switch, starts as created when the second tick after it makes it current |
| RingModel.ResumesInUserMode | kernel/src/sys/proc.c:210-222 | every interrupt return has the user code and data selectors with privilege level 3 |
| RingModel.InterruptsOn | kernel/src/sys/proc.c:211-212 | the flags an interrupt return gets differ from the saved ones in bit 9 only |
| Scheduler.Scheduler.Follow | kernel/src/sys/proc.c:103-114 | following next k times from the current process reaches the ring member at k modulo the ring's length |
| Scheduler.Scheduler.FollowVisitsOnce | kernel/src/sys/proc.c:103-114 | each process of the ring is reached by exactly one number of steps below its length, and that many steps lead back |
| Scheduler.Scheduler.Insert | kernel/src/sys/proc.c:87-96 | the relinking puts the new process right after the current one and keeps the ring linked |
| Scheduler.Scheduler.PrintProcesses | kernel/src/sys/proc.c:103-114 | the loop ends and prints every process of the ring once, in order |
| Scheduler.Scheduler.Predecessor | kernel/src/sys/proc.c:144-147 | the walk ends at the process before the current one |
| Scheduler.Scheduler.ExitCurrent | kernel/src/sys/proc.c:136-158 | aborts if and only if the ring has one process; otherwise exactly the current one leaves and its successor resumes |
| Scheduler.Scheduler.SwitchProcess | kernel/src/sys/proc.c:177-225 | saves the registers given, and resumes the successor with its own directory and kernel stack in force |
| Scheduler.Scheduler.TimerCallback | kernel/src/sys/proc.c:162-170 | does nothing with fewer than two processes and switches otherwise |
| AnsiModel.FieldsOfJoin | kernel/src/cpu/misc/ansi_interpreter.c:16 | splitting a parameter string at its semicolons undoes joining |
| AnsiModel.SequenceTaken | kernel/src/cpu/misc/ansi_interpreter.c:17-152 | any letter-free body with at most 32 fields of at most 31 digits is consumed whole, fills one slot a field in order, and leaves the machine in NORMAL with zero counters |
| AnsiModel.ParserAgrees | kernel/src/cpu/misc/ansi_interpreter.c:17-152 | the arguments dispatched are the decimal values of the parameters, an empty one 0, and later slots keep their old contents |
| AnsiModel.ReactOk | kernel/src/cpu/misc/ansi_interpreter.c:17-152 | the counters are zero outside PARAMS and the buffered field is digits, after every character |
| AnsiModel.OverrunExactly | kernel/src/cpu/misc/ansi_interpreter.c:36-53 | the rest of a sequence without ESC stays inside the arrays if and only if every field before the first with 33 digits has at most 31 digits and a slot |
| AnsiModel.SequenceOverrunsExactly | kernel/src/cpu/misc/ansi_interpreter.c:17-53 | the same for a whole sequence from ordinary text |
| AnsiModel.SequenceGivenUp | kernel/src/cpu/misc/ansi_interpreter.c:41-46 | after the 33rd digit of a parameter, what follows is read as text |
| AnsiModel.OneFieldOverruns | kernel/src/cpu/misc/ansi_interpreter.c:36-53 | one parameter overruns the buffer if and only if it has exactly 32 digits |
| AnsiModel.ManyFieldsOverrun | kernel/src/cpu/misc/ansi_interpreter.c:36-53 | parameters of at most 31 digits overrun the slots if and only if there are more than 32 of them |
| AnsiModel.OverrunsAt | kernel/src/cpu/misc/ansi_interpreter.c:36-53 | 32 digits and m, and 32 semicolons and m, are such inputs |
| ScreenModel.ScreenShowsPageEnd | kernel/src/cpu/devices/tty.c:89-149 | for every text without ESC on a cleared screen, the buffer is the last 25 lines of the unbounded page the text is laid out on, row < 25 and column <= 80 |
| ScreenModel.CharShown | kernel/src/cpu/devices/tty.c:119-149 | one character keeps screen and page in step |
| ScreenModel.LineAdded | kernel/src/cpu/devices/tty.c:99-117 | a line break, with scrolling in place when needed, is one new line on the page |
| ScreenModel.LinesStay | kernel/src/cpu/devices/tty.c:119-149 | complete lines of the page never change |
| ScreenModel.SequenceObeyed | kernel/src/cpu/misc/ansi_interpreter.c:51-148 | from any cursor position, writing a control sequence is one command with its parameters' values, after the line break or scrolling that precedes any characters; what each command does is in the rows of ControlModel |
| ControlModel.BeforeExact | kernel/src/cpu/devices/tty.c:130-138 | on the screen and short of the edge, nothing precedes a sequence, and at the edge one line break does |
| ControlModel.CursorMoved | kernel/src/cpu/misc/ansi_interpreter.c:77-88 | writing A, B, C or D takes the cursor that many rows up or down, or columns right or left, modulo 2^32, and changes nothing else |
| ControlModel.CursorPlaced | kernel/src/cpu/misc/ansi_interpreter.c:72-76 | writing H or f takes the cursor to exactly the row and column given, and changes nothing else |
| ControlModel.CursorSaved | kernel/src/cpu/misc/ansi_interpreter.c:56-65 | writing s notes the cursor's place and u goes back to it |
| ControlModel.LineErased | kernel/src/cpu/misc/ansi_interpreter.c:66-71 | writing K blanks exactly the cursor's row from the cursor on, in the writing colour |
| ControlModel.ScreenCleared | kernel/src/cpu/misc/ansi_interpreter.c:89-93 | writing 2J blanks every cell and puts the cursor at the top left, white on black; J with another parameter does nothing |
| ControlModel.ColorSet | kernel/src/cpu/misc/ansi_interpreter.c:96-143 | writing m changes the colour only, to the one its list of codes says |
| ControlModel.WhiteOnBlue | kernel/src/mem/paging.c:152 | the page-fault handler's codes 37 and 44 give white on blue, whatever the colour was |
| ControlModel.OthersIgnored | kernel/src/cpu/misc/ansi_interpreter.c:55-148 | every other letter changes nothing |
| ControlModel.EscapeDropped | kernel/src/cpu/misc/ansi_interpreter.c:26-33 | ESC and another character than [ writes that character |
| StatusLine.StatusExact | kernel/src/sys/proc.c:191-194 | the number written at each switch changes the last two cells only if it is below 10; from 10 on it scrolls the screen; the cursor is back at its place either way |
| ControlModel.ColumnLeftOver | kernel/src/cpu/misc/ansi_interpreter.c:72-76 | with one parameter, H takes the column an earlier sequence left in the second slot |
| TermModel.RenditionExact | kernel/src/cpu/misc/ansi_interpreter.c:96-143 | which bits each graphics code sets, red, green and blue in VGA's order, and what it keeps; a background stops blinking |
| TermModel.GraphicsExact | kernel/src/cpu/misc/ansi_interpreter.c:97-143 | a list of codes gives the colour, and no other, with the foreground of its last foreground code, the background of its last background code, and blinking as its last code that decides it says |
| TermModel.RenditionsDiffer | kernel/src/cpu/misc/ansi_interpreter.c:109-140 | the eight codes of a kind give eight different colours |
| TermModel.ErasedExactly | kernel/src/cpu/misc/ansi_interpreter.c:67-69 | the erasing loop blanks exactly the rest of the cursor's row |
| TermModel.MovementsUndone | kernel/src/cpu/misc/ansi_interpreter.c:56-88 | u undoes movement since s, and opposite movements cancel, with 32-bit wrap-around |
| Tty.Terminal.ScrollDown | kernel/src/cpu/devices/tty.c:99-117 | the in-place loops move every row up by one and clear the last |
| Tty.Terminal.Init | kernel/src/cpu/devices/tty.c:32-56 | the column-by-column loops clear the whole screen in the old colour, and the buffer address becomes the physical one |
| TerminalMemory.ClearKeepsVgaExactly | kernel/src/cpu/devices/tty.c:44 | over every run from boot, the buffer address after 2J leads to the VGA memory if and only if the kernel's own directory is active |
| TerminalMemory.VgaPageShared | kernel/src/mem/paging.c:45-46 | over every run from boot, the page of the address set there leads to the VGA memory, writable for the kernel only, in the active directory and in every process's |
| TerminalMemory.VgaRetained | kernel/src/mem/pmm.c:51 | pmm_init retains the VGA memory when the kernel ends behind it, as it does when linked at 1 MB |
| Tty.Terminal.InterpretChar | kernel/src/cpu/misc/ansi_interpreter.c:17-152 | one character steps the state machine and does the command it completes |
| Tty.Terminal.PutChar | kernel/src/cpu/devices/tty.c:119-149 | one character takes the terminal to the state the specification says |
| Tty.Terminal.WriteText | kernel/src/cpu/devices/tty.c:151-155 | the loop writes the characters in order |
| NumberModel.ParsePrinted | libc/src/stdlib/atoi.c:3-25 | parsing the base-10 text of any value of the width, the minimum included, gives the value back, whatever follows the terminator |
| NumberModel.ParsingStaysInRange | libc/src/stdlib/atoi.c:19-25 | no value computed by the negative accumulation or the negation after it leaves the type if and only if the number read does not |
| NumberModel.ParsingPrintedStaysInRange | libc/src/stdlib/atoi.c:19-25 | so none does for the base-10 text of any value of the type |
| NumberModel.SpacesAndSignRead | libc/src/stdlib/atoi.c:6-18 | a number is read behind any of the six space characters and a plus or minus sign |
| NumberModel.DigitsEvaluate | libc/src/stdlib/utoa.c:15-23 | the digits evaluate back to the value in every base from 2 to 36 |
| NumberModel.DigitsCanonical | libc/src/stdlib/utoa.c:15-23 | only digits of the base, and no leading zero except for zero itself |
| NumberModel.DigitsFit | libc/src/stdlib/utoa.c:15-23 | the number of digits never exceeds the number of binary digits, which bounds the buffer needed |
| NumberModel.QuotientAndRest | libc/src/stdlib/itoa.c:21-22 | the truncating quotient and the remainder with the dividend's sign recompose the dividend |
| NumberModel.NextDigit | libc/src/stdlib/itoa.c:20-23 | truncating division of a negative value takes the magnitude's digits off one by one |
| NumberModel.DigitCharacters | libc/src/stdlib/itoa.c:21 | the digits are 0 to 9 and then a to z |
| NumberModel.TableSymmetric | libc/src/stdlib/itoa.c:21 | the character table gives the same digit for a remainder and its negative |
| NumberModel.NothingPrinted | libc/src/stdlib/itoa.c:4-7 | the text is empty if and only if the base is none of 2 to 36 |
| NumberModel.PrintedReadsBack | libc/src/stdlib/itoa.c:14-16 | a printed number reads back as the value if and only if the value is not negative or the base is 10 |
| NumberModel.SignLost | libc/src/stdlib/itoa.c:14-16 | -255 and 255 print alike in base 16 |
| Numbers.WriteDigits | libc/src/stdlib/itoa.c:20-23 | the digit loop writes the digits reversed |
| Numbers.ReverseInPlace | libc/src/stdlib/itoa.c:27-31 | the swap loop reverses the digits in place and leaves the rest of the buffer |
| Numbers.Itoa | libc/src/stdlib/itoa.c:2-34 | the buffer holds the text and its terminator, otherwise unchanged; in base 10 it parses back to the value |
| Numbers.Utoa | libc/src/stdlib/utoa.c:2-32 | the same for unsigned values, with digits that evaluate to the value |
| Numbers.Lltoa | libc/src/stdlib/lltoa.c:2-34 | the same for 64-bit values |
| Numbers.Atoi | libc/src/stdlib/atoi.c:3-25 | spaces, a sign and digits are read as the number they denote, at 32 bits |
| Numbers.Atoll | libc/src/stdlib/atoll.c:3-25 | the same at 64 bits |

## Left out

- Freeing a process's frames on exit: `proc_exit_current_process` takes directory entries 0 and 767, which name page tables, for the code and stack frames (lines 125-134); exits are therefore no step of the isolation theorem.
- What happens after an allocator or heap failure that the source does not check (address 0, or a null record).
- 4 MB directory entries on a mapped range, which paging.c marks as not handled; translation itself covers them.
- TLB invalidation, the assembly of the interrupt return, general-purpose registers (saved, never restored), GDT, IDT, interrupts and devices.
- Sizes for which the heap pointer arithmetic wraps 32 bits, and memory maps that reach 4 GB in an available entry, where addresses are cut to 32 bits.
- A program text changing while it is copied: it is a value given to the creation.
- Bit patterns of bitmap words and page entries: a word is a sequence of bits, an entry a frame with named flags, and masks and shifts appear as operations on those.
- Terminal writes through a buffer address that does not lead to the VGA memory: the cells are the VGA memory's, and the address is only recorded.
- Writes behind the interpreter's arrays: the methods require that the next character makes none, and `OverrunExactly` says when one would.
- Characters above 126, signed in the source and never printed; and `term_change_bg_color`, the getters and the setters used directly.
- Signed overflow in the parsers, undefined in C, is modelled as two's-complement wrap-around.
- `mmap_test`, `printf`, the string functions, the boot code and the bodies of the example processes, which hold no property worth stating beside the above.
- Pmm.Allocator.Init: the printed statistics, and a memory map that reaches the end of the address space, where the map pointer wraps, are not part of the model.
- Tty.Terminal.Init: its stores are taken to reach the VGA memory in whichever address space is active; `ClearKeepsVgaExactly` says when the address does, and what the stores do otherwise (a fault, or writes to the process's own pages) is not modelled.
- Scheduler.Scheduler.SwitchProcess: does not write the process number, which goes to the terminal and not to the ring; `StatusExact` says what that text does to the screen.
- Scheduler.Scheduler.ExitCurrent: covers the removal from the ring and the switch, not the freeing of frames before it.
