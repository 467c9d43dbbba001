# quaros, verified

quaros is a small kernel for one 32-bit x86 processor. This project models what its C and assembly code does
to physical memory, page tables, the task table, kernel stacks, user pages, files, the console and its input
formats, and proves what the code keeps, step by step and over whole runs.

| file | contents |
|---|---|
| Machine, Bytes | words, frames, constants, wrapping and bitwise arithmetic; frames as bytes |
| PageAllocator, PageTable, AddressSpace, SpaceCopy | memory.c as functions on the contents of memory, with the flat view of a two-level page table |
| Elf, FileTable, Directory, UserStack | program headers, the file table, directory listing, argument marshalling |
| Tasks, SystemCalls, Scheduling, SlotReuse, Runs, Deadlock, Zombies | the task table as a state machine: invariants, what each event leaves in each slot, fairness, progress, parent links, and concrete runs that end badly |
| Context | kernel stacks word by word: trap frames, contexts, the stack fabricated by fork |
| Accounts, Conservation, DoubleFree | who owns which page, and what frees and double frees do to the free list |
| Kernel, KernelInv, KernelEffects, KernelFiles, KernelSteps | the composed kernel: every atomic step with all that it does, and the invariant it keeps |
| KernelCalls | each system call on files in full: buffers, descriptors, file table, pages, console |
| KernelRuns, KernelIo, KernelConsole, RunBalance | every run of it: pages, contexts, files and console input |
| KernelBoot, KernelStart, ArchiveRead | from power-up to the first dispatch of init, and to reading what the archive holds |
| PhysicalMemory, FileCode, KernelCode, StackCode | the same code in its imperative form, updating memory, files, task table and stacks in place, proved equal to the functions above |
| Console, Shell, Decimal, Archive, Disk | line discipline, tokenizer, numbers, archive walk, boot loader reads |

Memory is an array of 0x8000 frames of 1024 words, seen by the kernel between KERN_BASE and KERN_TOP. A
pointer to a page is its frame, a pointer to a task its slot, a pointer to a file a number behind the slots.
The free list is stored inside the free pages, as in the code; `IsFreeList` says what the links spell.
Interrupts are off in the kernel, so each system call, tick or byte is one step, except that `switch_to`
splits a task's step in two. `panic` ends the run: functions return `Panic`, methods return false.

The processor's registers at a switch, the user's computation between two traps, what reading a caller's
argument vector gives, the bytes that arrive at the serial line, the archive and the disk are parameters.

## What the proofs found

* Progress needs no hypothesis about slot reuse: live tasks hang below init, which nobody's slot can replace,
  so the scheduler always finds work. Slot reuse can all the same put two tasks to sleep on each other for
  ever (`Deadlock.ReachableDeadlock`).
* `sys_open` does not check its search for a descriptor. The ninth open of a task stores the file over its
  `parent` (`Tasks.OpenKeepsParentIff`), and its exit no longer wakes the parent up
  (`Deadlock.ReachableLostWakeup`); the invariant on which progress rests holds exactly in runs without a
  ninth open (`Tasks.ReachableInvIff`).
* `zombie_exists` is one flag for all parents: a zombie is freed exactly if a system call of its parent ends
  while the flag is set (`Zombies.ZombieFreedIff`), so it can outlive all of them (`Zombies.ReachableZombie`).
* `sys_execv` that finds no file, or no ELF image, frees physical frame 0 (`Conservation.ExecLeaksFrameZero`).
  Of all events exactly this one breaks page conservation (`KernelSteps.KStepKeeps`). Once, it adds a page
  that was not registered; the second time the page is freed twice, and pages are accounted for throughout a
  run if and only if it happens at most once (`RunBalance.BalancesIff`).
* `sys_execv` that fails on its arguments has already written the new entry into the trap frame: the caller
  goes on in its old program, but at the entry of the new one (`KernelRuns.ExecvFaults`).
* `sys_write` never changes the size of a file (`KernelCalls.WritesPage`). A new file that has been written reads
  as empty when it is opened again; before that its position is behind its end, and what is left wraps to almost
  2^32 bytes (`KernelCalls.ReadsFile`).
* DEL is guarded by `edit_len > 0`, so it can take back a committed byte
  (`Console.DelDamagesCommittedLine`); the exact condition is `Console.FollowsIff`.
* The pointer array of a new program is not null-terminated, unless the bytes behind it happen to be zero
  (`UserStack.ArgvTerminatedIff`).
* `read_file` copies from the start of the file wherever its position is (`KernelCalls.ReadsFile`), and
  `sys_write` to a file returns -1 also when it has written (`KernelCode.KernelCode.SysWrite`).
* `read_offset` of 0 bytes inside a sector reads one sector (`Disk.HullIsTight`).
* A child of fork starts with eflags equal to FL_IF and with gs and fs equal to 0, whatever its parent had
  (`Context.ChildReturnsFromFork`).

## Model

| member | source | states |
|---|---|---|
| PageAllocator.KmallocPops | memory.c:38-50 | kmalloc panics exactly when the free list is empty; otherwise it returns its first page, leaves the list of the others and writes no memory |
| PageAllocator.KfreePushes | memory.c:25-35 | freeing a page that is not free puts it in front of the list and changes one word of memory |
| PageAllocator.KfreeSoundIff | memory.c:25-35 | after kfree some list still runs to its end if and only if the page was not free before: a double free closes the list into a cycle |
| PageAllocator.FreeListUnique | memory.c:18-35 | the contents of memory determine the free list: links stored inside free pages admit one reading only |
| PageAllocator.RegisterAddsWholePages | memory.c:53-61 | register_free_mem panics exactly when both addresses round down to the same page or the wrong way round; otherwise exactly the whole pages of the range become free, each once, from the highest to the lowest |
| PageAllocator.KfreeRangePushes | memory.c:58-60 | the loop adds exactly the frames of the range, in descending order, in front of the list |
| PageTable.MapPagePointwise | memory.c:76-90 | map_page panics exactly when it needs a table and no page is free; otherwise the flat map changes at one page, to the given frame and permission, the free list stays well formed and apart from the tables, and no frame but the directory and that page's table is written |
| PageTable.UnmapPagePointwise | memory.c:93-108 | unmap_page panics exactly on pages that are not mapped to memory; otherwise the flat map loses one page, and its frame joins the free list |
| PageTable.MapPageOtherSpace | memory.c:76-90 | map_page in one address space changes no translation of another one |
| PageTable.WriteEntryPointwise | memory.c:88-89 | a write to one table entry is an update of the flat map at one page |
| PageTable.InstallTableKeepsMap | memory.c:81-84 | installing a zeroed table changes no translation |
| PageTable.LookupFrame | memory.c:64-73 | the flat map depends on the directory and its present tables only |
| PageTable.WalkIsLookup | memory.c:64-73 | for each of the 2^32 addresses the flat map shows the entry that walk_pgdir finds, and nothing where it finds no table |
| PageTable.EntryDecodes | memory.c:89-89 | the stored entry decodes to the frame and permission that were asked for |
| AddressSpace.MapPagesBuilds | memory.c:111-123 | mapping n pages of an empty stretch takes exactly one free page per 1024 pages, maps them to consecutive frames and changes no other translation and no other frame |
| AddressSpace.MapPagesExhausts | memory.c:111-123 | it panics when fewer pages are free than tables are needed |
| AddressSpace.MapKernelRowsBuild | memory.c:158-177 | what the first n rows of kernel_map have built, and that they panic exactly when their tables are not free |
| AddressSpace.MapKernelBuilds | memory.c:165-178 | map_kernel takes exactly 258 pages and panics exactly when fewer are free; its directory has 257 distinct tables and the flat map is the intended one |
| AddressSpace.KernelTranslation | memory.c:158-178 | for each of the 2^32 addresses: identity below 4 MB and from MMDEV_BASE on, minus KERN_BASE in between, unmapped elsewhere |
| AddressSpace.FreeTablesFrees | memory.c:195-205 | the loop frees every present table once, although kfree overwrites the first word of each table it has passed |
| AddressSpace.DestroyFreesAll | memory.c:188-207 | destroy_address_space gives back the directory, every table and the frame of page 0, each once, and writes no other frame |
| AddressSpace.AllocUserPage | memory.c:126-139 | alloc_map_memory of one page at page 0 replaces the identity mapping by the first free page; it panics exactly when none is free |
| AddressSpace.SpaceBuilds | memory.c:126-139 | after map_kernel, allocating page 0 gives a complete program space of 259 pages, and panics exactly when only 258 were free |
| AddressSpace.BuildThenDestroy | memory.c:126-207 | map_kernel, one user page, destroy_address_space: the free pages afterwards are those from before, none twice, and every page that was in use is unchanged |
| Tasks.BootInv | proc.c:57-71 | the task table at boot satisfies the invariant |
| Tasks.StepKeepsCore | interrupt.c:52-79 | every atomic step, also a ninth open, keeps the core: exactly one slot runs and it is curr_task, the scheduler is running or runnable, pids are slot numbers, sleepers are inside sys_wait; a step panics if and only if init exits and still has no parent |
| Tasks.ReachableCore | interrupt.c:52-79 | so the core holds in every reachable state |
| Tasks.StepKeepsInv | interrupt.c:52-79 | as long as no open overwrites a parent, every step also keeps parents tasks and every sleeper the parent of a live task, and init's exit is the only panic |
| Tasks.OpenKeepsParentIff | sys_file.c:25-33 | sys_open keeps the caller's parent if and only if it has a free descriptor: the unchecked search ends behind open_files, at parent |
| Tasks.ReachableInvIff | sys_file.c:25-33 | the full invariant holds at the end of a run if and only if no open of the run was the ninth of its task |
| Tasks.ExitKeepsInv | sys_proc.c:146-158 | sys_exit keeps the invariant and panics exactly for init, which has no parent |
| Tasks.WaitKeepsInv | sys_proc.c:161-176 | sys_wait keeps it: it sleeps only on a child that is alive |
| Tasks.ReapKeepsInv | proc.c:155-172 | kill_off_zombies keeps it, although it clears the flag for everybody |
| Tasks.ForkKeepsInv | sys_proc.c:16-53 | sys_fork keeps it |
| Tasks.YieldKeepsInv | proc.c:17-42 | switching to the scheduler keeps it |
| Tasks.DispatchKeepsInv | proc.c:45-52 | dispatching a runnable task keeps it, including the reaping of a task that returns from sleep |
| Scheduling.StepTransition | proc.c:17-52 | every switch has the scheduler at one end; a zombie stays or is freed by its running parent, and only exit makes one; slots come to life only by fork; runnable tasks change only by being dispatched, sleepers only when a child exits; the pid never changes during a life, and the parent only by an open without a free descriptor |
| Scheduling.Progress | proc.c:45-52 | whenever the scheduler is current in a state with the full invariant some other task is runnable, with no hypothesis on slot reuse |
| Scheduling.SchedulerDispatches | proc.c:45-52 | from there the loop of schedule dispatches a task within 1024 iterations |
| Scheduling.BoundedWait | proc.c:45-52 | in every run, until runnable slot j is dispatched it stays runnable, the loop index advances at most (j - i) mod 1024 times, and every other task is dispatched at most once |
| Scheduling.DispatchedInTime | proc.c:45-52 | a run in which the index advances further than that has dispatched j |
| Scheduling.NoLostWakeup | sys_proc.c:146-176 | in every run from boot without a ninth open each sleeping task is the recorded parent of a live task, across slot reuse |
| SlotReuse.ForkKeepsAcyclicIff | sys_proc.c:16-53 | a fork keeps the parent links acyclic if and only if the slot it takes is not an ancestor of the running task |
| SlotReuse.OtherStepsKeepAcyclic | interrupt.c:52-79 | every other step keeps them acyclic |
| SlotReuse.BootAcyclic | proc.c:57-71 | the parent links at boot are acyclic |
| SlotReuse.CleanRunsStayAcyclic | sys_proc.c:16-53 | runs whose forks take no ancestor's slot keep the parent links acyclic |
| SlotReuse.RootedIff | proc.c:155-172 | a step keeps the parent links of all tasks leading to init if and only if it frees no slot that a task still names as its parent |
| SlotReuse.CleanRunsStayRooted | proc.c:155-172 | in runs that free no such slot the links stay rooted at init, and so acyclic |
| SlotReuse.BootRooted | proc.c:57-71 | they are at boot |
| SlotReuse.SleepersHaveActiveDescendants | sys_proc.c:161-176 | with acyclic links, below every sleeping task there is one that is runnable or running |
| SlotReuse.StuckForever | sys_proc.c:161-176 | a group of sleepers whose live children are all in the group never wakes up, in any run |
| Deadlock.ReachableDeadlock | proc.c:116-151 | such a group is reachable: from boot, with a reused slot, two tasks end as each other's child, both asleep for ever |
| Deadlock.ReachableLostWakeup | sys_file.c:25-33 | a run from boot in which a child's ninth open loses the wakeup of init: init sleeps for ever without a live child, and the scheduler finds nobody to run |
| Zombies.ZombieFreedIff | proc.c:155-172 | a zombie is freed in a step if and only if a system call of its parent ends there, or its parent returns from sleep, while zombie_exists is set |
| Zombies.ZombiesStay | proc.c:155-172 | once the flag is clear no zombie is freed before another task exits |
| Zombies.ReachableZombie | proc.c:155-172 | a run from boot in which init's system call clears the flag, so that the zombie of another parent outlives every system call of that parent until a further exit |
| Context.TrapRoundTrip | int_common.asm:16-40 | trap, handler, ret_to_int_site: every register of the user comes back, only eax is the result, and the kernel stack is empty again |
| Context.TrapFrameWords | interrupt.h:32-52 | what the pushes leave in memory is struct int_regs, member by member |
| Context.SwitchRoundTrip | context_switch.asm:13-33 | switching out and in again restores registers, stack pointer and return address, and leaves the stack above untouched |
| Context.ChildReturnsFromFork | sys_proc.c:19-30 | the fabricated stack runs down to iret exactly: the child is where its parent was, with the parent's registers and stack, eax being 0 |
| Context.InitStarts | proc.c:206-220 | the stack fabricated for init leads to its entry point in user mode with zero registers and an empty kernel stack |
| Accounts.OneOwner | memory.c:25-50 | in balanced books a page of a task is registered, is not free, not fixed, and belongs to no other task |
| Accounts.BalancedCount | memory.c:25-50 | free pages, fixed pages and 260 pages per task add up to the registered pages |
| Accounts.SamePagingSameFrames | memory.c:64-73 | the pages of a task are determined by its directory and tables |
| Accounts.DataFramesArePrivate | memory.c:126-139 | writes to a task's kernel stack or user page touch no page table and no free page |
| Accounts.Rebalance | memory.c:25-50 | moving pages between the free list, the fixed pages and one slot keeps the books balanced if all other owners' tables are untouched |
| Kernel.ReapPointIsReaped | interrupt.c:52-57 | the steps that end with kill_off_zombies do so on the table the handler has left |
| Conservation.ForkMemoryForks | sys_proc.c:16-53 | fork panics exactly when fewer than 260 pages are free; otherwise the child owns the next 260, its kernel stack is the fabricated one, its page 0 a copy of its parent's, and no other page is written |
| Conservation.ForkBalanced | sys_proc.c:16-53 | a new task made from the next 260 free pages keeps the books balanced |
| SpaceCopy.CopyInPageZero | memory.c:229-245 | memcpy_to_another_space inside page 0 writes exactly the bytes to their place in its frame |
| SpaceCopy.LoadsOnce | proc.c:98-110 | the loop of load_elf over the program headers loads the one segment there is |
| Conservation.ProgramLoads | proc.c:90-113 | loading a program after map_kernel needs one page more and panics exactly without it; the segment's bytes are then at their address in page 0 |
| Conservation.StartPrepared | sys_proc.c:129-141 | sys_execv behind load_elf: entry and stack pointer in the caller's trap frame, the arguments in the new page 0, and one of the two spaces given up |
| Conservation.PageKept | fs.c:110-127 | a page that alloc_file takes moves from the free list to the pages of the kernel, and the books stay balanced |
| Conservation.ExecSuccessBalanced | sys_proc.c:103-141 | a successful execv trades the old space for the new one, page for page, and leaves the kernel stack alone |
| Conservation.ExecFaultBalanced | sys_proc.c:131-135 | an execv that fails after loading gives back exactly the pages it took |
| Conservation.ExecLeaksFrameZero | sys_proc.c:117-127 | an execv that fails before loading puts frame 0, which nobody registered, on the free list |
| Conservation.NeverBalanced | sys_proc.c:117-127 | after that no assignment of pages to owners balances with the registered pages |
| Conservation.DestroyTaskBalanced | proc.c:141-151 | destroy_task never panics on a task that owns its pages, and returns all 260 |
| KernelInv.ReapBalanced | proc.c:155-172 | kill_off_zombies never panics, keeps the books balanced and leaves every page of every task it does not reap as it was |
| KernelEffects.ExecEffect | sys_proc.c:103-141 | an execv that gets as far as loading panics exactly with fewer than 259 free pages; otherwise it keeps the books balanced, whether it succeeds or fails on its arguments |
| KernelFiles.OpenNewEffect | sys_file.c:36-57 | sys_open of a new file panics exactly when no page is free; otherwise the first free page becomes the file's, and the books balance |
| KernelFiles.OpenOldEffect | sys_file.c:34-65 | sys_open of anything else never panics, moves no page and writes at most the page of the file |
| KernelFiles.ReadEffect | sys_file.c:70-96 | sys_read never panics and moves no page; every page of other tasks and of the kernel is as before |
| KernelFiles.WriteEffect | sys_file.c:99-123 | sys_write panics exactly when it leaves the page of its file; otherwise every page of other tasks, and of the kernel but this one, is as before |
| KernelSteps.EffectOf | interrupt.c:52-79 | the effect of any event panics exactly when it needs more pages than are free, on a full ring, or on a write past the page of a file, and keeps the books balanced |
| KernelSteps.SaveKeeps | context_switch.asm:13-33 | a switch writes one page, the stack it leaves |
| KernelSteps.ContextsKept | context_switch.asm:20-29 | after every step each task that can be switched to has a saved context inside its stack page |
| KernelSteps.StepDescriptor | sys_file.c:12-67 | a descriptor comes from where it was, from the parent by fork, or from sys_open |
| KernelSteps.StepBalanced | interrupt.c:52-79 | the invariant of the whole kernel, with the account of pages after the step |
| KernelSteps.KStepKeeps | interrupt.c:52-79 | a step panics if and only if init exits and still has no parent, more pages are needed than are free, a byte finds the ring full or a write leaves the page of its file; all pages of all other surviving tasks, and all kernel pages but the file that is written, are untouched; the books balance afterwards if and only if the step is not an execv that fails before loading |
| KernelRuns.RunConserves | interrupt.c:52-79 | page conservation over every run in which execv fails before loading at most once; that failure adds frame 0 to the registered pages |
| KernelRuns.RunCounts | interrupt.c:52-79 | in such a run free pages, pages of the kernel, one page per file and 260 per task always add up to the registered pages, plus one for an early failure |
| KernelRuns.RunProjects | interrupt.c:52-79 | every run of the kernel is a run of the task table, so that the theorems about the table apply to it |
| KernelRuns.RunPreserves | proc.c:17-42 | whatever the others do, a live task that is not running keeps its saved context and every word of its 260 pages |
| KernelRuns.ContextIntegrity | context_switch.asm:13-33 | for every interleaving: whoever is switched out, user task or scheduler, finds registers, stack pointer, return address and stack as they were when it is switched in again |
| KernelRuns.ForkReturnsTwice | sys_proc.c:16-53 | after a fork and any run in which the child has not yet run, its dispatch leads through the fabricated context to user mode at its parent's place, with a copy of the parent's page 0 in a frame nobody else owns |
| KernelRuns.ExecvStarts | sys_proc.c:103-141 | for a file whose page is an image of an ELF header and program headers, given as records: a successful execv returns to user mode at the header's e_entry with all other registers unchanged; page 0 holds the bytes that p_offset, p_vaddr and p_filesz name, argc and argv read back the caller's strings, and no file is open |
| KernelRuns.ExecvFaults | sys_proc.c:129-135 | when reading the arguments fails, the caller keeps its directory, its page 0 and its files but returns into its old program at the entry of the new one and with the stack pointer of a fresh stack |
| KernelRuns.ExecvFailsEarly | sys_proc.c:116-127 | an execv that fails before loading leaves its caller's slot and every word of its 260 pages as they were |
| Elf.HeaderRoundTrip | elf.h:39-54 | of an Elf32_Ehdr laid down member by member the kernel reads back the magic number, e_entry, e_phnum and the place of each program header |
| Elf.SegmentRoundTrip | elf.h:57-66 | ... and of each Elf32_Phdr p_type, p_offset, p_vaddr, p_filesz and p_memsz |
| Elf.ProgramIff | proc.c:98-110 | a page with such headers is a program if and only if exactly one of them is to be loaded, into page 0; its contents are that segment's bytes |
| KernelIo.WriteArrives | fs.c:180-188 | sys_write copies the caller's bytes to the file's position, which moves behind them; it panics exactly when they do not fit into the page |
| KernelIo.RecordsPersist | fs.c:110-127 | files keep their names, sizes and pages in every run |
| KernelIo.FilePersists | fs.c:110-127 | a file that nobody writes keeps its name, its page and its contents in every run, whatever is forked, loaded, exited and opened |
| KernelCalls.ReadsFile | fs.c:167-178 | sys_read of a file copies the start of its page to the caller's buffer, wherever the position is: as many bytes as are asked for but no more than lie between position and end, and the position moves on by as many; behind the end the unsigned difference wraps; no other byte, file or descriptor changes |
| KernelCalls.ReadsConsole | io.c:102-109 | sys_read of the console delivers the oldest unread bytes, as many as are asked for, or as there are, or as come before a -1, which is lost; the line being edited and everything else stay |
| KernelCalls.ReadsNothing | sys_file.c:84-86 | sys_read of a free descriptor changes nothing |
| KernelCalls.WritesPage | fs.c:180-188 | sys_write to a regular file panics exactly when it leaves the page; otherwise the caller's bytes are at the position, which moves behind them; size, other bytes, other files, the caller's pages and descriptors stay |
| KernelCalls.WritesNothing | sys_file.c:113-123 | sys_write to a free descriptor, to the console or to a directory writes nothing in memory |
| KernelCalls.WrittenIsRead | sys_file.c:70-123 | what one task writes to a file another one reads, byte for byte, after any run in which nobody else writes it |
| KernelCalls.ClosesFile | sys_file.c:135-141 | sys_close frees its descriptor if and only if that leads to a file in use, and changes nothing else; in the other cases it changes nothing |
| KernelCalls.OpenAfterClose | sys_file.c:25-33 | an open after such a close stores its file, if any, at or below the closed descriptor, and keeps the parent |
| KernelCalls.ReopensAfterClose | sys_file.c:25-67 | so a program that closes a file and opens one that exists succeeds, whatever its other descriptors are |
| KernelCalls.OpensConsole | sys_file.c:34-35 | opening the console takes the lowest free descriptor, or the parent's place, and changes nothing else |
| KernelCalls.OpensToRead | sys_file.c:47-50 | opening an existing file for reading gives the first file of that name, its position at the start; nothing else changes |
| KernelCalls.OpensToWrite | sys_file.c:51-58 | opening an existing file for writing makes it regular, sets its position to the start and clears the first four bytes of its page; the size stays |
| KernelCalls.OpensNew | sys_file.c:55-66 | opening a missing file for writing makes an empty regular file in the first unused slot with the first free page, whose contents stay, and panics exactly when no page is free |
| KernelCalls.OpensRoot | sys_file.c:36-46 | the first open of the root directory, with any flags, makes it a file with the names of the regular files in its page, one to a line in the order of the table |
| KernelCalls.OpensNothing | sys_file.c:36-61 | sys_open changes nothing when the flags are none of the three, the path is too long, the table is full, or a missing file is opened for reading |
| KernelCalls.ExitWakes | proc.c:242-249 | sys_exit changes a file exactly if the parent is one with position 2, which becomes 3 |
| KernelCalls.TablesKept | interrupt.c:52-79 | all other events leave the file table and, but for a byte from the line, the console as they are |
| KernelConsole.TypedIsRead | io.c:62-109 | in any run of the kernel, whichever tasks read: what they have taken from the console, followed by what is unread, is the input up to its last newline, as edited, if no DEL meets unread lines with none begun |
| KernelConsole.TakenIsDelivered | sys_file.c:88-89 | what a read takes arrives in its caller's buffer, byte by byte, except for a -1 at the end |
| SystemCalls.CallTransition | sys_file.c:12-142 | member by member what sys_execv, sys_open, sys_close and calls that do nothing to the table leave in the caller's slot and in all others |
| SystemCalls.ForkTransition | sys_proc.c:31-52 | the child's slot, member by member: runnable, its slot as pid, the caller's open files, the caller as parent; all other slots stay, but for zombies that are freed |
| SystemCalls.TickTransition | proc.c:17-42 | a tick leaves the task runnable and the scheduler running; no other slot changes |
| SystemCalls.WaitTransition | sys_proc.c:161-176 | sys_wait sleeps if and only if there is a child and the first one is no zombie; otherwise it comes back with zombies freed and nothing else changed |
| SystemCalls.ExitTransition | sys_proc.c:146-158 | sys_exit panics exactly without a parent; otherwise it leaves a zombie, sets the flag, and wakes the parent up exactly if that sleeps |
| SystemCalls.ScanTransition | proc.c:45-52 | one iteration of the loop of schedule, slot by slot: which task it switches to, and what is freed when that returns from sleep |
| KernelCalls.StepOnTasks | interrupt.c:52-79 | which of these transitions each step of the kernel is; an interrupt changes no slot |
| KernelBoot.BootBalances | main.c:45-102 | the kernel boots exactly if it leaves 259 whole pages below 4 MB, the archive has few and small enough files, and one of them is the program init; it then arrives at schedule with balanced books |
| KernelBoot.BootFinds | fs.c:26-84 | after booting, get_file finds under every path the image that the archive had there |
| KernelBoot.BootsFromArchive | fs.c:26-84 | so it boots from every archive of up to 31 members of up to 4096 bytes with a program named init |
| KernelBoot.StoreFilesTakes | fs.c:59-62 | the files take the next free pages, one each, and their data is in them |
| KernelBoot.InitMemoryMakes | proc.c:197-230 | create_init_task makes a task of the next 260 free pages, with its stack and its program in them, and panics exactly when there is no ELF file init |
| KernelStart.BootTable | fs.c:26-84 | slot i of the file table of the booted kernel is member i of the archive: its name, in use, regular, of its size, at position 0, with a page that holds its data and zeros behind; all later slots are not in use |
| KernelStart.BootStartsInit | proc.c:197-230 | the first switch to init returns to ret_to_int_site with the stack pointer at a trap frame, and that leads to user mode at the e_entry of the archive's init, with zero registers, the user stack at the end of page 0 and an empty kernel stack; its page 0 holds the program's segment |
| KernelStart.BootScheduler | main.c:45-102 | the scheduler runs in a space that translates each of the 2^32 addresses as kernel_map says, and the console is empty |
| ArchiveRead.OpenThenRead | sys_file.c:12-96 | opening an existing file and reading from it delivers the start of its page, as many bytes as are asked for but no more than its size, and leaves the position behind them |
| ArchiveRead.ArchiveIsRead | fs.c:26-84 | in every run from boot in which nobody writes the file and execv fails early at most once: a task that opens a member of the archive by its name and reads from it gets the member's data, as much as there is or was asked for, and not a byte else of its page changes |
| KernelBoot.PagesConserved | main.c:45-102 | from power-up, in every run with at most one early failure of execv: free pages, 259 kernel pages, a page per file and 260 pages per task are all the registered pages |
| DoubleFree.LoopHasNoEnd | memory.c:25-50 | a free list that links back to itself has no end |
| DoubleFree.KfreeHolds | memory.c:25-35 | whatever is freed next, a free page stays free or the list runs in a circle, and it does once that page is freed again |
| DoubleFree.EarlyFailureLoops | sys_proc.c:117-127 | if frame 0 is free when execv fails early, be it in the list or in the pages map_kernel takes, the list runs in a circle afterwards |
| DoubleFree.DestroySpoilt | memory.c:188-207 | destroying a space one of whose pages has been freed before either panics or closes the list into a circle |
| RunBalance.SecondFailureLoops | sys_proc.c:117-127 | so there is no free list any more at the end of that step, whatever the reaper does |
| RunBalance.TwoFailuresInARow | sys_proc.c:117-127 | two early failures one after the other leave no free list |
| RunBalance.EmptyPathTwice | sys_proc.c:116-121 | a run that does it: execv of an empty path, twice |
| RunBalance.SecondFailureRuins | sys_proc.c:117-127 | a second early failure leaves no balanced books even if frame 0 has meanwhile been given to a task, a file or the kernel |
| RunBalance.BalancesIff | sys_proc.c:117-127 | the books of all pages balance throughout a run if and only if execv fails at most once in it before loading |
| PhysicalMemory.Memory.Kfree | memory.c:25-35 | the code frees as the model does and panics with it |
| PhysicalMemory.Memory.Kmalloc | memory.c:38-50 | the code allocates as the model does and panics with it |
| PhysicalMemory.Memory.RegisterFreeMem | memory.c:53-61 | the loop over the pages of a range arrives at the model's memory |
| PhysicalMemory.Memory.WalkPgdir | memory.c:64-73 | finds the entry of a page, or nothing without a table |
| PhysicalMemory.Memory.MapPage | memory.c:76-90 | in-place writes to directory and table arrive at the model's memory |
| PhysicalMemory.Memory.UnmapPage | memory.c:93-108 | the code unmaps as the model does and panics with it |
| PhysicalMemory.Memory.MapMemory | memory.c:111-123 | the loop, with its wrapping addresses, arrives at the model's memory |
| PhysicalMemory.Memory.AllocMapMemory | memory.c:126-139 | the loop allocates and maps as the model does |
| PhysicalMemory.Memory.UnmapMemory | memory.c:142-153 | the loop unmaps as the model does |
| PhysicalMemory.Memory.MapKernel | memory.c:165-178 | the loop over kernel_map arrives at the model's directory and memory |
| PhysicalMemory.Memory.DestroyAddressSpace | memory.c:188-207 | the loop over the live directory frees what the model frees |
| PhysicalMemory.Memory.MemcpyToAnotherSpace | memory.c:229-245 | the loop over pages copies as the model does, also past the end of a frame into the next one |
| KernelCode.KernelCode.ContextSwitch | context_switch.asm:13-33 | the registers end up on the outgoing stack, the stack pointer in the outgoing task, and nothing else changes |
| KernelCode.KernelCode.SwitchTo | proc.c:17-42 | states, current task and saved context after a switch are the model's |
| KernelCode.KernelCode.DestroyTask | proc.c:141-151 | memory and slot after destroy_task are the model's |
| KernelCode.KernelCode.KillOffZombies | proc.c:155-172 | the loop frees exactly the zombie children of the running task |
| KernelCode.KernelCode.AllocTask | proc.c:116-138 | takes the first unused slot, or none if all are used |
| KernelCode.KernelCode.SysFork | sys_proc.c:16-53 | the step-by-step construction of a child gives the model's table and memory; it gets the caller's descriptors, and the caller its pid |
| KernelCode.KernelCode.LoadElf | proc.c:98-110 | the loop over the program headers loads what the model loads |
| KernelCode.KernelCode.SysExecv | sys_proc.c:103-141 | all ways out of sys_execv give the model's table and memory |
| KernelCode.KernelCode.WakeupParent | proc.c:242-249 | panics exactly without a parent; wakes the parent exactly if it sleeps; a file in its place has its position changed |
| KernelCode.KernelCode.SysExit | sys_proc.c:146-158 | the code exits as the model does and panics with it |
| KernelCode.KernelCode.Sleep | proc.c:233-239 | the code sleeps as the model does; the scheduler panics |
| KernelCode.KernelCode.SysWait | sys_proc.c:161-176 | decides by the first child, whose pid it returns also after sleeping; -1 without one |
| KernelCode.KernelCode.SysOpen | sys_file.c:12-67 | descriptor, table and files after sys_open are the model's, also without a free descriptor; the result is the descriptor, or -1 |
| KernelCode.KernelCode.SysClose | sys_file.c:126-142 | 0 and a free descriptor if it leads to a file in use; otherwise -1 and no change, also for the console; no other descriptor or task changes |
| KernelCode.KernelCode.SysRead | sys_file.c:70-96 | delivers what the model delivers; the result is the smaller of the count and of what is left behind the position, the number of console bytes, or -1 without a file |
| KernelCode.KernelCode.SysWrite | sys_file.c:99-123 | writes what the model writes; the result is -1 for a file, also after a successful write |
| KernelCode.KernelCode.Serial | interrupt.c:64-67 | a byte changes the console as the model says, and panics exactly on a full ring |
| KernelCode.KernelCode.Schedule | proc.c:45-52 | the loop stops, at the first runnable slot in round-robin order, and that is not the scheduler's |
| KernelCode.KernelCode.ScheduleOne | proc.c:45-52 | one iteration is the model's scan step |
| KernelCode.KernelCode.Step | interrupt.c:52-79 | every atomic step of the code is the model's step, and panics exactly when it does |
| FileTable.RootListingFits | fs.c:142-164 | the listing of 32 names fits into a page, so that list_rootdir never fails in sys_open |
| FileCode.FileSystem.GetFile | fs.c:95-107 | the loop finds the first file of that name; the empty path is no file's |
| FileCode.FileSystem.AllocFile | fs.c:110-127 | takes the first unused slot and the first free page, or nothing without a slot or for a long name |
| FileCode.FileSystem.ListInto | sys_file.c:43-46 | the listing of the regular files is at the start of the new directory's page |
| FileCode.FileSystem.OpenFile | sys_file.c:33-65 | the code finds or makes the file that the model does, and panics with it |
| StackCode.KernelStack.Trap | int_common.asm:16-25 | the pushes, one by one, build the model's trap frame |
| StackCode.KernelStack.ReturnToUser | int_common.asm:33-40 | the pops, one by one, restore the model's user state |
| StackCode.KernelStack.LeaveStack | context_switch.asm:18-24 | mov, mov and pushad leave the model's context |
| StackCode.KernelStack.EnterStack | context_switch.asm:28-33 | popa and ret load the model's registers and address |
| StackCode.BuildIntFrame | proc.c:175-188 | clears and fills exactly the 19 words of the frame |
| StackCode.BuildContext | proc.c:191-194 | clears and fills exactly the 9 words of the context |
| StackCode.ForkStack | sys_proc.c:19-30 | the member-wise writes of sys_fork give the model's child stack |
| StackCode.FirstStack | proc.c:206-220 | the writes of register_task give the model's first stack |
| UserStack.CollectsLongestPrefix | sys_proc.c:68-84 | the strings taken are the longest prefix of at most 8 strings of at most 170 bytes, and the call fails if and only if a pointer right behind them cannot be read |
| UserStack.MarshallingRoundTrip | sys_proc.c:86-99 | reading argc at esp+4 and argv at esp+8 gives back exactly the caller's strings; nothing is written outside the new stack |
| UserStack.StringsPushed | sys_proc.c:81-83 | no later string damages an earlier one |
| UserStack.PointersPushed | sys_proc.c:88-92 | no later pointer damages an earlier one, and only their words are written |
| UserStack.NoArguments | sys_proc.c:61-66 | without an argv, argc reads 0 |
| UserStack.StackAligned | sys_proc.c:87-99 | the new stack pointer is a multiple of 4 |
| UserStack.PreparedStack | sys_proc.c:56-100 | prepare_ustack as a whole: the strings that were collected are read back, or an argc of 0 without an argv, and only the new stack is written |
| UserStack.ArgvTerminatedIff | sys_proc.c:86-95 | for every page and all arguments: the word behind the last pointer is null if and only if the bytes of the alignment gap and of the last strings that lie there happen to be zero |
| UserStack.ArgvNotTerminated | sys_proc.c:86-95 | so it never is when the last argument is not empty |
| UserStack.OneArgumentNotTerminated | sys_proc.c:86-95 | for example with one argument of one letter |
| UserStack.PrepareUstack | sys_proc.c:56-100 | the two loops over the page build the stack of the round trip, and fail exactly when reading argv does |
| Console.ConsoleRefinesEditor | io.c:62-99 | for any interleaving: bytes delivered, then bytes committed but unread, are the line-edited input up to its last newline; the next byte panics exactly when the ring is full |
| Console.FollowsIff | io.c:66-85 | the console follows the editor throughout a run if and only if no DEL arrives while edit_len equals buf_len and is positive |
| Console.WriteRefinesIff | io.c:66-85 | one byte keeps the ring's meaning if and only if it is not such a DEL; no unread byte is overwritten |
| Console.ReadRefines | io.c:89-99 | a read delivers the oldest unread byte, or -1 when there is none |
| Console.IndexCongruence | io.c:62-99 | in every run whatsoever edit_i is read_i + edit_len and write_i is read_i + buf_len modulo 4096, in wrapping 32-bit arithmetic |
| Console.DelDamagesCommittedLine | io.c:66-72 | a run in which DEL eats a committed newline and the reader gets a line nobody finished |
| Console.Terminal.WriteCircularBuf | io.c:66-85 | the code changes the five variables and the ring as the model does |
| Console.Terminal.ReadCircularBuf | io.c:89-99 | the code reads as the model does |
| Console.ReadManyRefines | io.c:102-109 | read_console delivers the oldest unread bytes, as many as there are and as were asked for; a -1 from the line ends the read and is consumed |
| Console.Terminal.ReadConsole | io.c:102-109 | the loop delivers what the model delivers and writes nothing behind it |
| Shell.Tokenize | user/sh.c:8-37 | returns the number of words if below 8 and 0 otherwise; each token is a NUL-terminated copy of its word; only spaces are overwritten; it stays in bounds |
| Shell.SplitJoin | user/sh.c:8-37 | splitting recovers the words of any line in which they stand apart, whatever the gaps |
| Shell.CutWord | user/sh.c:22-26 | one round of the loop cuts off one maximal run and damages no earlier token |
| Decimal.AtoiInvertsPrintnum | util.c:7-27 | atoi gives back every number that printnum has written |
| Decimal.AtoiStaysInRange | util.c:16-20 | while it reads the digits of an int, neither its sum nor its weight overflows |
| Decimal.Atoi | util.c:7-27 | the two loops compute the value of the text, with its sign |
| Decimal.Printnum | io.c:37-56 | emits the decimal digits, at most 10 of them, and nothing for a negative number |
| Archive.ArchiveRoundTrip | fs.c:26-84 | of up to 31 members of up to 4096 bytes init_fs finds exactly the names, sizes and zero-padded contents, in order; with more or larger members it panics |
| Archive.HeaderRoundTrip | fs.c:42-55 | the name and the size read from a header are those that were written |
| Archive.WalkEncoded | fs.c:38-83 | what the loop makes of the rest of an archive, at any position and with any number of files before |
| Archive.InitFs | fs.c:26-84 | the loop fills the table as the model does, stays on even positions and terminates, and panics with the model |
| Archive.NullOutInPlace | fs.c:15-22 | exactly the given bytes become NUL |
| Directory.ListRootdir | fs.c:142-164 | returns -1 if and only if the listing of all regular files does not fit into a page; otherwise its length, with the listing at the start of the buffer and nothing else written |
| Directory.NamesAt | fs.c:145-161 | the listed names are those of the regular files in use that have one, each once, in the order of the table |
| Directory.ListingRoundTrip | fs.c:142-164 | the lines of a listing are the names, none lost, merged or reordered |
| Disk.ReadOffset | bootc.c:41-47 | byte offset+k of the disk is at dst+k for every k below size; exactly the sectors of the range are written |
| Disk.HullIsTight | bootc.c:41-47 | the sectors read cover the range and none is read in vain, except one for an empty range inside a sector |

## Left out

- Kernel.KEnabled: a switch happens with at least 8 free words on the kernel stack; programs have one segment and lie in page 0, as do the buffers of sys_read and sys_write; sys_fork is called while a slot is unused; descriptors are between 0 and 7; the position of a written file stays below 2^32. The code relies on all of them and checks none.
- Kernel.Find: a program with several segments, or outside of page 0, is not described further; booting with such an init is excluded.
- KernelRuns.ContextIntegrity: stack words and registers; the task state segment, CR3 and TLB are not modelled.
- KernelCode.KernelCode.SwitchTo: neither the task state segment nor the load of CR3 is modelled.
- Context.SwitchRoundTrip: edx and eax come back with the values context_switch loaded into them, as its calling convention permits.
- PageAllocator.KfreePushes: an address outside [KERN_BASE, KERN_TOP) counts as a fault, although the kernel could also reach the low 4 MB and the devices at their own addresses.
- PageTable.UnmapPagePointwise: what memory holds afterwards is described for pages whose frame is neither free nor a page table; frames that are free already are the subject of `DoubleFree.DestroySpoilt`.
- AddressSpace.MapPagesBuilds: regions that start at a table boundary, as all rows of kernel_map do; single pages anywhere are covered by `PageTable.MapPagePointwise`.
- AddressSpace.MapPagesExhausts: the same regions.
- Archive.InitFs: archives whose headers stay inside the archive and whose names and sizes end inside the 16-byte buffer; reading past them is undefined in the code. The pages of the data come from the allocator in `KernelBoot.StoreFiles`, here they are byte arrays.
- Archive.HeaderRoundTrip: sizes below 10^9, so that the size field ends in a space; one of ten digits would run on into the name.
- Decimal.Atoi: computes on unbounded integers; that decimal texts of ints do not overflow is `Decimal.AtoiStaysInRange`.
- Shell.Tokenize: needs a byte that is no space behind the terminator, as the code does to stop.
- UserStack.PrepareUstack: reading the caller's memory is a parameter that yields a fault, a null pointer or a string.
- SpaceCopy.CopyToSpace: a missing page table, or a frame that is not memory, counts as a fault.
- Disk.ReadOffset: read_sect is a copy of 512 bytes; the handshake with the disk is not modelled.
- Live page tables: the kernel's own accesses go to frames directly, so it has no effect in the model that sys_execv frees the old directory before it reloads CR3.
- System call numbers: that the handler's result goes to eax is `Context.TrapRoundTrip`; in the composed kernel results are those of the methods, and only execv's changes of the trap frame are written to the stack.
- Descriptor 8, which a ninth open returns, is not used as a descriptor in the model.
- sys_fork with a full table dereferences a null pointer; not modelled.
- release_file is called by nobody; not modelled. Neither is bss clearing.
- Checking of user pointers, segment, gate and task state descriptors, the APICs, the serial port and its echo, banners and other printing.
- User programs other than the shell's tokenizer.
