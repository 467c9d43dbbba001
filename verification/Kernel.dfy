/** The kernel as a whole: the task table, physical memory with the free list, page tables, kernel stacks, user
    pages and file pages in it, the file table, the console, and every atomic step with all that it does. */
module Kernel {
  import opened Machine
  import opened Bytes
  import opened PageAllocator
  import opened PageTable
  import opened AddressSpace
  import opened SpaceCopy
  import opened Accounts
  import opened Context
  import C = Console
  import F = FileTable
  import T = Tasks
  import U = UserStack
  import Elf

  /** `contexts` holds the member context of every task, as the index of a word in its kernel stack. The
      scheduler keeps the stack of main, `bootStack`; `retSite` is the address of ret_to_int_site. */
  datatype Kernel = Kernel(sys: T.Sys, mem: Mem, files: seq<F.File>, console: C.Ring, contexts: seq<int>,
                           bootStack: int, retSite: Word)

  /** The registers and the stack pointer at a call of context_switch, and the two words the switch loads. */
  datatype Outgoing = Outgoing(regs: Regs, sp: int, next: Word, nextContext: Word)

  /** What happens next. A system call that fails to read its arguments, or has no handler, is an OtherSyscall;
      `argv` is what reading the argument vector gives, None for a null pointer; `at` and `count` are a buffer of
      the caller; `ch` is what handle_uartintr returns. */
  datatype KEvent =
    | Scan(out: Outgoing)
    | Fork
    | Execv(path: U.CString, argv: Option<seq<U.Arg>>)
    | Exit(out: Outgoing)
    | Wait(out: Outgoing)
    | Open(path: U.CString, flags: int)
    | Close(fd: int)
    | Read(fd: int, at: int, count: int)
    | Write(fd: int, at: int, count: int)
    | OtherSyscall
    | Timer(out: Outgoing)
    | Serial(ch: C.Char)
    | Compute(page: Frame, stack: Frame)   // whatever the running task does to its page and its stack

  predicate IsKernel(k: Kernel) {
    && T.WellFormed(k.sys)
    && WellFormed(k.mem)
    && F.IsTable(k.files)
    && C.WellFormed(k.console)
    && |k.contexts| == T.MAX_TASKS
    && IsFrame(k.bootStack)
  }

  function Curr(k: Kernel): T.Task
    requires IsKernel(k)
  {
    k.sys.tasks[k.sys.curr]
  }

  /** A frame number that the memory model knows. */
  predicate Valid(f: Option<int>) {
    f.Some? && IsFrame(f.value)
  }

  /** The running program writes its page. */
  function WritePageZero(m: Mem, dir: int, image: Frame): (r: Result<Mem>)
    requires WellFormed(m) && IsFrame(dir)
    ensures r.Ok? ==> WellFormed(r.value)
  {
    match PageZero(m.ram, dir)
    case None => Panic
    case Some(f) => Ok(Mem(m.ram[f := image], m.head))
  }

  // ----- What the system calls do to memory

  /** alloc_task and sys_fork: the new task's kernel stack and directory. */
  function ForkMemory(m: Mem, parent: T.Task, retSite: Word): (r: Result<(int, int, Mem)>)
    requires WellFormed(m)
    ensures r.Ok? ==> WellFormed(r.value.2)
  {
    match Kmalloc(m)
    case Panic => Panic
    case Ok((ptr, m1)) =>
      match MapKernel(m1)
      case Panic => Panic
      case Ok((dir, m2)) =>
        match FillChild(m2, FrameOf(ptr), dir, parent, retSite)
        case Panic => Panic
        case Ok(m3) => Ok((FrameOf(ptr), dir, m3))
  }

  /** sys_fork behind alloc_task: the fabricated stack, and a copy of the parent's page 0. */
  function FillChild(m: Mem, stack: int, dir: int, parent: T.Task, retSite: Word): (r: Result<Mem>)
    requires WellFormed(m) && IsFrame(stack) && IsFrame(dir)
    ensures r.Ok? ==> WellFormed(r.value)
  {
    if !Valid(parent.kstack) || !Valid(parent.pgdir) then Panic else
    var words := ChildStack(m.ram[stack], m.ram[parent.kstack.value], retSite);
    match AllocMapMemory(Mem(m.ram[stack := words], m.head), dir, 0, 0x1000, RW + US)
    case Panic => Panic
    case Ok(m1) =>
      match PageZero(m1.ram, parent.pgdir.value)
      case None => Panic
      case Some(page) => CopyToSpace(m1, dir, 0, Unpack(m1.ram[page]))
  }

  /** What sys_execv finds under a path. */
  datatype Image = NoFile | NoData | NotElf | Elsewhere | Program(elf: Page)

  /** get_file and CHECK_ELF. A program that is not in page 0 is Elsewhere. */
  function Find(files: seq<F.File>, m: Mem, path: U.CString): (r: Image)
    requires F.IsTable(files) && WellFormed(m)
    ensures r.Program? ==> Elf.IsProgram(r.elf)
  {
    match F.GetFile(files, path)
    case None => NoFile
    case Some(f) =>
      if !Valid(files[f].data) then NoData else
      var page := Unpack(m.ram[files[f].data.value]);
      if !Elf.IsElf(page) then NotElf
      else if Elf.IsProgram(page) then Program(page)
      else Elsewhere
  }

  /** The new program's entry and stack pointer in the frame of the trap. */
  function Started(words: Frame, entry: Word, esp: Word): Frame {
    words[TRAP_FRAME + 14 := entry][TRAP_FRAME + 17 := esp]
  }

  function SetStart(ram: seq<Frame>, stack: int, entry: Word, esp: Word): (r: seq<Frame>)
    requires |ram| == RAM_FRAMES && IsFrame(stack)
    ensures |r| == RAM_FRAMES
  {
    ram[stack := Started(ram[stack], entry, esp)]
  }

  /** A failing sys_execv tears down the new space. */
  function GiveUp(m: Mem, dir: int): (r: Result<(Option<int>, Mem)>)
    requires WellFormed(m) && IsFrame(dir)
    ensures r.Ok? ==> WellFormed(r.value.1)
  {
    match DestroyAddressSpace(m, dir)
    case Panic => Panic
    case Ok(m1) => Ok((None, m1))
  }

  /** sys_execv from load_elf on: the entry goes into the trap frame, the arguments to the new page 0; then the
      old space is given up, or the new one if reading the arguments fails. */
  function StartProgram(m: Mem, t: T.Task, dir: int, entry: Word,
                        argv: Option<seq<U.Arg>>): (r: Result<(Option<int>, Mem)>)
    requires WellFormed(m) && IsFrame(dir)
    ensures r.Ok? ==> WellFormed(r.value.1)
  {
    if !Valid(t.kstack) || !Valid(t.pgdir) then Panic else
    var stack := t.kstack.value;
    var ram1 := SetStart(m.ram, stack, entry, U.STACK_TOP);
    match PageZero(ram1, dir)
    case None => Panic
    case Some(f) =>
      var (page, esp) := U.PrepareStack(Unpack(ram1[f]), argv);
      var ram2 := ram1[f := Pack(page)];
      match esp
      case None => GiveUp(Mem(ram2, m.head), dir)
      case Some(sp) =>
        match DestroyAddressSpace(Mem(SetStart(ram2, stack, entry, sp), m.head), t.pgdir.value)
        case Panic => Panic
        case Ok(m3) => Ok((Some(dir), m3))
  }

  /** sys_execv: the new directory of a successful call. */
  function ExecMemory(m: Mem, files: seq<F.File>, t: T.Task, path: U.CString,
                      argv: Option<seq<U.Arg>>): (r: Result<(Option<int>, Mem)>)
    requires WellFormed(m) && F.IsTable(files)
    ensures r.Ok? ==> WellFormed(r.value.1)
  {
    match MapKernel(m)
    case Panic => Panic
    case Ok((dir, m1)) => ReplaceSpace(m1, files, t, dir, path, argv)
  }

  /** sys_execv behind map_kernel. */
  function ReplaceSpace(m: Mem, files: seq<F.File>, t: T.Task, dir: int, path: U.CString, argv: Option<seq<U.Arg>>):
      (r: Result<(Option<int>, Mem)>)
    requires WellFormed(m) && F.IsTable(files) && IsFrame(dir)
    ensures r.Ok? ==> WellFormed(r.value.1)
  {
    match Find(files, m, path)
    case NoFile => GiveUp(m, dir)
    case NotElf => GiveUp(m, dir)
    case NoData => Panic
    case Elsewhere => Panic
    case Program(elf) => Launch(m, t, dir, elf, argv)
  }

  /** sys_execv with the image of a program. */
  function Launch(m: Mem, t: T.Task, dir: int, elf: Page, argv: Option<seq<U.Arg>>): (r: Result<(Option<int>, Mem)>)
    requires WellFormed(m) && IsFrame(dir) && Elf.IsProgram(elf)
    ensures r.Ok? ==> WellFormed(r.value.1)
  {
    match LoadSegments(m, dir, elf, 0)
    case Panic => Panic
    case Ok(m1) => StartProgram(m1, t, dir, Elf.Entry(elf), argv)
  }

  /** destroy_task */
  function DestroyTaskMemory(m: Mem, t: T.Task): (r: Result<Mem>)
    requires WellFormed(m)
    ensures r.Ok? ==> WellFormed(r.value)
  {
    if !Valid(t.pgdir) || !Valid(t.kstack) then Panic else
    match DestroyAddressSpace(m, t.pgdir.value)
    case Panic => Panic
    case Ok(m1) => Kfree(m1, VirtualOf(t.kstack.value))
  }

  /** The loop of kill_off_zombies over the slots below n. */
  function ReapLoop(tasks: seq<T.Task>, p: int, m: Mem, n: nat): (r: Result<Mem>)
    requires |tasks| == T.MAX_TASKS && n <= T.MAX_TASKS && WellFormed(m)
    ensures r.Ok? ==> WellFormed(r.value)
  {
    if n == 0 then Ok(m) else
    match ReapLoop(tasks, p, m, n - 1)
    case Panic => Panic
    case Ok(m1) => if T.Reapable(tasks[n - 1], p) then DestroyTaskMemory(m1, tasks[n - 1]) else Ok(m1)
  }

  function ReapMemory(s: T.Sys, m: Mem): (r: Result<Mem>)
    requires T.WellFormed(s) && WellFormed(m)
    ensures r.Ok? ==> WellFormed(r.value)
  {
    if !s.zombies || s.tasks[s.curr].state == T.Sleeping then Ok(m)
    else ReapLoop(s.tasks, s.curr, m, T.MAX_TASKS)
  }

  // ----- File system calls

  /** What an event does before any switch: to the task table, to memory, to the file table, to the console. */
  datatype Done = Done(event: T.Event, mem: Mem, files: seq<F.File>, console: C.Ring)

  predicate IsDone(d: Done) {
    WellFormed(d.mem) && F.IsTable(d.files) && C.WellFormed(d.console)
  }

  /** Nothing but the task table changes ... */
  function Quiet(k: Kernel, te: T.Event): Done {
    Done(te, k.mem, k.files, k.console)
  }

  /** ... or memory as well. */
  function Changed(k: Kernel, te: T.Event, m: Mem): Done {
    Done(te, m, k.files, k.console)
  }

  predicate IsDescriptor(fd: int) {
    0 <= fd < T.MAX_OPEN_FILES
  }

  /** The file behind a descriptor of the running task. */
  function FileOf(k: Kernel, fd: int): Option<int>
    requires IsKernel(k) && IsDescriptor(fd)
  {
    Curr(k).openFiles[fd]
  }

  /** A file of the table, not the console. */
  predicate IsFile(f: int) {
    0 <= f < F.MAX_FILES
  }

  function OpenFile(k: Kernel, path: U.CString, flags: int): (r: Result<Done>)
    requires IsKernel(k)
    ensures r.Ok? ==> IsDone(r.value)
  {
    match F.OpenFile(k.files, k.mem, path, flags)
    case Panic => Panic
    case Ok(o) => Ok(Done(T.Open(o.file), o.mem, o.files, k.console))
  }

  /** sys_close: console_file is never in use, so that it cannot be closed. */
  function CloseFile(k: Kernel, fd: int): T.Event
    requires IsKernel(k) && IsDescriptor(fd)
  {
    var f := FileOf(k, fd);
    T.Close(if f.Some? && IsFile(f.value) && k.files[f.value].inUse then Some(fd) else None)
  }

  /** memcpy to a buffer of the running task. */
  function ToUser(k: Kernel, at: int, bytes: seq<Byte>): (r: Result<Mem>)
    requires IsKernel(k) && 0 <= at && at + |bytes| <= 4096
    ensures r.Ok? ==> WellFormed(r.value)
  {
    if !Valid(Curr(k).pgdir) then Panic else
    match PageZero(k.mem.ram, Curr(k).pgdir.value)
    case None => Panic
    case Some(f) => Ok(Mem(k.mem.ram[f := WriteFrame(k.mem.ram[f], at, bytes)], k.mem.head))
  }

  /** Characters as bytes of a buffer. */
  function AsBytes(chars: seq<int>): (bytes: seq<Byte>)
    ensures |bytes| == |chars|
  {
    seq(|chars|, i requires 0 <= i < |chars| => chars[i] % 256)
  }

  /** sys_read. read_file copies from the start of the file, wherever its position is. */
  function ReadFile(k: Kernel, fd: int, at: int, count: int): (r: Result<Done>)
    requires IsKernel(k) && IsDescriptor(fd) && 0 <= at && 0 <= count && at + count <= 4096
    ensures r.Ok? ==> IsDone(r.value)
  {
    match FileOf(k, fd)
    case None => Ok(Quiet(k, T.OtherSyscall))
    case Some(f) =>
      if f == F.CONSOLE then (
        var (chars, ring) := C.ReadMany(k.console, count);
        match ToUser(k, at, AsBytes(chars))
        case Panic => Panic
        case Ok(m) => Ok(Done(T.OtherSyscall, m, k.files, ring))
      ) else if !IsFile(f) || !Valid(k.files[f].data) then Panic
      else
        var n := F.BytesRead(k.files[f], count);
        match ToUser(k, at, Unpack(k.mem.ram[k.files[f].data.value])[..n])
        case Panic => Panic
        case Ok(m) => Ok(Done(T.OtherSyscall, m, k.files[f := F.Moved(k.files[f], n)], k.console))
  }

  /** Does this write go to the page of a file? */
  predicate WritesFile(k: Kernel, fd: int)
    requires IsKernel(k) && IsDescriptor(fd)
  {
    var f := FileOf(k, fd);
    f.Some? && IsFile(f.value) && k.files[f.value].kind.Regular?
  }

  /** sys_write. What goes to the console is not modelled, and directories are not written. */
  function WriteFile(k: Kernel, fd: int, at: int, count: int): (r: Result<Done>)
    requires IsKernel(k) && IsDescriptor(fd) && 0 <= at && 0 <= count && at + count <= 4096
    ensures r.Ok? ==> IsDone(r.value)
  {
    if !WritesFile(k, fd) then Ok(Quiet(k, T.OtherSyscall)) else
    var f := FileOf(k, fd).value;
    var file := k.files[f];
    if file.pos + count > 4096 || !Valid(file.data) || !Valid(Curr(k).pgdir) then Panic else
    match PageZero(k.mem.ram, Curr(k).pgdir.value)
    case None => Panic
    case Some(user) =>
      var data, ram := file.data.value, k.mem.ram;
      var words := WriteFrame(ram[data], file.pos, Unpack(ram[user])[at..at + count]);
      Ok(Done(T.OtherSyscall, Mem(ram[data := words], k.mem.head), k.files[f := F.Moved(file, count)], k.console))
  }

  /** wakeup_parent, when the parent is a file: its position lies where a task has its state. */
  function WakeFile(files: seq<F.File>, parent: Option<int>): (r: seq<F.File>)
    requires F.IsTable(files)
    ensures F.IsTable(r)
  {
    if parent == None then files else
    var f := parent.value - T.MAX_TASKS;
    if IsFile(f) && files[f].pos == 2 then files[f := files[f].(pos := 3)] else files
  }

  // ----- One step

  predicate OutgoingOk(out: Outgoing) {
    8 <= out.sp < 1024
  }

  /** The processor state at a switch is bounded by the stack page; programs, and the buffers they pass, lie in
      page 0; descriptors are in range; positions of files stay below 2^32. */
  predicate KEnabled(k: Kernel, e: KEvent)
    requires IsKernel(k)
  {
    && (e.Scan? <==> k.sys.curr == 0)
    && (e.Fork? ==> T.FindUnused(k.sys.tasks, 0) < T.MAX_TASKS)
    && (e.Scan? || e.Exit? || e.Wait? || e.Timer? ==> OutgoingOk(e.out))
    && (e.Execv? ==> !Find(k.files, k.mem, e.path).Elsewhere?)
    && (e.Close? || e.Read? || e.Write? ==> IsDescriptor(e.fd))
    && (e.Read? || e.Write? ==> 0 <= e.at && 0 <= e.count && e.at + e.count <= 4096)
    && (e.Write? && WritesFile(k, e.fd) ==> k.files[FileOf(k, e.fd).value].pos + e.count < 0x1_0000_0000)
  }

  /** What the event does before any switch. */
  function Effect(k: Kernel, e: KEvent): (r: Result<Done>)
    requires IsKernel(k) && KEnabled(k, e)
    ensures r.Ok? ==> IsDone(r.value) && T.Enabled(k.sys, r.value.event)
  {
    match e
    case Scan(_) => Ok(Quiet(k, T.Scan))
    case Fork =>
      (match ForkMemory(k.mem, Curr(k), k.retSite)
       case Panic => Panic
       case Ok((stack, dir, m)) => Ok(Changed(k, T.Fork(dir, stack), m)))
    case Execv(path, argv) =>
      (match ExecMemory(k.mem, k.files, Curr(k), path, argv)
       case Panic => Panic
       case Ok((dir, m)) => Ok(Changed(k, T.Execv(dir), m)))
    case Exit(_) => Ok(Done(T.Exit, k.mem, WakeFile(k.files, Curr(k).parent), k.console))
    case Wait(_) => Ok(Quiet(k, T.Wait))
    case Open(path, flags) => OpenFile(k, path, flags)
    case Close(fd) => Ok(Quiet(k, CloseFile(k, fd)))
    case Read(fd, at, count) => ReadFile(k, fd, at, count)
    case Write(fd, at, count) => WriteFile(k, fd, at, count)
    case OtherSyscall => Ok(Quiet(k, T.OtherSyscall))
    case Timer(_) => Ok(Quiet(k, T.Timer))
    case Serial(ch) =>
      (match C.WriteByte(k.console, ch)
       case Panic => Panic
       case Ok(ring) => Ok(Done(T.Serial, k.mem, k.files, ring)))
    case Compute(page, stack) =>
      if !Valid(Curr(k).pgdir) || !Valid(Curr(k).kstack) then Panic else
      (match WritePageZero(k.mem, Curr(k).pgdir.value, page)
       case Panic => Panic
       case Ok(m) => Ok(Changed(k, T.Serial, Mem(m.ram[Curr(k).kstack.value := stack], m.head))))
  }

  /** The kernel stack of a slot. */
  function StackOf(k: Kernel, i: int): Option<int>
    requires IsKernel(k) && T.IsSlot(i)
  {
    if i == 0 then Some(k.bootStack) else k.sys.tasks[i].kstack
  }

  /** The table on which kill_off_zombies runs in a step, if it does: after every system call that does not
      switch, and when a task comes back from sleeping. */
  function ReapPoint(s: T.Sys, e: T.Event): (r: Option<T.Sys>)
    requires T.WellFormed(s) && T.Enabled(s, e)
    ensures r.Some? ==> T.WellFormed(r.value)
  {
    match e
    case Scan =>
      if s.tasks[s.scan].state == T.Runnable && s.tasks[s.scan].waiting then
        var s1 := T.SwitchTo(s, s.scan);
        Some(s1.(tasks := s1.tasks[s.scan := s1.tasks[s.scan].(waiting := false)]))
      else None
    case Fork(pgdir, kstack) => Some(T.ForkTask(s, pgdir, kstack))
    case Execv(newPgdir) => Some(T.ExecTask(s, newPgdir))
    case Exit => None
    case Wait =>
      var c := T.FindChild(s.tasks, s.curr, 0);
      if c == T.MAX_TASKS || s.tasks[c].state == T.Zombie then Some(s) else None
    case Open(file) => Some(T.OpenTask(s, file))
    case Close(fd) => Some(T.CloseTask(s, fd))
    case OtherSyscall => Some(s)
    case Timer => None
    case Serial => None
  }

  lemma ReapPointIsReaped(s: T.Sys, e: T.Event)
    requires T.WellFormed(s) && T.Enabled(s, e)
    ensures ReapPoint(s, e).Some? ==> T.Step(s, e) == Ok(T.Reap(ReapPoint(s, e).value))
  {}

  /** context_switch saves the outgoing task's registers on its own stack. */
  function SaveContext(k: Kernel, m: Mem, out: Outgoing): (r: Result<Mem>)
    requires IsKernel(k) && WellFormed(m) && OutgoingOk(out)
    ensures r.Ok? ==> WellFormed(r.value)
  {
    var f := StackOf(k, k.sys.curr);
    if !Valid(f) then Panic
    else Ok(Mem(m.ram[f.value := SwitchOut(m.ram[f.value], f.value, out.regs, out.sp, out.next,
                                           out.nextContext).words], m.head))
  }

  predicate Switches(e: KEvent) {
    e.Scan? || e.Exit? || e.Wait? || e.Timer?
  }

  /** The reaper's part in a step. */
  function ReapAfter(s: T.Sys, e: T.Event, m: Mem): (r: Result<Mem>)
    requires T.WellFormed(s) && T.Enabled(s, e) && WellFormed(m)
    ensures r.Ok? ==> WellFormed(r.value)
  {
    match ReapPoint(s, e)
    case None => Ok(m)
    case Some(s1) => ReapMemory(s1, m)
  }

  /** Where the saved contexts are after a step. */
  function ContextsAfter(k: Kernel, e: KEvent, switched: bool): (c: seq<int>)
    requires IsKernel(k) && KEnabled(k, e) && (switched ==> Switches(e))
    ensures |c| == T.MAX_TASKS
  {
    if switched then k.contexts[k.sys.curr := e.out.sp - 8]
    else if e.Fork? then k.contexts[T.FindUnused(k.sys.tasks, 0) := CONTEXT]
    else k.contexts
  }

  /** Does this step change the running task? */
  predicate Switched(k: Kernel, e: KEvent, sys: T.Sys)
    requires IsKernel(k)
  {
    Switches(e) && sys.curr != k.sys.curr
  }

  /** One atomic step of the kernel: its effect, then the switch if there is one, then the reaper. */
  function KStep(k: Kernel, e: KEvent): (r: Result<Kernel>)
    requires IsKernel(k) && KEnabled(k, e)
    ensures r.Ok? ==> IsKernel(r.value)
  {
    hide Effect, T.Step, SaveContext, ReapAfter;
    match Effect(k, e)
    case Panic => Panic
    case Ok(d) =>
      match T.Step(k.sys, d.event)
      case Panic => Panic
      case Ok(sys) =>
        match if Switched(k, e, sys) then SaveContext(k, d.mem, e.out) else Ok(d.mem)
        case Panic => Panic
        case Ok(m2) =>
          match ReapAfter(k.sys, d.event, m2)
          case Panic => Panic
          case Ok(m3) =>
            Ok(Kernel(sys, m3, d.files, d.console, ContextsAfter(k, e, Switched(k, e, sys)), k.bootStack, k.retSite))
  }
}
