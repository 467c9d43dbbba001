/** The kernel as it runs: proc.c, sys_proc.c, sys_file.c, context_switch.asm and the dispatch of interrupt.c on
    the task table, the memory, the files and the console they update in place. Every atomic step of this code is
    a step of the model. A method that returns false has called panic, and the run ends. */
module KernelCode {
  import opened Machine
  import opened Bytes
  import opened Context
  import opened PhysicalMemory
  import opened FileCode
  import A = PageAllocator
  import AS = AddressSpace
  import C = Console
  import Elf
  import F = FileTable
  import K = Kernel
  import KE = KernelEffects
  import KF = KernelFiles
  import KS = KernelSteps
  import SC = SpaceCopy
  import U = UserStack
  import T = Tasks
  import S = Scheduling

  class KernelCode {
    const memory: Memory
    const fs: FileSystem
    const console: C.Terminal
    const tasks: array<T.Task>
    const contexts: array<int>
    const bootStack: int
    const retSite: Word
    var curr: int
    var scan: int
    var zombies: bool

    ghost function Sys(): T.Sys
      reads this, tasks
    {
      T.Sys(tasks[..], curr, scan, zombies)
    }

    ghost function Mem(): (m: A.Mem)
      reads memory, memory.ram
    {
      memory.State()
    }

    /** The whole kernel as a value. */
    ghost function State(): (k: K.Kernel)
      reads this, tasks, contexts, memory, memory.ram, fs.filesystem, console, console.circularBuf
    {
      K.Kernel(Sys(), Mem(), fs.filesystem[..], console.State(), contexts[..], bootStack, retSite)
    }

    /** Everything the kernel updates in place. */
    ghost function Parts(): set<object> {
      {this, tasks, contexts, memory, memory.ram, fs.filesystem, console, console.circularBuf}
    }

    ghost predicate Valid()
      reads this, tasks, console, console.circularBuf
    {
      && memory.Valid() && fs.Valid() && fs.memory == memory
      && console.Valid() && console.circularBuf != contexts
      && contexts.Length == T.MAX_TASKS
      && IsFrame(bootStack)
      && T.WellFormed(Sys())
    }

    constructor (m: Memory, f: FileSystem, c: C.Terminal, table: array<T.Task>, saved: array<int>, stack: int,
                 site: Word)
      requires m.Valid() && f.Valid() && f.memory == m && c.Valid() && c.circularBuf != saved
      requires table.Length == T.MAX_TASKS && saved.Length == T.MAX_TASKS && IsFrame(stack)
      requires forall i :: 0 <= i < T.MAX_TASKS ==> |table[i].openFiles| == T.MAX_OPEN_FILES
      ensures Valid() && memory == m && fs == f && console == c && tasks == table && contexts == saved
      ensures State() == K.Kernel(T.Sys(table[..], 0, 0, false), m.State(), f.filesystem[..], c.State(), saved[..],
                                  stack, site)
    {
      memory, fs, console, tasks, contexts, bootStack, retSite := m, f, c, table, saved, stack, site;
      curr, scan, zombies := 0, 0, false;
    }

    // ----- Switching

    /** context_switch: the registers go onto the current stack, the stack pointer into the current task. */
    method ContextSwitch(next: int, out: K.Outgoing) returns (ok: bool)
      requires Valid() && T.IsSlot(next) && K.OutgoingOk(out)
      modifies this, contexts, memory.ram
      ensures Valid() && scan == old(scan) && zombies == old(zombies)
      ensures ok <==> K.SaveContext(old(State()), old(Mem()), out).Ok?
      ensures ok ==> Mem() == K.SaveContext(old(State()), old(Mem()), out).value
      ensures ok ==> curr == next && contexts[..] == old(contexts[..])[old(curr) := out.sp - 8]
    {
      hide SwitchOut;
      var stack := if curr == 0 then Some(bootStack) else tasks[curr].kstack;
      if !K.Valid(stack) { return false; }
      var saved := SwitchOut(memory.ram[stack.value], stack.value, out.regs, out.sp, out.next, out.nextContext);
      memory.ram[stack.value] := saved.words;
      contexts[curr] := saved.sp;
      curr := next;
      ok := true;
    }

    method SwitchTo(next: int, out: K.Outgoing) returns (ok: bool)
      requires Valid() && T.IsSlot(next) && K.OutgoingOk(out)
      modifies this, tasks, contexts, memory.ram
      ensures Valid()
      ensures ok <==> K.SaveContext(old(State()), old(Mem()), out).Ok?
      ensures ok ==> Mem() == K.SaveContext(old(State()), old(Mem()), out).value
      ensures ok ==> Sys() == T.SwitchTo(old(Sys()), next)
      ensures ok ==> contexts[..] == old(contexts[..])[old(curr) := out.sp - 8]
    {
      hide K.SaveContext;
      ghost var k := State();
      if tasks[curr].state == T.Running {
        tasks[curr] := tasks[curr].(state := T.Runnable);
      }
      tasks[next] := tasks[next].(state := T.Running);
      assert Sys() == T.SwitchTo(k.sys, next).(curr := curr);
      SaveNeedsStackOnly(k, State(), Mem(), out);
      ok := ContextSwitch(next, out);
    }

    static lemma SaveNeedsStackOnly(k: K.Kernel, k1: K.Kernel, m: A.Mem, out: K.Outgoing)
      requires K.IsKernel(k) && K.IsKernel(k1) && A.WellFormed(m) && K.OutgoingOk(out)
      requires k1.sys.curr == k.sys.curr && k1.bootStack == k.bootStack
      requires k1.sys.tasks[k.sys.curr].kstack == k.sys.tasks[k.sys.curr].kstack
      ensures K.SaveContext(k1, m, out) == K.SaveContext(k, m, out)
    {}

    // ----- Reaping

    method DestroyTask(i: int) returns (ok: bool)
      requires Valid() && T.IsSlot(i)
      modifies tasks, memory, memory.ram
      ensures Valid()
      ensures ok <==> K.DestroyTaskMemory(old(Mem()), old(tasks[i])).Ok?
      ensures ok ==> Mem() == K.DestroyTaskMemory(old(Mem()), old(tasks[i])).value
      ensures ok ==> tasks[..] == old(tasks[..])[i := T.FREE_TASK]
    {
      hide AS.DestroyAddressSpace, A.Kfree;
      var t := tasks[i];
      if !K.Valid(t.pgdir) || !K.Valid(t.kstack) { return false; }
      ok := memory.DestroyAddressSpace(t.pgdir.value);
      if !ok { return; }
      ok := memory.Kfree(VirtualOf(t.kstack.value));
      tasks[i] := T.FREE_TASK;
    }

    method KillOffZombies() returns (ok: bool)
      requires Valid()
      modifies this, tasks, memory, memory.ram
      ensures Valid()
      ensures ok <==> K.ReapMemory(old(Sys()), old(Mem())).Ok?
      ensures ok ==> Mem() == K.ReapMemory(old(Sys()), old(Mem())).value
      ensures ok ==> Sys() == T.Reap(old(Sys()))
    {
      hide K.DestroyTaskMemory;
      if !zombies { return true; }
      ghost var s, m := Sys(), Mem();
      for i := 0 to T.MAX_TASKS
        invariant Valid() && curr == s.curr && scan == s.scan && zombies
        invariant forall j :: 0 <= j < T.MAX_TASKS ==>
          tasks[j] ==
            if j < i && s.tasks[s.curr].state != T.Sleeping && T.Reapable(s.tasks[j], s.curr) then T.FREE_TASK
            else s.tasks[j]
        invariant s.tasks[s.curr].state == T.Sleeping ==> Mem() == m
        invariant s.tasks[s.curr].state != T.Sleeping ==> K.ReapLoop(s.tasks, s.curr, m, i) == Ok(Mem())
      {
        if !T.Reapable(tasks[i], curr) { continue; }
        if tasks[curr].state == T.Sleeping { continue; }
        ok := DestroyTask(i);
        if !ok {
          ReapExhausted(s.tasks, s.curr, m, i + 1, T.MAX_TASKS);
          return;
        }
      }
      zombies := false;
      ok := true;
    }

    static lemma {:induction false} ReapExhausted(ts: seq<T.Task>, p: int, m: A.Mem, i: nat, n: nat)
      requires |ts| == T.MAX_TASKS && A.WellFormed(m) && i <= n <= T.MAX_TASKS
      requires K.ReapLoop(ts, p, m, i).Panic?
      ensures K.ReapLoop(ts, p, m, n).Panic?
    {
      if i < n { ReapExhausted(ts, p, m, i, n - 1); }
    }

    // ----- System calls

    /** alloc_task. No slot is a slot number of MAX_TASKS. */
    method AllocTask() returns (ok: bool, n: int)
      requires Valid()
      modifies tasks, memory, memory.ram
      ensures Valid()
      ensures n == T.FindUnused(old(tasks[..]), 0)
      ensures n == T.MAX_TASKS ==> ok && State() == old(State())
      ensures n < T.MAX_TASKS ==>
        (ok <==> A.Kmalloc(old(Mem())).Ok? && AS.MapKernel(A.Kmalloc(old(Mem())).value.1).Ok?)
      ensures n < T.MAX_TASKS && ok ==>
        var (ptr, m1) := A.Kmalloc(old(Mem())).value;
        var (dir, m2) := AS.MapKernel(m1).value;
        && Mem() == m2
        && tasks[..] == old(tasks[..])[n := old(tasks[n]).(pid := n, kstack := Some(FrameOf(ptr)), pgdir := Some(dir))]
    {
      hide AS.MapKernel, A.Kmalloc;
      n := 0;
      while n < T.MAX_TASKS && tasks[n].state != T.Unused
        invariant 0 <= n <= T.MAX_TASKS
        invariant T.FindUnused(tasks[..], 0) == T.FindUnused(tasks[..], n)
      {
        n := n + 1;
      }
      if n == T.MAX_TASKS { return true, n; }
      tasks[n] := tasks[n].(pid := n);
      var ptr, dir;
      ok, ptr := memory.Kmalloc();
      if !ok { return; }
      tasks[n] := tasks[n].(kstack := Some(FrameOf(ptr)));
      ok, dir := memory.MapKernel();
      if !ok { return; }
      tasks[n] := tasks[n].(pgdir := Some(dir));
    }

    /** The result is the pid of the child, which is its slot. */
    method SysFork() returns (ok: bool, pid: int)
      requires Valid() && T.CoreInv(Sys()) && curr != 0 && T.FindUnused(tasks[..], 0) < T.MAX_TASKS
      modifies tasks, contexts, memory, memory.ram
      ensures Valid()
      ensures ok ==> pid == T.FindUnused(old(tasks[..]), 0)
      ensures ok ==> contexts[..] == old(contexts[..])[pid := CONTEXT]
      ensures ok <==> K.ForkMemory(old(Mem()), old(tasks[curr]), retSite).Ok?
      ensures ok ==>
        var (stack, dir, m) := K.ForkMemory(old(Mem()), old(tasks[curr]), retSite).value;
        Mem() == m && Sys() == T.ForkTask(old(Sys()), dir, stack)
    {
      hide AS.MapKernel, A.Kmalloc, K.FillChild;
      assert T.SlotCore(tasks[curr], curr, curr);
      var parent := tasks[curr];
      ghost var before := tasks[..];
      var n;
      ok, n := AllocTask();
      pid := n;
      if !ok { return; }
      assert before[n] == T.FREE_TASK by { assert T.SlotCore(before[n], n, curr); }
      ok := FillChild(tasks[n].kstack.value, tasks[n].pgdir.value, parent);
      if !ok { return; }
      contexts[n] := CONTEXT;
      tasks[n] := tasks[n].(openFiles := tasks[curr].openFiles);
      tasks[n] := tasks[n].(state := T.Runnable);
      tasks[n] := tasks[n].(parent := Some(curr));
      pid := tasks[n].pid;
    }

    /** The child's stack, its page 0, and its copy of the parent's. */
    method FillChild(stack: int, dir: int, parent: T.Task) returns (ok: bool)
      requires Valid() && IsFrame(stack) && IsFrame(dir)
      modifies memory, memory.ram
      ensures ok <==> K.FillChild(old(Mem()), stack, dir, parent, retSite).Ok?
      ensures ok ==> Mem() == K.FillChild(old(Mem()), stack, dir, parent, retSite).value
    {
      hide AS.AllocMapMemory, SC.EntryFrame, SC.CopyToSpace, ChildStack, Unpack;
      if !K.Valid(parent.kstack) || !K.Valid(parent.pgdir) { return false; }
      memory.ram[stack] := ChildStack(memory.ram[stack], memory.ram[parent.kstack.value], retSite);
      ok := memory.AllocMapMemory(dir, 0, 0x1000, RW + US);
      if !ok { return; }
      var page := memory.EntryFrame(parent.pgdir.value, 0);
      if page == None { return false; }
      ok := memory.MemcpyToAnotherSpace(dir, 0, Unpack(memory.ram[page.value]));
    }

    /** load_elf, for an image that is an ELF file. */
    method LoadElf(dir: int, elf: Page) returns (ok: bool)
      requires Valid() && IsFrame(dir) && Elf.IsProgram(elf)
      modifies memory, memory.ram
      ensures ok <==> SC.LoadSegments(old(Mem()), dir, elf, 0).Ok?
      ensures ok ==> Mem() == SC.LoadSegments(old(Mem()), dir, elf, 0).value
    {
      hide AS.AllocMapMemory, SC.CopyToSpace, Elf.IsProgram, Elf.SegmentAt, Elf.Loads;
      for i := 0 to Elf.HeaderCount(elf)
        invariant SC.LoadSegments(Mem(), dir, elf, i) == SC.LoadSegments(old(Mem()), dir, elf, 0)
      {
        Headers(elf, i);
        if !Elf.Loads(elf, i) { continue; }
        var s := Elf.SegmentAt(elf, i);
        ok := memory.AllocMapMemory(dir, s.vaddr, s.memSize, RW + US);
        if ok { ok := memory.MemcpyToAnotherSpace(dir, s.vaddr, elf[s.offset..s.offset + s.fileSize]); }
        if !ok { return; }
      }
      ok := true;
    }

    static lemma Headers(elf: Page, i: int)
      requires Elf.IsProgram(elf) && 0 <= i < Elf.HeaderCount(elf)
      ensures Elf.HeadersFit(elf)
      ensures Elf.Loads(elf, i) ==>
        var s := Elf.SegmentAt(elf, i);
        s.offset + s.fileSize <= 4096
    {
      if Elf.Loads(elf, i) { assert i == Elf.FirstLoad(elf, 0); }
    }

    /** prepare_ustack on the frame of the new page 0. */
    method PrepareStack(f: int, argv: Option<seq<U.Arg>>) returns (esp: Option<int>)
      requires Valid() && IsFrame(f)
      modifies memory.ram
      ensures var (page, sp) := U.PrepareStack(Unpack(old(memory.ram[f])), argv);
        memory.ram[..] == old(memory.ram[..])[f := Pack(page)] && esp == sp
    {
      hide Pack, Unpack, U.PrepareStack;
      var bytes := Unpack(memory.ram[f]);
      var page := new Byte[4096](i requires 0 <= i < 4096 => bytes[i]);
      assert page[..] == bytes;
      esp := U.PrepareUstack(page, argv);
      memory.ram[f] := Pack(page[..]);
    }

    /** sys_execv behind load_elf. */
    method StartProgram(oldPgdir: Option<int>, dir: int, entry: Word, argv: Option<seq<U.Arg>>)
        returns (ok: bool, done: bool)
      requires Valid() && IsFrame(dir) && curr != 0
      modifies memory, memory.ram
      ensures ok <==> K.StartProgram(old(Mem()), tasks[curr].(pgdir := oldPgdir), dir, entry, argv).Ok?
      ensures ok ==>
        K.StartProgram(old(Mem()), tasks[curr].(pgdir := oldPgdir), dir, entry, argv)
          == Ok((if done then Some(dir) else None, Mem()))
    {
      hide AS.DestroyAddressSpace, SC.EntryFrame, U.PrepareStack, Pack, Unpack, K.Started;
      done := false;
      if !K.Valid(tasks[curr].kstack) || !K.Valid(oldPgdir) { return false, false; }
      var stack := tasks[curr].kstack.value;
      memory.ram[stack] := K.Started(memory.ram[stack], entry, U.STACK_TOP);
      var f := memory.EntryFrame(dir, 0);
      if f == None { return false, false; }
      var esp := PrepareStack(f.value, argv);
      if esp == None {
        ok := memory.DestroyAddressSpace(dir);
        return;
      }
      memory.ram[stack] := K.Started(memory.ram[stack], entry, esp.value);
      ok := memory.DestroyAddressSpace(oldPgdir.value);
      done := true;
    }

    method Launch(oldPgdir: Option<int>, dir: int, elf: Page, argv: Option<seq<U.Arg>>) returns (ok: bool, done: bool)
      requires Valid() && IsFrame(dir) && curr != 0 && Elf.IsProgram(elf)
      modifies memory, memory.ram
      ensures ok <==> K.Launch(old(Mem()), tasks[curr].(pgdir := oldPgdir), dir, elf, argv).Ok?
      ensures ok ==>
        K.Launch(old(Mem()), tasks[curr].(pgdir := oldPgdir), dir, elf, argv)
          == Ok((if done then Some(dir) else None, Mem()))
    {
      hide SC.LoadSegments, K.StartProgram, Elf.IsProgram;
      done := false;
      ok := LoadElf(dir, elf);
      if !ok { return; }
      ok, done := StartProgram(oldPgdir, dir, Elf.Entry(elf), argv);
    }

    method SysExecv(path: U.CString, argv: Option<seq<U.Arg>>) returns (ok: bool)
      requires Valid() && curr != 0
      modifies tasks, memory, memory.ram
      ensures Valid()
      ensures ok <==> K.ExecMemory(old(Mem()), fs.filesystem[..], old(tasks[curr]), path, argv).Ok?
      ensures ok ==>
        var (newPgdir, m) := K.ExecMemory(old(Mem()), fs.filesystem[..], old(tasks[curr]), path, argv).value;
        Mem() == m && tasks[..] == if newPgdir == None then old(tasks[..]) else
                                   old(tasks[..])[curr := old(tasks[curr]).(pgdir := newPgdir, openFiles := T.NO_FILES)]
    {
      hide AS.MapKernel, K.ReplaceSpace;
      var oldPgdir, dir, done := tasks[curr].pgdir, 0, false;
      ok, dir := memory.MapKernel();
      if !ok { return; }
      tasks[curr] := tasks[curr].(pgdir := Some(dir));
      ok, done := ReplaceSpace(oldPgdir, dir, path, argv);
      if !ok { return; }
      if done {
        tasks[curr] := tasks[curr].(openFiles := T.NO_FILES);
      } else {
        tasks[curr] := tasks[curr].(pgdir := oldPgdir);
      }
    }

    /** sys_execv with its new space: one of the two spaces goes. */
    method ReplaceSpace(oldPgdir: Option<int>, dir: int, path: U.CString, argv: Option<seq<U.Arg>>)
        returns (ok: bool, done: bool)
      requires Valid() && IsFrame(dir) && curr != 0
      modifies memory, memory.ram
      ensures ok <==> K.ReplaceSpace(old(Mem()), fs.filesystem[..], tasks[curr].(pgdir := oldPgdir), dir, path,
                                     argv).Ok?
      ensures ok ==>
        K.ReplaceSpace(old(Mem()), fs.filesystem[..], tasks[curr].(pgdir := oldPgdir), dir, path, argv)
        == Ok((if done then Some(dir) else None, Mem()))
    {
      hide AS.DestroyAddressSpace, K.Launch, K.Find;
      done := false;
      var image := Find(path);
      if image.NoFile? || image.NotElf? {
        ok := memory.DestroyAddressSpace(dir);
        return;
      }
      if !image.Program? { return false, false; }
      ok, done := Launch(oldPgdir, dir, image.elf, argv);
    }

    /** get_file and CHECK_ELF. */
    method Find(path: U.CString) returns (image: K.Image)
      requires Valid()
      ensures image == K.Find(fs.filesystem[..], Mem(), path)
    {
      hide Unpack, Elf.IsProgram, Elf.IsElf, F.GetFile;
      var f := fs.GetFile(path);
      if f == None { return K.NoFile; }
      var data := fs.filesystem[f.value].data;
      if !K.Valid(data) { return K.NoData; }
      var elf := Unpack(memory.ram[data.value]);
      image := if !Elf.IsElf(elf) then K.NotElf else if Elf.IsProgram(elf) then K.Program(elf) else K.Elsewhere;
    }

    /** The parent may be a file, whose position lies where a task has its state. */
    method WakeupParent() returns (ok: bool)
      requires Valid()
      modifies tasks, fs.filesystem
      ensures Valid()
      ensures ok <==> old(tasks[curr].parent).Some?
      ensures ok ==> var p := old(tasks[curr].parent.value);
        tasks[..] == if T.IsSlot(p) && old(tasks[..])[p].state == T.Sleeping then
          old(tasks[..])[p := old(tasks[..])[p].(state := T.Runnable)] else old(tasks[..])
      ensures ok ==> fs.filesystem[..] == K.WakeFile(old(fs.filesystem[..]), old(tasks[curr].parent))
    {
      var p := tasks[curr].parent;
      if p == None { return false; }
      if T.IsSlot(p.value) {
        if tasks[p.value].state == T.Sleeping {
          tasks[p.value] := tasks[p.value].(state := T.Runnable);
        }
      } else if K.IsFile(p.value - T.MAX_TASKS) && fs.filesystem[p.value - T.MAX_TASKS].pos == 2 {
        fs.filesystem[p.value - T.MAX_TASKS] := fs.filesystem[p.value - T.MAX_TASKS].(pos := 3);
      }
      ok := true;
    }

    /** switch_to(scheduler_task), and the scheduler's loop moves on. */
    method YieldToScheduler(out: K.Outgoing) returns (ok: bool)
      requires Valid() && K.OutgoingOk(out)
      modifies this, tasks, contexts, memory.ram
      ensures Valid()
      ensures ok <==> K.SaveContext(old(State()), old(Mem()), out).Ok?
      ensures ok ==> Mem() == K.SaveContext(old(State()), old(Mem()), out).value
      ensures ok ==> Sys() == T.Yield(old(Sys()))
      ensures ok ==> contexts[..] == old(contexts[..])[old(curr) := out.sp - 8]
    {
      hide K.SaveContext, T.SwitchTo;
      ok := SwitchTo(0, out);
      scan := (scan + 1) % 1024;
    }

    method SysExit(out: K.Outgoing) returns (ok: bool)
      requires Valid() && K.OutgoingOk(out)
      modifies this, tasks, contexts, memory.ram, fs.filesystem
      ensures Valid()
      ensures ok <==> T.ExitTask(old(Sys())).Ok? && K.SaveContext(old(State()), old(Mem()), out).Ok?
      ensures ok ==> Mem() == K.SaveContext(old(State()), old(Mem()), out).value
      ensures ok ==> Sys() == T.ExitTask(old(Sys())).value
      ensures ok ==> contexts[..] == old(contexts[..])[old(curr) := out.sp - 8]
      ensures ok ==> fs.filesystem[..] == K.WakeFile(old(fs.filesystem[..]), old(tasks[curr].parent))
    {
      hide K.SaveContext, T.Yield, K.WakeFile;
      ghost var k := State();
      zombies := true;
      tasks[curr] := tasks[curr].(state := T.Zombie);
      ok := WakeupParent();
      if !ok { return; }
      SaveNeedsStackOnly(k, State(), Mem(), out);
      ok := YieldToScheduler(out);
    }

    /** The scheduler must not sleep. */
    method Sleep(out: K.Outgoing) returns (ok: bool)
      requires Valid() && K.OutgoingOk(out)
      modifies this, tasks, contexts, memory.ram
      ensures Valid()
      ensures ok <==> old(curr) != 0 && K.SaveContext(old(State()), old(Mem()), out).Ok?
      ensures ok ==> Mem() == K.SaveContext(old(State()), old(Mem()), out).value
      ensures ok ==> Sys() == T.SleepTask(old(Sys()))
      ensures ok ==> contexts[..] == old(contexts[..])[old(curr) := out.sp - 8]
    {
      hide K.SaveContext, T.Yield;
      if curr == 0 { return false; }
      ghost var k := State();
      tasks[curr] := tasks[curr].(state := T.Sleeping, waiting := true);
      SaveNeedsStackOnly(k, State(), Mem(), out);
      ok := YieldToScheduler(out);
    }

    /** sys_wait: the first child decides. Its pid is the result of the call, also after sleeping. */
    method SysWait(out: K.Outgoing) returns (ok: bool, slept: bool, pid: int)
      requires Valid() && K.OutgoingOk(out) && curr != 0
      modifies this, tasks, contexts, memory.ram
      ensures Valid()
      ensures var c := T.FindChild(old(tasks[..]), old(curr), 0);
        && slept == (c < T.MAX_TASKS && old(tasks[..])[c].state != T.Zombie)
        && pid == if c == T.MAX_TASKS then -1 else old(tasks[..])[c].pid
      ensures !slept ==> ok && State() == old(State())
      ensures slept ==> (ok <==> K.SaveContext(old(State()), old(Mem()), out).Ok?)
      ensures slept && ok ==> Mem() == K.SaveContext(old(State()), old(Mem()), out).value
      ensures slept && ok ==> Sys() == T.SleepTask(old(Sys()))
      ensures slept && ok ==> contexts[..] == old(contexts[..])[old(curr) := out.sp - 8]
    {
      hide K.SaveContext, T.SleepTask;
      for i := 0 to T.MAX_TASKS
        invariant State() == old(State()) && Valid()
        invariant T.FindChild(tasks[..], curr, 0) == T.FindChild(tasks[..], curr, i)
      {
        if tasks[i].parent != Some(curr) { continue; }
        if tasks[i].state == T.Zombie { return true, false, tasks[i].pid; }
        slept, pid := true, tasks[i].pid;
        ok := Sleep(out);
        return;
      }
      ok, slept, pid := true, false, -1;
    }

    // ----- Files

    /** The descriptor, or -1. Without a free descriptor the search ends at the parent, and the result is 8. */
    method SysOpen(path: U.CString, flags: int) returns (ok: bool, fd: int)
      requires Valid() && curr != 0
      modifies tasks, memory, memory.ram, fs.filesystem
      ensures Valid()
      ensures ok <==> F.OpenFile(old(fs.filesystem[..]), old(Mem()), path, flags).Ok?
      ensures ok ==>
        var o := F.OpenFile(old(fs.filesystem[..]), old(Mem()), path, flags).value;
        && Mem() == o.mem && fs.filesystem[..] == o.files && Sys() == T.OpenTask(old(Sys()), o.file)
        && fd == if o.file == None then -1 else T.FindDescriptor(old(tasks[curr]), 0)
    {
      hide F.OpenFile;
      var n := 0;
      while n < T.MAX_OPEN_FILES && tasks[curr].openFiles[n] != None
        invariant 0 <= n <= T.MAX_OPEN_FILES
        invariant T.FindDescriptor(tasks[curr], 0) == T.FindDescriptor(tasks[curr], n)
      {
        n := n + 1;
      }
      var file;
      ok, file := fs.OpenFile(path, flags);
      if !ok || file == None { return ok, -1; }
      var t := tasks[curr];
      tasks[curr] := if n < T.MAX_OPEN_FILES then t.(openFiles := t.openFiles[n := file])
        else t.(parent := Some(T.MAX_TASKS + file.value));
      fd := n;
    }

    /** 0 and a free descriptor if it leads to a file in use; otherwise, when it is free already or leads to the
        console, -1 and no change. */
    method SysClose(fd: int) returns (r: int)
      requires Valid() && curr != 0 && K.IsDescriptor(fd)
      modifies tasks
      ensures Valid()
      ensures Sys() == T.CloseTask(old(Sys()), K.CloseFile(old(State()), fd).fd)
      ensures
        var t, t' := old(tasks[curr]), tasks[curr];
        var open := t.openFiles[fd].Some? && 0 <= t.openFiles[fd].value < 32
          && fs.filesystem[t.openFiles[fd].value].inUse;
        && r == (if open then 0 else -1)
        && t' == t.(openFiles := t'.openFiles)
        && t'.openFiles[fd] == (if open then None else t.openFiles[fd])
        && (forall i :: 0 <= i < 8 && i != fd ==> t'.openFiles[i] == t.openFiles[i])
      ensures forall j :: 0 <= j < tasks.Length && j != curr ==> tasks[j] == old(tasks[j])
    {
      var f := tasks[curr].openFiles[fd];
      if f == None || !K.IsFile(f.value) || !fs.filesystem[f.value].inUse { return -1; }
      tasks[curr] := tasks[curr].(openFiles := tasks[curr].openFiles[fd := None]);
      r := 0;
    }

    /** memcpy to a buffer of the running task. */
    method CopyToUser(at: int, bytes: seq<Byte>) returns (ok: bool)
      requires Valid() && 0 <= at && at + |bytes| <= 4096
      modifies memory.ram
      ensures ok <==> K.ToUser(old(State()), at, bytes).Ok?
      ensures ok ==> Mem() == K.ToUser(old(State()), at, bytes).value
    {
      hide WriteFrame, SC.EntryFrame;
      if !K.Valid(tasks[curr].pgdir) { return false; }
      var f := memory.EntryFrame(tasks[curr].pgdir.value, 0);
      if f == None { return false; }
      memory.ram[f.value] := WriteFrame(memory.ram[f.value], at, bytes);
      ok := true;
    }

    /** The number of bytes read, or -1 without a file. From a file these are as many as are asked for, but no more
        than lie between its position and its end; behind the end the difference wraps. */
    method SysRead(fd: int, at: int, count: int) returns (ok: bool, n: int)
      requires Valid() && curr != 0 && K.IsDescriptor(fd) && 0 <= at && 0 <= count && at + count <= 4096
      modifies memory.ram, fs.filesystem, console
      ensures Valid()
      ensures ok <==> K.ReadFile(old(State()), fd, at, count).Ok?
      ensures ok ==>
        var d := K.ReadFile(old(State()), fd, at, count).value;
        Mem() == d.mem && fs.filesystem[..] == d.files && console.State() == d.console && d.event == T.OtherSyscall
      ensures ok && tasks[curr].openFiles[fd] == None ==> n == -1
      ensures ok && tasks[curr].openFiles[fd] == Some(F.CONSOLE) ==> n == |C.ReadMany(old(console.State()), count).0|
      ensures ok && tasks[curr].openFiles[fd].Some? && tasks[curr].openFiles[fd] != Some(F.CONSOLE) ==>
        var f := tasks[curr].openFiles[fd].value;
        0 <= f < 32 &&
        var file := old(fs.filesystem[..])[f];
        var left := if file.pos <= file.size then file.size - file.pos else file.size - file.pos + 0x1_0000_0000;
        && n == (if left < count then left else count)
        && fs.filesystem[..] == old(fs.filesystem[..])[f := file.(pos := (file.pos + n) % 0x1_0000_0000)]
    {
      hide C.ReadMany, K.ToUser, Unpack;
      ghost var k := State();
      var f := tasks[curr].openFiles[fd];
      if f == None { return true, -1; }
      if f.value == F.CONSOLE {
        var buf := new int[count](_ => 0);
        n := console.ReadConsole(buf, count);
        var bytes := seq(n, i requires 0 <= i < n && n <= buf.Length reads buf => buf[i] % 256);
        assert bytes == K.AsBytes(C.ReadMany(k.console, count).0);
        ToUserNeeds(k, State(), at, bytes);
        ok := CopyToUser(at, bytes);
        return;
      }
      if !K.IsFile(f.value) || !K.Valid(fs.filesystem[f.value].data) { return false, -1; }
      n := F.BytesRead(fs.filesystem[f.value], count);
      ok := CopyToUser(at, Unpack(memory.ram[fs.filesystem[f.value].data.value])[..n]);
      fs.filesystem[f.value] := F.Moved(fs.filesystem[f.value], n);
    }

    static lemma ToUserNeeds(k: K.Kernel, k1: K.Kernel, at: int, bytes: seq<Byte>)
      requires K.IsKernel(k) && K.IsKernel(k1) && k1.sys == k.sys && k1.mem == k.mem && 0 <= at && at + |bytes| <= 4096
      ensures K.ToUser(k1, at, bytes) == K.ToUser(k, at, bytes)
    {}

    /** -1 for a file, also when the bytes have been written. */
    method SysWrite(fd: int, at: int, count: int) returns (ok: bool, r: int)
      requires Valid() && curr != 0 && K.IsDescriptor(fd) && 0 <= at && 0 <= count && at + count <= 4096
      requires K.WritesFile(State(), fd) ==> fs.filesystem[tasks[curr].openFiles[fd].value].pos + count < 0x1_0000_0000
      modifies memory.ram, fs.filesystem
      ensures Valid()
      ensures ok <==> K.WriteFile(old(State()), fd, at, count).Ok?
      ensures ok ==>
        var d := K.WriteFile(old(State()), fd, at, count).value;
        Mem() == d.mem && fs.filesystem[..] == d.files && console.State() == d.console && d.event == T.OtherSyscall
      ensures ok ==> r == if tasks[curr].openFiles[fd] == Some(F.CONSOLE) then count else -1
    {
      hide Unpack, WriteFrame, SC.EntryFrame;
      var f := tasks[curr].openFiles[fd];
      if f == Some(F.CONSOLE) { return true, count; }
      if f == None || !K.IsFile(f.value) || !fs.filesystem[f.value].kind.Regular? { return true, -1; }
      var file := fs.filesystem[f.value];
      if Wrap(file.pos + count) > 0x1000 || !K.Valid(file.data) || !K.Valid(tasks[curr].pgdir) { return false, -1; }
      var user := memory.EntryFrame(tasks[curr].pgdir.value, 0);
      if user == None { return false, -1; }
      var data := file.data.value;
      memory.ram[data] := WriteFrame(memory.ram[data], file.pos, Unpack(memory.ram[user.value])[at..at + count]);
      fs.filesystem[f.value] := F.Moved(file, count);
      ok, r := true, -1;
    }

    // ----- Atomic steps

    /** The scheduler switches to a task. If that task sleeps in sys_wait, it returns from there, and the end of
        its system call reaps. */
    method Dispatch(i: int, out: K.Outgoing) returns (ok: bool)
      requires Valid() && T.IsSlot(i) && K.OutgoingOk(out)
      modifies this, tasks, contexts, memory, memory.ram
      ensures Valid()
      ensures ok <==> Dispatched(old(State()), i, out).Ok?
      ensures ok ==> State() == Dispatched(old(State()), i, out).value
    {
      hide K.SaveContext, T.SwitchTo, T.Reap, K.ReapMemory;
      ok := SwitchTo(i, out);
      if ok && tasks[i].waiting {
        tasks[i] := tasks[i].(waiting := false);
        ok := KillOffZombies();
      }
    }

    /** What a dispatch does. */
    static function Dispatched(k: K.Kernel, i: int, out: K.Outgoing): (r: Result<K.Kernel>)
      requires K.IsKernel(k) && T.IsSlot(i) && K.OutgoingOk(out)
    {
      match K.SaveContext(k, k.mem, out)
      case Panic => Panic
      case Ok(m) =>
        var s := T.SwitchTo(k.sys, i);
        var s1 := s.(tasks := s.tasks[i := s.tasks[i].(waiting := false)]);
        var k1 := k.(contexts := k.contexts[k.sys.curr := out.sp - 8]);
        if !s.tasks[i].waiting then Ok(k1.(sys := s, mem := m)) else
        match K.ReapMemory(s1, m)
        case Panic => Panic
        case Ok(m1) => Ok(k1.(sys := T.Reap(s1), mem := m1))
    }

    /** One iteration of the loop of schedule. */
    method ScheduleOne(out: K.Outgoing) returns (ok: bool)
      requires Valid() && T.CoreInv(Sys()) && curr == 0 && K.OutgoingOk(out)
      modifies this, tasks, contexts, memory, memory.ram
      ensures Valid()
      ensures ok <==> K.KStep(old(State()), K.Scan(out)).Ok?
      ensures ok ==> State() == K.KStep(old(State()), K.Scan(out)).value
    {
      hide K.KStep, Dispatched;
      ScanIsDispatch(State(), out);
      if tasks[scan].state == T.Runnable {
        ok := Dispatch(scan, out);
      } else {
        scan := (scan + 1) % 1024;
        ok := true;
      }
    }

    static lemma ScanIsDispatch(k: K.Kernel, out: K.Outgoing)
      requires K.IsKernel(k) && T.CoreInv(k.sys) && k.sys.curr == 0 && K.OutgoingOk(out)
      ensures K.KStep(k, K.Scan(out)) ==
        if k.sys.tasks[k.sys.scan].state == T.Runnable then Dispatched(k, k.sys.scan, out)
        else Ok(k.(sys := k.sys.(scan := (k.sys.scan + 1) % 1024)))
    {
      hide K.SaveContext, T.Reap, K.ReapMemory, T.CoreInv, K.Effect, K.KEnabled;
      ScanEnabled(k, out);
      KS.SimpleIs(k, K.Scan(out));
      SlotZero(k.sys);
      if k.sys.tasks[k.sys.scan].state == T.Runnable { S.DispatchTransition(k.sys, 0); }
    }

    static lemma ScanEnabled(k: K.Kernel, out: K.Outgoing)
      requires K.IsKernel(k) && k.sys.curr == 0 && K.OutgoingOk(out)
      ensures K.KEnabled(k, K.Scan(out))
    {}

    static lemma SlotZero(s: T.Sys)
      requires T.CoreInv(s)
      ensures T.SlotCore(s.tasks[0], 0, s.curr)
    {}

    /** The switching parts of KStep: the step of the table, and the saved context. */
    static lemma SwitchingStep(k: K.Kernel, e: K.KEvent, d: K.Done, s: T.Sys)
      requires K.IsKernel(k) && K.KEnabled(k, e) && k.sys.curr != 0
      requires K.Effect(k, e) == Ok(d) && d.mem == k.mem && T.Enabled(k.sys, d.event) && K.Switches(e)
      requires K.ReapPoint(k.sys, d.event) == None && T.Step(k.sys, d.event) == Ok(s) && s.curr == 0
      ensures K.KStep(k, e) ==
        match K.SaveContext(k, k.mem, e.out)
        case Panic => Panic
        case Ok(m) => Ok(K.Kernel(s, m, d.files, d.console, k.contexts[k.sys.curr := e.out.sp - 8], k.bootStack,
                                  k.retSite))
    {
      hide K.SaveContext, T.Step, K.Effect, K.ReapPoint, K.KEnabled;
      AllEnabled(k, e);
    }

    static lemma AllEnabled(k: K.Kernel, e: K.KEvent)
      requires K.IsKernel(k) && K.KEnabled(k, e)
      ensures K.Switches(e) ==> K.OutgoingOk(e.out)
    {}

    /** The other parts: the effect, then the reaper. */
    static lemma ReapingStep(k: K.Kernel, e: K.KEvent, d: K.Done, s: T.Sys)
      requires K.IsKernel(k) && K.KEnabled(k, e) && k.sys.curr != 0 && A.WellFormed(d.mem)
      requires K.Effect(k, e) == Ok(d) && T.Enabled(k.sys, d.event)
      requires K.ReapPoint(k.sys, d.event) == Some(s) && s.curr == k.sys.curr
      ensures K.KStep(k, e) ==
        match K.ReapMemory(s, d.mem)
        case Panic => Panic
        case Ok(m1) => Ok(K.Kernel(T.Reap(s), m1, d.files, d.console, K.ContextsAfter(k, e, false), k.bootStack,
                                   k.retSite))
    {
      hide K.ReapMemory, T.Step, K.Effect, K.ReapPoint, T.Reap, K.ContextsAfter, K.KEnabled;
      K.ReapPointIsReaped(k.sys, d.event);
      S.ReapKeepsCurr(s);
    }

    static lemma EffectPanics(k: K.Kernel, e: K.KEvent)
      requires K.IsKernel(k) && K.KEnabled(k, e) && K.Effect(k, e).Panic?
      ensures K.KStep(k, e).Panic?
    {
      hide K.Effect, K.KEnabled;
    }

    static lemma KeepsContexts(k: K.Kernel, e: K.KEvent)
      requires K.IsKernel(k) && K.KEnabled(k, e) && !e.Fork?
      ensures K.ContextsAfter(k, e, false) == k.contexts
    {}

    method Fork() returns (ok: bool)
      requires Valid() && T.CoreInv(Sys()) && K.KEnabled(State(), K.Fork)
      modifies this, tasks, contexts, memory, memory.ram
      ensures Valid()
      ensures ok <==> K.KStep(old(State()), K.Fork).Ok?
      ensures ok ==> State() == K.KStep(old(State()), K.Fork).value
    {
      hide K.KStep, K.Effect, K.ForkMemory, T.Reap, K.ReapMemory, T.CoreInv;
      ghost var k := State();
      KE.ForkIs(k);
      var pid;
      ok, pid := SysFork();
      if !ok {
        EffectPanics(k, K.Fork);
        return;
      }
      ghost var (stack, dir, m) := K.ForkMemory(k.mem, K.Curr(k), retSite).value;
      ReapingStep(k, K.Fork, K.Changed(k, T.Fork(dir, stack), m), T.ForkTask(k.sys, dir, stack));
      ok := KillOffZombies();
    }

    method Execv(path: U.CString, argv: Option<seq<U.Arg>>) returns (ok: bool)
      requires Valid() && K.KEnabled(State(), K.Execv(path, argv)) && curr != 0
      modifies this, tasks, contexts, memory, memory.ram
      ensures Valid()
      ensures ok <==> K.KStep(old(State()), K.Execv(path, argv)).Ok?
      ensures ok ==> State() == K.KStep(old(State()), K.Execv(path, argv)).value
    {
      hide K.KStep, K.KEnabled, K.Effect, K.ExecMemory, T.Reap, K.ReapMemory, T.CoreInv;
      ghost var k, e := State(), K.Execv(path, argv);
      KE.ExecIs(k, e);
      ok := SysExecv(path, argv);
      if !ok {
        EffectPanics(k, e);
        return;
      }
      ghost var (dir, m) := K.ExecMemory(k.mem, k.files, K.Curr(k), path, argv).value;
      ExecEnabled(k, dir);
      ReapingStep(k, e, K.Changed(k, T.Execv(dir), m), Sys());
      KeepsContexts(k, e);
      ok := KillOffZombies();
    }

    static lemma ExecEnabled(k: K.Kernel, dir: Option<int>)
      requires K.IsKernel(k) && k.sys.curr != 0
      ensures T.Enabled(k.sys, T.Execv(dir)) && K.ReapPoint(k.sys, T.Execv(dir)) == Some(T.ExecTask(k.sys, dir))
    {}

    method Exit(out: K.Outgoing) returns (ok: bool)
      requires Valid() && T.CoreInv(Sys()) && K.KEnabled(State(), K.Exit(out)) && curr != 0
      modifies this, tasks, contexts, memory.ram, fs.filesystem
      ensures Valid()
      ensures ok <==> K.KStep(old(State()), K.Exit(out)).Ok?
      ensures ok ==> State() == K.KStep(old(State()), K.Exit(out)).value
    {
      hide K.KStep, K.Effect, T.ExitTask, K.SaveContext, T.CoreInv, K.WakeFile;
      ghost var k := State();
      KS.SimpleIs(k, K.Exit(out));
      T.ExitEffect(k.sys);
      if T.ExitTask(k.sys).Ok? {
        T.ExitScans(k.sys);
        SwitchingStep(k, K.Exit(out), K.Done(T.Exit, k.mem, K.WakeFile(k.files, K.Curr(k).parent), k.console),
                      T.ExitTask(k.sys).value);
      } else {
        ExitPanics(k, out);
      }
      ok := SysExit(out);
    }

    static lemma ExitPanics(k: K.Kernel, out: K.Outgoing)
      requires K.IsKernel(k) && K.KEnabled(k, K.Exit(out)) && T.ExitTask(k.sys).Panic?
      ensures K.KStep(k, K.Exit(out)).Panic?
    {
      hide K.Effect, K.KEnabled;
      KS.SimpleIs(k, K.Exit(out));
    }

    method Wait(out: K.Outgoing) returns (ok: bool)
      requires Valid() && K.KEnabled(State(), K.Wait(out)) && curr != 0
      modifies this, tasks, contexts, memory, memory.ram
      ensures Valid()
      ensures ok <==> K.KStep(old(State()), K.Wait(out)).Ok?
      ensures ok ==> State() == K.KStep(old(State()), K.Wait(out)).value
    {
      hide K.KStep, K.Effect, K.SaveContext, T.SleepTask, T.Reap, K.ReapMemory, K.ReapPoint, T.Step, T.FindChild;
      ghost var k := State();
      KS.SimpleIs(k, K.Wait(out));
      WaitCases(k.sys);
      KeepsContexts(k, K.Wait(out));
      var slept, pid;
      ok, slept, pid := SysWait(out);
      if slept {
        SwitchingStep(k, K.Wait(out), K.Quiet(k, T.Wait), T.SleepTask(k.sys));
      } else {
        ReapingStep(k, K.Wait(out), K.Quiet(k, T.Wait), k.sys);
        ok := KillOffZombies();
      }
    }

    static lemma WaitCases(s: T.Sys)
      requires T.WellFormed(s) && s.curr != 0
      ensures var c := T.FindChild(s.tasks, s.curr, 0);
        if c < T.MAX_TASKS && s.tasks[c].state != T.Zombie then
          K.ReapPoint(s, T.Wait) == None && T.Step(s, T.Wait) == Ok(T.SleepTask(s)) && T.SleepTask(s).curr == 0
        else K.ReapPoint(s, T.Wait) == Some(s)
    {}

    method Timer(out: K.Outgoing) returns (ok: bool)
      requires Valid() && K.KEnabled(State(), K.Timer(out)) && curr != 0
      modifies this, tasks, contexts, memory, memory.ram
      ensures Valid()
      ensures ok <==> K.KStep(old(State()), K.Timer(out)).Ok?
      ensures ok ==> State() == K.KStep(old(State()), K.Timer(out)).value
    {
      hide K.KStep, K.Effect, K.SaveContext;
      KS.SimpleIs(State(), K.Timer(out));
      SwitchingStep(State(), K.Timer(out), K.Quiet(State(), T.Timer), T.Yield(Sys()));
      ok := YieldToScheduler(out);
    }

    method OtherSyscall() returns (ok: bool)
      requires Valid() && curr != 0 && K.KEnabled(State(), K.OtherSyscall)
      modifies this, tasks, memory, memory.ram
      ensures Valid()
      ensures ok <==> K.KStep(old(State()), K.OtherSyscall).Ok?
      ensures ok ==> State() == K.KStep(old(State()), K.OtherSyscall).value
    {
      hide K.KStep, K.Effect, T.Reap, K.ReapMemory;
      ghost var k := State();
      KS.SimpleIs(k, K.OtherSyscall);
      KeepsContexts(k, K.OtherSyscall);
      ReapingStep(k, K.OtherSyscall, K.Quiet(k, T.OtherSyscall), Sys());
      ok := KillOffZombies();
    }

    method Open(path: U.CString, flags: int) returns (ok: bool)
      requires Valid() && curr != 0 && K.KEnabled(State(), K.Open(path, flags))
      modifies this, tasks, memory, memory.ram, fs.filesystem
      ensures Valid()
      ensures ok <==> K.KStep(old(State()), K.Open(path, flags)).Ok?
      ensures ok ==> State() == K.KStep(old(State()), K.Open(path, flags)).value
    {
      hide K.KStep, K.KEnabled, K.Effect, F.OpenFile, T.OpenTask, T.Reap, K.ReapMemory;
      ghost var k, e := State(), K.Open(path, flags);
      KF.OpenIs(k, e);
      KeepsContexts(k, e);
      var fd;
      ok, fd := SysOpen(path, flags);
      if !ok {
        EffectPanics(k, e);
        return;
      }
      ghost var d := K.OpenFile(k, path, flags).value;
      OpenKeepsRunning(k.sys, d.event.file);
      ReapingStep(k, e, d, Sys());
      ok := KillOffZombies();
    }

    static lemma OpenKeepsRunning(s: T.Sys, file: Option<int>)
      requires T.WellFormed(s) && s.curr != 0
      ensures T.OpenTask(s, file).curr == s.curr
      ensures file.Some? ==> file.value >= 0 ==> T.Enabled(s, T.Open(file))
      ensures file == None ==> T.Enabled(s, T.Open(file))
      ensures T.Enabled(s, T.Open(file)) ==> K.ReapPoint(s, T.Open(file)) == Some(T.OpenTask(s, file))
    {
      hide T.StoreFile;
    }

    method Close(fd: int) returns (ok: bool)
      requires Valid() && curr != 0 && K.KEnabled(State(), K.Close(fd))
      modifies this, tasks, memory, memory.ram
      ensures Valid()
      ensures ok <==> K.KStep(old(State()), K.Close(fd)).Ok?
      ensures ok ==> State() == K.KStep(old(State()), K.Close(fd)).value
    {
      hide K.KStep, K.Effect, T.Reap, K.ReapMemory;
      ghost var k, e := State(), K.Close(fd);
      KS.SimpleIs(k, e);
      KeepsContexts(k, e);
      var r := SysClose(fd);
      ReapingStep(k, e, K.Quiet(k, K.CloseFile(k, fd)), Sys());
      ok := KillOffZombies();
    }

    method Read(fd: int, at: int, count: int) returns (ok: bool)
      requires Valid() && curr != 0 && K.KEnabled(State(), K.Read(fd, at, count))
      modifies this, tasks, memory, memory.ram, fs.filesystem, console
      ensures Valid()
      ensures ok <==> K.KStep(old(State()), K.Read(fd, at, count)).Ok?
      ensures ok ==> State() == K.KStep(old(State()), K.Read(fd, at, count)).value
    {
      hide K.KStep, K.Effect, K.ReadFile, T.Reap, K.ReapMemory;
      ghost var k, e := State(), K.Read(fd, at, count);
      KF.ReadIs(k, e);
      KeepsContexts(k, e);
      var n;
      ok, n := SysRead(fd, at, count);
      if !ok {
        EffectPanics(k, e);
        return;
      }
      ReapingStep(k, e, K.ReadFile(k, fd, at, count).value, Sys());
      ok := KillOffZombies();
    }

    method Write(fd: int, at: int, count: int) returns (ok: bool)
      requires Valid() && curr != 0 && K.KEnabled(State(), K.Write(fd, at, count))
      modifies this, tasks, memory, memory.ram, fs.filesystem
      ensures Valid()
      ensures ok <==> K.KStep(old(State()), K.Write(fd, at, count)).Ok?
      ensures ok ==> State() == K.KStep(old(State()), K.Write(fd, at, count)).value
    {
      hide K.KStep, K.Effect, K.WriteFile, T.Reap, K.ReapMemory;
      ghost var k, e := State(), K.Write(fd, at, count);
      KF.WriteIs(k, e);
      KeepsContexts(k, e);
      var r;
      ok, r := SysWrite(fd, at, count);
      if !ok {
        EffectPanics(k, e);
        return;
      }
      ReapingStep(k, e, K.WriteFile(k, fd, at, count).value, Sys());
      ok := KillOffZombies();
    }

    /** The serial interrupt. */
    method Serial(ch: C.Char) returns (ok: bool)
      requires Valid() && K.KEnabled(State(), K.Serial(ch))
      modifies console, console.circularBuf
      ensures Valid()
      ensures ok <==> K.KStep(old(State()), K.Serial(ch)).Ok?
      ensures ok ==> State() == K.KStep(old(State()), K.Serial(ch)).value
    {
      hide C.WriteByte, K.KStep, K.Effect;
      ghost var k := State();
      KS.SimpleIs(k, K.Serial(ch));
      SerialStep(k, ch);
      ok := console.WriteCircularBuf(ch);
    }

    static lemma SerialStep(k: K.Kernel, ch: C.Char)
      requires K.IsKernel(k) && K.KEnabled(k, K.Serial(ch))
      ensures K.KStep(k, K.Serial(ch)).Panic? <==> C.WriteByte(k.console, ch).Panic?
      ensures C.WriteByte(k.console, ch).Ok? ==>
        K.KStep(k, K.Serial(ch)) == Ok(k.(console := C.WriteByte(k.console, ch).value))
    {
      hide C.WriteByte, K.Effect;
      KS.SimpleIs(k, K.Serial(ch));
    }

    /** The running task computes: it may change its page and, while in the kernel, its kernel stack. */
    method Compute(page: Frame, stack: Frame) returns (ok: bool)
      requires Valid() && K.KEnabled(State(), K.Compute(page, stack))
      modifies memory.ram
      ensures Valid()
      ensures ok <==> K.KStep(old(State()), K.Compute(page, stack)).Ok?
      ensures ok ==> State() == K.KStep(old(State()), K.Compute(page, stack)).value
    {
      hide SC.EntryFrame;
      if !K.Valid(tasks[curr].pgdir) || !K.Valid(tasks[curr].kstack) { return false; }
      var f := memory.EntryFrame(tasks[curr].pgdir.value, 0);
      if f == None { return false; }
      memory.ram[f.value] := page;
      memory.ram[tasks[curr].kstack.value] := stack;
      ok := true;
    }

    /** trampoline and schedule: every atomic step of the code is the model's step, and panics with it. */
    method Step(e: K.KEvent) returns (ok: bool)
      requires Valid() && T.CoreInv(Sys()) && K.KEnabled(State(), e)
      modifies Parts()
      ensures Valid()
      ensures ok <==> K.KStep(old(State()), e).Ok?
      ensures ok ==> State() == K.KStep(old(State()), e).value
    {
      hide K.KStep, T.CoreInv, K.Find, K.WritesFile;
      match e
      case Scan(out) => ok := ScheduleOne(out);
      case Fork => ok := Fork();
      case Execv(path, argv) => ok := Execv(path, argv);
      case Exit(out) => ok := Exit(out);
      case Wait(out) => ok := Wait(out);
      case Open(path, flags) => ok := Open(path, flags);
      case Close(fd) => ok := Close(fd);
      case Read(fd, at, count) => ok := Read(fd, at, count);
      case Write(fd, at, count) => ok := Write(fd, at, count);
      case OtherSyscall => ok := OtherSyscall();
      case Timer(out) => ok := Timer(out);
      case Serial(ch) => ok := Serial(ch);
      case Compute(page, stack) => ok := Compute(page, stack);
    }

    /** The loop of schedule up to its next switch: it finds a task within one round. */
    method Schedule() returns (next: int)
      requires Valid() && T.SysInv(Sys()) && curr == 0
      modifies this
      ensures Valid() && Sys() == old(Sys()).(scan := next) && T.SysInv(Sys())
      ensures T.IsSlot(next) && next != 0 && tasks[next].state == T.Runnable
      ensures forall j :: T.IsSlot(j) && S.Distance(old(Sys()), j) < S.Distance(old(Sys()), next) ==>
        tasks[j].state != T.Runnable
    {
      hide T.SysInv, S.Distance;
      S.Progress(Sys());
      ghost var goal :| T.IsSlot(goal) && goal != 0 && tasks[goal].state == T.Runnable;
      ghost var s := Sys();
      while tasks[scan].state != T.Runnable
        invariant Valid() && Sys() == s.(scan := scan) && T.SysInv(Sys())
        invariant S.Distance(s, scan) <= S.Distance(s, goal)
        invariant forall j :: T.IsSlot(j) && S.Distance(s, j) < S.Distance(s, scan) ==> tasks[j].state != T.Runnable
        decreases S.Distance(s, goal) - S.Distance(s, scan)
      {
        ScanNext(s, scan, goal);
        scan := (scan + 1) % 1024;
        ScanFree(s, scan);
      }
      T.SysInvIsCore(Sys());
      SlotZero(Sys());
      next := scan;
    }

    /** The loop variable on its way from where it was to the goal. */
    static lemma ScanNext(s: T.Sys, i: int, goal: int)
      requires T.WellFormed(s) && T.IsSlot(i) && T.IsSlot(goal) && i != goal && S.Distance(s, i) <= S.Distance(s, goal)
      ensures S.Distance(s, (i + 1) % 1024) == S.Distance(s, i) + 1 <= S.Distance(s, goal)
      ensures forall j :: T.IsSlot(j) && S.Distance(s, j) < S.Distance(s, (i + 1) % 1024) ==>
        j == i || S.Distance(s, j) < S.Distance(s, i)
    {}

    static lemma ScanFree(s: T.Sys, i: int)
      requires T.SysInv(s) && s.curr == 0 && T.IsSlot(i)
      ensures T.SysInv(s.(scan := i))
    {
      forall j | 0 <= j < T.MAX_TASKS
        ensures T.SlotOk(s.tasks[j], j, s.curr) { assert T.SlotOk(s.tasks[j], j, s.curr); }
      forall j | 0 <= j < T.MAX_TASKS && s.tasks[j].state == T.Sleeping ensures T.HasLiveChild(s.(scan := i), j) {
        assert T.HasLiveChild(s, j);
        var c :| 0 <= c < T.MAX_TASKS && s.tasks[c].parent == Some(j) && T.Live(s.tasks[c]);
        assert s.(scan := i).tasks[c].parent == Some(j);
      }
    }
  }
}
