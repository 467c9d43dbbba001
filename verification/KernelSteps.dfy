/** One step of the whole kernel: when it panics, that it keeps the books of all pages balanced, and which
    pages it leaves alone. */
module KernelSteps {
  import opened Machine
  import opened PageAllocator
  import opened AddressSpace
  import opened SpaceCopy
  import opened Accounts
  import opened Context
  import opened Kernel
  import opened Conservation
  import opened KernelInv
  import opened KernelEffects
  import opened KernelFiles
  import C = Console
  import F = FileTable
  import T = Tasks
  import S = Scheduling

  // ----- The effect of any event

  /** The registered pages after a step: an early failure of sys_execv frees frame 0. */
  ghost function After(k: Kernel, e: KEvent, registered: set<int>): set<int>
    requires IsKernel(k)
  {
    if FailsEarly(k, e) then registered + {0} else registered
  }

  /** The panics that come before the step of the task table. */
  predicate EffectPanics(k: Kernel, e: KEvent, free: nat)
    requires IsKernel(k) && KEnabled(k, e)
  {
    Panics(k, e, free) && (free >= PagesNeeded(k, e) ==> !e.Exit?)
  }

  lemma SimpleIs(k: Kernel, e: KEvent)
    requires IsKernel(k) && KEnabled(k, e)
    ensures e.Scan? ==> Effect(k, e) == Ok(Quiet(k, T.Scan))
    ensures e.Wait? ==> Effect(k, e) == Ok(Quiet(k, T.Wait))
    ensures e.OtherSyscall? ==> Effect(k, e) == Ok(Quiet(k, T.OtherSyscall))
    ensures e.Timer? ==> Effect(k, e) == Ok(Quiet(k, T.Timer))
    ensures e.Exit? ==> Effect(k, e) == Ok(Done(T.Exit, k.mem, WakeFile(k.files, Curr(k).parent), k.console))
    ensures e.Close? ==> Effect(k, e) == Ok(Quiet(k, CloseFile(k, e.fd)))
    ensures e.Serial? ==> (Effect(k, e).Panic? <==> C.WriteByte(k.console, e.ch).Panic?)
    ensures e.Serial? && Effect(k, e).Ok? ==>
      Effect(k, e) == Ok(Done(T.Serial, k.mem, k.files, C.WriteByte(k.console, e.ch).value))
  {}

  /** What a switch needs to know about the effect before it. */
  lemma EffectEvent(k: Kernel, e: KEvent)
    requires IsKernel(k) && KEnabled(k, e) && Effect(k, e).Ok?
    ensures
      var d := Effect(k, e).value;
      && (d.event.Fork? <==> e.Fork?) && (d.event.Exit? <==> e.Exit?) && (d.event.Open? <==> e.Open?)
      && (Switches(e) <==> d.event in {T.Scan, T.Exit, T.Wait, T.Timer})
      && (Switches(e) ==> d.mem == k.mem && d.files == if e.Exit? then WakeFile(k.files, Curr(k).parent) else k.files)
  {
    hide ForkMemory, ExecMemory, WritePageZero, F.OpenFile, ToUser, C.WriteByte, C.ReadMany, F.BytesRead, PageZero,
         WakeFile;
  }

  lemma QuietOf(k: Kernel, e: KEvent, own: seq<int>, registered: set<int>, a: Account)
    requires KInv(k, own, registered, a) && KEnabled(k, e)
    requires e.Scan? || e.Wait? || e.OtherSyscall? || e.Timer? || e.Exit? || e.Close? || e.Serial?
    ensures Effect(k, e).Panic? <==> e.Serial? && e.ch != C.DEL && k.console.editLen == C.MAX_BUF
    ensures Effect(k, e).Ok? ==>
      EffectDone(k, e, Effect(k, e).value, own, registered, a) && TableKept(k, Effect(k, e).value)
  {
    hide Effect, KInv, EffectDone, Fixed, FilesOk, FilesKept, WakeFile, IsOpen;
    FilesSame(k, own, registered, a);
    SimpleIs(k, e);
    EffectIsDone(k, e);
    WakeKeeps(own, k.files, Curr(k).parent);
    if Effect(k, e).Ok? {
      QuietEffect(k, e, Effect(k, e).value, own, registered, a);
    }
  }

  lemma EffectIsDone(k: Kernel, e: KEvent)
    requires IsKernel(k) && KEnabled(k, e)
    ensures Effect(k, e).Ok? ==> IsDone(Effect(k, e).value) && T.Enabled(k.sys, Effect(k, e).value.event)
  {
    hide Effect;
  }

  /** Events on memory leave the file table as it is. */
  lemma TableSame(k: Kernel, e: KEvent, own: seq<int>, registered: set<int>, a: Account)
    requires KInv(k, own, registered, a) && KEnabled(k, e) && (e.Fork? || e.Execv? || e.Compute?) && Effect(k, e).Ok?
    ensures TableKept(k, Effect(k, e).value)
  {
    hide ForkMemory, ExecMemory, WritePageZero, Balanced, T.CoreInv, ContextsOk;
  }

  ghost predicate Effected(k: Kernel, e: KEvent, own: seq<int>, registered: set<int>, a: Account, a': Account)
    requires IsKernel(k) && KEnabled(k, e)
  {
    && (Effect(k, e).Panic? <==> EffectPanics(k, e, |a.free|))
    && (Effect(k, e).Ok? ==>
          && EffectDone(k, e, Effect(k, e).value, own, After(k, e, registered), a') && TableKept(k, Effect(k, e).value)
          && (FailsEarly(k, e) ==> 0 in a'.free))
    && (Switches(e) ==> a' == a)
  }

  lemma OpenEffected(k: Kernel, e: KEvent, own: seq<int>, registered: set<int>, a: Account) returns (a': Account)
    requires KInv(k, own, registered, a) && KEnabled(k, e) && e.Open?
    ensures Effected(k, e, own, registered, a, a')
  {
    hide Effect, EffectDone, Balanced, TableKept, F.MakesFile, FilesOk, T.CoreInv, DescriptorsOk, ContextsOk;
    a' := a;
    if F.MakesFile(k.files, e.path, e.flags) { a' := OpenNewEffect(k, own, registered, a, e); }
    else { OpenOldEffect(k, own, registered, a, e); }
  }

  lemma ExecEffected(k: Kernel, e: KEvent, own: seq<int>, registered: set<int>, a: Account) returns (a': Account)
    requires KInv(k, own, registered, a) && KEnabled(k, e) && e.Execv? && (FailsEarly(k, e) ==> 0 !in registered)
    ensures Effected(k, e, own, registered, a, a')
  {
    hide Effect, EffectDone, Balanced, TableKept, Find, FilesOk, T.CoreInv, DescriptorsOk, ContextsOk, FailsEarly;
    ExecOutcome(k, e, own, registered, a);
    if FailsEarly(k, e) { a' := LeakEffect(k, own, registered, a, e); }
    else { a' := ExecEffect(k, own, registered, a, e); }
    if Effect(k, e).Ok? { TableSame(k, e, own, registered, a); }
  }

  lemma OtherEffected(k: Kernel, e: KEvent, own: seq<int>, registered: set<int>, a: Account) returns (a': Account)
    requires KInv(k, own, registered, a) && KEnabled(k, e) && (e.Fork? || e.Compute? || e.Read? || e.Write?)
    ensures Effected(k, e, own, registered, a, a')
  {
    hide Effect, EffectDone, Balanced, TableKept, FilesOk, T.CoreInv, DescriptorsOk, ContextsOk;
    a' := a;
    match e {
      case Fork => a' := ForkEffect(k, own, registered, a);
      case Read(_, _, _) => ReadEffect(k, own, registered, a, e);
      case Write(_, _, _) => WriteEffect(k, own, registered, a, e);
      case Compute(_, _) => ComputeEffect(k, own, registered, a, e);
    }
    if (e.Fork? || e.Compute?) && Effect(k, e).Ok? { TableSame(k, e, own, registered, a); }
  }

  lemma QuietEffected(k: Kernel, e: KEvent, own: seq<int>, registered: set<int>, a: Account)
    requires KInv(k, own, registered, a) && KEnabled(k, e)
    requires e.Scan? || e.Wait? || e.OtherSyscall? || e.Timer? || e.Exit? || e.Close? || e.Serial?
    ensures Effected(k, e, own, registered, a, a)
  {
    hide Effect, EffectDone, Balanced, TableKept, FilesOk, T.CoreInv, DescriptorsOk, ContextsOk;
    QuietOf(k, e, own, registered, a);
  }

  /** The effect of any event panics exactly when it needs more pages than are free, or on a full ring, or when it
      writes past the page of a file. */
  lemma EffectOf(k: Kernel, e: KEvent, own: seq<int>, registered: set<int>, a: Account) returns (a': Account)
    requires KInv(k, own, registered, a) && KEnabled(k, e) && (FailsEarly(k, e) ==> 0 !in registered)
    ensures Effect(k, e).Panic? <==> EffectPanics(k, e, |a.free|)
    ensures Effect(k, e).Ok? ==>
      && EffectDone(k, e, Effect(k, e).value, own, After(k, e, registered), a') && TableKept(k, Effect(k, e).value)
      && (FailsEarly(k, e) ==> 0 in a'.free)
    ensures Switches(e) ==> a' == a
  {
    hide Effect, EffectDone, EffectPanics, KInv, KEnabled, TableKept, FailsEarly, After;
    a' := a;
    if e.Open? { a' := OpenEffected(k, e, own, registered, a); }
    else if e.Execv? { a' := ExecEffected(k, e, own, registered, a); }
    else if e.Fork? || e.Compute? || e.Read? || e.Write? { a' := OtherEffected(k, e, own, registered, a); }
    else { QuietEffected(k, e, own, registered, a); }
  }

  lemma ExecOutcome(k: Kernel, e: KEvent, own: seq<int>, registered: set<int>, a: Account)
    requires KInv(k, own, registered, a) && KEnabled(k, e) && e.Execv?
    ensures FailsEarly(k, e) <==> !Find(k.files, k.mem, e.path).Program?
  {
    hide Balanced, Find;
    FindKept(k, own, registered, a, k.mem, e.path);
  }

  // ----- The switch

  /** The kernel's own page that a step may write: the stack of main, while the scheduler runs on it. */
  function BootFrames(k: Kernel): set<int> {
    if k.sys.curr == 0 then {k.bootStack} else {}
  }

  ghost predicate PhaseDone(k: Kernel, tasks: seq<T.Task>, m: Mem, fixed: seq<int>, registered: set<int>, a: Account,
                            kept: set<int>)
    requires IsKernel(k)
  {
    && Balanced(tasks, m, fixed, registered, a)
    && Spares(k.sys.tasks, k.mem.ram, m.ram, {k.sys.curr})
    && SameFrames(k.mem.ram, m.ram, kept)
    && kept <= Elements(fixed)
  }

  /** A switch writes one page: the stack it leaves. */
  lemma SaveKeeps(k: Kernel, te: T.Event, out: Outgoing, own: seq<int>, registered: set<int>, a: Account)
    requires KInv(k, own, registered, a) && T.Enabled(k.sys, te) && te in {T.Scan, T.Exit, T.Wait, T.Timer} &&
      OutgoingOk(out)
    ensures SaveContext(k, k.mem, out).Ok?
    ensures PhaseDone(k, Mid(k.sys, te), SaveContext(k, k.mem, out).value, Fixed(own, k.files), registered, a,
                      Elements(Fixed(own, k.files)) - BootFrames(k))
  {
    hide SwitchOut, TaskFrames, UserSpace, Sum, IsFreeList, Mid, SpaceFrames, Spares;
    var c, tasks, fixed := k.sys.curr, Mid(k.sys, te), Fixed(own, k.files);
    if c == 0 {
      assert StackOf(k, 0) == Some(k.bootStack) && k.bootStack in fixed;
      var m' := SaveContext(k, k.mem, out).value;
      KernelPageWrite(k, own, registered, a, k.bootStack, m'.ram[k.bootStack]);
      MidBalanced(k.sys, te, m', fixed, registered, a);
      MoreExcepted(k.sys.tasks, k.mem.ram, m'.ram, {c});
    } else {
      CurrOwns(k, own, registered, a);
      var f := Curr(k).kstack.value;
      var m' := SaveContext(k, k.mem, out).value;
      TaskWriteBalanced(k.sys.tasks, k.mem, fixed, registered, a, c, f, m'.ram[f]);
      MidBalanced(k.sys, te, m', fixed, registered, a);
      FramesContain(k.mem.ram, Curr(k));
      WritesSpare(k.sys.tasks, k.mem, m'.ram, fixed, registered, a, c, [f]);
    }
  }

  // ----- The end of a step

  /** Without a reaper, a step of the task table leaves every page with its owner. */
  lemma StepSameOwner(s: T.Sys, te: T.Event, j: int)
    requires T.CoreInv(s) && T.Enabled(s, te) && T.IsSlot(j)
    requires ReapPoint(s, te) == None && T.Step(s, te).Ok?
    ensures SameOwner(s.tasks[j], T.Step(s, te).value.tasks[j], j)
  {
    hide T.ExitTask;
    assert T.SlotCore(s.tasks[j], j, s.curr);
    if te.Exit? { T.ExitEffect(s); }
  }

  /** What the reaper does at the end of a step. */
  lemma FinishStep(k: Kernel, te: T.Event, m: Mem, fixed: seq<int>, registered: set<int>, a: Account, kept: set<int>)
      returns (a': Account)
    requires IsKernel(k) && T.CoreInv(k.sys) && T.Enabled(k.sys, te) && T.Step(k.sys, te).Ok?
    requires PhaseDone(k, Mid(k.sys, te), m, fixed, registered, a, kept)
    ensures ReapAfter(k.sys, te, m).Ok?
    ensures var sys, m' := T.Step(k.sys, te).value, ReapAfter(k.sys, te, m).value;
      && Balanced(sys.tasks, m', fixed, registered, a')
      && Spares(k.sys.tasks, k.mem.ram, m'.ram, {k.sys.curr} + Gone(k.sys.tasks, sys.tasks))
      && SameFrames(k.mem.ram, m'.ram, kept)
      && (forall f :: f in a.free ==> f in a'.free)
      && Spares(Mid(k.sys, te), m.ram, m'.ram, Gone(Mid(k.sys, te), sys.tasks))
      && SameFrames(m.ram, m'.ram, Elements(fixed))
  {
    hide T.Step, T.Reap, T.CoreInv, Sum, PartOk, IsFreeList, TaskOk, Untouched, ReapMemory;
    match ReapPoint(k.sys, te)
    case None =>
      a' := a;
      forall j | T.IsSlot(j) ensures SameOwner(k.sys.tasks[j], T.Step(k.sys, te).value.tasks[j], j) {
        StepSameOwner(k.sys, te, j);
      }
      BalancedSameOwner(k.sys.tasks, T.Step(k.sys, te).value.tasks, m, fixed, registered, a);
      SparesSame(k.sys.tasks, m, fixed, registered, a, Gone(k.sys.tasks, T.Step(k.sys, te).value.tasks));
    case Some(s1) =>
      ReapPointIsReaped(k.sys, te);
      MidOthers(k.sys, te);
      a' := ReapBalanced(s1, m, fixed, registered, a);
      var m' := ReapMemory(s1, m).value;
      SparesTwice(k.sys.tasks, s1.tasks, k.mem.ram, m.ram, m'.ram, {k.sys.curr}, Gone(s1.tasks, T.Reap(s1).tasks));
      GoneSame(k.sys, s1, T.Reap(s1).tasks);
  }

  lemma MidOthers(s: T.Sys, te: T.Event)
    requires T.CoreInv(s) && T.Enabled(s, te)
    ensures Mid(s, te)[0].state != T.Zombie
    ensures forall j :: T.IsSlot(j) && j != s.curr && Owns(j, s.tasks[j]) ==> SameOwner(s.tasks[j], Mid(s, te)[j], j)
  {
    hide T.FindChild, T.FindDescriptor;
    assert T.SlotCore(s.tasks[0], 0, s.curr) && T.SlotCore(s.tasks[s.curr], s.curr, s.curr);
  }

  lemma GoneSame(s: T.Sys, s1: T.Sys, tasks': seq<T.Task>)
    requires T.WellFormed(s) && T.WellFormed(s1) && |tasks'| == T.MAX_TASKS
    requires forall j :: T.IsSlot(j) && j != s.curr && Owns(j, s.tasks[j]) ==> SameOwner(s.tasks[j], s1.tasks[j], j)
    ensures forall j :: T.IsSlot(j) && j !in {s.curr} + Gone(s.tasks, tasks') && Owns(j, s.tasks[j]) ==>
      j !in {s.curr} + Gone(s1.tasks, tasks')
  {}

  /** Every step keeps a context for each task that can be switched to. */
  lemma ContextsKept(k: Kernel, e: KEvent, te: T.Event)
    requires IsKernel(k) && T.CoreInv(k.sys) && ContextsOk(k) && KEnabled(k, e) && T.Enabled(k.sys, te)
    requires T.Step(k.sys, te).Ok? && (te.Fork? <==> e.Fork?) && (Switches(e) <==>
      te in {T.Scan, T.Exit, T.Wait, T.Timer})
    ensures var sys := T.Step(k.sys, te).value;
      forall i :: T.IsSlot(i) && i != sys.curr && T.Live(sys.tasks[i]) ==>
        0 <= ContextsAfter(k, e, Switched(k, e, sys))[i] <= 1015
  {
    hide T.Step, Find, F.MakesFile;
    var sys := T.Step(k.sys, te).value;
    S.StepTransition(k.sys, te);
    S.StepScan(k.sys, te);
    T.StepKeepsCore(k.sys, te);
    StepSwitches(k.sys, te);
    forall i | T.IsSlot(i) && i != sys.curr && T.Live(sys.tasks[i])
      ensures 0 <= ContextsAfter(k, e, Switched(k, e, sys))[i] <= 1015
    {
      assert S.TaskTransition(k.sys, te, sys, i);
      assert T.SlotCore(k.sys.tasks[i], i, k.sys.curr);
    }
  }

  /** The running task changes only in events that may switch. */
  lemma StepSwitches(s: T.Sys, te: T.Event)
    requires T.CoreInv(s) && T.Enabled(s, te) && T.Step(s, te).Ok?
    ensures te !in {T.Scan, T.Exit, T.Wait, T.Timer} ==> T.Step(s, te).value.curr == s.curr
  {
    hide T.Reap;
    ReapPointIsReaped(s, te);
    if ReapPoint(s, te).Some? { S.ReapKeepsCurr(ReapPoint(s, te).value); }
  }

  // ----- Descriptors

  lemma ReapEither(s: T.Sys, i: int)
    requires T.WellFormed(s) && T.IsSlot(i)
    ensures T.Reap(s).tasks[i] == s.tasks[i] || T.Reap(s).tasks[i] == T.FREE_TASK
  {}

  /** A descriptor comes from where it was, from the parent by fork, or from sys_open. */
  lemma StepDescriptor(s: T.Sys, te: T.Event, i: int, fd: int)
    requires T.CoreInv(s) && T.Enabled(s, te) && T.Step(s, te).Ok? && T.IsSlot(i) && IsDescriptor(fd)
    ensures
      var f := T.Step(s, te).value.tasks[i].openFiles[fd];
      f == None || f == s.tasks[i].openFiles[fd] || f == s.tasks[s.curr].openFiles[fd] || (te.Open? && f == te.file)
  {
    hide T.Reap, T.ExitTask, T.FindUnused, T.FindChild, T.FindDescriptor;
    ReapPointIsReaped(s, te);
    if ReapPoint(s, te).Some? {
      ReapEither(ReapPoint(s, te).value, i);
    } else if te.Exit? {
      T.ExitEffect(s);
    }
  }

  lemma DescriptorsKept(k: Kernel, d: Done)
    requires IsKernel(k) && T.CoreInv(k.sys) && DescriptorsOk(k.sys.tasks, k.files)
    requires TableKept(k, d) && T.Enabled(k.sys, d.event) && T.Step(k.sys, d.event).Ok?
    ensures DescriptorsOk(T.Step(k.sys, d.event).value.tasks, d.files)
  {
    hide T.Step, T.CoreInv;
    var tasks := T.Step(k.sys, d.event).value.tasks;
    forall i, fd | 0 <= i < |tasks| && 0 <= fd < |tasks[i].openFiles| && tasks[i].openFiles[fd].Some?
      ensures IsOpen(d.files, tasks[i].openFiles[fd].value)
    {
      StepDescriptor(k.sys, d.event, i, fd);
    }
  }

  // ----- The whole step

  /** What a step does that does not panic. */
  ghost predicate Stepped(k: Kernel, e: KEvent, k': Kernel, own: seq<int>)
    requires IsKernel(k) && IsKernel(k') && KEnabled(k, e)
  {
    && k'.bootStack == k.bootStack && k'.retSite == k.retSite
    && Spares(k.sys.tasks, k.mem.ram, k'.mem.ram, {k.sys.curr} + Gone(k.sys.tasks, k'.sys.tasks))
    && SameFrames(k.mem.ram, k'.mem.ram, Elements(Fixed(own, k.files)) - BootFrames(k) - FileWritten(k, e))
    && FilesKept(k.files, k'.files)
  }

  lemma StepBalanced(k: Kernel, e: KEvent, own: seq<int>, registered: set<int>, a: Account) returns (a': Account)
    requires KInv(k, own, registered, a) && KEnabled(k, e) && (FailsEarly(k, e) ==> 0 !in registered)
    ensures KStep(k, e).Panic? <==> Panics(k, e, |a.free|)
    ensures KStep(k, e).Ok? ==>
      && KInv(KStep(k, e).value, own, After(k, e, registered), a')
      && (FailsEarly(k, e) ==> 0 in a'.free)
      && Stepped(k, e, KStep(k, e).value, own)
  {
    hide Effect, T.Step, T.CoreInv, Balanced, Spares, SameFrames, ReapAfter, SaveContext, ContextsAfter, Mid, T.Enabled,
         KEnabled, Fixed, FileWritten, FilesOk, FilesKept, DescriptorsOk, FailsEarly, PagesNeeded;
    a' := EffectOf(k, e, own, registered, a);
    if Effect(k, e).Ok? {
      var d := Effect(k, e).value;
      EffectEvent(k, e);
      T.StepKeepsCore(k.sys, d.event);
      if T.Step(k.sys, d.event).Ok? {
        var sys := T.Step(k.sys, d.event).value;
        var kept := Elements(Fixed(own, k.files)) - BootFrames(k) - FileWritten(k, e);
        StillFixed(own, k.files, d.files, kept);
        var m2 := AfterSwitch(k, e, d, sys, own, registered, a, a', kept);
        a' := FinishStep(k, d.event, m2, Fixed(own, d.files), After(k, e, registered), a', kept);
        ContextsKept(k, e, d.event);
        DescriptorsKept(k, d);
      }
    }
  }

  /** Memory before the reaper. */
  lemma AfterSwitch(k: Kernel, e: KEvent, d: Done, sys: T.Sys, own: seq<int>, registered: set<int>, a: Account,
                    a': Account, kept: set<int>)
      returns (m: Mem)
    requires KInv(k, own, registered, a) && KEnabled(k, e) && Effect(k, e) == Ok(d) && T.Enabled(k.sys, d.event)
    requires EffectDone(k, e, d, own, After(k, e, registered), a') && (Switches(e) ==> a' == a)
    requires kept == Elements(Fixed(own, k.files)) - BootFrames(k) - FileWritten(k, e) &&
      kept <= Elements(Fixed(own, d.files))
    ensures (if Switched(k, e, sys) then SaveContext(k, d.mem, e.out) else Ok(d.mem)) == Ok(m)
    ensures PhaseDone(k, Mid(k.sys, d.event), m, Fixed(own, d.files), After(k, e, registered), a', kept)
  {
    hide Effect, Balanced, Spares, SaveContext, Mid, T.Enabled, Fixed, FileWritten, FilesOk, DescriptorsOk, T.CoreInv,
         ContextsOk, WakeFile, Find;
    EffectEvent(k, e);
    if Switched(k, e, sys) {
      SaveKeeps(k, d.event, e.out, own, registered, a);
      WakeKeeps(own, k.files, Curr(k).parent);
      m := SaveContext(k, k.mem, e.out).value;
    } else {
      m := d.mem;
    }
  }

  /** The kernel gives up none of its pages. */
  lemma StillFixed(own: seq<int>, files: seq<F.File>, files': seq<F.File>, kept: set<int>)
    requires F.IsTable(files) && F.IsTable(files') && FilesKept(files, files') && kept <= Elements(Fixed(own, files))
    ensures kept <= Elements(Fixed(own, files'))
  {
    hide F.FilePages;
    forall g | g in kept ensures g in Fixed(own, files') {
      if g !in own {
        var f := F.FileOfPage(files, g, F.MAX_FILES);
        F.PageOfFile(files', f, F.MAX_FILES);
      }
    }
  }

  /** One step of the kernel panics exactly when init exits without a parent, when it lacks free pages (260 for
      fork, 259 for an execv that loads, 258 for one that fails before, one for a new file), when a byte finds the
      ring full, or when a write leaves the page of its file. Otherwise it leaves every page of every other
      surviving task, and every page of the kernel but the scheduler's own stack and the file that is written, as
      it was; no file is lost. The books of all pages still balance if and only if it is not an execv that fails
      before loading. */
  lemma KStepKeeps(k: Kernel, e: KEvent, own: seq<int>, registered: set<int>, a: Account)
    requires KInv(k, own, registered, a) && KEnabled(k, e) && (FailsEarly(k, e) ==> 0 !in registered)
    ensures KStep(k, e).Panic? <==> Panics(k, e, |a.free|)
    ensures KStep(k, e).Ok? ==> Stepped(k, e, KStep(k, e).value, own)
    ensures KStep(k, e).Ok? ==> exists a' :: KInv(KStep(k, e).value, own, After(k, e, registered), a')
    ensures KStep(k, e).Ok? ==>
      ((exists a' :: KInv(KStep(k, e).value, own, registered, a')) <==> !FailsEarly(k, e))
  {
    hide KStep, Balanced, T.CoreInv, FilesOk, DescriptorsOk, KEnabled, Fixed, FailsEarly, Panics, Stepped;
    var a1 := StepBalanced(k, e, own, registered, a);
    if KStep(k, e).Ok? && FailsEarly(k, e) {
      var k' := KStep(k, e).value;
      forall a' ensures !KInv(k', own, registered, a') {
        BooksList(k'.sys.tasks, k'.mem, Fixed(own, k'.files), registered + {0}, a1);
        NeverBalanced(k'.sys.tasks, k'.mem, Fixed(own, k'.files), registered, a', a1.free);
      }
    }
  }
}
