/** Whole runs of the kernel: pages are conserved, a task that is switched out comes back to exactly what it
    left, and a forked task wakes up as a copy of its parent. */
module KernelRuns {
  import opened Machine
  import opened PageAllocator
  import opened Bytes
  import opened AddressSpace
  import opened SpaceCopy
  import opened Accounts
  import opened Context
  import opened Kernel
  import opened Conservation
  import opened KernelInv
  import opened KernelEffects
  import opened KernelFiles
  import opened KernelSteps
  import Elf
  import F = FileTable
  import T = Tasks
  import U = UserStack
  import S = Scheduling

  /** The events es take the kernel from k to k'. */
  ghost predicate KReaches(k: Kernel, es: seq<KEvent>, k': Kernel)
    decreases |es|
  {
    && IsKernel(k) && IsKernel(k')
    && if es == [] then k' == k
       else KEnabled(k, es[0]) && KStep(k, es[0]).Ok? && KReaches(KStep(k, es[0]).value, es[1..], k')
  }

  /** How often in a run an execv fails before it loads a program. */
  ghost function EarlyFailures(k: Kernel, es: seq<KEvent>): nat
    requires IsKernel(k)
    decreases |es|
  {
    if es == [] || !KEnabled(k, es[0]) || KStep(k, es[0]).Panic? then 0
    else (if FailsEarly(k, es[0]) then 1 else 0) + EarlyFailures(KStep(k, es[0]).value, es[1..])
  }

  /** Frame 0 is freed at most once, counting the time that has put it among the registered pages. */
  ghost predicate FreesZeroOnce(k: Kernel, es: seq<KEvent>, registered: set<int>)
    requires IsKernel(k)
  {
    EarlyFailures(k, es) + (if 0 in registered then 1 else 0) <= 1
  }

  ghost function RunAfter(k: Kernel, es: seq<KEvent>, registered: set<int>): set<int>
    requires IsKernel(k)
  {
    if EarlyFailures(k, es) == 0 then registered else registered + {0}
  }

  /** One step of such a run. */
  lemma RunStep(k: Kernel, es: seq<KEvent>, k': Kernel, own: seq<int>, registered: set<int>, a: Account)
      returns (k1: Kernel, a1: Account)
    requires KInv(k, own, registered, a) && KReaches(k, es, k') && FreesZeroOnce(k, es, registered) && es != []
    ensures KEnabled(k, es[0]) && KStep(k, es[0]) == Ok(k1) && (FailsEarly(k, es[0]) ==> 0 !in registered)
    ensures KInv(k1, own, After(k, es[0], registered), a1) && Stepped(k, es[0], k1, own)
    ensures KReaches(k1, es[1..], k') && FreesZeroOnce(k1, es[1..], After(k, es[0], registered))
    ensures RunAfter(k, es, registered) == RunAfter(k1, es[1..], After(k, es[0], registered))
    ensures EarlyFailures(k, es) == (if FailsEarly(k, es[0]) then 1 else 0) + EarlyFailures(k1, es[1..])
  {
    hide KStep, Balanced, T.CoreInv, FilesOk, DescriptorsOk, ContextsOk, Fixed, FailsEarly, KEnabled;
    k1 := KStep(k, es[0]).value;
    a1 := StepBalanced(k, es[0], own, registered, a);
  }

  /** Page conservation over every run: the free pages, the pages of the kernel and of the files, and the 260 pages
      of every task are at any time exactly the registered pages, each once. One early failure of an execv adds
      frame 0 to them. */
  lemma {:induction false} RunConserves(k: Kernel, es: seq<KEvent>, k': Kernel, own: seq<int>, registered: set<int>,
                                        a: Account)
    requires KInv(k, own, registered, a) && KReaches(k, es, k') && FreesZeroOnce(k, es, registered)
    ensures exists a' :: KInv(k', own, RunAfter(k, es, registered), a')
    decreases |es|
  {
    hide KInv, KStep, Stepped;
    if es == [] {
      RunEnds(k, es, k', own, registered, a);
    } else {
      var k1, a1 := RunStep(k, es, k', own, registered, a);
      RunConserves(k1, es[1..], k', own, After(k, es[0], registered), a1);
    }
  }

  lemma RunEnds(k: Kernel, es: seq<KEvent>, k': Kernel, own: seq<int>, registered: set<int>, a: Account)
    requires KInv(k, own, registered, a) && KReaches(k, es, k') && es == []
    ensures k' == k && RunAfter(k, es, registered) == registered
  {}

  /** The files in use. */
  function FilesInUse(files: seq<F.File>, n: nat): (fs: set<int>)
    requires n <= |files|
  {
    set f | 0 <= f < n && files[f].inUse
  }

  lemma {:induction false} PagesOfFiles(files: seq<F.File>, n: nat)
    requires F.IsTable(files) && FilesOk(files) && n <= F.MAX_FILES
    ensures |F.FilePages(files, n)| == |FilesInUse(files, n)|
  {
    hide F.OwnPage, FilesInUse;
    if n > 0 {
      PagesOfFiles(files, n - 1);
      OneFile(files, n);
      PageOfOne(files, n);
    } else {
      NoneInUse(files);
    }
  }

  lemma NoneInUse(files: seq<F.File>)
    ensures FilesInUse(files, 0) == {}
  {}

  lemma OneFile(files: seq<F.File>, n: nat)
    requires 0 < n <= |files|
    ensures |FilesInUse(files, n)| == |FilesInUse(files, n - 1)| + if files[n - 1].inUse then 1 else 0
  {
    if files[n - 1].inUse {
      assert FilesInUse(files, n) == FilesInUse(files, n - 1) + {n - 1};
    } else {
      assert FilesInUse(files, n) == FilesInUse(files, n - 1);
    }
  }

  lemma PageOfOne(files: seq<F.File>, n: nat)
    requires F.IsTable(files) && FilesOk(files) && 0 < n <= F.MAX_FILES
    ensures |F.OwnPage(files[n - 1])| == if files[n - 1].inUse then 1 else 0
  {}

  /** In numbers: nothing leaks and nothing is invented; each new file takes one page, and an execv that fails early
      adds one. */
  lemma RunCounts(k: Kernel, es: seq<KEvent>, k': Kernel, own: seq<int>, registered: set<int>, a: Account)
    requires KInv(k, own, registered, a) && KReaches(k, es, k') && FreesZeroOnce(k, es, registered)
    ensures exists free :: (
      && IsFreeList(k'.mem, free)
      && |free| + |own| + |FilesInUse(k'.files, F.MAX_FILES)| + 260 * |Owners(k'.sys.tasks)|
         == |registered| + EarlyFailures(k, es))
  {
    hide KInv, RunAfter, EarlyFailures, IsFreeList, FreesZeroOnce, KReaches;
    InvIsCore(k, own, registered, a);
    RunConserves(k, es, k', own, registered, a);
    var a' :| KInv(k', own, RunAfter(k, es, registered), a');
    RunAfterSize(k, es, registered);
    InvCounts(k', own, RunAfter(k, es, registered), a');
  }

  lemma RunAfterSize(k: Kernel, es: seq<KEvent>, registered: set<int>)
    requires IsKernel(k) && FreesZeroOnce(k, es, registered)
    ensures |RunAfter(k, es, registered)| == |registered| + EarlyFailures(k, es)
  {
    hide EarlyFailures;
  }

  lemma InvCounts(k: Kernel, own: seq<int>, registered: set<int>, a: Account)
    requires KInv(k, own, registered, a)
    ensures IsKernel(k) && IsFreeList(k.mem, a.free)
    ensures |a.free| + |own| + |FilesInUse(k.files, F.MAX_FILES)| + 260 * |Owners(k.sys.tasks)| == |registered|
  {
    hide Balanced, T.CoreInv, F.FilePages;
    BooksList(k.sys.tasks, k.mem, Fixed(own, k.files), registered, a);
    BalancedCount(k.sys.tasks, k.mem, Fixed(own, k.files), registered, a);
    PagesOfFiles(k.files, F.MAX_FILES);
  }

  // ----- The task table inside the kernel

  /** A step of the kernel is a step of the task table, so that all that holds of runs of the table holds of
      runs of the kernel. */
  lemma {:induction false} RunProjects(k: Kernel, es: seq<KEvent>, k': Kernel)
    requires KReaches(k, es, k')
    ensures exists tes :: |tes| == |es| && T.Reaches(k.sys, tes, k'.sys)
    decreases |es|
  {
    hide Effect, KEnabled, T.Step, SaveContext, ReapAfter;
    if es == [] {
      assert T.Reaches(k.sys, [], k'.sys);
    } else {
      var k1 := KStep(k, es[0]).value;
      var te := Effect(k, es[0]).value.event;
      RunProjects(k1, es[1..], k');
      var tes :| |tes| == |es[1..]| && T.Reaches(k1.sys, tes, k'.sys);
      assert ([te] + tes)[1..] == tes;
      assert T.Reaches(k.sys, [te] + tes, k'.sys);
    }
  }

  // ----- Tasks that are switched out

  /** The words of a slot's kernel stack. */
  function StackWords(k: Kernel, i: int): Frame
    requires IsKernel(k) && T.IsSlot(i) && Valid(StackOf(k, i))
  {
    k.mem.ram[StackOf(k, i).value]
  }

  /** All that belongs to slot i, memory and saved context, is in k' what it was in k. */
  ghost predicate Preserved(k: Kernel, k': Kernel, i: int) {
    && IsKernel(k) && IsKernel(k') && T.IsSlot(i)
    && T.Live(k'.sys.tasks[i])
    && k'.contexts[i] == k.contexts[i]
    && Valid(StackOf(k, i)) && StackOf(k', i) == StackOf(k, i) && StackWords(k', i) == StackWords(k, i)
    && (i != 0 ==>
          && k'.sys.tasks[i].pgdir == k.sys.tasks[i].pgdir
          && TaskOk(k.mem.ram, k.sys.tasks[i])
          && Untouched(k.mem.ram, k'.mem.ram, k.sys.tasks[i]))
  }

  lemma StepKeepsPages(s: T.Sys, te: T.Event, i: int)
    requires T.CoreInv(s) && T.Enabled(s, te) && T.Step(s, te).Ok?
    requires T.IsSlot(i) && i != s.curr && T.Live(s.tasks[i])
    ensures T.Live(T.Step(s, te).value.tasks[i]) && SameOwner(s.tasks[i], T.Step(s, te).value.tasks[i], i)
  {
    hide T.Step, ReapPoint, T.Reap, Mid;
    S.StepTransition(s, te);
    assert S.TaskTransition(s, te, T.Step(s, te).value, i);
    assert T.SlotCore(s.tasks[i], i, s.curr);
    ReapPointIsReaped(s, te);
    if ReapPoint(s, te).Some? {
      MidOthers(s, te);
      MidIsReapPoint(s, te);
      ReapEither(ReapPoint(s, te).value, i);
    } else {
      StepSameOwner(s, te, i);
    }
  }

  lemma MidIsReapPoint(s: T.Sys, te: T.Event)
    requires T.WellFormed(s) && T.Enabled(s, te) && ReapPoint(s, te).Some?
    ensures Mid(s, te) == ReapPoint(s, te).value.tasks
  {}

  /** The parts of a step that are not memory. */
  lemma StepParts(k: Kernel, e: KEvent, i: int)
    requires IsKernel(k) && KEnabled(k, e) && KStep(k, e).Ok? && T.IsSlot(i)
    ensures Effect(k, e).Ok? && T.Enabled(k.sys, Effect(k, e).value.event)
    ensures T.Step(k.sys, Effect(k, e).value.event) == Ok(KStep(k, e).value.sys)
    ensures i != k.sys.curr && k.sys.tasks[i].state != T.Unused ==> KStep(k, e).value.contexts[i] == k.contexts[i]
  {
    hide Effect, KEnabled, T.Step, SaveContext, ReapAfter;
    EffectEvent(k, e);
    ContextsElse(k, e, i);
  }

  lemma ContextsElse(k: Kernel, e: KEvent, i: int)
    requires IsKernel(k) && KEnabled(k, e) && T.IsSlot(i)
    ensures i != k.sys.curr && k.sys.tasks[i].state != T.Unused ==>
      ContextsAfter(k, e, false)[i] == k.contexts[i] && (Switches(e) ==> ContextsAfter(k, e, true)[i] == k.contexts[i])
  {}

  /** One step preserves every live slot but the running one. */
  lemma StepPreserves(k: Kernel, e: KEvent, own: seq<int>, registered: set<int>, a: Account, i: int)
    requires KInv(k, own, registered, a) && KEnabled(k, e) && (FailsEarly(k, e) ==> 0 !in registered) && KStep(k, e).Ok?
    requires T.IsSlot(i) && i != k.sys.curr && T.Live(k.sys.tasks[i])
    ensures Preserved(k, KStep(k, e).value, i)
  {
    hide Effect, KEnabled, FailsEarly, FilesOk, DescriptorsOk, FileWritten, Fixed, T.Step, KStep, T.CoreInv, Sum,
         Balanced, TaskOk, Untouched;
    var k' := KStep(k, e).value;
    var a1 := StepBalanced(k, e, own, registered, a);
    StepParts(k, e, i);
    StepKeepsPages(k.sys, Effect(k, e).value.event, i);
    if i != 0 {
      SlotStack(k, own, registered, a, i);
      assert TaskOk(k.mem.ram, k.sys.tasks[i]) && Untouched(k.mem.ram, k'.mem.ram, k.sys.tasks[i]);
      UntouchedKeeps(k.mem.ram, k'.mem.ram, k.sys.tasks[i]);
    } else {
      BootStackKept(k, e, own, registered, a);
    }
  }

  /** The stack of main is no page of a file. */
  lemma BootStackKept(k: Kernel, e: KEvent, own: seq<int>, registered: set<int>, a: Account)
    requires KInv(k, own, registered, a) && KEnabled(k, e)
    ensures k.bootStack in Fixed(own, k.files) && k.bootStack !in FileWritten(k, e)
  {
    hide Balanced, F.FilePages, T.CoreInv;
    var pages := F.FilePages(k.files, F.MAX_FILES);
    OwnedOnce(k.sys.tasks, k.mem, own, pages, registered, a, k.bootStack);
    if e.Write? && WritesFile(k, e.fd) {
      var f := FileOf(k, e.fd).value;
      DescriptorOpen(k, own, registered, a, e.fd);
      F.PageOfFile(k.files, f, F.MAX_FILES);
    } else if e.Open? && F.GetFile(k.files, e.path).Some? {
      FoundInUse(k.files, e.path);
      F.PageOfFile(k.files, F.GetFile(k.files, e.path).value, F.MAX_FILES);
    }
  }

  lemma OwnedOnce(tasks: seq<T.Task>, m: Mem, own: seq<int>, pages: seq<int>, registered: set<int>, a: Account, f: int)
    requires Balanced(tasks, m, own + pages, registered, a) && f in own
    ensures f !in pages
  {
    SetMultiplicity(registered, f);
    var total := multiset(a.free) + multiset(own + pages) + Sum(a.parts);
    assert multiset(own + pages) == multiset(own) + multiset(pages);
    assert total[f] <= 1 && f in multiset(own);
    assert f !in multiset(pages);
  }

  lemma SlotStack(k: Kernel, own: seq<int>, registered: set<int>, a: Account, i: int)
    requires KInv(k, own, registered, a) && T.IsSlot(i) && Owns(i, k.sys.tasks[i])
    ensures TaskOk(k.mem.ram, k.sys.tasks[i]) && Valid(StackOf(k, i))
  {
    assert PartOk(k.mem.ram, i, k.sys.tasks[i], a.parts[i]);
  }

  /** Slot i is not current before the last state of the run. */
  ghost predicate Away(k: Kernel, es: seq<KEvent>, i: int)
    requires IsKernel(k)
    decreases |es|
  {
    if es == [] || !KEnabled(k, es[0]) || KStep(k, es[0]).Panic? then true
    else k.sys.curr != i && Away(KStep(k, es[0]).value, es[1..], i)
  }

  lemma PreservedTwice(k: Kernel, k1: Kernel, k2: Kernel, i: int)
    requires Preserved(k, k1, i) && Preserved(k1, k2, i)
    ensures Preserved(k, k2, i)
  {
    hide TaskOk, Untouched;
    if i != 0 {
      UntouchedTwice(k.mem.ram, k1.mem.ram, k2.mem.ram, k.sys.tasks[i], k1.sys.tasks[i]);
    }
  }

  lemma PreservedSame(k: Kernel, own: seq<int>, registered: set<int>, a: Account, i: int)
    requires KInv(k, own, registered, a) && T.IsSlot(i) && T.Live(k.sys.tasks[i])
    ensures Preserved(k, k, i)
  {
    hide TaskOk, Sum;
    if i != 0 { SlotStack(k, own, registered, a, i); }
  }

  /** Whatever the others do, for as long as they do it. */
  lemma {:induction false} RunPreserves(k: Kernel, es: seq<KEvent>, k': Kernel, own: seq<int>, registered: set<int>,
                                        a: Account, i: int)
    requires KInv(k, own, registered, a) && KReaches(k, es, k') && FreesZeroOnce(k, es, registered)
    requires T.IsSlot(i) && T.Live(k.sys.tasks[i]) && Away(k, es, i)
    ensures Preserved(k, k', i)
    decreases |es|
  {
    hide KInv, KEnabled, KStep, Preserved, FailsEarly, Stepped;
    if es == [] {
      RunEnds(k, es, k', own, registered, a);
      PreservedSame(k, own, registered, a, i);
    } else {
      var k1, a1 := RunStep(k, es, k', own, registered, a);
      StepPreserves(k, es[0], own, registered, a, i);
      LiveAfter(k, k1, i);
      RunPreserves(k1, es[1..], k', own, After(k, es[0], registered), a1, i);
      PreservedTwice(k, k1, k', i);
    }
  }

  lemma LiveAfter(k: Kernel, k': Kernel, i: int)
    requires Preserved(k, k', i)
    ensures T.Live(k'.sys.tasks[i])
  {}

  // ----- Context integrity

  /** A task that gives up the processor does not reap. */
  lemma SwitchedNoReap(s: T.Sys, te: T.Event)
    requires T.CoreInv(s) && T.Enabled(s, te) && T.Step(s, te).Ok?
    requires s.curr != 0 && T.Step(s, te).value.curr != s.curr
    ensures ReapPoint(s, te) == None
  {}

  /** What a switch leaves of the slot it leaves. */
  ghost predicate SwitchedOut(k: Kernel, out: Outgoing, k1: Kernel, c: int) {
    && IsKernel(k) && IsKernel(k1) && T.IsSlot(c) && OutgoingOk(out)
    && T.Live(k1.sys.tasks[c])
    && k1.contexts[c] == out.sp - 8
    && Valid(StackOf(k, c)) && StackOf(k1, c) == StackOf(k, c)
    && StackWords(k1, c) == SwitchOut(StackWords(k, c), StackOf(k, c).value, out.regs, out.sp, out.next,
                                      out.nextContext).words
  }

  /** The parts of a step that switches. */
  lemma SwitchParts(k: Kernel, e: KEvent)
    requires IsKernel(k) && KEnabled(k, e) && KStep(k, e).Ok? && Switched(k, e, KStep(k, e).value.sys)
    ensures Effect(k, e).Ok? && T.Enabled(k.sys, Effect(k, e).value.event)
    ensures
      var te, k1 := Effect(k, e).value.event, KStep(k, e).value;
      && Effect(k, e).value.mem == k.mem
      && te in {T.Scan, T.Exit, T.Wait, T.Timer} && (te.Exit? <==> e.Exit?)
      && SaveContext(k, k.mem, e.out).Ok?
      && ReapAfter(k.sys, te, SaveContext(k, k.mem, e.out).value) == Ok(k1.mem)
      && k1.contexts[k.sys.curr] == e.out.sp - 8 && k1.bootStack == k.bootStack
  {
    hide Effect, KEnabled, SaveContext, ReapAfter, T.Step;
    EffectEvent(k, e);
  }

  lemma SwitchSaves(k: Kernel, e: KEvent, own: seq<int>, registered: set<int>, a: Account)
    requires KInv(k, own, registered, a) && KEnabled(k, e) && !e.Exit?
    requires KStep(k, e).Ok? && Switched(k, e, KStep(k, e).value.sys)
    ensures SwitchedOut(k, e.out, KStep(k, e).value, k.sys.curr)
  {
    hide Effect, T.Step, KStep, T.CoreInv, Sum, PartOk, IsFreeList, TaskOk, SwitchOut, ReapMemory, Mid, Spares, FilesOk,
         DescriptorsOk, Find, WritesFile;
    var c, k1 := k.sys.curr, KStep(k, e).value;
    StepParts(k, e, c);
    SwitchParts(k, e);
    var te := Effect(k, e).value.event;
    var m2 := SaveContext(k, k.mem, e.out).value;
    StillLive(k.sys, te);
    if c == 0 {
      var fixed := Fixed(own, k.files);
      SaveKeeps(k, te, e.out, own, registered, a);
      var a' := FinishStep(k, te, m2, fixed, registered, a, Elements(fixed) - BootFrames(k));
      assert k.bootStack in Elements(fixed);
      assert k1.mem.ram[k.bootStack] == m2.ram[k.bootStack];
    } else {
      SwitchedNoReap(k.sys, te);
    }
  }

  /** A task that is switched out other than by exiting keeps its pages and can come back. */
  lemma StillLive(s: T.Sys, te: T.Event)
    requires T.CoreInv(s) && T.Enabled(s, te) && te in {T.Scan, T.Wait, T.Timer} && T.Step(s, te).Ok?
    requires T.Step(s, te).value.curr != s.curr
    ensures T.Live(T.Step(s, te).value.tasks[s.curr]) &&
      SameOwner(s.tasks[s.curr], T.Step(s, te).value.tasks[s.curr], s.curr)
  {
    hide T.Step, ReapPoint;
    S.StepTransition(s, te);
    assert S.TaskTransition(s, te, T.Step(s, te).value, s.curr);
    assert T.SlotCore(s.tasks[s.curr], s.curr, s.curr);
    if s.curr != 0 {
      SwitchedNoReap(s, te);
      StepSameOwner(s, te, s.curr);
    }
    T.StepKeepsCore(s, te);
    assert T.SlotCore(T.Step(s, te).value.tasks[s.curr], s.curr, T.Step(s, te).value.curr);
  }

  /** Context integrity, for every interleaving: a task (or the scheduler) that is switched out at a step, by a
      tick, by sleeping or by dispatching, finds its registers, its stack pointer, its return address and
      the rest of its stack as they were, whenever and after whatever it is switched in again. */
  lemma ContextIntegrity(k: Kernel, e: KEvent, k1: Kernel, es: seq<KEvent>, k2: Kernel, own: seq<int>,
                         registered: set<int>, a: Account)
    requires KInv(k, own, registered, a) && KEnabled(k, e) && !e.Exit?
    requires KStep(k, e) == Ok(k1) && Switched(k, e, k1.sys)
    requires KReaches(k1, es, k2) && FreesZeroOnce(k1, es, registered) && Away(k1, es, k.sys.curr)
    ensures var c, out := k.sys.curr, e.out;
      && Valid(StackOf(k, c)) && StackOf(k2, c) == StackOf(k, c)
      && 0 <= k2.contexts[c] <= 1015
      && SwitchIn(StackWords(k2, c), k2.contexts[c])
         == Cpu(out.regs.(edx := out.next, eax := out.nextContext), out.sp + 1, StackWords(k, c)[out.sp])
      && forall j :: out.sp <= j < 1024 ==> StackWords(k2, c)[j] == StackWords(k, c)[j]
  {
    hide KStep, KReaches, FreesZeroOnce, Away, Stepped, Balanced, T.CoreInv, SwitchOut, SwitchIn, TaskOk, Untouched,
         FilesOk, DescriptorsOk, Fixed, KEnabled;
    var c, out := k.sys.curr, e.out;
    SwitchSaves(k, e, own, registered, a);
    var a1 := StepBalanced(k, e, own, registered, a);
    RunPreserves(k1, es, k2, own, registered, a1, c);
    SwitchRoundTrip(StackWords(k, c), StackOf(k, c).value, out.regs, out.sp, out.next, out.nextContext);
  }

  // ----- Fork returns twice

  /** The parent is inside the trap in which the user state u was saved on its kernel stack. */
  ghost predicate InTrap(words: Frame, frame: int, u: User, vector: Word, error: Word)
    requires IsFrame(frame)
  {
    forall j :: TRAP_FRAME <= j < KSTACK_TOP ==> words[j] == TrapEntry(words, frame, u, vector, error).words[j]
  }

  lemma InTrapIsEntry(words: Frame, frame: int, u: User, vector: Word, error: Word)
    requires IsFrame(frame) && InTrap(words, frame, u, vector, error)
    ensures TrapEntry(words, frame, u, vector, error).words == words
  {
    hide PushSeq, PushAll;
    var saved := SavedState(u, vector, error);
    var st := PushSeq(Stack(words, KSTACK_TOP), saved);
    PushSeqWords(Stack(words, KSTACK_TOP), saved);
    PushAllWords(st, frame, u.regs);
    var w := TrapEntry(words, frame, u, vector, error).words;
    forall j | 0 <= j < 1024 ensures w[j] == words[j] {
      if j < TRAP_FRAME || j >= KSTACK_TOP { assert st.words[j] == words[j]; }
    }
  }

  /** The child of a fork, right after it. */
  ghost predicate ChildMade(k: Kernel, k1: Kernel, n: int) {
    && IsKernel(k) && IsKernel(k1) && T.IsSlot(n) && n != 0
    && TaskOk(k.mem.ram, Curr(k)) && TaskOk(k1.mem.ram, k1.sys.tasks[n])
    && T.Live(k1.sys.tasks[n]) && k1.contexts[n] == CONTEXT
    && (exists before :: StackWords(k1, n) == ChildStack(before, k.mem.ram[Curr(k).kstack.value], k.retSite))
    && k1.mem.ram[UserFrame(k1.mem.ram, k1.sys.tasks[n].pgdir.value)]
      == k.mem.ram[UserFrame(k.mem.ram, Curr(k).pgdir.value)]
  }

  lemma ForkShape(k: Kernel, own: seq<int>, registered: set<int>, a: Account)
      returns (stack: int, dir: int, m: Mem, a1: Account)
    requires KInv(k, own, registered, a) && KEnabled(k, Fork) && |a.free| >= 260
    ensures Effect(k, Fork) == Ok(Changed(k, T.Fork(dir, stack), m))
    ensures EffectDone(k, Fork, Changed(k, T.Fork(dir, stack), m), own, registered, a1)
    ensures TaskOk(k.mem.ram, Curr(k)) && Forked(k.mem, m, a.free, Curr(k), ForkChild(k, dir, stack), k.retSite)
  {
    hide Effect, ForkMemory, T.Step, T.CoreInv, T.Enabled, Sum, PartOk, TaskOk, TaskFrames, SaveContext, ReapAfter,
         Forked, EffectDone;
    CurrOwns(k, own, registered, a);
    ForkMemoryForks(k.mem, a.free, Curr(k), k.retSite);
    a1 := ForkEffect(k, own, registered, a);
    ForkIs(k);
    var r := ForkMemory(k.mem, Curr(k), k.retSite).value;
    stack, dir, m := r.0, r.1, r.2;
  }

  /** The parts of a step that does not switch. */
  lemma QuietParts(k: Kernel, e: KEvent, d: Done)
    requires IsKernel(k) && KEnabled(k, e) && !Switches(e) && Effect(k, e) == Ok(d)
    requires T.Enabled(k.sys, d.event) && T.Step(k.sys, d.event).Ok? && ReapAfter(k.sys, d.event, d.mem).Ok?
    ensures KStep(k, e) ==
      Ok(Kernel(T.Step(k.sys, d.event).value, ReapAfter(k.sys, d.event, d.mem).value, d.files, d.console,
                ContextsAfter(k, e, false),
                k.bootStack, k.retSite))
  {
    hide Effect, KEnabled, T.Step, ReapAfter, ContextsAfter;
  }

  lemma ForkMakesChild(k: Kernel, own: seq<int>, registered: set<int>, a: Account)
    requires KInv(k, own, registered, a) && KEnabled(k, Fork) && |a.free| >= 260
    ensures KStep(k, Fork).Ok? && ChildMade(k, KStep(k, Fork).value, T.FindUnused(k.sys.tasks, 0))
  {
    hide KStep, KEnabled, ForkMemory, Effect, T.CoreInv, T.Step, T.Enabled, Balanced, UserSpace, TaskFrames, ChildStack,
         Untouched, UserFrame, WritesOnly, ReapAfter, EffectDone, T.FindUnused, KInv;
    ForkAble(k, own, registered, a);
    var n := T.FindUnused(k.sys.tasks, 0);
    var stack, dir, m, a1 := ForkShape(k, own, registered, a);
    var child := ForkChild(k, dir, stack);
    ForkKeepsChild(k, dir, stack, m, own, registered, a1);
    QuietParts(k, Fork, Changed(k, T.Fork(dir, stack), m));
    var k1 := KStep(k, Fork).value;
    UntouchedKeeps(m.ram, k1.mem.ram, child);
    StackOfTask(k1, n, child);
    assert StackWords(k1, n) == ChildStack(k.mem.ram[stack], k.mem.ram[Curr(k).kstack.value], k.retSite);
  }

  lemma ForkAble(k: Kernel, own: seq<int>, registered: set<int>, a: Account)
    requires KInv(k, own, registered, a) && KEnabled(k, Fork)
    ensures IsKernel(k) && T.CoreInv(k.sys) && k.sys.curr != 0 && T.IsSlot(T.FindUnused(k.sys.tasks, 0))
  {}

  lemma StackOfTask(k: Kernel, i: int, t: T.Task)
    requires IsKernel(k) && T.IsSlot(i) && i != 0 && k.sys.tasks[i] == t && TaskOk(k.mem.ram, t)
    ensures StackOf(k, i) == t.kstack && Valid(t.kstack) && IsFrame(UserFrame(k.mem.ram, t.pgdir.value))
  {}

  /** The reaper at the end of the fork leaves the child alone. */
  lemma ForkKeepsChild(k: Kernel, dir: int, stack: int, m: Mem, own: seq<int>, registered: set<int>, a1: Account)
    requires IsKernel(k) && T.CoreInv(k.sys) && KEnabled(k, Fork)
    requires EffectDone(k, Fork, Changed(k, T.Fork(dir, stack), m), own, registered, a1)
    ensures var te, n := T.Fork(dir, stack), T.FindUnused(k.sys.tasks, 0);
      && T.Enabled(k.sys, te) && T.Step(k.sys, te).Ok? &&
        T.Step(k.sys, te).value.tasks[n] == ForkChild(k, dir, stack) && n != 0
      && ReapAfter(k.sys, te, m).Ok?
      && TaskOk(m.ram, ForkChild(k, dir, stack)) &&
        Untouched(m.ram, ReapAfter(k.sys, te, m).value.ram, ForkChild(k, dir, stack))
  {
    hide Sum, PartOk, IsFreeList, TaskOk, Untouched, ReapMemory, T.Reap, Fixed, T.FindUnused, Spares;
    var n := T.FindUnused(k.sys.tasks, 0);
    assert T.SlotCore(k.sys.tasks[0], 0, k.sys.curr);
    var a2 := FinishStep(k, T.Fork(dir, stack), m, Fixed(own, k.files), registered, a1, {});
    ReapSparesRunnable(T.ForkTask(k.sys, dir, stack), n);
    ChildSpared(k, dir, stack, m, T.Step(k.sys, T.Fork(dir, stack)).value.tasks,
                ReapAfter(k.sys, T.Fork(dir, stack), m).value.ram);
  }

  lemma ChildSpared(k: Kernel, dir: int, stack: int, m: Mem, tasks': seq<T.Task>, ram': seq<Frame>)
    requires IsKernel(k) && T.CoreInv(k.sys) && KEnabled(k, Fork) && |tasks'| == T.MAX_TASKS
    requires var te, n := T.Fork(dir, stack), T.FindUnused(k.sys.tasks, 0);
      tasks'[n] == ForkChild(k, dir, stack) && n != 0 &&
        Spares(Mid(k.sys, te), m.ram, ram', Gone(Mid(k.sys, te), tasks'))
    ensures TaskOk(m.ram, ForkChild(k, dir, stack)) && Untouched(m.ram, ram', ForkChild(k, dir, stack))
  {
    hide TaskOk, Untouched, T.FindUnused;
    var n := T.FindUnused(k.sys.tasks, 0);
    assert Mid(k.sys, T.Fork(dir, stack))[n] == ForkChild(k, dir, stack);
    assert Owns(n, ForkChild(k, dir, stack));
  }

  lemma ReapSparesRunnable(s: T.Sys, n: int)
    requires T.WellFormed(s) && T.IsSlot(n) && s.tasks[n].state == T.Runnable
    ensures T.Reap(s).tasks[n] == s.tasks[n]
  {}

  /** fork returns twice: the child's first dispatch, after whatever the others did meanwhile, runs the
      fabricated context and trap frame down to user mode with its stack exactly consumed; it is where its
      parent was, with the parent's registers and user stack, except that eax is 0; and its page 0 is a copy
      of its parent's, in a frame that nobody else owns. */
  lemma ForkReturnsTwice(k: Kernel, k1: Kernel, es: seq<KEvent>, k2: Kernel, own: seq<int>, registered: set<int>,
                         a: Account,
                         u: User, vector: Word, error: Word)
    requires KInv(k, own, registered, a) && KEnabled(k, Fork)
    requires KStep(k, Fork) == Ok(k1)
    requires Valid(Curr(k).kstack) && InTrap(k.mem.ram[Curr(k).kstack.value], Curr(k).kstack.value, u, vector, error)
    requires KReaches(k1, es, k2) && FreesZeroOnce(k1, es, registered) && Away(k1, es, T.FindUnused(k.sys.tasks, 0))
    ensures Valid(StackOf(k2, T.FindUnused(k.sys.tasks, 0))) && k2.contexts[T.FindUnused(k.sys.tasks, 0)] == CONTEXT
    ensures
      var words := StackWords(k2, T.FindUnused(k.sys.tasks, 0));
      var cpu := SwitchIn(words, CONTEXT);
      var (u', st') := TrapReturn(Stack(words, cpu.sp));
      && cpu.eip == k.retSite && cpu.sp == TRAP_FRAME
      && st'.sp == KSTACK_TOP
      && u' == User(u.regs.(eax := 0), 0, 0, USER_DATA, USER_DATA, u.eip, USER_CODE, FL_IF, u.esp, USER_DATA)
    ensures TaskOk(k.mem.ram, Curr(k)) && TaskOk(k2.mem.ram, k2.sys.tasks[T.FindUnused(k.sys.tasks, 0)])
    ensures
      var n := T.FindUnused(k.sys.tasks, 0);
      var page := UserFrame(k2.mem.ram, k2.sys.tasks[n].pgdir.value);
      && k2.mem.ram[page] == k.mem.ram[UserFrame(k.mem.ram, Curr(k).pgdir.value)]
      && forall j :: 0 <= j < T.MAX_TASKS && j != n && Owns(j, k2.sys.tasks[j]) ==>
           TaskOk(k2.mem.ram, k2.sys.tasks[j]) && page !in TaskFrames(k2.mem.ram, k2.sys.tasks[j])
  {
    hide KStep, KEnabled, Balanced, T.CoreInv, SwitchIn, TrapReturn, TrapEntry, ChildStack, UserSpace, TaskFrames,
         Untouched, UserFrame, FilesOk, DescriptorsOk, Fixed, Stepped, KReaches, FreesZeroOnce, Away, RunAfter;
    var n := T.FindUnused(k.sys.tasks, 0);
    ForkNeeds(k, own, registered, a);
    var a1 := StepBalanced(k, Fork, own, registered, a);
    ForkMakesChild(k, own, registered, a);
    RunPreserves(k1, es, k2, own, registered, a1, n);
    UntouchedKeeps(k1.mem.ram, k2.mem.ram, k1.sys.tasks[n]);
    var parent := k.mem.ram[Curr(k).kstack.value];
    InTrapIsEntry(parent, Curr(k).kstack.value, u, vector, error);
    var before :| StackWords(k1, n) == ChildStack(before, parent, k.retSite);
    ChildReturnsFromFork(before, parent, Curr(k).kstack.value, u, vector, error, k.retSite);
    RunConserves(k1, es, k2, own, registered, a1);
    var a2 :| KInv(k2, own, RunAfter(k1, es, registered), a2);
    PageIsPrivate(k2, own, RunAfter(k1, es, registered), a2, n);
  }

  /** A fork that succeeds has found its pages. */
  lemma ForkNeeds(k: Kernel, own: seq<int>, registered: set<int>, a: Account)
    requires KInv(k, own, registered, a) && KEnabled(k, Fork) && KStep(k, Fork).Ok?
    ensures |a.free| >= 260
  {
    hide KStep, Balanced, T.CoreInv, Fixed, Stepped;
    var a1 := StepBalanced(k, Fork, own, registered, a);
  }

  lemma PageIsPrivate(k: Kernel, own: seq<int>, registered: set<int>, a: Account, n: int)
    requires KInv(k, own, registered, a) && T.IsSlot(n) && Owns(n, k.sys.tasks[n]) && TaskOk(k.mem.ram, k.sys.tasks[n])
    ensures forall j :: 0 <= j < T.MAX_TASKS && j != n && Owns(j, k.sys.tasks[j]) ==>
      TaskOk(k.mem.ram, k.sys.tasks[j])
      && UserFrame(k.mem.ram, k.sys.tasks[n].pgdir.value) !in TaskFrames(k.mem.ram, k.sys.tasks[j])
  {
    hide TaskFrames, Sum, UserSpace, UserFrame, Fixed;
    FramesContain(k.mem.ram, k.sys.tasks[n]);
    OneOwner(k.sys.tasks, k.mem, Fixed(own, k.files), registered, a, n,
             UserFrame(k.mem.ram, k.sys.tasks[n].pgdir.value));
    forall j | 0 <= j < T.MAX_TASKS && j != n && Owns(j, k.sys.tasks[j]) ensures TaskOk(k.mem.ram, k.sys.tasks[j]) {
      assert PartOk(k.mem.ram, j, k.sys.tasks[j], a.parts[j]);
    }
  }

  // ----- execv replaces a program

  /** sys_execv returns to user mode at the new entry. */
  lemma StartedReturn(words: Frame, frame: int, u: User, vector: Word, error: Word, entry: Word, esp: Word, ret: Word)
    requires IsFrame(frame) && InTrap(words, frame, u, vector, error)
    ensures
      var (u', st') := TrapReturn(Stack(SetResult(Started(words, entry, esp), ret), TRAP_FRAME));
      u' == u.(regs := u.regs.(eax := ret), eip := entry, esp := esp) && st'.sp == KSTACK_TOP
  {
    hide TrapEntry;
    InTrapIsEntry(words, frame, u, vector, error);
    TrapFrameWords(words, frame, u, vector, error);
  }

  lemma ExecShape(k: Kernel, e: KEvent, own: seq<int>, registered: set<int>, a: Account)
      returns (dir: int, m: Mem, a': Account)
    requires KInv(k, own, registered, a) && KEnabled(k, e) && e.Execv? && |a.free| >= 259
    requires Find(k.files, k.mem, e.path).Program?
    requires Launched(k.mem.ram[a.free[258]], Find(k.files, k.mem, e.path).elf, e.argv).1.Some?
    ensures Effect(k, e) == Ok(Changed(k, T.Execv(Some(dir)), m))
    ensures EffectDone(k, e, Changed(k, T.Execv(Some(dir)), m), own, registered, a')
    ensures
      var t := Curr(k).(pgdir := Some(dir));
      var elf := Find(k.files, k.mem, e.path).elf;
      var (page, esp) := Launched(k.mem.ram[a.free[258]], elf, e.argv);
      && t.kstack.Some? && TaskOk(k.mem.ram, Curr(k)) && TaskOk(m.ram, t)
      && m.ram[UserFrame(m.ram, dir)] == Pack(page)
      && m.ram[t.kstack.value] == Started(k.mem.ram[t.kstack.value], Elf.Entry(elf), esp.value)
  {
    hide Effect, KInv, KEnabled, ExecMemory, DestroyAddressSpace, UserSpace, TaskFrames, UserFrame, Loaded, IsFreeList,
         EffectDone, Find, Launched, Pack, Balanced, Started;
    ExecAble(k, own, registered, a, e);
    ExecIs(k, e);
    var elf := Find(k.files, k.mem, e.path).elf;
    var (page, esp) := Launched(k.mem.ram[a.free[258]], elf, e.argv);
    var m3 := ExecBuilt(k, own, registered, a, e.path, e.argv);
    var words := StartedStack(k.mem.ram[Curr(k).kstack.value], elf, esp);
    StackChangedBalanced(k, own, registered, a, words);
    CurrOwns(k, own, registered, a);
    LoadedWf(k.sys.tasks, StackChanged(k, words), Fixed(own, k.files), registered, a, a.free[0], m3, Pack(page));
    a' := SuccessEffect(k, own, registered, a, e, m3, words, Pack(page));
    dir, m := a.free[0], DestroyAddressSpace(m3, Curr(k).pgdir.value).value;
  }

  /** A program that has just been started: the bytes of its segment are in place, except where the stack was
      written, and it reads its arguments from the stack. */
  ghost predicate ProgramStarted(page: Page, esp: int, elf: Page, argv: Option<seq<U.Arg>>)
    requires Elf.IsProgram(elf) && U.Readable(argv)
  {
    var s := Elf.Program(elf);
    && 2000 < esp < U.STACK_TOP
    && (forall i :: 0 <= i < s.fileSize && !(esp + 4 <= s.vaddr + i < U.STACK_TOP + 4) ==>
      page[s.vaddr + i] == Elf.Contents(elf)[i])
    && U.ReadsArguments(page, esp, argv)
  }

  lemma LaunchedStarted(words: Frame, elf: Page, argv: Option<seq<U.Arg>>)
    requires Elf.IsProgram(elf) && U.Readable(argv)
    ensures Launched(words, elf, argv).1.Some?
    ensures ProgramStarted(Launched(words, elf, argv).0, Launched(words, elf, argv).1.value, elf, argv)
  {
    hide Unpack, WriteFrame, Elf.IsProgram, Elf.Program, Elf.Contents, U.PrepareStack, U.ReadsArguments, U.Readable;
    var s, bytes := Elf.Program(elf), Elf.Contents(elf);
    var page := Unpack(ProgramImage(words, elf));
    FrameWritten(words, s.vaddr, bytes);
    U.PreparedStack(page, argv);
    forall i | 0 <= i < s.fileSize ensures page[s.vaddr + i] == bytes[i] {
      assert page[s.vaddr + i] == bytes[s.vaddr + i - s.vaddr];
    }
  }

  /** ... in terms of what the kernel reads of the file. */
  lemma ExecvReturns(k: Kernel, e: KEvent, own: seq<int>, registered: set<int>, a: Account, u: User, vector: Word,
                     error: Word, ret: Word)
    requires KInv(k, own, registered, a) && KEnabled(k, e) && e.Execv? && KStep(k, e).Ok?
    requires Find(k.files, k.mem, e.path).Program? && U.Readable(e.argv)
    requires Valid(Curr(k).kstack) && InTrap(k.mem.ram[Curr(k).kstack.value], Curr(k).kstack.value, u, vector, error)
    ensures
      var k', elf := KStep(k, e).value, Find(k.files, k.mem, e.path).elf;
      && k'.sys.curr == k.sys.curr && TaskOk(k'.mem.ram, Curr(k')) && Curr(k').openFiles == T.NO_FILES
      && Curr(k').kstack == Curr(k).kstack
      && exists esp: Word :: (
           && ProgramStarted(Unpack(k'.mem.ram[UserFrame(k'.mem.ram, Curr(k').pgdir.value)]), esp, elf, e.argv)
           && TrapReturn(Stack(SetResult(k'.mem.ram[Curr(k).kstack.value], ret), TRAP_FRAME))
              == (u.(regs := u.regs.(eax := ret), eip := Elf.Entry(elf), esp := esp),
                  Stack(SetResult(k'.mem.ram[Curr(k).kstack.value], ret), KSTACK_TOP)))
  {
    hide KStep, KEnabled, T.CoreInv, KInv, Balanced, TaskOk, UserSpace, TaskFrames, Untouched, UserFrame, ReapAfter,
         Effect, Find, Launched, U.Readable, ProgramStarted, EffectDone, Pack, Unpack, Started, TrapReturn, InTrap;
    ExecNeeds(k, e, own, registered, a);
    var elf := Find(k.files, k.mem, e.path).elf;
    var (page, esp) := Launched(k.mem.ram[a.free[258]], elf, e.argv);
    LaunchedStarted(k.mem.ram[a.free[258]], elf, e.argv);
    var dir, m, a1 := ExecShape(k, e, own, registered, a);
    ExecFinishes(k, e, own, registered, Some(dir), m, a1);
    QuietParts(k, e, Changed(k, T.Execv(Some(dir)), m));
    var k', t := KStep(k, e).value, T.ExecTask(k.sys, Some(dir)).tasks[k.sys.curr];
    UntouchedKeeps(m.ram, k'.mem.ram, t);
    UnpackPack(page);
    StartedReturn(k.mem.ram[Curr(k).kstack.value], Curr(k).kstack.value, u, vector, error, Elf.Entry(elf), esp.value,
                  ret);
    ReturnStack(SetResult(k'.mem.ram[Curr(k).kstack.value], ret));
    var sp: Word := esp.value;
  }

  /** File f is the first one of this name, and its page holds a program with these headers, of which the one at s
      is to be loaded. */
  ghost predicate HoldsProgram(k: Kernel, f: int, path: U.CString, h: Elf.Ehdr, ps: seq<Elf.Phdr>, s: int)
    requires IsKernel(k)
  {
    && IsFile(f) && path != [] && k.files[f].name == path && (forall i :: 0 <= i < f ==> k.files[i].name != path)
    && Valid(k.files[f].data)
    && Elf.IsImage(Unpack(k.mem.ram[k.files[f].data.value]), h, ps)
    && h.ident[..4] == [0x7f, 0x45, 0x4c, 0x46] && Elf.LoadsOnly(ps, s)
  }

  lemma ProgramFound(k: Kernel, f: int, path: U.CString, h: Elf.Ehdr, ps: seq<Elf.Phdr>, s: int)
    requires IsKernel(k) && HoldsProgram(k, f, path, h, ps, s)
    ensures
      var file, image := Unpack(k.mem.ram[k.files[f].data.value]), Find(k.files, k.mem, path);
      && image == Program(file) && Elf.Entry(file) == h.entry && Elf.Program(file).vaddr == ps[s].vaddr
      && Elf.Contents(file) == file[ps[s].offset..ps[s].offset + ps[s].filesz]
  {
    hide Unpack, Elf.IsElf, Elf.Entry, Elf.IsProgram, Elf.Program, Elf.Contents, Elf.HeaderAt, Elf.HeaderCount;
    var file := Unpack(k.mem.ram[k.files[f].data.value]);
    FirstName(k.files, path, f, 0);
    Elf.HeaderRoundTrip(file, h);
    Elf.ProgramIff(file, h, ps);
  }

  lemma {:induction false} FirstName(files: seq<F.File>, path: seq<Byte>, f: int, i: int)
    requires F.IsTable(files) && 0 <= i <= f < F.MAX_FILES && files[f].name == path
    requires forall j :: i <= j < f ==> files[j].name != path
    ensures F.FindName(files, path, i) == f
    decreases f - i
  {
    if i < f { FirstName(files, path, f, i + 1); }
  }

  /** After a successful execv the running task returns to user mode at the entry that the header of the file names,
      with all other registers as they were. Its page 0 holds the program's segment and below the top of its stack
      argc and argv, from which the program reads the strings that its caller passed. No file is open. */
  lemma ExecvStarts(k: Kernel, e: KEvent, own: seq<int>, registered: set<int>, a: Account, u: User, vector: Word,
                    error: Word, ret: Word, f: int, h: Elf.Ehdr, ps: seq<Elf.Phdr>, s: int)
    requires KInv(k, own, registered, a) && KEnabled(k, e) && e.Execv? && KStep(k, e).Ok? && U.Readable(e.argv)
    requires HoldsProgram(k, f, e.path, h, ps, s)
    requires Valid(Curr(k).kstack) && InTrap(k.mem.ram[Curr(k).kstack.value], Curr(k).kstack.value, u, vector, error)
    ensures
      var k', file := KStep(k, e).value, Unpack(k.mem.ram[k.files[f].data.value]);
      && k'.sys.curr == k.sys.curr && TaskOk(k'.mem.ram, Curr(k')) && Curr(k').openFiles == T.NO_FILES
      && Curr(k').kstack == Curr(k).kstack
      && var page := Unpack(k'.mem.ram[UserFrame(k'.mem.ram, Curr(k').pgdir.value)]);
      exists esp: Word :: (
           && 2000 < esp < 4088 && U.ReadsArguments(page, esp, e.argv)
           && SegmentIn(page, file, ps[s], esp + 4, 4092)
           && TrapReturn(Stack(SetResult(k'.mem.ram[Curr(k).kstack.value], ret), TRAP_FRAME))
              == (u.(regs := u.regs.(eax := ret), eip := h.entry, esp := esp),
                  Stack(SetResult(k'.mem.ram[Curr(k).kstack.value], ret), KSTACK_TOP)))
  {
    hide KStep, KEnabled, KInv, UserSpace, TaskFrames, UserFrame, Find, U.Readable, U.ReadsArguments, Unpack,
         TrapReturn, InTrap, HoldsProgram, ProgramStarted, SegmentIn, Elf.Entry, Elf.IsProgram, Elf.Program,
         Elf.Contents;
    InvIsCore(k, own, registered, a);
    HoldsFacts(k, f, e.path, h, ps, s);
    ProgramFound(k, f, e.path, h, ps, s);
    ExecvReturns(k, e, own, registered, a, u, vector, error, ret);
    var k', file := KStep(k, e).value, Unpack(k.mem.ram[k.files[f].data.value]);
    SpaceFacts(k'.mem.ram, Curr(k').pgdir.value);
    var page := Unpack(k'.mem.ram[UserFrame(k'.mem.ram, Curr(k').pgdir.value)]);
    var esp: Word :| ProgramStarted(page, esp, file, e.argv)
           && TrapReturn(Stack(SetResult(k'.mem.ram[Curr(k).kstack.value], ret), TRAP_FRAME))
              == (u.(regs := u.regs.(eax := ret), eip := h.entry, esp := esp),
                  Stack(SetResult(k'.mem.ram[Curr(k).kstack.value], ret), KSTACK_TOP));
    SegmentStarted(page, esp, file, e.argv, ps[s]);
  }

  /** The bytes of a segment, read from the file, are at their addresses, but for those from lo to hi. */
  ghost predicate SegmentIn(page: Page, file: Page, p: Elf.Phdr, lo: int, hi: int)
    requires p.vaddr + p.filesz <= 4096 && p.offset + p.filesz <= 4096
  {
    forall v :: p.vaddr <= v < p.vaddr + p.filesz && !(lo <= v < hi) ==> page[v] == file[v - p.vaddr + p.offset]
  }

  lemma HoldsFacts(k: Kernel, f: int, path: U.CString, h: Elf.Ehdr, ps: seq<Elf.Phdr>, s: int)
    requires IsKernel(k) && HoldsProgram(k, f, path, h, ps, s)
    ensures IsFile(f) && Valid(k.files[f].data) && Elf.LoadsOnly(ps, s)
  {}

  lemma SegmentStarted(page: Page, esp: Word, elf: Page, argv: Option<seq<U.Arg>>, p: Elf.Phdr)
    requires Elf.IsProgram(elf) && U.Readable(argv) && ProgramStarted(page, esp, elf, argv)
    requires Elf.Program(elf).vaddr == p.vaddr && p.vaddr + p.filesz <= 4096 && p.offset + p.filesz <= 4096
    requires Elf.Contents(elf) == elf[p.offset..p.offset + p.filesz]
    ensures 2000 < esp < 4088 && U.ReadsArguments(page, esp, argv)
    ensures SegmentIn(page, elf, p, esp + 4, 4092)
  {
    hide Elf.IsProgram, Elf.Program, Elf.Contents, U.ReadsArguments, U.Readable;
    forall v | p.vaddr <= v < p.vaddr + p.filesz && !(esp + 4 <= v < 4092)
      ensures page[v] == elf[v - p.vaddr + p.offset]
    {
      var i := v - p.vaddr;
      assert Elf.Contents(elf)[i] == elf[p.offset + i];
    }
  }

  lemma ReturnStack(words: Frame)
    ensures TrapReturn(Stack(words, TRAP_FRAME)).1 == Stack(words, KSTACK_TOP)
  {}

  lemma ExecNeeds(k: Kernel, e: KEvent, own: seq<int>, registered: set<int>, a: Account)
    requires KInv(k, own, registered, a) && KEnabled(k, e) && e.Execv? && KStep(k, e).Ok? &&
      Find(k.files, k.mem, e.path).Program?
    ensures IsKernel(k) && T.CoreInv(k.sys) && k.sys.curr != 0 && |a.free| >= 259 && forall i :: 0 <= i < |a.free| ==>
      IsFrame(a.free[i])
  {
    hide KStep, Balanced, Fixed, Stepped, Find;
    ExecAble(k, own, registered, a, e);
    var a1 := StepBalanced(k, e, own, registered, a);
  }

  lemma ExecFinishes(k: Kernel, e: KEvent, own: seq<int>, registered: set<int>, newPgdir: Option<int>, m: Mem,
                     a1: Account)
    requires IsKernel(k) && T.CoreInv(k.sys) && k.sys.curr != 0 && KEnabled(k, e)
    requires EffectDone(k, e, Changed(k, T.Execv(newPgdir), m), own, registered, a1)
    ensures var te, t := T.Execv(newPgdir), T.ExecTask(k.sys, newPgdir).tasks[k.sys.curr];
      && T.Step(k.sys, te).Ok? && T.Step(k.sys, te).value.curr == k.sys.curr
      && T.Step(k.sys, te).value.tasks[k.sys.curr] == t
      && ReapAfter(k.sys, te, m).Ok?
      && TaskOk(m.ram, t) && Untouched(m.ram, ReapAfter(k.sys, te, m).value.ram, t)
  {
    hide Sum, PartOk, IsFreeList, TaskOk, Untouched, ReapMemory, T.Reap, Fixed, FileWritten, KEnabled;
    var te := T.Execv(newPgdir);
    var c := k.sys.curr;
    assert T.SlotCore(k.sys.tasks[c], c, c);
    StepSwitches(k.sys, te);
    var a2 := FinishStep(k, te, m, Fixed(own, k.files), registered, a1, {});
    ReapSparesRunning(T.ExecTask(k.sys, newPgdir));
  }

  // ----- execv that fails

  /** When the arguments cannot be read, execv fails too late: it returns to its caller, whose page 0 is as it was,
      but at the entry of the new program and at the top of its stack. */
  lemma ExecvFaults(k: Kernel, e: KEvent, own: seq<int>, registered: set<int>, a: Account, u: User, vector: Word,
                    error: Word, ret: Word, f: int, h: Elf.Ehdr, ps: seq<Elf.Phdr>, s: int)
    requires KInv(k, own, registered, a) && KEnabled(k, e) && e.Execv? && KStep(k, e).Ok? && !U.Readable(e.argv)
    requires HoldsProgram(k, f, e.path, h, ps, s)
    requires Valid(Curr(k).kstack) && InTrap(k.mem.ram[Curr(k).kstack.value], Curr(k).kstack.value, u, vector, error)
    ensures
      var k', stack := KStep(k, e).value, Curr(k).kstack.value;
      && k'.sys.curr == k.sys.curr && Curr(k') == Curr(k) && TaskOk(k.mem.ram, Curr(k)) && TaskOk(k'.mem.ram, Curr(k))
      && var user := UserFrame(k.mem.ram, Curr(k).pgdir.value);
      && UserFrame(k'.mem.ram, Curr(k).pgdir.value) == user && k'.mem.ram[user] == k.mem.ram[user]
      && TrapReturn(Stack(SetResult(k'.mem.ram[stack], ret), TRAP_FRAME))
         == (u.(regs := u.regs.(eax := ret), eip := h.entry, esp := 4088),
             Stack(SetResult(k'.mem.ram[stack], ret), KSTACK_TOP))
  {
    hide KStep, KEnabled, T.CoreInv, KInv, Balanced, UserSpace, TaskFrames, Untouched, UserFrame, ReapAfter, Effect,
         Find, Launched, EffectDone, Pack, Unpack, TrapReturn, InTrap, WritesOnly, Elf.IsProgram, Elf.Entry, ExecMemory,
         HoldsProgram, Started;
    InvIsCore(k, own, registered, a);
    HoldsFacts(k, f, e.path, h, ps, s);
    ProgramFound(k, f, e.path, h, ps, s);
    ExecNeeds(k, e, own, registered, a);
    var elf := Find(k.files, k.mem, e.path).elf;
    var words := StartedStack(k.mem.ram[Curr(k).kstack.value], elf, None);
    var m, a1 := FaultShape(k, e, own, registered, a, words);
    ExecFinishes(k, e, own, registered, None, m, a1);
    QuietParts(k, e, Changed(k, T.Execv(None), m));
    UntouchedKeeps(m.ram, KStep(k, e).value.mem.ram, Curr(k));
    StartedReturn(k.mem.ram[Curr(k).kstack.value], Curr(k).kstack.value, u, vector, error, Elf.Entry(elf), 4088, ret);
    ReturnStack(SetResult(words, ret));
  }

  lemma FaultShape(k: Kernel, e: KEvent, own: seq<int>, registered: set<int>, a: Account, words: Frame)
      returns (m: Mem, a': Account)
    requires KInv(k, own, registered, a) && KEnabled(k, e) && e.Execv? && |a.free| >= 259
    requires Find(k.files, k.mem, e.path).Program? && !U.Readable(e.argv) && Valid(Curr(k).kstack)
    requires words == StartedStack(k.mem.ram[Curr(k).kstack.value], Find(k.files, k.mem, e.path).elf, None)
    ensures Effect(k, e) == Ok(Changed(k, T.Execv(None), m))
    ensures EffectDone(k, e, Changed(k, T.Execv(None), m), own, registered, a')
    ensures TaskOk(k.mem.ram, Curr(k)) && TaskOk(m.ram, Curr(k))
    ensures
      var user := UserFrame(k.mem.ram, Curr(k).pgdir.value);
      && UserFrame(m.ram, Curr(k).pgdir.value) == user && m.ram[user] == k.mem.ram[user]
      && m.ram[Curr(k).kstack.value] == words
  {
    hide Effect, KInv, KEnabled, ExecMemory, DestroyAddressSpace, TaskOk, Loaded, IsFreeList, EffectDone, Find,
         Launched, Pack, Balanced, Started, WritesOnly, TaskFrames, UserSpace, UserFrame;
    ExecAble(k, own, registered, a, e);
    ExecIs(k, e);
    var elf := Find(k.files, k.mem, e.path).elf;
    Unreadable(k.mem.ram[a.free[258]], elf, e.argv);
    var m3 := ExecBuilt(k, own, registered, a, e.path, e.argv);
    var page := Launched(k.mem.ram[a.free[258]], elf, e.argv).0;
    StackChangedBalanced(k, own, registered, a, words);
    CurrOwns(k, own, registered, a);
    LoadedWf(k.sys.tasks, StackChanged(k, words), Fixed(own, k.files), registered, a, a.free[0], m3, Pack(page));
    a' := FaultEffect(k, own, registered, a, e, m3, words, Pack(page));
    m := DestroyAddressSpace(m3, a.free[0]).value;
    FaultKeepsCaller(k, own, registered, a, words, m.ram);
  }

  lemma Unreadable(words: Frame, elf: Page, argv: Option<seq<U.Arg>>)
    requires Elf.IsProgram(elf) && !U.Readable(argv)
    ensures Launched(words, elf, argv).1 == None
  {
    hide Unpack, ProgramImage, U.Collect;
  }

  lemma FaultKeepsCaller(k: Kernel, own: seq<int>, registered: set<int>, a: Account, words: Frame, ram': seq<Frame>)
    requires KInv(k, own, registered, a) && k.sys.curr != 0 && Valid(Curr(k).kstack)
    requires WritesOnly(StackChanged(k, words).ram, ram', a.free)
    ensures TaskOk(k.mem.ram, Curr(k)) && TaskOk(ram', Curr(k))
    ensures
      var user := UserFrame(k.mem.ram, Curr(k).pgdir.value);
      UserFrame(ram', Curr(k).pgdir.value) == user && ram'[user] == k.mem.ram[user] &&
        ram'[Curr(k).kstack.value] == words
  {
    hide Balanced, TaskFrames, UserSpace, UserFrame, Fixed;
    StackChangedBalanced(k, own, registered, a, words);
    CurrOwns(k, own, registered, a);
    var m0, t := StackChanged(k, words), Curr(k);
    SpaceFacts(k.mem.ram, t.pgdir.value);
    FramesContain(k.mem.ram, t);
    FramesContain(m0.ram, t);
    StackNotUser(k, own, registered, a, words);
    WritesElsewhereSeq(m0.ram, ram', t, a.free);
    SamePagingSameFrames(m0.ram, ram', t);
  }

  lemma StackNotUser(k: Kernel, own: seq<int>, registered: set<int>, a: Account, words: Frame)
    requires KInv(k, own, registered, a) && k.sys.curr != 0 && Valid(Curr(k).kstack)
    ensures TaskOk(k.mem.ram, Curr(k)) && Curr(k).kstack.value != UserFrame(k.mem.ram, Curr(k).pgdir.value)
    ensures TaskOk(StackChanged(k, words).ram, Curr(k))
    ensures UserFrame(StackChanged(k, words).ram, Curr(k).pgdir.value) == UserFrame(k.mem.ram, Curr(k).pgdir.value)
  {
    hide TaskFrames, UserSpace, UserFrame, Fixed, Sum, IsFreeList, SamePaging;
    CurrOwns(k, own, registered, a);
    var c, t := k.sys.curr, Curr(k);
    assert PartOk(k.mem.ram, c, t, a.parts[c]);
    StackOutside(k.sys.tasks, k.mem, Fixed(own, k.files), registered, a, c);
    DataFramesArePrivate(k.sys.tasks, k.mem, Fixed(own, k.files), registered, a, c, t.kstack.value,
                         k.mem.ram[t.kstack.value := words]);
    SamePagingSameFrames(k.mem.ram, k.mem.ram[t.kstack.value := words], t);
  }

  /** An execv that fails before loading leaves its caller as it was, page by page. */
  lemma ExecvFailsEarly(k: Kernel, e: KEvent, own: seq<int>, registered: set<int>, a: Account)
    requires KInv(k, own, registered, a) && KEnabled(k, e) && KStep(k, e).Ok? && FailsEarly(k, e) && 0 !in registered
    ensures var k' := KStep(k, e).value;
      && k'.sys.curr == k.sys.curr && Curr(k') == Curr(k)
      && TaskOk(k.mem.ram, Curr(k)) && Untouched(k.mem.ram, k'.mem.ram, Curr(k))
  {
    hide Effect, KStep, KEnabled, KInv, FailsEarly, EffectDone, TaskOk, Untouched, ReapAfter;
    InvIsCore(k, own, registered, a);
    StepParts(k, e, 0);
    EarlyNeeds(k, e);
    CurrOwns(k, own, registered, a);
    var a1 := LeakEffect(k, own, registered, a, e);
    EarlyMemory(k, e, own, registered, a);
    var m := Effect(k, e).value.mem;
    ExecFinishes(k, e, own, registered + {0}, None, m, a1);
    QuietParts(k, e, Effect(k, e).value);
    UntouchedTwice(k.mem.ram, m.ram, KStep(k, e).value.mem.ram, Curr(k), Curr(k));
  }

  lemma EarlyNeeds(k: Kernel, e: KEvent)
    requires IsKernel(k) && KEnabled(k, e) && FailsEarly(k, e)
    ensures e.Execv? && !Switches(e) && k.sys.curr != 0
  {}

  lemma EarlyMemory(k: Kernel, e: KEvent, own: seq<int>, registered: set<int>, a: Account)
    requires KInv(k, own, registered, a) && KEnabled(k, e) && e.Execv? && Effect(k, e).Ok? &&
      Effect(k, e).value.event == T.Execv(None)
    ensures Effect(k, e).value == Changed(k, T.Execv(None), Effect(k, e).value.mem)
  {
    hide ExecMemory;
    ExecIs(k, e);
  }

  lemma ReapSparesRunning(s: T.Sys)
    requires T.WellFormed(s) && s.tasks[s.curr].state == T.Running
    ensures T.Reap(s).tasks[s.curr] == s.tasks[s.curr]
  {}
}
