/** What fork, execv and the running program do to the books of all pages. */
module KernelEffects {
  import opened Machine
  import opened Bytes
  import opened PageAllocator
  import opened AddressSpace
  import opened SpaceCopy
  import opened Accounts
  import opened Context
  import opened Kernel
  import opened Conservation
  import opened KernelInv
  import C = Console
  import Elf
  import F = FileTable
  import T = Tasks
  import U = UserStack
  import S = Scheduling

  // ----- fork

  lemma ForkEffect(k: Kernel, own: seq<int>, registered: set<int>, a: Account) returns (a': Account)
    requires KInv(k, own, registered, a) && KEnabled(k, Fork)
    ensures Effect(k, Fork).Panic? <==> |a.free| < 260
    ensures Effect(k, Fork).Ok? ==> EffectDone(k, Fork, Effect(k, Fork).value, own, registered, a')
  {
    hide Effect, ForkMemory, UserSpace, TaskFrames, Sum, PartOk, UserFrame, ChildStack, Spares, SameFrames, TaskMade,
         ForkAccount, Fixed, T.FindUnused;
    ForkIs(k);
    var c := k.sys.curr;
    CurrOwns(k, own, registered, a);
    ForkMemoryForks(k.mem, a.free, Curr(k), k.retSite);
    a' := a;
    if |a.free| >= 260 {
      var (stack, dir, m) := ForkMemory(k.mem, Curr(k), k.retSite).value;
      var n := T.FindUnused(k.sys.tasks, 0);
      var child := ForkChild(k, dir, stack);
      assert T.SlotCore(k.sys.tasks[0], 0, c);
      ForkBalanced(k.sys.tasks, k.mem, m, Fixed(own, k.files), registered, a, n, child);
      a' := ForkAccount(a, n);
      ForkSpares(k.sys.tasks, k.mem, m, Fixed(own, k.files), registered, a, c, child);
      EffectSpares(k, Fork, Changed(k, T.Fork(dir, stack), m), own, registered, a');
    }
  }

  lemma ForkIs(k: Kernel)
    requires IsKernel(k) && KEnabled(k, Fork)
    ensures Effect(k, Fork) ==
      match ForkMemory(k.mem, Curr(k), k.retSite)
      case Panic => Panic
      case Ok((stack, dir, m)) => Ok(Changed(k, T.Fork(dir, stack), m))
  {}

  lemma ExecIs(k: Kernel, e: KEvent)
    requires IsKernel(k) && KEnabled(k, e) && e.Execv?
    ensures Effect(k, e) ==
      match ExecMemory(k.mem, k.files, Curr(k), e.path, e.argv)
      case Panic => Panic
      case Ok((dir, m)) => Ok(Changed(k, T.Execv(dir), m))
  {}

  /** The task that sys_fork makes. */
  function ForkChild(k: Kernel, dir: int, stack: int): T.Task
    requires IsKernel(k)
  {
    T.Task(T.Runnable, T.FindUnused(k.sys.tasks, 0), Curr(k).openFiles, Some(k.sys.curr), Some(dir), Some(stack), false)
  }

  lemma ForkSpares(tasks: seq<T.Task>, m: Mem, m': Mem, fixed: seq<int>, registered: set<int>, a: Account, c: int,
                   child: T.Task)
    requires Balanced(tasks, m, fixed, registered, a) && |a.free| >= 260 && TaskMade(m, m', a.free, child)
    requires T.IsSlot(c) && Owns(c, tasks[c]) && TaskOk(m.ram, tasks[c])
    ensures Spares(tasks, m.ram, m'.ram, {c}) && SameFrames(m.ram, m'.ram, Elements(fixed))
  {
    hide TaskFrames, Sum, PartOk, TaskOk, Spares, SameFrames;
    WritesSpare(tasks, m, m'.ram, fixed, registered, a, c, a.free[..260]);
  }

  // ----- execv

  /** map_kernel leaves the files alone, so that sys_execv finds what there was. */
  lemma FindKept(k: Kernel, own: seq<int>, registered: set<int>, a: Account, m1: Mem, path: U.CString)
    requires KInv(k, own, registered, a) && WellFormed(m1)
    requires forall f :: IsFrame(f) && f !in a.free ==> m1.ram[f] == k.mem.ram[f]
    ensures Find(k.files, m1, path) == Find(k.files, k.mem, path) && !Find(k.files, k.mem, path).NoData?
  {
    hide Fixed, Unpack, Elf.IsProgram, Elf.IsElf;
    match F.GetFile(k.files, path)
    case None =>
    case Some(f) =>
      FilePageFixed(k, own, f);
      FixedNotFree(k.sys.tasks, k.mem, Fixed(own, k.files), registered, a, k.files[f].data.value);
  }

  lemma KernelWrites(m: Mem, m1: Mem, free: seq<int>, dir: int)
    requires IsFreeList(m, free) && |free| >= KERNEL_PAGES && KernelBuilt(m, dir, m1, free)
    ensures WellFormed(m1) && IsFrame(dir) && forall f :: IsFrame(f) && f !in free ==> m1.ram[f] == m.ram[f]
  {
    assert free[0] in free;
    assert forall i :: 0 <= i < 257 ==> free[1..258][i] == free[i + 1];
  }

  /** The new page 0, and the new stack pointer unless the arguments cannot be read. */
  function Launched(words: Frame, elf: Page, argv: Option<seq<U.Arg>>): (r: (Page, Option<int>))
    requires Elf.IsProgram(elf)
    ensures r.1.Some? ==> 2000 < r.1.value < U.STACK_TOP
  {
    U.PrepareStack(Unpack(ProgramImage(words, elf)), argv)
  }

  /** The kernel stack of the caller as sys_execv leaves it. */
  function StartedStack(words: Frame, elf: Page, esp: Option<int>): Frame
    requires esp.Some? ==> 2000 < esp.value < U.STACK_TOP
  {
    Started(words, Elf.Entry(elf), if esp.Some? then esp.value else U.STACK_TOP)
  }

  /** Memory with nothing but this stack changed. */
  function StackChanged(k: Kernel, words: Frame): Mem
    requires IsKernel(k) && Valid(Curr(k).kstack)
  {
    Mem(k.mem.ram[Curr(k).kstack.value := words], k.mem.head)
  }

  /** sys_execv up to the point where it gives up one of the two spaces. */
  lemma ExecBuilt(k: Kernel, own: seq<int>, registered: set<int>, a: Account, path: U.CString, argv: Option<seq<U.Arg>>)
      returns (m3: Mem)
    requires KInv(k, own, registered, a) && k.sys.curr != 0 && |a.free| > 258 && Find(k.files, k.mem, path).Program?
    ensures
      var elf := Find(k.files, k.mem, path).elf;
      var (page, esp) := Launched(k.mem.ram[a.free[258]], elf, argv);
      && TaskOk(k.mem.ram, Curr(k)) && IsFrame(a.free[0])
      && var m0 := StackChanged(k, StartedStack(k.mem.ram[Curr(k).kstack.value], elf, esp));
      && IsFreeList(m0, a.free)
      && Loaded(m0, a.free[0], m3, a.free, Pack(page))
      && ExecMemory(k.mem, k.files, Curr(k), path, argv) ==
         if esp == None then GiveUp(m3, a.free[0]) else
         match DestroyAddressSpace(m3, Curr(k).pgdir.value) case Panic => Panic case Ok(m4) => Ok((Some(a.free[0]), m4))
  {
    hide MapKernel, LoadSegments, Loaded, U.PrepareStack, Pack, Unpack, ProgramImage, Started, StartProgram,
         KernelBuilt, Find, GiveUp, DestroyAddressSpace, UserSpace, TaskFrames, Fixed, Sum, PartOk;
    var elf := Find(k.files, k.mem, path).elf;
    CurrOwns(k, own, registered, a);
    MapKernelBuilds(k.mem, a.free);
    ExecLoads(k.mem, a.free, elf);
    var (dir, m1) := MapKernel(k.mem).value;
    KernelWrites(k.mem, m1, a.free, dir);
    FindKept(k, own, registered, a, m1, path);
    var m2 := LoadSegments(m1, dir, elf, 0).value;
    m3 := StartPrepared(k.mem, m2, a.free, Curr(k), dir, ProgramImage(k.mem.ram[a.free[258]], elf), Elf.Entry(elf),
                        argv);
  }

  lemma StackChangedBalanced(k: Kernel, own: seq<int>, registered: set<int>, a: Account, words: Frame)
    requires KInv(k, own, registered, a) && k.sys.curr != 0
    ensures TaskOk(k.mem.ram, Curr(k))
    ensures
      var m0 := StackChanged(k, words);
      && Balanced(k.sys.tasks, m0, Fixed(own, k.files), registered, a)
      && TaskOk(m0.ram, Curr(k)) && TaskFrames(m0.ram, Curr(k)) == TaskFrames(k.mem.ram, Curr(k))
      && Curr(k).kstack.value in TaskFrames(k.mem.ram, Curr(k))
  {
    hide TaskFrames, UserSpace, Sum, IsFreeList, SamePaging, Fixed;
    CurrOwns(k, own, registered, a);
    var c, stack := k.sys.curr, Curr(k).kstack.value;
    assert PartOk(k.mem.ram, c, Curr(k), a.parts[c]);
    TaskWriteBalanced(k.sys.tasks, k.mem, Fixed(own, k.files), registered, a, c, stack, words);
    DataFramesArePrivate(k.sys.tasks, k.mem, Fixed(own, k.files), registered, a, c, stack, k.mem.ram[stack := words]);
    SamePagingSameFrames(k.mem.ram, k.mem.ram[stack := words], Curr(k));
    FramesContain(k.mem.ram, Curr(k));
  }

  lemma WritesThrough(ram: seq<Frame>, ram1: seq<Frame>, ram2: seq<Frame>, f: int, frames: seq<int>)
    requires WritesOnly(ram1, ram2, frames) && |ram| == RAM_FRAMES && IsFrame(f) && f in frames
    requires forall g :: IsFrame(g) && g != f ==> ram1[g] == ram[g]
    ensures WritesOnly(ram, ram2, frames)
  {}

  /** An execv that gets as far as loading needs 259 pages. It trades the old space for the new one, or gives back
      exactly the pages it took if reading the arguments fails. */
  lemma ExecEffect(k: Kernel, own: seq<int>, registered: set<int>, a: Account, e: KEvent) returns (a': Account)
    requires KInv(k, own, registered, a) && KEnabled(k, e) && e.Execv? && Find(k.files, k.mem, e.path).Program?
    ensures Effect(k, e).Panic? <==> |a.free| < 259
    ensures Effect(k, e).Ok? ==> EffectDone(k, e, Effect(k, e).value, own, registered, a')
  {
    hide Effect, ExecMemory, Find, DestroyAddressSpace, Loaded, Fixed, Balanced, KInv, KEnabled, EffectDone, Launched,
         StartedStack, Pack, Started;
    ExecAble(k, own, registered, a, e);
    ExecIs(k, e);
    a' := a;
    if |a.free| > 258 {
      var elf := Find(k.files, k.mem, e.path).elf;
      var (page, esp) := Launched(k.mem.ram[a.free[258]], elf, e.argv);
      var m3 := ExecBuilt(k, own, registered, a, e.path, e.argv);
      var words := StartedStack(k.mem.ram[Curr(k).kstack.value], elf, esp);
      StackChangedBalanced(k, own, registered, a, words);
      if esp == None {
        a' := FaultEffect(k, own, registered, a, e, m3, words, Pack(page));
      } else {
        a' := SuccessEffect(k, own, registered, a, e, m3, words, Pack(page));
      }
    } else {
      ExecExhausted(k, own, registered, a, e.path, e.argv);
    }
  }

  lemma ExecAble(k: Kernel, own: seq<int>, registered: set<int>, a: Account, e: KEvent)
    requires KInv(k, own, registered, a) && KEnabled(k, e) && e.Execv?
    ensures k.sys.curr != 0 && IsKernel(k) && forall i :: 0 <= i < |a.free| ==> IsFrame(a.free[i])
  {}

  lemma ExecExhausted(k: Kernel, own: seq<int>, registered: set<int>, a: Account, path: U.CString,
                      argv: Option<seq<U.Arg>>)
    requires KInv(k, own, registered, a) && |a.free| <= 258 && Find(k.files, k.mem, path).Program?
    ensures ExecMemory(k.mem, k.files, Curr(k), path, argv).Panic?
  {
    hide MapKernel, LoadSegments, StartProgram, KernelBuilt, Find, GiveUp, Fixed, Sum, PartOk;
    var elf := Find(k.files, k.mem, path).elf;
    MapKernelBuilds(k.mem, a.free);
    ExecLoads(k.mem, a.free, elf);
    if |a.free| == 258 {
      var (dir, m1) := MapKernel(k.mem).value;
      KernelWrites(k.mem, m1, a.free, dir);
      FindKept(k, own, registered, a, m1, path);
    }
  }

  lemma SuccessEffect(k: Kernel, own: seq<int>, registered: set<int>, a: Account, e: KEvent, m3: Mem, words: Frame,
                      image: Frame)
      returns (a': Account)
    requires KInv(k, own, registered, a) && KEnabled(k, e) && e.Execv? && |a.free| > 258
    requires TaskOk(k.mem.ram, Curr(k)) &&
      Balanced(k.sys.tasks, StackChanged(k, words), Fixed(own, k.files), registered, a)
    requires Loaded(StackChanged(k, words), a.free[0], m3, a.free, image)
    ensures
      var r := DestroyAddressSpace(m3, Curr(k).pgdir.value);
      var t := Curr(k).(pgdir := Some(a.free[0]));
      && r.Ok? && EffectDone(k, e, Changed(k, T.Execv(Some(a.free[0])), r.value), own, registered, a')
      && TaskOk(r.value.ram, t)
      && r.value.ram[UserFrame(r.value.ram, a.free[0])] == image
      && r.value.ram[t.kstack.value] == words
  {
    hide DestroyAddressSpace, Loaded, UserSpace, TaskFrames, Spares, SameFrames, Fixed, KEnabled, KInv, UserFrame,
         WritesOnly, FileWritten, Balanced, EffectDone;
    ExecAble(k, own, registered, a, e);
    CurrOwns(k, own, registered, a);
    var c, t, m0, fixed := k.sys.curr, Curr(k), StackChanged(k, words), Fixed(own, k.files);
    StackChangedBalanced(k, own, registered, a, words);
    a' := ExecSuccessBalanced(k.sys.tasks, m0, m3, fixed, registered, a, c, a.free[0], image);
    LoadedWf(k.sys.tasks, m0, fixed, registered, a, a.free[0], m3, image);
    var m4 := DestroyAddressSpace(m3, t.pgdir.value).value;
    ExecSpares(k, own, registered, a, m4.ram, words);
    FilesOpened(k.sys.tasks[c := t.(pgdir := Some(a.free[0]))], T.ExecTask(k.sys, Some(a.free[0])).tasks, m4, fixed,
                registered, a');
    EffectSpares(k, e, Changed(k, T.Execv(Some(a.free[0])), m4), own, registered, a');
  }

  lemma LoadedWf(tasks: seq<T.Task>, m: Mem, fixed: seq<int>, registered: set<int>, a: Account, dir: int, m2: Mem,
                 image: Frame)
    requires Balanced(tasks, m, fixed, registered, a) && |a.free| > 258 && Loaded(m, dir, m2, a.free, image)
    ensures WellFormed(m2) && IsFrame(dir)
  {}

  /** Whatever sys_execv writes, it is free or its caller's. */
  lemma ExecSpares(k: Kernel, own: seq<int>, registered: set<int>, a: Account, ram': seq<Frame>, words: Frame)
    requires KInv(k, own, registered, a) && k.sys.curr != 0 && TaskOk(k.mem.ram, Curr(k))
    requires WritesOnly(StackChanged(k, words).ram, ram', a.free + TaskFrames(k.mem.ram, Curr(k)))
    ensures Spares(k.sys.tasks, k.mem.ram, ram', {k.sys.curr})
    ensures SameFrames(k.mem.ram, ram', Elements(Fixed(own, k.files)))
  {
    hide UserSpace, TaskFrames, Sum, PartOk, Spares, SameFrames, Fixed, WritesOnly, IsFreeList;
    StackChangedBalanced(k, own, registered, a, words);
    CurrOwns(k, own, registered, a);
    var frames := a.free + TaskFrames(k.mem.ram, Curr(k));
    WritesThrough(k.mem.ram, StackChanged(k, words).ram, ram', Curr(k).kstack.value, frames);
    WritesSpare(k.sys.tasks, k.mem, ram', Fixed(own, k.files), registered, a, k.sys.curr, frames);
  }

  /** Descriptors do not matter to the books. */
  lemma FilesOpened(tasks: seq<T.Task>, tasks': seq<T.Task>, m: Mem, fixed: seq<int>, registered: set<int>, a: Account)
    requires Balanced(tasks, m, fixed, registered, a) && |tasks'| == T.MAX_TASKS
    requires forall j :: T.IsSlot(j) ==> tasks'[j] == tasks[j].(openFiles := tasks'[j].openFiles)
    ensures Balanced(tasks', m, fixed, registered, a)
  {
    hide Balanced;
    BalancedSameOwner(tasks, tasks', m, fixed, registered, a);
  }

  lemma FaultEffect(k: Kernel, own: seq<int>, registered: set<int>, a: Account, e: KEvent, m3: Mem, words: Frame,
                    image: Frame)
      returns (a': Account)
    requires KInv(k, own, registered, a) && KEnabled(k, e) && e.Execv? && |a.free| > 258
    requires TaskOk(k.mem.ram, Curr(k)) &&
      Balanced(k.sys.tasks, StackChanged(k, words), Fixed(own, k.files), registered, a)
    requires Loaded(StackChanged(k, words), a.free[0], m3, a.free, image)
    ensures
      var r := DestroyAddressSpace(m3, a.free[0]);
      && r.Ok? && EffectDone(k, e, Changed(k, T.Execv(None), r.value), own, registered, a')
      && WritesOnly(StackChanged(k, words).ram, r.value.ram, a.free)
  {
    hide DestroyAddressSpace, Loaded, UserSpace, TaskFrames, Spares, SameFrames, Fixed, KEnabled, KInv, WritesOnly,
         FileWritten, Balanced, EffectDone, Mid;
    ExecAble(k, own, registered, a, e);
    CurrOwns(k, own, registered, a);
    var m0, fixed := StackChanged(k, words), Fixed(own, k.files);
    InvIsCore(k, own, registered, a);
    a' := ExecFaultBalanced(k.sys.tasks, m0, m3, fixed, registered, a, a.free[0], image);
    LoadedWf(k.sys.tasks, m0, fixed, registered, a, a.free[0], m3, image);
    var m4 := DestroyAddressSpace(m3, a.free[0]).value;
    MoreWrites(m0.ram, m4.ram, a.free, TaskFrames(k.mem.ram, Curr(k)));
    ExecSpares(k, own, registered, a, m4.ram, words);
    MidBalanced(k.sys, T.Execv(None), m4, fixed, registered, a');
    EffectSpares(k, e, Changed(k, T.Execv(None), m4), own, registered, a');
  }

  lemma InvIsCore(k: Kernel, own: seq<int>, registered: set<int>, a: Account)
    requires KInv(k, own, registered, a)
    ensures IsKernel(k) && T.CoreInv(k.sys)
  {}

  lemma MoreWrites(ram: seq<Frame>, ram': seq<Frame>, frames: seq<int>, more: seq<int>)
    requires WritesOnly(ram, ram', frames)
    ensures WritesOnly(ram, ram', frames + more)
  {}

  lemma ComputeEffect(k: Kernel, own: seq<int>, registered: set<int>, a: Account, e: KEvent)
    requires KInv(k, own, registered, a) && KEnabled(k, e) && e.Compute?
    ensures Effect(k, e).Ok? && EffectDone(k, e, Effect(k, e).value, own, registered, a)
  {
    hide UserSpace, TaskFrames, Sum, UserFrame, Spares, SameFrames, PageZero, Fixed, FileWritten;
    var c := k.sys.curr;
    CurrOwns(k, own, registered, a);
    var t, fixed := Curr(k), Fixed(own, k.files);
    PageZeroIsUserFrame(k.mem.ram, t.pgdir.value);
    var user, stack := UserFrame(k.mem.ram, t.pgdir.value), t.kstack.value;
    SpaceFacts(k.mem.ram, t.pgdir.value);
    TaskWriteBalanced(k.sys.tasks, k.mem, fixed, registered, a, c, user, e.page);
    var m1 := Mem(k.mem.ram[user := e.page], k.mem.head);
    CurrStill(k.sys.tasks, m1, fixed, registered, a, c);
    TaskWriteBalanced(k.sys.tasks, m1, fixed, registered, a, c, stack, e.stack);
    var m2 := Mem(m1.ram[stack := e.stack], m1.head);
    FramesContain(k.mem.ram, t);
    WritesSpare(k.sys.tasks, k.mem, m2.ram, fixed, registered, a, c, [user, stack]);
    EffectSpares(k, e, Changed(k, T.Serial, m2), own, registered, a);
  }

  lemma CurrStill(tasks: seq<T.Task>, m: Mem, fixed: seq<int>, registered: set<int>, a: Account, c: int)
    requires Balanced(tasks, m, fixed, registered, a) && T.IsSlot(c) && Owns(c, tasks[c])
    ensures TaskOk(m.ram, tasks[c])
  {
    assert PartOk(m.ram, c, tasks[c], a.parts[c]);
  }

  // ----- execv that fails early

  lemma LeakEffect(k: Kernel, own: seq<int>, registered: set<int>, a: Account, e: KEvent) returns (a': Account)
    requires KInv(k, own, registered, a) && KEnabled(k, e) && FailsEarly(k, e) && 0 !in registered
    ensures Effect(k, e).Panic? <==> |a.free| < 258
    ensures Effect(k, e).Ok? ==>
      && EffectDone(k, e, Effect(k, e).value, own, registered + {0}, a') && 0 in a'.free
      && Effect(k, e).value.event == T.Execv(None) && Spares(k.sys.tasks, k.mem.ram, Effect(k, e).value.mem.ram, {})
  {
    hide Effect, MapKernel, DestroyAddressSpace, UserSpace, TaskFrames, Sum, UserFrame, Spares, SameFrames, Fixed,
         KernelBuilt, Find, FileWritten, PartOk, IsFreeList, Mid, EffectDone;
    var fixed := Fixed(own, k.files);
    ExecIs(k, e);
    CurrOwns(k, own, registered, a);
    MapKernelBuilds(k.mem, a.free);
    a' := a;
    if |a.free| >= 258 {
      var (dir, m1) := MapKernel(k.mem).value;
      KernelWrites(k.mem, m1, a.free, dir);
      FindKept(k, own, registered, a, m1, e.path);
      a' := ExecLeaksFrameZero(k.sys.tasks, k.mem, fixed, registered, a);
      assert 0 in multiset(a'.free);
      var m2 := DestroyAddressSpace(m1, dir).value;
      LeakSpares(k, own, registered, a, m2.ram);
      MoreExcepted(k.sys.tasks, k.mem.ram, m2.ram, {k.sys.curr});
      MidBalanced(k.sys, T.Execv(None), m2, fixed, registered + {0}, a');
      EffectSpares(k, e, Changed(k, T.Execv(None), m2), own, registered + {0}, a');
    }
  }

  lemma LeakSpares(k: Kernel, own: seq<int>, registered: set<int>, a: Account, ram': seq<Frame>)
    requires KInv(k, own, registered, a) && 0 !in registered && WritesOnly(k.mem.ram, ram', a.free + [0])
    ensures Spares(k.sys.tasks, k.mem.ram, ram', {})
    ensures SameFrames(k.mem.ram, ram', Elements(Fixed(own, k.files)))
  {
    hide TaskFrames, Fixed;
    var tasks, fixed := k.sys.tasks, Fixed(own, k.files);
    forall j | T.IsSlot(j) && Owns(j, tasks[j])
      ensures TaskOk(k.mem.ram, tasks[j]) && Untouched(k.mem.ram, ram', tasks[j])
    {
      assert PartOk(k.mem.ram, j, tasks[j], a.parts[j]);
      forall f | IsFrame(f) && f in TaskFrames(k.mem.ram, tasks[j]) ensures ram'[f] == k.mem.ram[f] {
        OneOwner(tasks, k.mem, fixed, registered, a, j, f);
      }
    }
    var total := multiset(a.free) + multiset(fixed) + Sum(a.parts);
    forall f | f in fixed && IsFrame(f) ensures ram'[f] == k.mem.ram[f] {
      FixedNotFree(tasks, k.mem, fixed, registered, a, f);
      assert f in multiset(fixed) && f in total && f in multiset(registered);
    }
  }
}
