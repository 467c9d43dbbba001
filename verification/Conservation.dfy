/** No page is lost and none is owned twice, across every run of the kernel. */
module Conservation {
  import opened Machine
  import opened PageAllocator
  import opened PageTable
  import opened Bytes
  import opened AddressSpace
  import opened SpaceCopy
  import opened Accounts
  import opened Context
  import opened Kernel
  import Elf
  import T = Tasks
  import U = UserStack

  // ----- Page 0 of a program

  lemma PageZeroIsUserFrame(ram: seq<Frame>, dir: int)
    requires UserSpace(ram, dir)
    ensures PageZero(ram, dir) == Some(UserFrame(ram, dir))
  {}

  /** Writing page 0 of a program does not touch its paging. */
  lemma PageWriteKeepsSpace(ram: seq<Frame>, dir: int, image: Frame)
    requires UserSpace(ram, dir)
    ensures var ram' := ram[UserFrame(ram, dir) := image];
      UserSpace(ram', dir) && SpaceFrames(ram', dir) == SpaceFrames(ram, dir)
  {
    var ram' := ram[UserFrame(ram, dir) := image];
    LookupFrame(ram, ram', dir);
    TablesBelowFrame(ram, ram', dir, PDE_SIZE);
    assert forall i :: 0 <= i < 1024 ==> TableAt(ram', dir, i) == TableAt(ram, dir, i);
  }

  /** A new program: the next 259 free pages, page 0 holding the image. */
  ghost predicate Loaded(m: Mem, dir: int, m': Mem, free: seq<int>, image: Frame)
    requires IsFreeList(m, free) && |free| > KERNEL_PAGES
  {
    && IsFreeList(m', free[259..])
    && UserSpace(m'.ram, dir)
    && SpaceFrames(m'.ram, dir) == [free[0]] + Reverse(free[1..258]) + [free[258]]
    && WritesOnly(m.ram, m'.ram, free[..259])
    && m'.ram[UserFrame(m'.ram, dir)] == image
  }

  lemma ImageLoaded(m: Mem, m2: Mem, free: seq<int>, dir: int, image: Frame)
    requires IsFreeList(m, free) && |free| > KERNEL_PAGES && SpaceBuilt(m, dir, m2, free)
    ensures PageZero(m2.ram, dir) == Some(free[258]) && m2.ram[free[258]] == m.ram[free[258]]
    ensures Loaded(m, dir, Mem(m2.ram[free[258] := image], m2.head), free, image)
  {
    PageZeroIsUserFrame(m2.ram, dir);
    PageWriteKeepsSpace(m2.ram, dir, image);
    var user := UserFrame(m2.ram, dir);
    assert SpaceFrames(m2.ram, dir)[258] == user == free[258];
    assert free[258] !in free[259..];
    assert free[258] !in free[..258];
    var m' := Mem(m2.ram[user := image], m2.head);
    FreeListFrame(m2, free[259..], m'.ram);
    assert free[..259][258] == free[258];
    forall f | 0 <= f < RAM_FRAMES && f !in free[..259] ensures m'.ram[f] == m.ram[f] {
      assert forall i :: 0 <= i < 258 ==> free[..258][i] == free[..259][i];
    }
  }

  /** What load_elf makes of a page. */
  function ProgramImage(words: Frame, elf: Page): Frame
    requires Elf.IsProgram(elf)
  {
    WriteFrame(words, Elf.Program(elf).vaddr, Elf.Contents(elf))
  }

  /** Loading a program after map_kernel needs one more page, and panics exactly without it. The bytes of the
      segment are then at their place in page 0; its other bytes are those that the free page had. */
  lemma ProgramLoads(m: Mem, m1: Mem, free: seq<int>, dir: int, elf: Page)
    requires IsFreeList(m, free) && |free| >= KERNEL_PAGES && KernelBuilt(m, dir, m1, free) && Elf.IsProgram(elf)
    ensures LoadSegments(m1, dir, elf, 0).Panic? <==> |free| == KERNEL_PAGES
    ensures LoadSegments(m1, dir, elf, 0).Ok? ==>
      Loaded(m, dir, LoadSegments(m1, dir, elf, 0).value, free, ProgramImage(m.ram[free[258]], elf))
  {
    hide AllocMapMemory, CopyToSpace, LoadSegments, KernelBuilt, WriteFrame, Elf.HeadersFit, Elf.IsProgram, Loaded,
         SpaceBuilt;
    BuiltFacts(m, m1, free, dir);
    LoadsOnce(m1, dir, elf);
    var s := Elf.Program(elf);
    SpaceBuilds(m, m1, free, dir, s.vaddr, s.memSize);
    if |free| > KERNEL_PAGES {
      var m2 := AllocMapMemory(m1, dir, s.vaddr, s.memSize, RW + US).value;
      ImageLoaded(m, m2, free, dir, ProgramImage(m.ram[free[258]], elf));
      CopyInPageZero(m2, dir, s.vaddr, Elf.Contents(elf));
    }
  }

  lemma BuiltFacts(m: Mem, m1: Mem, free: seq<int>, dir: int)
    requires IsFreeList(m, free) && |free| >= KERNEL_PAGES && KernelBuilt(m, dir, m1, free)
    ensures WellFormed(m1) && IsFrame(dir)
  {}

  /** Page 0 changes. */
  lemma PageReloaded(m: Mem, dir: int, m2: Mem, free: seq<int>, image: Frame, image': Frame)
    requires IsFreeList(m, free) && |free| > KERNEL_PAGES && Loaded(m, dir, m2, free, image)
    ensures PageZero(m2.ram, dir) == Some(free[258]) && m2.ram[free[258]] == image
    ensures Loaded(m, dir, Mem(m2.ram[free[258] := image'], m2.head), free, image')
  {
    PageZeroIsUserFrame(m2.ram, dir);
    PageWriteKeepsSpace(m2.ram, dir, image');
    assert SpaceFrames(m2.ram, dir)[258] == UserFrame(m2.ram, dir) == free[258];
    assert free[258] !in free[259..] && free[..259][258] == free[258];
    FreeListFrame(m2, free[259..], m2.ram[free[258] := image']);
  }

  /** A frame that is not free changes before and after loading. */
  lemma LoadedFrame(m: Mem, dir: int, m2: Mem, free: seq<int>, image: Frame, f: int, words: Frame)
    requires IsFreeList(m, free) && |free| > KERNEL_PAGES && Loaded(m, dir, m2, free, image) && IsFrame(f) && f !in free
    ensures IsFreeList(Mem(m.ram[f := words], m.head), free)
    ensures Loaded(Mem(m.ram[f := words], m.head), dir, Mem(m2.ram[f := words], m2.head), free, image)
  {
    hide TablesBelow, UserSpace, SpaceFrames, IsFreeList, WritesOnly;
    LoadedRam(m, dir, m2, free, image, f);
    FreeListFrame(m, free, m.ram[f := words]);
    FreeListFrame(m2, free[259..], m2.ram[f := words]);
    NewFramesAreFree(m2.ram, free, dir);
    WriteOutside(m2.ram, dir, f, words);
    SpaceMembers(m2.ram, dir);
    SameWrites(m.ram, m2.ram, free[..259], f, words);
  }

  lemma SameWrites(ram: seq<Frame>, ram2: seq<Frame>, frames: seq<int>, f: int, words: Frame)
    requires WritesOnly(ram, ram2, frames) && IsFrame(f)
    ensures WritesOnly(ram[f := words], ram2[f := words], frames)
  {}

  /** Writes to other frames leave an address space as it is. */
  lemma WriteOutside(ram: seq<Frame>, dir: int, f: int, words: Frame)
    requires UserSpace(ram, dir) && IsFrame(f) && f !in SpaceFrames(ram, dir)
    ensures var ram' := ram[f := words];
      UserSpace(ram', dir) && SpaceFrames(ram', dir) == SpaceFrames(ram, dir) &&
        UserFrame(ram', dir) == UserFrame(ram, dir)
  {
    hide TablesBelow;
    var ram' := ram[f := words];
    SpaceMembers(ram, dir);
    LookupFrame(ram, ram', dir);
    TablesBelowFrame(ram, ram', dir, PDE_SIZE);
    assert forall i :: 0 <= i < 1024 ==> TableAt(ram', dir, i) == TableAt(ram, dir, i);
  }

  lemma SpaceMembers(ram: seq<Frame>, dir: int)
    requires UserSpace(ram, dir)
    ensures dir in SpaceFrames(ram, dir) && UserFrame(ram, dir) in SpaceFrames(ram, dir)
    ensures forall i :: 0 <= i < 1024 && Present(ram[dir][i]) ==> TableAt(ram, dir, i) in SpaceFrames(ram, dir)
  {
    var frames := SpaceFrames(ram, dir);
    TablesBelowMembers(ram, dir, PDE_SIZE);
    ReverseMembers(TablesBelow(ram, dir, PDE_SIZE));
    assert frames[0] == dir && frames[258] == UserFrame(ram, dir);
    forall i | 0 <= i < 1024 && Present(ram[dir][i]) ensures TableAt(ram, dir, i) in frames {
      assert TableAt(ram, dir, i) in Reverse(TablesBelow(ram, dir, PDE_SIZE));
    }
  }

  // ----- fork

  /** A write to a frame that map_kernel does not use commutes with it. */
  lemma KernelBuiltFrame(m: Mem, m1: Mem, free: seq<int>, dir: int, f: int, words: Frame)
    requires IsFreeList(m, free) && |free| >= KERNEL_PAGES && KernelBuilt(m, dir, m1, free)
    requires IsFrame(f) && f !in free
    ensures IsFreeList(Mem(m.ram[f := words], m.head), free)
    ensures KernelBuilt(Mem(m.ram[f := words], m.head), dir, Mem(m1.ram[f := words], m1.head), free)
  {}

  /** The next 260 free pages have become the pages of a new task, and nothing else was written. */
  ghost predicate TaskMade(m: Mem, m': Mem, free: seq<int>, child: T.Task)
    requires IsFreeList(m, free) && |free| >= 260
  {
    && IsFreeList(m', free[260..])
    && TaskOk(m'.ram, child)
    && multiset(TaskFrames(m'.ram, child)) == multiset(free[..260])
    && WritesOnly(m.ram, m'.ram, free[..260])
  }

  /** What sys_fork makes of memory: a new task whose kernel stack is the fabricated one and whose page 0 is a
      copy of its parent's. */
  ghost predicate Forked(m: Mem, m': Mem, free: seq<int>, parent: T.Task, child: T.Task, retSite: Word)
    requires IsFreeList(m, free) && |free| >= 260 && TaskOk(m.ram, parent)
  {
    && TaskMade(m, m', free, child)
    && m'.ram[child.kstack.value] == ChildStack(m.ram[child.kstack.value], m.ram[parent.kstack.value], retSite)
    && m'.ram[UserFrame(m'.ram, child.pgdir.value)] == m.ram[UserFrame(m.ram, parent.pgdir.value)]
  }

  ghost predicate SeparateTask(ram: seq<Frame>, t: T.Task, free: seq<int>)
    requires TaskOk(ram, t)
  {
    forall f :: f in TaskFrames(ram, t) ==> f !in free
  }

  lemma ForkMemoryForks(m: Mem, free: seq<int>, parent: T.Task, retSite: Word)
    requires IsFreeList(m, free) && TaskOk(m.ram, parent) && SeparateTask(m.ram, parent, free)
    ensures ForkMemory(m, parent, retSite).Panic? <==> |free| < 260
    ensures ForkMemory(m, parent, retSite).Ok? ==>
      var (stack, dir, m') := ForkMemory(m, parent, retSite).value;
      forall child: T.Task :: child.pgdir == Some(dir) && child.kstack == Some(stack) ==>
        Forked(m, m', free, parent, child, retSite)
  {
    hide MapKernel, FillChild, Kmalloc, Forked, KernelBuilt;
    KmallocPops(m, free);
    if free != [] {
      var m1 := Kmalloc(m).value.1;
      MapKernelBuilds(m1, free[1..]);
      if |free[1..]| >= KERNEL_PAGES {
        var (dir, m2) := MapKernel(m1).value;
        BuiltFacts(m1, m2, free[1..], dir);
        ChildFilled(m, m1, m2, free, parent, retSite, dir);
      }
    }
  }

  lemma ChildFilled(m: Mem, m1: Mem, m2: Mem, free: seq<int>, parent: T.Task, retSite: Word, dir: int)
    requires IsFreeList(m, free) && TaskOk(m.ram, parent) && SeparateTask(m.ram, parent, free) && |free| > KERNEL_PAGES
    requires m1.ram == m.ram && IsFreeList(m1, free[1..]) && KernelBuilt(m1, dir, m2, free[1..])
    requires WellFormed(m2) && IsFrame(dir)
    ensures FillChild(m2, free[0], dir, parent, retSite).Panic? <==> |free| < 260
    ensures FillChild(m2, free[0], dir, parent, retSite).Ok? ==>
      forall child: T.Task :: child.pgdir == Some(dir) && child.kstack == Some(free[0]) ==>
        Forked(m, FillChild(m2, free[0], dir, parent, retSite).value, free, parent, child, retSite)
  {
    hide AllocMapMemory, ChildStack, CopyToSpace, PageZero, WriteFrame, Unpack;
    var stack, free1 := free[0], free[1..];
    ForkStackUntouched(m, m2, free, parent);
    var words := ChildStack(m2.ram[stack], m2.ram[parent.kstack.value], retSite);
    KernelBuiltFrame(m1, m2, free1, dir, stack, words);
    var m1', m2' := Mem(m1.ram[stack := words], m1.head), Mem(m2.ram[stack := words], m2.head);
    SpaceBuilds(m1', m2', free1, dir, 0, 0x1000);
    if |free1| > KERNEL_PAGES {
      var m3 := AllocMapMemory(m2', dir, 0, 0x1000, RW + US).value;
      ForkPageCopied(m, m1', m3, free, parent, dir);
      var page := UserFrame(m.ram, parent.pgdir.value);
      ImageLoaded(m1', m3, free1, dir, m3.ram[page]);
      CopyInPageZero(m3, dir, 0, Unpack(m3.ram[page]));
      WholePage(m3.ram[free1[258]], m3.ram[page]);
      var m4 := Mem(m3.ram[free1[258] := m3.ram[page]], m3.head);
      forall child: T.Task | child.pgdir == Some(dir) && child.kstack == Some(stack)
        ensures Forked(m, m4, free, parent, child, retSite)
      {
        ForkedDone(m, m1', m4, free, parent, child, retSite, words);
      }
    }
  }

  /** The parent's frames and the new stack are not among the pages of the new address space. */
  lemma ForkStackUntouched(m: Mem, m2: Mem, free: seq<int>, parent: T.Task)
    requires IsFreeList(m, free) && |free| > KERNEL_PAGES && TaskOk(m.ram, parent) && SeparateTask(m.ram, parent, free)
    requires OnlyWrites(m.ram, m2.ram, free[1], free[1..][1..258])
    ensures m2.ram[free[0]] == m.ram[free[0]] && m2.ram[parent.kstack.value] == m.ram[parent.kstack.value]
  {
    FramesContain(m.ram, parent);
    assert forall i :: 0 <= i < 257 ==> free[1..][1..258][i] == free[i + 2];
    assert free[1] in free;
  }

  lemma ForkPageCopied(m: Mem, m1: Mem, m3: Mem, free: seq<int>, parent: T.Task, dir: int)
    requires IsFreeList(m, free) && |free| >= 260 && TaskOk(m.ram, parent) && SeparateTask(m.ram, parent, free)
    requires |m1.ram| == RAM_FRAMES && forall f :: 0 <= f < RAM_FRAMES && f != free[0] ==> m1.ram[f] == m.ram[f]
    requires WritesOnly(m1.ram, m3.ram, free[1..][..258])
    ensures PageZero(m3.ram, parent.pgdir.value) == Some(UserFrame(m.ram, parent.pgdir.value))
    ensures m3.ram[UserFrame(m.ram, parent.pgdir.value)] == m.ram[UserFrame(m.ram, parent.pgdir.value)]
  {
    FramesContain(m.ram, parent);
    var written := set f | f in free;
    assert forall i :: 0 <= i < 258 ==> free[1..][..258][i] == free[i + 1];
    assert free[0] in free;
    forall f | 0 <= f < RAM_FRAMES && f !in written ensures m3.ram[f] == m.ram[f] {
      assert f !in free[1..][..258];
    }
    WritesElsewhere(m.ram, m3.ram, parent, written);
    SamePagingSameFrames(m.ram, m3.ram, parent);
    PageZeroIsUserFrame(m3.ram, parent.pgdir.value);
  }

  lemma ForkedDone(m: Mem, m1: Mem, m4: Mem, free: seq<int>, parent: T.Task, child: T.Task, retSite: Word, words: Frame)
    requires IsFreeList(m, free) && |free| >= 260 && TaskOk(m.ram, parent) && SeparateTask(m.ram, parent, free)
    requires m1.ram == m.ram[free[0] := words] && IsFreeList(m1, free[1..])
    requires child.pgdir.Some? && child.kstack == Some(free[0])
    requires Loaded(m1, child.pgdir.value, m4, free[1..], m.ram[UserFrame(m.ram, parent.pgdir.value)])
    requires words == ChildStack(m.ram[free[0]], m.ram[parent.kstack.value], retSite)
    ensures Forked(m, m4, free, parent, child, retSite)
  {
    hide ChildStack;
    var free1 := free[1..];
    assert free1[259..] == free[260..];
    TakenFrames(free1);
    assert free[..260] == [free[0]] + free1[..259];
    assert TaskFrames(m4.ram, child) == [free[0]] + SpaceFrames(m4.ram, child.pgdir.value);
    assert free[0] !in free1[..259] by { assert forall i :: 0 <= i < 259 ==> free1[..259][i] == free[i + 1]; }
    forall f | 0 <= f < RAM_FRAMES && f !in free[..260] ensures m4.ram[f] == m.ram[f] {
      assert f !in free1[..259] && f != free[0];
    }
  }

  // ----- The books after each effect

  /** Set of the elements of a sequence. */
  ghost function Elements(s: seq<int>): set<int> {
    set f | f in s
  }

  /** Writes to free pages leave every owner's paging alone. */
  lemma FreeWritesKeepPaging(tasks: seq<T.Task>, m: Mem, fixed: seq<int>, registered: set<int>, a: Account,
                             ram': seq<Frame>, j: int)
    requires Balanced(tasks, m, fixed, registered, a) && WritesOnly(m.ram, ram', a.free)
    requires T.IsSlot(j) && Owns(j, tasks[j])
    ensures TaskOk(m.ram, tasks[j]) && SeparateTask(m.ram, tasks[j], a.free) && SamePaging(m.ram, ram', tasks[j])
  {
    assert PartOk(m.ram, j, tasks[j], a.parts[j]);
    forall f | f in TaskFrames(m.ram, tasks[j]) ensures f !in a.free {
      OneOwner(tasks, m, fixed, registered, a, j, f);
    }
    WritesElsewhere(m.ram, ram', tasks[j], Elements(a.free));
  }

  lemma PrefixWrites(ram: seq<Frame>, ram': seq<Frame>, free: seq<int>, n: nat)
    requires n <= |free| && WritesOnly(ram, ram', free[..n])
    ensures WritesOnly(ram, ram', free)
  {}

  function ForkAccount(a: Account, n: int): Account
    requires |a.free| >= 260 && 0 <= n < |a.parts|
  {
    Account(a.free[260..], a.parts[n := multiset(a.free[..260])])
  }

  lemma ForkBalanced(tasks: seq<T.Task>, m: Mem, m': Mem, fixed: seq<int>, registered: set<int>, a: Account, n: int,
                     child: T.Task)
    requires Balanced(tasks, m, fixed, registered, a) && |a.free| >= 260
    requires T.IsSlot(n) && !Owns(n, tasks[n]) && Owns(n, child)
    requires TaskMade(m, m', a.free, child)
    ensures Balanced(tasks[n := child], m', fixed, registered, ForkAccount(a, n))
  {
    hide IsFreeList, TaskOk, TaskFrames, SamePaging, WritesOnly;
    PrefixWrites(m.ram, m'.ram, a.free, 260);
    forall j | 0 <= j < T.MAX_TASKS && j != n && Owns(j, tasks[j])
      ensures TaskOk(m.ram, tasks[j]) && SamePaging(m.ram, m'.ram, tasks[j])
    {
      FreeWritesKeepPaging(tasks, m, fixed, registered, a, m'.ram, j);
    }
    assert a.free == a.free[..260] + a.free[260..];
    assert PartOk(m.ram, n, tasks[n], a.parts[n]);
    Rebalance(tasks, tasks[n := child], m, m', fixed, fixed, registered, a, ForkAccount(a, n), n);
  }

  /** The pages of an address space go back: what the free list gains. */
  lemma DestroyBalanced(m: Mem, free: seq<int>, t: T.Task)
    requires IsFreeList(m, free) && TaskOk(m.ram, t) && SeparateTask(m.ram, t, free)
    ensures
      var r := DestroyAddressSpace(m, t.pgdir.value);
      && r.Ok?
      && IsFreeList(r.value, SpaceFrames(m.ram, t.pgdir.value) + free)
      && WritesOnly(m.ram, r.value.ram, SpaceFrames(m.ram, t.pgdir.value))
  {
    hide DestroyAddressSpace;
    FramesContain(m.ram, t);
    DestroyFreesAll(m, free, t.pgdir.value);
  }

  lemma DestroyTaskBalanced(tasks: seq<T.Task>, m: Mem, fixed: seq<int>, registered: set<int>, a: Account, i: int)
      returns (a': Account)
    requires Balanced(tasks, m, fixed, registered, a) && T.IsSlot(i) && Owns(i, tasks[i])
    ensures DestroyTaskMemory(m, tasks[i]).Ok?
    ensures
      var m' := DestroyTaskMemory(m, tasks[i]).value;
      && Balanced(tasks[i := T.FREE_TASK], m', fixed, registered, a')
      && TaskOk(m.ram, tasks[i]) && WritesOnly(m.ram, m'.ram, TaskFrames(m.ram, tasks[i]))
      && a'.free == TaskFrames(m.ram, tasks[i]) + a.free
  {
    hide DestroyAddressSpace, Kfree, IsFreeList, SamePaging, WritesOnly, SpaceFrames, Outside, TablesBelow;
    var t := tasks[i];
    assert PartOk(m.ram, i, t, a.parts[i]);
    FreeWritesKeepPaging(tasks, m, fixed, registered, a, m.ram, i);
    DestroyBalanced(m, a.free, t);
    var space := SpaceFrames(m.ram, t.pgdir.value);
    var m1 := DestroyAddressSpace(m, t.pgdir.value).value;
    StackOutside(tasks, m, fixed, registered, a, i);
    FramesContain(m.ram, t);
    KfreePushes(m1, space + a.free, t.kstack.value);
    var m' := Kfree(m1, VirtualOf(t.kstack.value)).value;
    SameFreeList(m', [t.kstack.value] + (space + a.free), TaskFrames(m.ram, t) + a.free);
    a' := Account(TaskFrames(m.ram, t) + a.free, a.parts[i := multiset{}]);
    DestroyWritesOnlyTask(m, m1, m', t);
    forall j | 0 <= j < T.MAX_TASKS && j != i && Owns(j, tasks[j])
      ensures TaskOk(m.ram, tasks[j]) && SamePaging(m.ram, m'.ram, tasks[j])
    {
      OtherTaskUntouched(tasks, m, fixed, registered, a, i, j, m'.ram);
    }
    Rebalance(tasks, tasks[i := T.FREE_TASK], m, m', fixed, fixed, registered, a, a', i);
  }

  lemma DestroyWritesOnlyTask(m: Mem, m1: Mem, m': Mem, t: T.Task)
    requires TaskOk(m.ram, t) && WritesOnly(m.ram, m1.ram, SpaceFrames(m.ram, t.pgdir.value))
    requires |m'.ram| == RAM_FRAMES && forall f :: 0 <= f < RAM_FRAMES && f != t.kstack.value ==> m'.ram[f] == m1.ram[f]
    ensures WritesOnly(m.ram, m'.ram, TaskFrames(m.ram, t))
  {}

  /** Writes to one task's pages leave another task's paging, and all of its pages, alone. */
  lemma OtherTaskUntouched(tasks: seq<T.Task>, m: Mem, fixed: seq<int>, registered: set<int>, a: Account, i: int,
                           j: int, ram': seq<Frame>)
    requires Balanced(tasks, m, fixed, registered, a)
    requires T.IsSlot(i) && Owns(i, tasks[i]) && T.IsSlot(j) && Owns(j, tasks[j]) && i != j
    requires TaskOk(m.ram, tasks[i]) && WritesOnly(m.ram, ram', TaskFrames(m.ram, tasks[i]))
    ensures TaskOk(m.ram, tasks[j]) && SamePaging(m.ram, ram', tasks[j])
    ensures forall f :: f in TaskFrames(m.ram, tasks[j]) ==> f !in TaskFrames(m.ram, tasks[i])
  {
    assert PartOk(m.ram, j, tasks[j], a.parts[j]);
    forall f | f in TaskFrames(m.ram, tasks[j]) ensures f !in TaskFrames(m.ram, tasks[i]) {
      OneOwner(tasks, m, fixed, registered, a, j, f);
    }
    WritesElsewhere(m.ram, ram', tasks[j], Elements(TaskFrames(m.ram, tasks[i])));
  }

  /** Changing words of kernel stacks and user pages leaves the books as they are. */
  lemma DataWriteBalanced(tasks: seq<T.Task>, m: Mem, fixed: seq<int>, registered: set<int>, a: Account, f: int,
                          words: Frame)
    requires Balanced(tasks, m, fixed, registered, a) && IsFrame(f) && f !in a.free
    requires forall j :: 0 <= j < T.MAX_TASKS && Owns(j, tasks[j]) ==>
      TaskOk(m.ram, tasks[j]) && SamePaging(m.ram, m.ram[f := words], tasks[j])
    requires !Owns(0, tasks[0])
    ensures Balanced(tasks, Mem(m.ram[f := words], m.head), fixed, registered, a)
  {
    FreeListFrame(m, a.free, m.ram[f := words]);
    assert PartOk(m.ram, 0, tasks[0], a.parts[0]);
    Rebalance(tasks, tasks, m, Mem(m.ram[f := words], m.head), fixed, fixed, registered, a, a, 0);
  }

  lemma TaskWriteBalanced(tasks: seq<T.Task>, m: Mem, fixed: seq<int>, registered: set<int>, a: Account, i: int,
                          f: int, words: Frame)
    requires Balanced(tasks, m, fixed, registered, a)
    requires T.IsSlot(i) && Owns(i, tasks[i]) && TaskOk(m.ram, tasks[i])
    requires f == tasks[i].kstack.value || f == UserFrame(m.ram, tasks[i].pgdir.value)
    ensures Balanced(tasks, Mem(m.ram[f := words], m.head), fixed, registered, a)
  {
    assert PartOk(m.ram, i, tasks[i], a.parts[i]);
    DataFramesArePrivate(tasks, m, fixed, registered, a, i, f, m.ram[f := words]);
    DataWriteBalanced(tasks, m, fixed, registered, a, f, words);
  }

  lemma FixedWriteBalanced(tasks: seq<T.Task>, m: Mem, fixed: seq<int>, registered: set<int>, a: Account, f: int,
                           words: Frame)
    requires Balanced(tasks, m, fixed, registered, a) && IsFrame(f) && f in fixed
    requires !Owns(0, tasks[0])
    ensures Balanced(tasks, Mem(m.ram[f := words], m.head), fixed, registered, a)
  {
    assert f !in a.free by {
      SetMultiplicity(registered, f);
      var total := multiset(a.free) + multiset(fixed) + Sum(a.parts);
      assert total[f] <= 1 && f in multiset(fixed);
      assert f !in multiset(a.free);
    }
    forall j | 0 <= j < T.MAX_TASKS && Owns(j, tasks[j])
      ensures TaskOk(m.ram, tasks[j]) && SamePaging(m.ram, m.ram[f := words], tasks[j])
    {
      assert PartOk(m.ram, j, tasks[j], a.parts[j]);
      forall g | g in TaskFrames(m.ram, tasks[j]) ensures g !in {f} { OneOwner(tasks, m, fixed, registered, a, j, g); }
      WritesElsewhere(m.ram, m.ram[f := words], tasks[j], {f});
    }
    DataWriteBalanced(tasks, m, fixed, registered, a, f, words);
  }

  /** The first free page becomes one that the kernel keeps. */
  lemma PageKept(tasks: seq<T.Task>, m: Mem, m': Mem, fixed: seq<int>, fixed': seq<int>, registered: set<int>,
                 a: Account)
    requires Balanced(tasks, m, fixed, registered, a) && !Owns(0, tasks[0]) && a.free != []
    requires WritesOnly(m.ram, m'.ram, a.free) && IsFreeList(m', a.free[1..])
    requires multiset(fixed') == multiset(fixed) + multiset([a.free[0]])
    ensures Balanced(tasks, m', fixed', registered, Account(a.free[1..], a.parts))
  {
    hide TaskOk, SamePaging, IsFreeList, WritesOnly, Sum;
    forall j | 0 <= j < T.MAX_TASKS && Owns(j, tasks[j])
      ensures TaskOk(m.ram, tasks[j]) && SamePaging(m.ram, m'.ram, tasks[j])
    {
      FreeWritesKeepPaging(tasks, m, fixed, registered, a, m'.ram, j);
    }
    assert PartOk(m.ram, 0, tasks[0], a.parts[0]);
    assert a.free == [a.free[0]] + a.free[1..];
    assert multiset(a.free) == multiset([a.free[0]]) + multiset(a.free[1..]);
    Rebalance(tasks, tasks, m, m', fixed, fixed', registered, a, Account(a.free[1..], a.parts), 0);
  }

  // ----- execv

  lemma SpaceFacts(ram: seq<Frame>, dir: int)
    requires UserSpace(ram, dir)
    ensures IsSpace(ram, dir) && Lookup(ram, dir, 0).Some? && IsFrame(UserFrame(ram, dir))
    ensures |SpaceFrames(ram, dir)| == 259
  {}

  lemma TaskFacts(ram: seq<Frame>, t: T.Task)
    requires TaskOk(ram, t)
    ensures IsSpace(ram, t.pgdir.value) && Lookup(ram, t.pgdir.value, 0).Some?
    ensures TaskFrames(ram, t) == [t.kstack.value] + SpaceFrames(ram, t.pgdir.value)
    ensures multiset(TaskFrames(ram, t)) == multiset([t.kstack.value]) + multiset(SpaceFrames(ram, t.pgdir.value))
  {}

  lemma SameSpaceFrames(ram: seq<Frame>, ram': seq<Frame>, t: T.Task)
    requires TaskOk(ram, t) && TaskOk(ram', t) && TaskFrames(ram, t) == TaskFrames(ram', t)
    ensures SpaceFrames(ram', t.pgdir.value) == SpaceFrames(ram, t.pgdir.value)
  {
    hide SpaceFrames;
    TaskFacts(ram, t);
    TaskFacts(ram', t);
    assert SpaceFrames(ram', t.pgdir.value) == TaskFrames(ram', t)[1..];
    assert SpaceFrames(ram, t.pgdir.value) == TaskFrames(ram, t)[1..];
  }

  /** The new directory that sys_execv builds, when it gets as far as loading. */
  lemma ExecLoads(m: Mem, free: seq<int>, elf: Page)
    requires IsFreeList(m, free) && Elf.IsProgram(elf)
    ensures MapKernel(m).Ok? <==> |free| >= KERNEL_PAGES
    ensures MapKernel(m).Ok? && LoadSegments(MapKernel(m).value.1, MapKernel(m).value.0, elf, 0).Ok? <==>
      |free| > KERNEL_PAGES
    ensures |free| > KERNEL_PAGES ==>
      var (dir, m1) := MapKernel(m).value;
      dir == free[0] && Loaded(m, dir, LoadSegments(m1, dir, elf, 0).value, free, ProgramImage(m.ram[free[258]], elf))
  {
    hide MapKernel, LoadSegments, Loaded, Elf.IsProgram, ProgramImage;
    MapKernelBuilds(m, free);
    if |free| >= KERNEL_PAGES {
      var (dir, m1) := MapKernel(m).value;
      ProgramLoads(m, m1, free, dir, elf);
    }
  }

  /** The rest of sys_execv: the trap frame of the caller has the new entry and stack pointer, and page 0 the
      arguments. */
  lemma StartPrepared(m: Mem, m2: Mem, free: seq<int>, t: T.Task, dir: int, image: Frame, entry: Word,
                      argv: Option<seq<U.Arg>>)
      returns (m3: Mem)
    requires IsFreeList(m, free) && |free| > KERNEL_PAGES && Loaded(m, dir, m2, free, image)
    requires TaskOk(m.ram, t) && SeparateTask(m.ram, t, free)
    ensures
      var (page, esp) := U.PrepareStack(Unpack(image), argv);
      var stack := t.kstack.value;
      var words := Started(m.ram[stack], entry, if esp.Some? then esp.value else U.STACK_TOP);
      && IsFreeList(Mem(m.ram[stack := words], m.head), free)
      && Loaded(Mem(m.ram[stack := words], m.head), dir, m3, free, Pack(page))
      && StartProgram(m2, t, dir, entry, argv) ==
         if esp == None then GiveUp(m3, dir) else
         match DestroyAddressSpace(m3, t.pgdir.value) case Panic => Panic case Ok(m4) => Ok((Some(dir), m4))
  {
    hide Loaded, IsFreeList, DestroyAddressSpace, U.PrepareStack, Pack, Unpack, PageZero, TaskFrames, UserSpace;
    var stack := t.kstack.value;
    FramesContain(m.ram, t);
    TaskFacts(m.ram, t);
    LoadedRam(m, dir, m2, free, image, stack);
    var (page, esp) := U.PrepareStack(Unpack(image), argv);
    var first := Started(m.ram[stack], entry, U.STACK_TOP);
    var words := Started(m.ram[stack], entry, if esp.Some? then esp.value else U.STACK_TOP);
    LoadedFrame(m, dir, m2, free, image, stack, first);
    var m', m2' := Mem(m.ram[stack := first], m.head), Mem(m2.ram[stack := first], m2.head);
    PageReloaded(m', dir, m2', free, image, Pack(page));
    var m2'' := Mem(m2'.ram[free[258] := Pack(page)], m2.head);
    LoadedFrame(m', dir, m2'', free, Pack(page), stack, words);
    m3 := Mem(m2''.ram[stack := words], m2.head);
    assert m'.ram[stack := words] == m.ram[stack := words];
    assert free[258] != stack && m2''.ram[stack] == first;
    assert SetStart(m2.ram, stack, entry, U.STACK_TOP) == m2'.ram;
    if esp == None {
      assert m3.ram == m2''.ram;
    } else {
      assert Started(first, entry, esp.value) == words;
      assert SetStart(m2''.ram, stack, entry, esp.value) == m3.ram;
    }
  }

  lemma LoadedRam(m: Mem, dir: int, m2: Mem, free: seq<int>, image: Frame, f: int)
    requires IsFreeList(m, free) && |free| > KERNEL_PAGES && Loaded(m, dir, m2, free, image) && IsFrame(f) && f !in free
    ensures |m.ram| == |m2.ram| == RAM_FRAMES && m2.ram[f] == m.ram[f] && IsFrame(dir)
    ensures forall k :: 0 <= k < |free| ==> IsFrame(free[k])
  {}

  /** The caller's pages after a load are as before and apart from the new ones. */
  lemma LoadKeepsTask(tasks: seq<T.Task>, m: Mem, m2: Mem, fixed: seq<int>, registered: set<int>, a: Account, c: int,
                      dir: int, image: Frame)
    requires Balanced(tasks, m, fixed, registered, a) && |a.free| > KERNEL_PAGES
    requires Loaded(m, dir, m2, a.free, image)
    requires T.IsSlot(c) && Owns(c, tasks[c]) && TaskOk(m.ram, tasks[c])
    ensures TaskOk(m2.ram, tasks[c]) && TaskFrames(m2.ram, tasks[c]) == TaskFrames(m.ram, tasks[c])
    ensures SeparateTask(m2.ram, tasks[c], a.free[259..])
    ensures m2.ram[tasks[c].kstack.value] == m.ram[tasks[c].kstack.value]
    ensures forall f :: f in SpaceFrames(m2.ram, dir) ==> f in a.free && f !in TaskFrames(m2.ram, tasks[c])
  {
    PrefixWrites(m.ram, m2.ram, a.free, 259);
    FreeWritesKeepPaging(tasks, m, fixed, registered, a, m2.ram, c);
    SamePagingSameFrames(m.ram, m2.ram, tasks[c]);
    FramesContain(m.ram, tasks[c]);
    NewFramesAreFree(m2.ram, a.free, dir);
  }

  lemma NewFramesAreFree(ram: seq<Frame>, free: seq<int>, dir: int)
    requires |free| > KERNEL_PAGES && UserSpace(ram, dir)
    requires SpaceFrames(ram, dir) == [free[0]] + Reverse(free[1..258]) + [free[258]]
    ensures forall f :: f in SpaceFrames(ram, dir) ==> f in free
    ensures multiset(SpaceFrames(ram, dir)) + multiset(free[259..]) == multiset(free)
  {
    TakenFrames(free);
    ReverseMembers(free[1..258]);
    forall f | f in SpaceFrames(ram, dir) ensures f in free {
      assert f in multiset(SpaceFrames(ram, dir));
      assert f in multiset(free);
    }
  }

  function ExecAccount(a: Account, c: int, oldSpace: seq<int>, newFrames: seq<int>): Account
    requires |a.free| > 258 && 0 <= c < |a.parts|
  {
    Account(oldSpace + a.free[259..], a.parts[c := multiset(newFrames)])
  }

  lemma ExecWrites(ram: seq<Frame>, ram2: seq<Frame>, ram3: seq<Frame>, free: seq<int>, space: seq<int>, stack: int)
    requires |free| > KERNEL_PAGES && WritesOnly(ram, ram2, free[..259]) && WritesOnly(ram2, ram3, space)
    ensures WritesOnly(ram, ram3, free + ([stack] + space))
  {}

  /** A successful sys_execv trades the caller's address space for a new one. */
  lemma ExecSuccessBalanced(tasks: seq<T.Task>, m: Mem, m2: Mem, fixed: seq<int>, registered: set<int>, a: Account,
                            c: int, dir: int, image: Frame)
      returns (a': Account)
    requires Balanced(tasks, m, fixed, registered, a) && |a.free| > KERNEL_PAGES
    requires Loaded(m, dir, m2, a.free, image)
    requires T.IsSlot(c) && Owns(c, tasks[c]) && TaskOk(m.ram, tasks[c])
    ensures
      var r := DestroyAddressSpace(m2, tasks[c].pgdir.value);
      var t' := tasks[c].(pgdir := Some(dir));
      && r.Ok?
      && Balanced(tasks[c := t'], r.value, fixed, registered, a')
      && TaskOk(r.value.ram, t')
      && r.value.ram[UserFrame(r.value.ram, dir)] == image
      && r.value.ram[t'.kstack.value] == m.ram[t'.kstack.value]
      && WritesOnly(m.ram, r.value.ram, a.free + TaskFrames(m.ram, tasks[c]))
  {
    hide DestroyAddressSpace, IsFreeList, WritesOnly, UserSpace, SpaceFrames, TablesBelow, SamePaging, PartOk, Sum;
    var t, t' := tasks[c], tasks[c].(pgdir := Some(dir));
    LoadKeepsTask(tasks, m, m2, fixed, registered, a, c, dir, image);
    TaskFacts(m2.ram, t);
    SpaceFacts(m2.ram, dir);
    DestroyBalanced(m2, a.free[259..], t);
    var m3 := DestroyAddressSpace(m2, t.pgdir.value).value;
    var space := SpaceFrames(m2.ram, t.pgdir.value);
    OldSpaceApart(tasks, m, m2, fixed, registered, a, c, dir);
    WritesElsewhereSeq(m2.ram, m3.ram, t', space);
    SamePagingSameFrames(m2.ram, m3.ram, t');
    FramesContain(m2.ram, t');
    UnwrittenFrame(m2.ram, m3.ram, space, UserFrame(m2.ram, dir));
    UnwrittenFrame(m2.ram, m3.ram, space, t'.kstack.value);
    SameSpaceFrames(m2.ram, m3.ram, t');
    ExecWrites(m.ram, m2.ram, m3.ram, a.free, space, t.kstack.value);
    assert TaskFrames(m.ram, t) == [t.kstack.value] + space;
    a' := ExecAccount(a, c, space, TaskFrames(m3.ram, t'));
    ExecRebalance(tasks, m, m2, m3, fixed, registered, a, a', c, dir, image);
  }

  lemma UnwrittenFrame(ram: seq<Frame>, ram': seq<Frame>, written: seq<int>, f: int)
    requires WritesOnly(ram, ram', written) && IsFrame(f) && f !in written
    ensures ram'[f] == ram[f]
  {}

  lemma WritesElsewhereSeq(ram: seq<Frame>, ram': seq<Frame>, t: T.Task, written: seq<int>)
    requires TaskOk(ram, t) && WritesOnly(ram, ram', written)
    requires forall f :: f in TaskFrames(ram, t) ==> f !in written
    ensures SamePaging(ram, ram', t)
  {
    WritesElsewhere(ram, ram', t, Elements(written));
  }

  /** The task with its new directory owns its stack and the new pages, none of them in the old space. */
  lemma OldSpaceApart(tasks: seq<T.Task>, m: Mem, m2: Mem, fixed: seq<int>, registered: set<int>, a: Account, c: int,
                      dir: int)
    requires Balanced(tasks, m, fixed, registered, a)
    requires T.IsSlot(c) && Owns(c, tasks[c]) && TaskOk(m.ram, tasks[c])
    requires TaskOk(m2.ram, tasks[c]) && TaskFrames(m2.ram, tasks[c]) == TaskFrames(m.ram, tasks[c])
    requires UserSpace(m2.ram, dir)
    requires forall f :: f in SpaceFrames(m2.ram, dir) ==> f !in TaskFrames(m2.ram, tasks[c])
    ensures TaskOk(m2.ram, tasks[c].(pgdir := Some(dir)))
    ensures forall f :: f in TaskFrames(m2.ram, tasks[c].(pgdir := Some(dir))) ==>
      f !in SpaceFrames(m2.ram, tasks[c].pgdir.value)
  {
    var t := tasks[c];
    assert PartOk(m.ram, c, t, a.parts[c]);
    StackOutside(tasks, m, fixed, registered, a, c);
    var frames := TaskFrames(m2.ram, t);
    assert forall k :: 0 <= k < 259 ==> SpaceFrames(m2.ram, t.pgdir.value)[k] == frames[k + 1];
    assert SpaceFrames(m.ram, t.pgdir.value) == TaskFrames(m.ram, t)[1..] == SpaceFrames(m2.ram, t.pgdir.value);
  }

  lemma ExecRebalance(tasks: seq<T.Task>, m: Mem, m2: Mem, m3: Mem, fixed: seq<int>, registered: set<int>,
                      a: Account, a': Account, c: int, dir: int, image: Frame)
    requires Balanced(tasks, m, fixed, registered, a) && |a.free| > KERNEL_PAGES
    requires Loaded(m, dir, m2, a.free, image)
    requires T.IsSlot(c) && Owns(c, tasks[c]) && TaskOk(m.ram, tasks[c])
    requires TaskOk(m2.ram, tasks[c]) && TaskFrames(m2.ram, tasks[c]) == TaskFrames(m.ram, tasks[c])
    requires WritesOnly(m2.ram, m3.ram, SpaceFrames(m2.ram, tasks[c].pgdir.value))
    requires IsFreeList(m3, SpaceFrames(m2.ram, tasks[c].pgdir.value) + a.free[259..])
    requires UserSpace(m3.ram, dir) && SpaceFrames(m3.ram, dir) == SpaceFrames(m2.ram, dir)
    requires TaskOk(m3.ram, tasks[c].(pgdir := Some(dir)))
    requires a' == ExecAccount(a, c, SpaceFrames(m2.ram, tasks[c].pgdir.value),
                               TaskFrames(m3.ram, tasks[c].(pgdir := Some(dir))))
    ensures Balanced(tasks[c := tasks[c].(pgdir := Some(dir))], m3, fixed, registered, a')
  {
    hide IsFreeList, SamePaging, WritesOnly, UserSpace, TablesBelow, SpaceFrames;
    var t, t' := tasks[c], tasks[c].(pgdir := Some(dir));
    TaskFacts(m.ram, t);
    TaskFacts(m2.ram, t);
    TaskFacts(m3.ram, t');
    SpaceFacts(m2.ram, dir);
    var oldSpace, newSpace := SpaceFrames(m2.ram, t.pgdir.value), SpaceFrames(m2.ram, dir);
    forall j | 0 <= j < T.MAX_TASKS && j != c && Owns(j, tasks[j])
      ensures TaskOk(m.ram, tasks[j]) && SamePaging(m.ram, m3.ram, tasks[j])
    {
      ExecKeepsOthers(tasks, m, m2, m3, fixed, registered, a, c, j);
    }
    NewFramesAreFree(m2.ram, a.free, dir);
    assert PartOk(m.ram, c, t, a.parts[c]);
    ExecTrade(a.free, a.free[259..], fixed, t.kstack.value, oldSpace, newSpace);
    Rebalance(tasks, tasks[c := t'], m, m3, fixed, fixed, registered, a, a', c);
  }

  lemma ExecTrade(free: seq<int>, rest: seq<int>, fixed: seq<int>, stack: int, oldSpace: seq<int>, newSpace: seq<int>)
    requires multiset(newSpace) + multiset(rest) == multiset(free)
    ensures multiset(oldSpace + rest) + multiset(fixed) + multiset([stack] + newSpace)
         == multiset(free) + multiset(fixed) + multiset([stack] + oldSpace)
  {}

  lemma ExecKeepsOthers(tasks: seq<T.Task>, m: Mem, m2: Mem, m3: Mem, fixed: seq<int>, registered: set<int>,
                        a: Account, c: int, j: int)
    requires Balanced(tasks, m, fixed, registered, a) && |a.free| > KERNEL_PAGES
    requires WritesOnly(m.ram, m2.ram, a.free[..259])
    requires T.IsSlot(c) && Owns(c, tasks[c]) && TaskOk(m.ram, tasks[c]) && T.IsSlot(j) && Owns(j, tasks[j]) && j != c
    requires TaskOk(m2.ram, tasks[c]) && TaskFrames(m2.ram, tasks[c]) == TaskFrames(m.ram, tasks[c])
    requires WritesOnly(m2.ram, m3.ram, SpaceFrames(m2.ram, tasks[c].pgdir.value))
    ensures TaskOk(m.ram, tasks[j]) && SamePaging(m.ram, m3.ram, tasks[j])
    ensures m3.ram[tasks[j].kstack.value] == m.ram[tasks[j].kstack.value]
  {
    hide IsFreeList, UserSpace, TablesBelow, SpaceFrames, SamePaging;
    assert PartOk(m.ram, j, tasks[j], a.parts[j]);
    TaskFacts(m.ram, tasks[c]);
    TaskFacts(m2.ram, tasks[c]);
    var written := a.free + TaskFrames(m.ram, tasks[c]);
    ExecWrites(m.ram, m2.ram, m3.ram, a.free, SpaceFrames(m2.ram, tasks[c].pgdir.value), tasks[c].kstack.value);
    assert TaskFrames(m.ram, tasks[c]) == [tasks[c].kstack.value] + SpaceFrames(m2.ram, tasks[c].pgdir.value);
    forall f | f in TaskFrames(m.ram, tasks[j]) ensures f !in written {
      OneOwner(tasks, m, fixed, registered, a, j, f);
    }
    FramesContain(m.ram, tasks[j]);
    WritesElsewhereSeq(m.ram, m3.ram, tasks[j], written);
  }

  /** A load that is torn down again, because the arguments cannot be read, returns exactly the pages it
      took. */
  lemma ExecFaultBalanced(tasks: seq<T.Task>, m: Mem, m2: Mem, fixed: seq<int>, registered: set<int>, a: Account,
                          dir: int, image: Frame)
      returns (a': Account)
    requires Balanced(tasks, m, fixed, registered, a) && |a.free| > KERNEL_PAGES && !Owns(0, tasks[0])
    requires Loaded(m, dir, m2, a.free, image)
    ensures DestroyAddressSpace(m2, dir).Ok?
    ensures Balanced(tasks, DestroyAddressSpace(m2, dir).value, fixed, registered, a')
    ensures multiset(a'.free) == multiset(a.free)
    ensures WritesOnly(m.ram, DestroyAddressSpace(m2, dir).value.ram, a.free)
  {
    hide DestroyAddressSpace, TablesBelow;
    BuiltSpaceSeparate(m2, a.free, dir);
    DestroyFreesAll(m2, a.free[259..], dir);
    var m3 := DestroyAddressSpace(m2, dir).value;
    NewFramesAreFree(m2.ram, a.free, dir);
    a' := Account(SpaceFrames(m2.ram, dir) + a.free[259..], a.parts);
    LoadUndoneWrites(m.ram, m2.ram, m3.ram, a.free, SpaceFrames(m2.ram, dir));
    FreeShuffled(tasks, m, m3, fixed, registered, a, a');
  }

  lemma LoadUndoneWrites(ram: seq<Frame>, ram2: seq<Frame>, ram3: seq<Frame>, free: seq<int>, space: seq<int>)
    requires |free| > KERNEL_PAGES && WritesOnly(ram, ram2, free[..259]) && WritesOnly(ram2, ram3, space)
    requires forall f :: f in space ==> f in free
    ensures WritesOnly(ram, ram3, free)
  {}

  lemma FreeShuffled(tasks: seq<T.Task>, m: Mem, m': Mem, fixed: seq<int>, registered: set<int>, a: Account,
                     a': Account)
    requires Balanced(tasks, m, fixed, registered, a) && !Owns(0, tasks[0])
    requires WritesOnly(m.ram, m'.ram, a.free) && IsFreeList(m', a'.free)
    requires a'.parts == a.parts && multiset(a'.free) == multiset(a.free)
    ensures Balanced(tasks, m', fixed, registered, a')
  {
    forall j | 0 <= j < T.MAX_TASKS && j != 0 && Owns(j, tasks[j])
      ensures TaskOk(m.ram, tasks[j]) && SamePaging(m.ram, m'.ram, tasks[j])
    {
      FreeWritesKeepPaging(tasks, m, fixed, registered, a, m'.ram, j);
    }
    assert PartOk(m.ram, 0, tasks[0], a.parts[0]);
    Rebalance(tasks, tasks, m, m', fixed, fixed, registered, a, a', 0);
  }

  /** When sys_execv finds no file, or no ELF image, it tears down a space whose page 0 still is the identity
      map: physical frame 0, which nobody registered, joins the free list. */
  lemma ExecLeaksFrameZero(tasks: seq<T.Task>, m: Mem, fixed: seq<int>, registered: set<int>, a: Account)
      returns (a': Account)
    requires Balanced(tasks, m, fixed, registered, a) && |a.free| >= KERNEL_PAGES && 0 !in registered
    ensures MapKernel(m).Ok?
    ensures
      var (dir, m1) := MapKernel(m).value;
      var r := DestroyAddressSpace(m1, dir);
      && r.Ok?
      && multiset(a'.free) == multiset(a.free) + multiset{0}
      && Balanced(tasks, r.value, fixed, registered + {0}, a')
      && WritesOnly(m.ram, r.value.ram, a.free + [0])
  {
    hide MapKernel, DestroyAddressSpace, KernelBuilt, Sum, PartOk;
    NotRegisteredNotFree(tasks, m, fixed, registered, a, 0);
    MapKernelBuilds(m, a.free);
    var (dir, m1) := MapKernel(m).value;
    KernelDestroyed(m, m1, a.free, dir);
    var m2 := DestroyAddressSpace(m1, dir).value;
    var free' :| IsFreeList(m2, free') && multiset(free') == multiset(a.free) + multiset{0};
    a' := Account(free', a.parts);
    LeakBalanced(tasks, m, m2, fixed, registered, a, a');
  }

  lemma LeakBalanced(tasks: seq<T.Task>, m: Mem, m': Mem, fixed: seq<int>, registered: set<int>, a: Account,
                     a': Account)
    requires Balanced(tasks, m, fixed, registered, a) && 0 !in registered
    requires WritesOnly(m.ram, m'.ram, a.free + [0]) && IsFreeList(m', a'.free)
    requires multiset(a'.free) == multiset(a.free) + multiset{0} && a'.parts == a.parts
    ensures Balanced(tasks, m', fixed, registered + {0}, a')
  {
    forall j | 0 <= j < T.MAX_TASKS ensures PartOk(m'.ram, j, tasks[j], a.parts[j]) {
      assert PartOk(m.ram, j, tasks[j], a.parts[j]);
      if Owns(j, tasks[j]) {
        forall f | f in TaskFrames(m.ram, tasks[j]) ensures f !in a.free + [0] {
          OneOwner(tasks, m, fixed, registered, a, j, f);
        }
        WritesElsewhereSeq(m.ram, m'.ram, tasks[j], a.free + [0]);
        SamePagingSameFrames(m.ram, m'.ram, tasks[j]);
      }
    }
    OneMore(registered, 0);
  }

  lemma OneMore(s: set<int>, x: int)
    requires x !in s
    ensures multiset(s + {x}) == multiset(s) + multiset{x}
  {}

  lemma LeakWrites(ram: seq<Frame>, ram1: seq<Frame>, ram2: seq<Frame>, free: seq<int>, space: seq<int>)
    requires |free| >= KERNEL_PAGES && OnlyWrites(ram, ram1, free[0], free[1..258]) && WritesOnly(ram1, ram2, space)
    requires space == [free[0]] + Reverse(free[1..258]) + [0]
    ensures WritesOnly(ram, ram2, free + [0])
  {}

  lemma NotRegisteredNotFree(tasks: seq<T.Task>, m: Mem, fixed: seq<int>, registered: set<int>, a: Account, f: int)
    requires Balanced(tasks, m, fixed, registered, a)
    ensures f !in registered ==> f !in a.free
  {
    var total := multiset(a.free) + multiset(fixed) + Sum(a.parts);
    assert f in a.free ==> f in multiset(a.free) && f in total;
  }

  /** No books balance while a page that is not registered is free. */
  lemma NeverBalanced(tasks: seq<T.Task>, m: Mem, fixed: seq<int>, registered: set<int>, a: Account, free: seq<int>)
    requires IsFreeList(m, free) && 0 in free && 0 !in registered
    ensures !Balanced(tasks, m, fixed, registered, a)
  {
    if Balanced(tasks, m, fixed, registered, a) {
      NotRegisteredNotFree(tasks, m, fixed, registered, a, 0);
      FreeListUnique(m, free, a.free);
    }
  }

  /** Destroying a space that map_kernel just built gives back its 258 pages, and frame 0. */
  lemma KernelDestroyed(m: Mem, m1: Mem, free: seq<int>, dir: int)
    requires IsFreeList(m, free) && |free| >= KERNEL_PAGES && KernelBuilt(m, dir, m1, free) && 0 !in free
    ensures DestroyAddressSpace(m1, dir).Ok?
    ensures exists free' :: IsFreeList(DestroyAddressSpace(m1, dir).value, free') &&
      multiset(free') == multiset(free) + multiset{0}
    ensures WritesOnly(m.ram, DestroyAddressSpace(m1, dir).value.ram, free + [0])
  {
    hide DestroyAddressSpace, TablesBelow;
    var tables := free[1..258];
    KernelTablesBelow(m1.ram, dir, tables, PDE_SIZE);
    assert tables[..257] == tables;
    assert Lookup(m1.ram, dir, 0) == KernelMapping(0);
    KernelZeroOutside(m1.ram, dir, free);
    DestroyFreesAll(m1, free[258..], dir);
    var free' := SpaceFrames(m1.ram, dir) + free[258..];
    assert free' == [free[0]] + Reverse(tables) + [0] + free[258..];
    LeakedFrames(free);
    LeakWrites(m.ram, m1.ram, DestroyAddressSpace(m1, dir).value.ram, free, SpaceFrames(m1.ram, dir));
  }

  lemma KernelZeroOutside(ram: seq<Frame>, dir: int, free: seq<int>)
    requires IsSpace(ram, dir) && |free| >= KERNEL_PAGES && 0 !in free && dir == free[0]
    requires (forall k :: 0 <= k < |free| ==> IsFrame(free[k])) && HasKernelTables(ram, dir, free[1..258])
    ensures Outside(ram, dir, 0)
  {}

  lemma LeakedFrames(free: seq<int>)
    requires |free| >= KERNEL_PAGES
    ensures multiset([free[0]] + Reverse(free[1..258]) + [0] + free[258..]) == multiset(free) + multiset{0}
  {
    ReverseMembers(free[1..258]);
    assert free == [free[0]] + free[1..258] + free[258..];
  }
}
