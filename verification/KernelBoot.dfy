/** From power-up to the first dispatch: main sets up the allocator, the kernel's page tables, its own
    stack, the files and init. The state it arrives at balances, so every run from it does. */
module KernelBoot {
  import opened Machine
  import opened Bytes
  import opened PageAllocator
  import opened PageTable
  import opened AddressSpace
  import opened SpaceCopy
  import opened Accounts
  import opened Context
  import opened Kernel
  import opened Conservation
  import opened KernelInv
  import opened KernelRuns
  import A = Archive
  import C = Console
  import Elf
  import F = FileTable
  import T = Tasks
  import U = UserStack

  /** The part of memory that the boot page directory maps. */
  const LOW_END := 0xc040_0000

  /** init_fs: one page for the data of each file. */
  function StoreFiles(m: Mem, pages: seq<Frame>): (r: Result<(seq<int>, Mem)>)
    requires WellFormed(m)
    ensures r.Ok? ==> |r.value.0| == |pages| && WellFormed(r.value.1)
    decreases |pages|
  {
    if pages == [] then Ok(([], m)) else
    match Kmalloc(m)
    case Panic => Panic
    case Ok((ptr, m1)) =>
      match StoreFiles(Mem(m1.ram[FrameOf(ptr) := pages[0]], m1.head), pages[1..])
      case Panic => Panic
      case Ok((frames, m2)) => Ok(([FrameOf(ptr)] + frames, m2))
  }

  /** What init_fs finds in an archive: at most 31 files with short names and a page of data each. */
  predicate AreFiles(fs: seq<A.File>) {
    && |fs| < F.MAX_FILES
    && forall i :: 0 <= i < |fs| ==> |fs[i].name| <= 15 && 0 <= fs[i].size <= 4096 && |fs[i].data| == 4096
  }

  lemma {:induction false} WalkFinds(ar: seq<Byte>, p: nat, fs: seq<A.File>)
    requires AreFiles(fs)
    ensures A.Walk(ar, p, fs).Done? ==> AreFiles(A.Walk(ar, p, fs).files)
    decreases |ar| - p
  {
    hide A.NameBuffer, A.SizeBuffer, A.Padded;
    if p < |ar| && p + 60 <= |ar| {
      match A.ParseHeader(ar[p..p + 60])
      case None =>
      case Some((name, size)) =>
        if 0 <= size <= 4096 && p + 60 + size <= |ar| && |fs| + 1 < F.MAX_FILES {
          WalkFinds(ar, p + 60 + size + size % 2, fs + [A.File(name, size, A.Padded(ar[p + 60..p + 60 + size]))]);
        }
    }
  }

  function Pages(fs: seq<A.File>): (pages: seq<Frame>)
    requires AreFiles(fs)
    ensures |pages| == |fs|
  {
    seq(|fs|, i requires 0 <= i < |fs| => Pack(fs[i].data))
  }

  /** The file table that init_fs leaves. */
  function Table(fs: seq<A.File>, frames: seq<int>): (files: seq<F.File>)
    requires AreFiles(fs) && |frames| == |fs|
    ensures F.IsTable(files)
  {
    seq(32, i requires 0 <= i < 32 =>
          if i < |fs| then F.File(fs[i].name, true, F.Regular, fs[i].size, 0, Some(frames[i])) else F.NO_FILE)
  }

  const INIT: U.CString := [0x69, 0x6e, 0x69, 0x74]

  /** create_init_task: alloc_task and register_task. */
  function InitMemory(m: Mem, files: seq<F.File>, retSite: Word): (r: Result<(int, int, Mem)>)
    requires WellFormed(m) && F.IsTable(files)
    ensures r.Ok? ==> WellFormed(r.value.2)
  {
    match Kmalloc(m)
    case Panic => Panic
    case Ok((ptr, m1)) =>
      match MapKernel(m1)
      case Panic => Panic
      case Ok((dir, m2)) =>
        match LoadInit(m2, dir, files)
        case Panic => Panic
        case Ok((entry, m3)) =>
          var stack := FrameOf(ptr);
          Ok((stack, dir, Mem(m3.ram[stack := InitStack(m3.ram[stack], entry, retSite)], m3.head)))
  }

  /** get_file and load_elf in register_task. */
  function LoadInit(m: Mem, dir: int, files: seq<F.File>): (r: Result<(Word, Mem)>)
    requires WellFormed(m) && IsFrame(dir) && F.IsTable(files)
    ensures r.Ok? ==> WellFormed(r.value.1)
  {
    var image := Find(files, m, INIT);
    if !image.Program? then Panic else
    match LoadSegments(m, dir, image.elf, 0)
    case Panic => Panic
    case Ok(m1) => Ok((Elf.Entry(image.elf), m1))
  }

  /** The kernel's own memory: allocator, page tables, stack, the rest of memory, files. */
  function OwnMemory(ram: seq<Frame>, kernelEnd: Word, pages: seq<Frame>): (r: Result<(int, int, seq<int>, Mem)>)
    requires |ram| == RAM_FRAMES
    ensures r.Ok? ==> IsFrame(r.value.1) && |r.value.2| == |pages| && WellFormed(r.value.3)
  {
    match RegisterFreeMem(Mem(ram, 0), kernelEnd, LOW_END)
    case Panic => Panic
    case Ok(m0) =>
      match MapKernel(m0)
      case Panic => Panic
      case Ok((kdir, m1)) =>
        match Kmalloc(m1)
        case Panic => Panic
        case Ok((ptr, m2)) =>
          match RegisterFreeMem(m2, LOW_END, KERN_TOP)
          case Panic => Panic
          case Ok(m3) =>
            match StoreFiles(m3, pages)
            case Panic => Panic
            case Ok((frames, m4)) => Ok((kdir, FrameOf(ptr), frames, m4))
  }

  /** main, up to schedule. An archive that init_fs cannot read is not part of the model. */
  function BootKernel(ram: seq<Frame>, kernelEnd: Word, archive: seq<Byte>, retSite: Word): (r: Result<Kernel>)
    requires |ram| == RAM_FRAMES
    ensures r.Ok? ==> IsKernel(r.value)
  {
    match A.Walk(archive, 8, [])
    case Panicked => Panic
    case Outside => Panic
    case Done(fs) =>
      WalkFinds(archive, 8, []);
      match OwnMemory(ram, kernelEnd, Pages(fs))
      case Panic => Panic
      case Ok((kdir, bootStack, frames, m)) =>
        match InitMemory(m, Table(fs, frames), retSite)
        case Panic => Panic
        case Ok((stack, dir, m')) =>
          Ok(Kernel(T.Boot(kdir, dir, stack), m', Table(fs, frames), C.EmptyRing(),
                    seq(1024, i => if i == 1 then CONTEXT else 0),
                    bootStack, retSite))
  }

  // ----- The pages after each stage

  /** Each file has the next free page, with its data in it. */
  ghost predicate FilesStored(m: Mem, free: seq<int>, pages: seq<Frame>, frames: seq<int>, m': Mem)
    requires IsFreeList(m, free) && |pages| <= |free|
  {
    && frames == free[..|pages|] && IsFreeList(m', free[|pages|..])
    && (forall i :: 0 <= i < |pages| ==> m'.ram[frames[i]] == pages[i])
    && (forall f :: IsFrame(f) && f !in free[..|pages|] ==> m'.ram[f] == m.ram[f])
  }

  lemma {:induction false} StoreFilesTakes(m: Mem, free: seq<int>, pages: seq<Frame>)
    requires IsFreeList(m, free) && |pages| <= |free|
    ensures StoreFiles(m, pages).Ok?
    ensures FilesStored(m, free, pages, StoreFiles(m, pages).value.0, StoreFiles(m, pages).value.1)
    decreases |pages|
  {
    hide Kmalloc, FilesStored;
    if pages == [] {
      NothingStored(m, free);
    } else {
      KmallocPops(m, free);
      var (ptr, m1) := Kmalloc(m).value;
      var m2 := Mem(m1.ram[FrameOf(ptr) := pages[0]], m1.head);
      FreeListFrame(m1, free[1..], m2.ram);
      StoreFilesTakes(m2, free[1..], pages[1..]);
      var (frames, m') := StoreFiles(m2, pages[1..]).value;
      OneStored(m, m2, free, pages, frames, m');
    }
  }

  lemma NothingStored(m: Mem, free: seq<int>)
    requires IsFreeList(m, free)
    ensures FilesStored(m, free, [], [], m)
  {
    assert free[0..] == free;
  }

  lemma OneStored(m: Mem, m2: Mem, free: seq<int>, pages: seq<Frame>, frames: seq<int>, m': Mem)
    requires IsFreeList(m, free) && 0 < |pages| <= |free|
    requires IsFreeList(m2, free[1..]) && m2.ram == m.ram[free[0] := pages[0]]
    requires FilesStored(m2, free[1..], pages[1..], frames, m')
    ensures FilesStored(m, free, pages, [free[0]] + frames, m')
  {
    hide IsFreeList;
    var rest, n := free[1..], |pages[1..]|;
    FirstApart(m, free, n);
    ListFacts(m, free);
    ListFacts(m', rest[n..]);
    SameFreeList(m', rest[n..], free[n + 1..]);
    StoredElsewhere(m, m2, free, n, pages[0], m');
    assert free[..n + 1] == [free[0]] + rest[..n];
    forall i | 0 <= i < |pages| ensures m'.ram[([free[0]] + frames)[i]] == pages[i] {
      if i > 0 { assert m'.ram[frames[i - 1]] == pages[1..][i - 1]; }
    }
  }

  lemma ListFacts(m: Mem, free: seq<int>)
    requires IsFreeList(m, free)
    ensures WellFormed(m) && forall i :: 0 <= i < |free| ==> IsFrame(free[i])
  {}

  lemma FirstApart(m: Mem, free: seq<int>, n: nat)
    requires IsFreeList(m, free) && n < |free|
    ensures WellFormed(m) && IsFrame(free[0]) && free[0] !in free[1..][..n]
  {
    assert forall i :: 0 <= i < n ==> free[1..][..n][i] == free[i + 1];
  }

  lemma StoredElsewhere(m: Mem, m2: Mem, free: seq<int>, n: nat, page: Frame, m': Mem)
    requires WellFormed(m) && WellFormed(m') && n < |free| && IsFrame(free[0]) && m2.ram == m.ram[free[0] := page]
    requires forall f :: IsFrame(f) && f !in free[1..][..n] ==> m'.ram[f] == m2.ram[f]
    ensures forall f :: IsFrame(f) && f !in free[..n + 1] ==> m'.ram[f] == m.ram[f]
  {
    assert free[..n + 1] == [free[0]] + free[1..][..n];
  }

  /** The first file of an archive with this name. */
  function Named(fs: seq<A.File>, path: seq<Byte>, i: nat): (r: nat)
    requires i <= |fs|
    ensures i <= r <= |fs|
    ensures r < |fs| ==> fs[r].name == path
    decreases |fs| - i
  {
    if i == |fs| || fs[i].name == path then i else Named(fs, path, i + 1)
  }

  /** What the archive has under a path. */
  function Stored(fs: seq<A.File>, path: U.CString): (r: Image)
    requires AreFiles(fs)
    ensures r.Program? ==> Elf.IsProgram(r.elf)
  {
    var i := Named(fs, path, 0);
    if path == [] || i == |fs| then NoFile
    else if !Elf.IsElf(fs[i].data) then NotElf
    else if Elf.IsProgram(fs[i].data) then Program(fs[i].data)
    else Elsewhere
  }

  lemma {:induction false} NamedInTable(fs: seq<A.File>, frames: seq<int>, path: seq<Byte>, i: nat)
    requires AreFiles(fs) && |frames| == |fs| && path != [] && i <= |fs|
    ensures F.FindName(Table(fs, frames), path, i)
      == if Named(fs, path, i) == |fs| then F.MAX_FILES else Named(fs, path, i)
    decreases |fs| - i
  {
    if i < |fs| { NamedInTable(fs, frames, path, i + 1); } else { NoneBehind(fs, frames, path, i); }
  }

  lemma {:induction false} NoneBehind(fs: seq<A.File>, frames: seq<int>, path: seq<Byte>, i: nat)
    requires AreFiles(fs) && |frames| == |fs| && path != [] && |fs| <= i <= F.MAX_FILES
    ensures F.FindName(Table(fs, frames), path, i) == F.MAX_FILES
    decreases F.MAX_FILES - i
  {
    if i < F.MAX_FILES { NoneBehind(fs, frames, path, i + 1); }
  }

  /** Once its pages are in memory, the kernel finds what the archive has. */
  lemma FindStored(fs: seq<A.File>, frames: seq<int>, m: Mem, path: U.CString)
    requires AreFiles(fs) && |frames| == |fs| && WellFormed(m)
    requires forall i :: 0 <= i < |fs| ==> IsFrame(frames[i]) && m.ram[frames[i]] == Pages(fs)[i]
    ensures Find(Table(fs, frames), m, path) == Stored(fs, path)
  {
    hide Elf.IsElf, Elf.IsProgram, Pack, Unpack;
    if path != [] {
      NamedInTable(fs, frames, path, 0);
      var i := Named(fs, path, 0);
      if i < |fs| { UnpackPack(fs[i].data); }
    }
  }

  /** The pages of the table are the files' pages. */
  lemma {:induction false} PagesOfTable(fs: seq<A.File>, frames: seq<int>, n: nat)
    requires AreFiles(fs) && |frames| == |fs| && n <= F.MAX_FILES
    ensures F.FilePages(Table(fs, frames), n) == frames[..if n < |fs| then n else |fs|]
  {
    if n > 0 { PagesOfTable(fs, frames, n - 1); }
  }

  /** init's pages are the next 260 free ones; register_task panics exactly when there is no ELF file init. */
  lemma InitMemoryMakes(m: Mem, free: seq<int>, fs: seq<A.File>, frames: seq<int>, retSite: Word)
    requires IsFreeList(m, free) && |free| >= 260 && AreFiles(fs) && |frames| == |fs|
    requires forall i :: 0 <= i < |fs| ==> IsFrame(frames[i]) && frames[i] !in free && m.ram[frames[i]] == Pages(fs)[i]
    ensures InitMemory(m, Table(fs, frames), retSite).Ok? <==> Stored(fs, INIT).Program?
    ensures InitMemory(m, Table(fs, frames), retSite).Ok? ==>
      var (stack, dir, m') := InitMemory(m, Table(fs, frames), retSite).value;
      && InitMade(m'.ram, stack, dir, Stored(fs, INIT).elf, retSite)
      && forall child: T.Task :: child.pgdir == Some(dir) && child.kstack == Some(stack) ==>
        TaskMade(m, m', free, child)
  {
    hide MapKernel, LoadSegments, Kmalloc, InitStack, TaskMade, Loaded, Pages, Table, Find, Stored, KernelBuilt,
         ProgramImage, InitMade;
    KmallocPops(m, free);
    var m1 := Kmalloc(m).value.1;
    MapKernelBuilds(m1, free[1..]);
    var (dir, m2) := MapKernel(m1).value;
    BuiltFacts(m1, m2, free[1..], dir);
    MapKeeps(m1, m2, free, dir);
    FindStored(fs, frames, m2, INIT);
    match Stored(fs, INIT)
    case NoFile =>
    case NoData =>
    case NotElf =>
    case Elsewhere =>
    case Program(elf) =>
      ExecLoads(m1, free[1..], elf);
      var m3 := LoadSegments(m2, dir, elf, 0).value;
      StackMade(m1, m3, free, dir, elf, retSite);
      forall child: T.Task | child.pgdir == Some(dir) && child.kstack == Some(free[0])
        ensures TaskMade(m, InitMemory(m, Table(fs, frames), retSite).value.2, free, child)
      {
        StackWritten(m, m1, m3, free, ProgramImage(m1.ram[free[1..][258]], elf), child,
                     InitStack(m3.ram[free[0]], Elf.Entry(elf), retSite));
      }
  }

  lemma MapKeeps(m1: Mem, m2: Mem, free: seq<int>, dir: int)
    requires free != [] && IsFreeList(m1, free[1..]) && |free| > KERNEL_PAGES && KernelBuilt(m1, dir, m2, free[1..])
    ensures forall f :: IsFrame(f) && f !in free ==> m2.ram[f] == m1.ram[f]
  {
    var rest := free[1..];
    assert forall i :: 0 <= i < 257 ==> rest[1..258][i] == free[i + 2];
    assert rest[0] == free[1];
  }

  /** The stack and page 0 of init: registered for its program, and loaded. */
  ghost predicate InitMade(ram: seq<Frame>, stack: int, dir: int, elf: Page, retSite: Word)
    requires Elf.IsProgram(elf)
  {
    && IsFrame(stack) && UserSpace(ram, dir)
    && (exists before :: ram[stack] == InitStack(before, Elf.Entry(elf), retSite))
    && (exists before :: ram[UserFrame(ram, dir)] == ProgramImage(before, elf))
  }

  lemma StackMade(m1: Mem, m3: Mem, free: seq<int>, dir: int, elf: Page, retSite: Word)
    requires |free| >= 260 && IsFrame(free[0]) && free[0] !in free[1..] && IsFreeList(m1, free[1..]) &&
      Elf.IsProgram(elf)
    requires Loaded(m1, dir, m3, free[1..], ProgramImage(m1.ram[free[1..][258]], elf))
    ensures InitMade(m3.ram[free[0] := InitStack(m3.ram[free[0]], Elf.Entry(elf), retSite)], free[0], dir, elf, retSite)
  {
    hide InitStack, ProgramImage, UserSpace, SpaceFrames, Elf.IsProgram, Elf.Entry;
    var words := InitStack(m3.ram[free[0]], Elf.Entry(elf), retSite);
    NewFramesAreFree(m3.ram, free[1..], dir);
    SpaceMembers(m3.ram, dir);
    SpaceFacts(m3.ram, dir);
    WriteOutside(m3.ram, dir, free[0], words);
    assert m3.ram[free[0] := words][UserFrame(m3.ram, dir)] == m3.ram[UserFrame(m3.ram, dir)];
  }

  lemma StackWritten(m: Mem, m1: Mem, m3: Mem, free: seq<int>, image: Frame, child: T.Task, words: Frame)
    requires IsFreeList(m, free) && |free| >= 260 && IsFreeList(m1, free[1..]) && m1.ram == m.ram
    requires child.pgdir.Some? && child.kstack == Some(free[0])
    requires Loaded(m1, child.pgdir.value, m3, free[1..], image)
    ensures TaskMade(m, Mem(m3.ram[free[0] := words], m3.head), free, child)
  {
    hide TablesBelow, SpaceFrames, UserSpace, WritesOnly;
    var free1 := free[1..];
    SpaceFacts(m3.ram, child.pgdir.value);
    TaskFacts(m3.ram, child);
    assert free1[259..] == free[260..];
    NewFramesAreFree(m3.ram, free1, child.pgdir.value);
    assert free[0] !in free1;
    FreeListFrame(m3, free1[259..], m3.ram[free[0] := words]);
    StackWriteKeepsPaging(m3.ram, child, words);
    TakenMultiset(free, SpaceFrames(m3.ram, child.pgdir.value));
    StackWrites(m.ram, m3.ram, free, words);
  }

  lemma TakenMultiset(free: seq<int>, space: seq<int>)
    requires |free| >= 260 && multiset(space) + multiset(free[1..][259..]) == multiset(free[1..])
    ensures multiset([free[0]] + space) == multiset(free[..260])
  {
    var free1 := free[1..];
    assert free[..260] == [free[0]] + free1[..259];
    assert free1 == free1[..259] + free1[259..];
    assert multiset(free1) == multiset(free1[..259]) + multiset(free1[259..]);
    Cancel(multiset(space), multiset(free1[..259]), multiset(free1[259..]));
  }

  lemma Cancel(a: multiset<int>, b: multiset<int>, c: multiset<int>)
    requires a + c == b + c
    ensures a == b
  {
    forall x ensures a[x] == b[x] { assert (a + c)[x] == (b + c)[x]; }
  }

  lemma StackWrites(ram: seq<Frame>, ram3: seq<Frame>, free: seq<int>, words: Frame)
    requires |free| >= 260 && IsFrame(free[0]) && WritesOnly(ram, ram3, free[1..][..259])
    ensures WritesOnly(ram, ram3[free[0] := words], free[..260])
  {}

  lemma StackWriteKeepsPaging(ram: seq<Frame>, t: T.Task, words: Frame)
    requires TaskOk(ram, t) && t.kstack.value !in SpaceFrames(ram, t.pgdir.value)
    ensures var ram' := ram[t.kstack.value := words];
      TaskOk(ram', t) && TaskFrames(ram', t) == TaskFrames(ram, t)
  {
    hide TablesBelow;
    var dir, ram' := t.pgdir.value, ram[t.kstack.value := words];
    assert SpaceFrames(ram, dir)[0] == dir;
    TablesBelowMembers(ram, dir, PDE_SIZE);
    ReverseMembers(TablesBelow(ram, dir, PDE_SIZE));
    forall i | 0 <= i < 1024 && Present(ram[dir][i])
      ensures ram'[TableAt(ram, dir, i)] == ram[TableAt(ram, dir, i)]
    {
      assert TableAt(ram, dir, i) in Reverse(TablesBelow(ram, dir, PDE_SIZE));
      assert TableAt(ram, dir, i) in SpaceFrames(ram, dir);
    }
    SamePagingSameFrames(ram, ram', t);
  }

  // ----- The books at boot

  lemma {:induction false} SumOfNothing(parts: seq<multiset<int>>)
    requires forall i :: 0 <= i < |parts| ==> parts[i] == multiset{}
    ensures Sum(parts) == multiset{}
  {
    if parts != [] { SumOfNothing(parts[..|parts| - 1]); }
  }

  lemma {:induction false} ElementsOnce(s: seq<int>)
    requires NoDuplicates(s)
    ensures multiset(s) == multiset(Elements(s))
    ensures |Elements(s)| == |s|
  {
    if s == [] {
      assert Elements(s) == {};
    } else {
      var rest, x := s[..|s| - 1], s[|s| - 1];
      ElementsOnce(rest);
      assert s == rest + [x];
      assert Elements(s) == Elements(rest) + {x};
      OneMore(Elements(rest), x);
    }
  }

  /** Before there are tasks, all pages are free or fixed. */
  lemma NoTasksBalanced(tasks: seq<T.Task>, m: Mem, free: seq<int>, fixed: seq<int>, registered: set<int>)
    requires |tasks| == T.MAX_TASKS && forall i :: 0 <= i < T.MAX_TASKS ==> !Owns(i, tasks[i])
    requires IsFreeList(m, free) && multiset(free) + multiset(fixed) == multiset(registered)
    ensures Balanced(tasks, m, fixed, registered, Account(free, seq(1024, _ => multiset{})))
  {
    SumOfNothing(seq(1024, _ => multiset{}));
  }

  /** The registered frames: everything from the end of the kernel to the end of memory. */
  function FirstFree(kernelEnd: Word): int {
    (RoundUp(kernelEnd) - KERN_BASE) / 0x1000
  }

  ghost function Registered(kernelEnd: Word): set<int>
    requires KernelEnd(kernelEnd)
  {
    Elements(Descending(FirstFree(kernelEnd), RAM_FRAMES))
  }

  /** The kernel is linked at KERN_LINK, so kernel_end lies behind it. */
  predicate KernelEnd(kernelEnd: Word) {
    0xc010_0000 <= kernelEnd <= KERN_TOP
  }

  /** The free pages when init_fs starts, in the order of the list. */
  function BeforeFiles(lo: int): (all: seq<int>)
    requires 0 <= lo <= 1024 - 259
    ensures |all| == RAM_FRAMES - lo - 259
  {
    Descending(1024, RAM_FRAMES) + Descending(lo, 1024)[259..]
  }

  /** The first of these frames is a directory, and the others its tables, that translate as kernel_map says. */
  ghost predicate KernelSpace(ram: seq<Frame>, frames: seq<int>) {
    && |ram| == RAM_FRAMES && |frames| == 258 && (forall i :: 0 <= i < 258 ==> IsFrame(frames[i]))
    && IsSpace(ram, frames[0]) && HasKernelTables(ram, frames[0], frames[1..]) && MapsKernel(ram, frames[0])
  }

  lemma BuiltIsSpace(m: Mem, dir: int, m1: Mem, free: seq<int>)
    requires IsFreeList(m, free) && |free| >= KERNEL_PAGES && KernelBuilt(m, dir, m1, free)
    ensures KernelSpace(m1.ram, free[..258]) && dir == free[..258][0]
  {
    assert free[..258][1..] == free[1..258];
  }

  /** It stays as it is while its frames do. */
  lemma SpaceKept(ram: seq<Frame>, ram': seq<Frame>, frames: seq<int>)
    requires KernelSpace(ram, frames) && |ram'| == RAM_FRAMES
    requires forall f :: IsFrame(f) && f in frames ==> ram'[f] == ram[f]
    ensures KernelSpace(ram', frames)
  {
    var dir := frames[0];
    forall i | 0 <= i < 1024 && Present(ram[dir][i]) ensures ram'[TableAt(ram, dir, i)] == ram[TableAt(ram, dir, i)] {
      var k := KernelTable(i).value;
      assert TableAt(ram, dir, i) == frames[1..][k] == frames[k + 1];
    }
    LookupFrame(ram, ram', dir);
  }

  /** What OwnMemory leaves. */
  ghost predicate OwnDone(kdir: int, bootStack: int, frames: seq<int>, m: Mem, lo: int, pages: seq<Frame>)
    requires 0 <= lo <= 1024 - 259 && |pages| <= 31
  {
    var low, all, n := Descending(lo, 1024), BeforeFiles(lo), |pages|;
    && kdir == low[0] && bootStack == low[258]
    && KernelSpace(m.ram, low[..258])
    && IsFreeList(m, all[n..])
    && frames == all[..n]
    && forall i :: 0 <= i < n ==> IsFrame(frames[i]) && frames[i] !in all[n..] && m.ram[frames[i]] == pages[i]
  }

  lemma OwnMemoryDone(ram: seq<Frame>, kernelEnd: Word, pages: seq<Frame>)
    requires |ram| == RAM_FRAMES && KernelEnd(kernelEnd) && |pages| <= 31
    ensures OwnMemory(ram, kernelEnd, pages).Ok? <==> FirstFree(kernelEnd) <= 1024 - 259
    ensures OwnMemory(ram, kernelEnd, pages).Ok? ==>
      var (kdir, bootStack, frames, m) := OwnMemory(ram, kernelEnd, pages).value;
      0 <= FirstFree(kernelEnd) <= 1024 - 259 && OwnDone(kdir, bootStack, frames, m, FirstFree(kernelEnd), pages)
  {
    hide RegisterFreeMem, MapKernel, Kmalloc, KernelBuilt, Descending, StoreFiles, OwnDone;
    var m := Mem(ram, 0);
    var lo := FirstFree(kernelEnd);
    assert RoundUp(kernelEnd) == KERN_BASE + lo * 0x1000;
    assert RoundDown(LOW_END) == Boundary(1024);
    assert IsFreeList(m, []);
    RegisterAddsWholePages(m, [], kernelEnd, LOW_END, lo, 1024);
    if RoundDown(kernelEnd) < RoundDown(LOW_END) {
      var low := Descending(lo, 1024);
      var m0 := RegisterFreeMem(m, kernelEnd, LOW_END).value;
      SameFreeList(m0, low + [], low);
      LowMemory(m0, lo, pages);
    }
  }

  /** main from init_kernel_memory to init_fs. */
  lemma LowMemory(m0: Mem, lo: int, pages: seq<Frame>)
    requires 0 <= lo <= 1024 && IsFreeList(m0, Descending(lo, 1024)) && |pages| <= 31
    ensures lo <= 1024 - 259 <==>
      MapKernel(m0).Ok? && Kmalloc(MapKernel(m0).value.1).Ok?
    ensures lo <= 1024 - 259 ==>
      var (kdir, m1) := MapKernel(m0).value;
      var (ptr, m2) := Kmalloc(m1).value;
      && RegisterFreeMem(m2, LOW_END, KERN_TOP).Ok?
      && var m3 := RegisterFreeMem(m2, LOW_END, KERN_TOP).value;
      StoreFiles(m3, pages).Ok?
      && OwnDone(kdir, FrameOf(ptr), StoreFiles(m3, pages).value.0, StoreFiles(m3, pages).value.1, lo, pages)
  {
    hide RegisterFreeMem, MapKernel, Kmalloc, StoreFiles, KernelSpace;
    var low := Descending(lo, 1024);
    MapKernelBuilds(m0, low);
    if |low| >= 258 {
      var (kdir, m1) := MapKernel(m0).value;
      KmallocPops(m1, low[258..]);
      if |low| >= 259 {
        var (ptr, m2) := Kmalloc(m1).value;
        SameFreeList(m2, low[258..][1..], low[259..]);
        assert RoundUp(LOW_END) == Boundary(1024) && RoundDown(KERN_TOP) == Boundary(RAM_FRAMES);
        RegisterAddsWholePages(m2, low[259..], LOW_END, KERN_TOP, 1024, RAM_FRAMES);
        var m3 := RegisterFreeMem(m2, LOW_END, KERN_TOP).value;
        StoreFilesTakes(m3, BeforeFiles(lo), pages);
        StoredApart(m3, BeforeFiles(lo), |pages|);
        BuiltIsSpace(m0, kdir, m1, low);
        LowApart(lo);
        SpaceKept(m1.ram, StoreFiles(m3, pages).value.1.ram, low[..258]);
      }
    }
  }

  /** The kernel's own frames are below the others. */
  lemma LowApart(lo: int)
    requires 0 <= lo <= 1024 - 259
    ensures forall f :: f in Descending(lo, 1024)[..258] ==> IsFrame(f) && f < 1024 && f !in BeforeFiles(lo)
  {
    var low := Descending(lo, 1024);
    forall f | f in low[..258] ensures IsFrame(f) && f < 1024 && f !in BeforeFiles(lo) {
      var i :| 0 <= i < 258 && low[..258][i] == f;
      assert f == 1023 - i;
      assert forall j :: 0 <= j < |low[259..]| ==> low[259..][j] == 1023 - 259 - j;
    }
  }

  lemma StoredApart(m: Mem, all: seq<int>, n: nat)
    requires IsFreeList(m, all) && n <= |all|
    ensures forall i :: 0 <= i < n ==> IsFrame(all[..n][i]) && all[..n][i] !in all[n..]
  {}

  /** The pages the kernel takes for itself: its stack, its directory and tables. */
  function OwnPages(lo: int): (own: seq<int>)
    requires 0 <= lo <= 1024 - 259
    ensures |own| == 259 && own[0] == Descending(lo, 1024)[258]
  {
    var low := Descending(lo, 1024);
    [low[258]] + low[..258]
  }

  lemma FixedAndFree(lo: int, files: nat)
    requires 0 <= lo <= 1024 - 259 && files <= 31
    ensures
      var all := BeforeFiles(lo);
      multiset(all[files..]) + multiset(OwnPages(lo) + all[..files]) == multiset(Elements(Descending(lo, RAM_FRAMES)))
  {
    var low, high := Descending(lo, 1024), Descending(1024, RAM_FRAMES);
    assert Descending(lo, RAM_FRAMES) == high + low;
    ElementsOnce(high + low);
    FixedParts(low, high, files);
  }

  lemma FixedParts(low: seq<int>, high: seq<int>, files: nat)
    requires |low| >= 259 && files <= |high|
    ensures
      var all := high + low[259..];
      multiset(all[files..]) + multiset(([low[258]] + low[..258]) + all[..files]) == multiset(high + low)
  {
    var all := high + low[259..];
    var kept := [low[258]] + low[..258];
    assert low == low[..258] + [low[258]] + low[259..];
    assert multiset(low) == multiset(kept) + multiset(low[259..]);
    assert all == all[..files] + all[files..];
    assert multiset(all) == multiset(all[..files]) + multiset(all[files..]);
    assert multiset(kept + all[..files]) == multiset(kept) + multiset(all[..files]);
    assert multiset(all[files..]) + multiset(kept + all[..files]) == multiset(all) + multiset(kept);
    assert multiset(all) == multiset(high) + multiset(low[259..]);
    assert multiset(high + low) == multiset(high) + (multiset(kept) + multiset(low[259..]));
  }

  /** What the model says of archives: init_fs reads inside of it, and its init, if it is an ELF file, is one in
      page 0. */
  predicate Known(archive: seq<Byte>) {
    var r := A.Walk(archive, 8, []);
    && r != A.Outside
    && (r.Done? && AreFiles(r.files) ==> !Stored(r.files, INIT).Elsewhere?)
  }

  /** The kernel boots exactly if it leaves 259 whole pages below 4 MB (258 for its page tables and one for its
      stack), if the files of the archive are few and small enough, and if one of them is the program init. It then
      starts with balanced books. */
  lemma BootBalances(ram: seq<Frame>, kernelEnd: Word, archive: seq<Byte>, retSite: Word)
    requires |ram| == RAM_FRAMES && KernelEnd(kernelEnd) && Known(archive)
    ensures A.Walk(archive, 8, []).Done? ==> AreFiles(A.Walk(archive, 8, []).files)
    ensures BootKernel(ram, kernelEnd, archive, retSite).Ok? <==>
      kernelEnd <= LOW_END - 259 * 0x1000 && A.Walk(archive, 8, []).Done? &&
        Stored(A.Walk(archive, 8, []).files, INIT).Program?
    ensures BootKernel(ram, kernelEnd, archive, retSite).Ok? ==>
      exists own, a :: (
        && |own| == 259
        && 0 !in Registered(kernelEnd)
        && KInv(BootKernel(ram, kernelEnd, archive, retSite).value, own, Registered(kernelEnd), a))
  {
    hide BootKernel, KInv, Stored, A.Walk, Known;
    WalkFinds(archive, 8, []);
    if A.Walk(archive, 8, []).Done? {
      BootOf(ram, kernelEnd, archive, retSite, A.Walk(archive, 8, []).files);
    } else {
      BootPanics(ram, kernelEnd, archive, retSite);
    }
  }

  lemma BootPanics(ram: seq<Frame>, kernelEnd: Word, archive: seq<Byte>, retSite: Word)
    requires |ram| == RAM_FRAMES && !A.Walk(archive, 8, []).Done?
    ensures BootKernel(ram, kernelEnd, archive, retSite).Panic?
  {
    hide A.Walk, OwnMemory, InitMemory;
  }

  lemma BootUnfolds(ram: seq<Frame>, kernelEnd: Word, archive: seq<Byte>, retSite: Word, fs: seq<A.File>)
    requires |ram| == RAM_FRAMES && A.Walk(archive, 8, []) == A.Done(fs) && AreFiles(fs)
    ensures OwnMemory(ram, kernelEnd, Pages(fs)).Panic? ==> BootKernel(ram, kernelEnd, archive, retSite).Panic?
    ensures OwnMemory(ram, kernelEnd, Pages(fs)).Ok? ==>
      var (kdir, bootStack, frames, m) := OwnMemory(ram, kernelEnd, Pages(fs)).value;
      BootKernel(ram, kernelEnd, archive, retSite) ==
        match InitMemory(m, Table(fs, frames), retSite)
        case Panic => Panic
        case Ok((stack, dir, m')) => Ok(Booted(kdir, bootStack, frames, m', fs, stack, dir, retSite))
  {
    hide A.Walk, OwnMemory, InitMemory, Pages, Table, T.Boot, AreFiles;
  }

  /** Booting with these files. */
  lemma BootOf(ram: seq<Frame>, kernelEnd: Word, archive: seq<Byte>, retSite: Word, fs: seq<A.File>)
    requires |ram| == RAM_FRAMES && KernelEnd(kernelEnd) && A.Walk(archive, 8, []) == A.Done(fs)
    requires AreFiles(fs)
    ensures BootKernel(ram, kernelEnd, archive, retSite).Ok? <==>
      kernelEnd <= LOW_END - 259 * 0x1000 && Stored(fs, INIT).Program?
    ensures BootKernel(ram, kernelEnd, archive, retSite).Ok? ==>
      exists own, a :: (
        && |own| == 259
        && 0 !in Registered(kernelEnd)
        && KInv(BootKernel(ram, kernelEnd, archive, retSite).value, own, Registered(kernelEnd), a))
  {
    hide BootKernel, Booted, OwnMemory, InitMemory, TaskMade, KInv, OwnPages, BeforeFiles, Pages, Table, Stored, A.Walk,
         OwnDone, IsFreeList, InitMade;
    var lo := FirstFree(kernelEnd);
    BootUnfolds(ram, kernelEnd, archive, retSite, fs);
    OwnMemoryDone(ram, kernelEnd, Pages(fs));
    if OwnMemory(ram, kernelEnd, Pages(fs)).Ok? {
      var (kdir, bootStack, frames, m) := OwnMemory(ram, kernelEnd, Pages(fs)).value;
      OwnFacts(kdir, bootStack, frames, m, lo, fs);
      InitMemoryMakes(m, BeforeFiles(lo)[|fs|..], fs, frames, retSite);
      if InitMemory(m, Table(fs, frames), retSite).Ok? {
        var (stack, dir, m') := InitMemory(m, Table(fs, frames), retSite).value;
        var a := BootedInv(kdir, bootStack, frames, m, m', lo, fs, stack, dir, retSite);
        assert KInv(BootKernel(ram, kernelEnd, archive, retSite).value, OwnPages(lo), Registered(kernelEnd), a);
      }
    }
  }

  /** The kernel finds under every path what the archive had there. */
  lemma BootFinds(ram: seq<Frame>, kernelEnd: Word, archive: seq<Byte>, retSite: Word, path: U.CString)
    requires |ram| == RAM_FRAMES && KernelEnd(kernelEnd) && Known(archive) &&
      BootKernel(ram, kernelEnd, archive, retSite).Ok?
    ensures A.Walk(archive, 8, []).Done? && AreFiles(A.Walk(archive, 8, []).files)
    ensures
      var k := BootKernel(ram, kernelEnd, archive, retSite).value;
      Find(k.files, k.mem, path) == Stored(A.Walk(archive, 8, []).files, path)
  {
    hide BootKernel, KInv, Stored, A.Walk, Known, Find;
    WalkFinds(archive, 8, []);
    if A.Walk(archive, 8, []).Done? {
      BootFindsOf(ram, kernelEnd, archive, retSite, A.Walk(archive, 8, []).files, path);
    } else {
      BootPanics(ram, kernelEnd, archive, retSite);
    }
  }

  lemma BootFindsOf(ram: seq<Frame>, kernelEnd: Word, archive: seq<Byte>, retSite: Word, fs: seq<A.File>,
                    path: U.CString)
    requires |ram| == RAM_FRAMES && KernelEnd(kernelEnd) && A.Walk(archive, 8, []) == A.Done(fs)
    requires AreFiles(fs) && BootKernel(ram, kernelEnd, archive, retSite).Ok?
    ensures
      var k := BootKernel(ram, kernelEnd, archive, retSite).value;
      Find(k.files, k.mem, path) == Stored(fs, path)
  {
    hide BootKernel, OwnMemory, InitMemory, TaskMade, T.Boot, OwnPages, BeforeFiles, Pages, Table, Stored, A.Walk,
         OwnDone, IsFreeList, Find;
    var lo := FirstFree(kernelEnd);
    BootUnfolds(ram, kernelEnd, archive, retSite, fs);
    OwnMemoryDone(ram, kernelEnd, Pages(fs));
    var (kdir, bootStack, frames, m) := OwnMemory(ram, kernelEnd, Pages(fs)).value;
    OwnFacts(kdir, bootStack, frames, m, lo, fs);
    var free := BeforeFiles(lo)[|fs|..];
    InitMemoryMakes(m, free, fs, frames, retSite);
    var (stack, dir, m') := InitMemory(m, Table(fs, frames), retSite).value;
    MadeElsewhere(m, m', free, T.FREE_TASK.(pgdir := Some(dir), kstack := Some(stack)));
    FindStored(fs, frames, m', path);
  }

  lemma MadeElsewhere(m: Mem, m': Mem, free: seq<int>, t: T.Task)
    requires IsFreeList(m, free) && |free| >= 260 && TaskMade(m, m', free, t)
    ensures forall f :: IsFrame(f) && f !in free ==> m'.ram[f] == m.ram[f]
  {}

  /** So it boots from an archive of up to 31 members of up to 4096 bytes with a program named init. */
  lemma BootsFromArchive(ram: seq<Frame>, kernelEnd: Word, ms: seq<A.Member>, retSite: Word)
    requires |ram| == RAM_FRAMES && KernelEnd(kernelEnd) && A.AreMembers(ms) && Known(A.MAGIC + A.EncodeAll(ms))
    ensures A.AllSmall(ms) && |ms| <= 31 ==> AreFiles(A.Files(ms))
    ensures BootKernel(ram, kernelEnd, A.MAGIC + A.EncodeAll(ms), retSite).Ok? <==>
      kernelEnd <= LOW_END - 259 * 0x1000 && A.AllSmall(ms) && |ms| <= 31 && Stored(A.Files(ms), INIT).Program?
  {
    hide BootKernel, A.Walk, KInv, Known, A.EncodeAll, Stored;
    A.ArchiveRoundTrip(ms);
    BootBalances(ram, kernelEnd, A.MAGIC + A.EncodeAll(ms), retSite);
  }

  lemma OwnFacts(kdir: int, bootStack: int, frames: seq<int>, m: Mem, lo: int, fs: seq<A.File>)
    requires 0 <= lo <= 1024 - 259 && AreFiles(fs) && OwnDone(kdir, bootStack, frames, m, lo, Pages(fs))
    ensures var free := BeforeFiles(lo)[|fs|..];
      && IsFreeList(m, free) && |free| >= 260 && |frames| == |fs| && bootStack == OwnPages(lo)[0]
      && forall i :: 0 <= i < |fs| ==> IsFrame(frames[i]) && frames[i] !in free && m.ram[frames[i]] == Pages(fs)[i]
  {}

  /** The kernel as main leaves it. */
  function Booted(kdir: int, bootStack: int, frames: seq<int>, m: Mem, fs: seq<A.File>, stack: int, dir: int,
                  retSite: Word): (k: Kernel)
    requires AreFiles(fs) && |frames| == |fs|
  {
    Kernel(T.Boot(kdir, dir, stack), m, Table(fs, frames), C.EmptyRing(),
           seq(1024, i => if i == 1 then CONTEXT else 0), bootStack, retSite)
  }

  lemma BootedInv(kdir: int, bootStack: int, frames: seq<int>, m: Mem, m': Mem, lo: int, fs: seq<A.File>, stack: int,
                  dir: int, retSite: Word)
      returns (a: Account)
    requires 0 <= lo <= 1024 - 259 && AreFiles(fs) && OwnDone(kdir, bootStack, frames, m, lo, Pages(fs))
    requires IsFreeList(m, BeforeFiles(lo)[|fs|..]) && |BeforeFiles(lo)[|fs|..]| >= 260
    requires forall child: T.Task :: child.pgdir == Some(dir) && child.kstack == Some(stack) ==>
      TaskMade(m, m', BeforeFiles(lo)[|fs|..], child)
    requires IsFrame(bootStack) && WellFormed(m')
    ensures KInv(Booted(kdir, bootStack, frames, m', fs, stack, dir, retSite), OwnPages(lo),
                 Elements(Descending(lo, RAM_FRAMES)), a)
    ensures 0 !in Elements(Descending(lo, RAM_FRAMES)) || lo == 0
  {
    hide TaskMade, Balanced, T.CoreInv, T.Boot, OwnPages, BeforeFiles, Pages, IsFreeList, Descending, F.FilePages;
    var own, free, registered := OwnPages(lo), BeforeFiles(lo)[|fs|..], Elements(Descending(lo, RAM_FRAMES));
    PagesOfTable(fs, frames, F.MAX_FILES);
    assert frames[..|fs|] == frames;
    assert Fixed(own, Table(fs, frames)) == own + frames;
    FixedAndFree(lo, |fs|);
    a := BootTasks(kdir, dir, stack, m, m', free, own + frames, registered);
    T.BootInv(kdir, dir, stack);
    T.SysInvIsCore(T.Boot(kdir, dir, stack));
    BootDescriptors(kdir, dir, stack, Table(fs, frames));
    assert own[0] == bootStack;
  }

  lemma BootDescriptors(kdir: int, dir: int, stack: int, files: seq<F.File>)
    requires F.IsTable(files)
    ensures DescriptorsOk(T.Boot(kdir, dir, stack).tasks, files)
  {}

  lemma BootTasks(kdir: int, dir: int, stack: int, m: Mem, m': Mem, free: seq<int>, fixed: seq<int>,
                  registered: set<int>)
      returns (a: Account)
    requires IsFreeList(m, free) && |free| >= 260 && multiset(free) + multiset(fixed) == multiset(registered)
    requires forall child: T.Task :: child.pgdir == Some(dir) && child.kstack == Some(stack) ==>
      TaskMade(m, m', free, child)
    ensures Balanced(T.Boot(kdir, dir, stack).tasks, m', fixed, registered, a)
  {
    hide TaskMade, IsFreeList, Balanced;
    var tasks := T.Boot(kdir, dir, stack).tasks;
    var before := tasks[1 := T.FREE_TASK];
    NoTasksBalanced(before, m, free, fixed, registered);
    var a0 := Account(free, seq(1024, _ => multiset{}));
    ForkBalanced(before, m, m', fixed, registered, a0, 1, tasks[1]);
    a := ForkAccount(a0, 1);
    assert before[1 := tasks[1]] == tasks;
  }

  /** Page conservation from power-up: the free pages, the 259 pages of the kernel, a page for every file and 260
      pages for every task are exactly the registered pages, in every run in which at most one execv fails before
      loading; that one adds frame 0. */
  lemma PagesConserved(ram: seq<Frame>, kernelEnd: Word, archive: seq<Byte>, retSite: Word, es: seq<KEvent>, k: Kernel)
    requires |ram| == RAM_FRAMES && KernelEnd(kernelEnd) && Known(archive) &&
      BootKernel(ram, kernelEnd, archive, retSite).Ok?
    requires KReaches(BootKernel(ram, kernelEnd, archive, retSite).value, es, k)
    requires EarlyFailures(BootKernel(ram, kernelEnd, archive, retSite).value, es) <= 1
    ensures exists free :: (
      && IsFreeList(k.mem, free)
      && |free| + 259 + |FilesInUse(k.files, F.MAX_FILES)| + 260 * |Owners(k.sys.tasks)|
         == RAM_FRAMES - FirstFree(kernelEnd) + EarlyFailures(BootKernel(ram, kernelEnd, archive, retSite).value, es))
  {
    hide BootKernel, KReaches, KInv, IsFreeList, Known, A.Walk;
    BootBalances(ram, kernelEnd, archive, retSite);
    var k0 := BootKernel(ram, kernelEnd, archive, retSite).value;
    var own, a :| |own| == 259 && 0 !in Registered(kernelEnd) && KInv(k0, own, Registered(kernelEnd), a);
    RunCounts(k0, es, k, own, Registered(kernelEnd), a);
    ElementsOnce(Descending(FirstFree(kernelEnd), RAM_FRAMES));
  }
}
