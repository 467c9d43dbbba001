/** What the kernel holds when main arrives at schedule: the files of the archive, the first program and the stack
    that leads to it, and the scheduler's address space. */
module KernelStart {
  import opened Machine
  import opened Bytes
  import opened PageAllocator
  import opened PageTable
  import opened AddressSpace
  import opened Accounts
  import opened Context
  import opened Kernel
  import opened Conservation
  import opened KernelRuns
  import opened KernelBoot
  import A = Archive
  import C = Console
  import Elf
  import F = FileTable
  import T = Tasks
  import U = UserStack

  /** The archive with these members. */
  function ArchiveOf(ms: seq<A.Member>): seq<Byte>
    requires A.AreMembers(ms)
  {
    A.MAGIC + A.EncodeAll(ms)
  }

  /** A page with the bytes of a file, and zeros behind them. */
  ghost predicate PageHolds(page: Page, data: seq<Byte>) {
    && |data| <= 4096
    && (forall i :: 0 <= i < |data| ==> page[i] == data[i])
    && (forall i :: |data| <= i < 4096 ==> page[i] == 0)
  }

  lemma SamePage(page: Page, page': Page, data: seq<Byte>)
    requires PageHolds(page, data) && PageHolds(page', data)
    ensures page == page'
  {}

  /** What main has done when it has not panicked. */
  lemma BootParts(ram: seq<Frame>, kernelEnd: Word, archive: seq<Byte>, retSite: Word, fs: seq<A.File>)
      returns (kdir: int, bootStack: int, frames: seq<int>, m: Mem, stack: int, dir: int, m': Mem)
    requires |ram| == RAM_FRAMES && KernelEnd(kernelEnd) && A.Walk(archive, 8, []) == A.Done(fs) && AreFiles(fs)
    requires BootKernel(ram, kernelEnd, archive, retSite).Ok?
    ensures |frames| == |fs|
    ensures BootKernel(ram, kernelEnd, archive, retSite) ==
      Ok(Booted(kdir, bootStack, frames, m', fs, stack, dir, retSite))
    ensures forall i :: 0 <= i < |fs| ==> IsFrame(frames[i]) && m'.ram[frames[i]] == Pages(fs)[i]
    ensures Stored(fs, INIT).Program? && InitMade(m'.ram, stack, dir, Stored(fs, INIT).elf, retSite)
    ensures exists low :: KernelSpace(m'.ram, low) && |low| > 0 && low[0] == kdir
  {
    hide BootKernel, OwnMemory, InitMemory, TaskMade, T.Boot, OwnPages, BeforeFiles, Pages, Table, Stored, A.Walk,
         OwnDone, IsFreeList, InitMade, KernelSpace;
    var lo := FirstFree(kernelEnd);
    BootUnfolds(ram, kernelEnd, archive, retSite, fs);
    OwnMemoryDone(ram, kernelEnd, Pages(fs));
    var own := OwnMemory(ram, kernelEnd, Pages(fs)).value;
    kdir, bootStack, frames, m := own.0, own.1, own.2, own.3;
    OwnFacts(kdir, bootStack, frames, m, lo, fs);
    var free := BeforeFiles(lo)[|fs|..];
    InitMemoryMakes(m, free, fs, frames, retSite);
    var init := InitMemory(m, Table(fs, frames), retSite).value;
    stack, dir, m' := init.0, init.1, init.2;
    MadeElsewhere(m, m', free, T.FREE_TASK.(pgdir := Some(dir), kstack := Some(stack)));
    OwnSpace(kdir, bootStack, frames, m, lo, fs);
    LowApart(lo);
    SpaceKept(m.ram, m'.ram, Descending(lo, 1024)[..258]);
  }

  lemma OwnSpace(kdir: int, bootStack: int, frames: seq<int>, m: Mem, lo: int, fs: seq<A.File>)
    requires 0 <= lo <= 1024 - 259 && AreFiles(fs) && OwnDone(kdir, bootStack, frames, m, lo, Pages(fs))
    ensures KernelSpace(m.ram, Descending(lo, 1024)[..258]) && Descending(lo, 1024)[0] == kdir
    ensures forall f :: f in BeforeFiles(lo)[|fs|..] ==> f in BeforeFiles(lo)
  {}

  lemma MembersFound(ms: seq<A.Member>)
    requires A.AreMembers(ms)
    ensures A.Walk(ArchiveOf(ms), 8, []).Done? ==>
      && A.AllSmall(ms) && |ms| <= 31 && A.Walk(ArchiveOf(ms), 8, []).files == A.Files(ms) && AreFiles(A.Files(ms))
  {
    hide A.Walk, A.EncodeAll;
    A.ArchiveRoundTrip(ms);
    WalkFinds(ArchiveOf(ms), 8, []);
  }

  /** A kernel that boots has read its archive. */
  lemma BootReads(ram: seq<Frame>, kernelEnd: Word, ms: seq<A.Member>, retSite: Word)
    requires |ram| == RAM_FRAMES && A.AreMembers(ms) && BootKernel(ram, kernelEnd, ArchiveOf(ms), retSite).Ok?
    ensures A.AllSmall(ms) && |ms| <= 31 && AreFiles(A.Files(ms))
    ensures A.Walk(ArchiveOf(ms), 8, []) == A.Done(A.Files(ms))
  {
    hide A.Walk, BootKernel, ArchiveOf;
    MembersFound(ms);
    if !A.Walk(ArchiveOf(ms), 8, []).Done? { BootPanics(ram, kernelEnd, ArchiveOf(ms), retSite); }
  }

  /** The kernel that main leaves, member by member. */
  lemma BootedIs(kdir: int, bootStack: int, frames: seq<int>, m: Mem, fs: seq<A.File>, stack: int, dir: int,
                 retSite: Word, k: Kernel)
    requires AreFiles(fs) && |frames| == |fs| && k == Booted(kdir, bootStack, frames, m, fs, stack, dir, retSite)
    ensures k.mem == m && k.files == Table(fs, frames) && k.console == C.EmptyRing() && k.retSite == retSite
    ensures |k.sys.tasks| == 1024 && k.sys.curr == 0 && |k.contexts| == 1024 && k.contexts[1] == 995
    ensures k.sys.tasks[0].state == T.Running && k.sys.tasks[0].pgdir == Some(kdir)
    ensures k.sys.tasks[1].state == T.Runnable && !k.sys.tasks[1].waiting
    ensures k.sys.tasks[1].pgdir == Some(dir) && k.sys.tasks[1].kstack == Some(stack)
  {
    hide Table;
  }

  // ----- The file table

  /** Slot i of the file table is member i of the archive: its name, its size and its data in a page of its own, to
      be read from the start. The slots behind the members are not in use. */
  lemma BootTable(ram: seq<Frame>, kernelEnd: Word, ms: seq<A.Member>, retSite: Word, k: Kernel)
    requires |ram| == RAM_FRAMES && KernelEnd(kernelEnd) && A.AreMembers(ms)
    requires BootKernel(ram, kernelEnd, ArchiveOf(ms), retSite) == Ok(k)
    ensures |ms| <= 31
    ensures forall i :: 0 <= i < |ms| ==>
      && k.files[i].name == ms[i].name && k.files[i].inUse && k.files[i].kind == F.Regular
      && k.files[i].size == |ms[i].data| && k.files[i].pos == 0
      && Valid(k.files[i].data) && PageHolds(Unpack(k.mem.ram[k.files[i].data.value]), ms[i].data)
    ensures forall i :: |ms| <= i < 32 ==> !k.files[i].inUse
  {
    hide BootKernel, A.Walk, ArchiveOf, Booted, Table, Unpack, Pages, PageHolds, InitMade, KernelSpace, Stored,
         AreFiles;
    BootReads(ram, kernelEnd, ms, retSite);
    var kdir, bootStack, frames, m, stack, dir, m' := BootParts(ram, kernelEnd, ArchiveOf(ms), retSite, A.Files(ms));
    BootedIs(kdir, bootStack, frames, m', A.Files(ms), stack, dir, retSite, k);
    TableStored(ms, A.Files(ms), frames, m'.ram);
  }

  lemma TableStored(ms: seq<A.Member>, fs: seq<A.File>, frames: seq<int>, ram: seq<Frame>)
    requires A.AllSmall(ms) && fs == A.Files(ms) && AreFiles(fs) && |frames| == |fs| && |ram| == RAM_FRAMES
    requires forall i :: 0 <= i < |fs| ==> IsFrame(frames[i]) && ram[frames[i]] == Pages(fs)[i]
    ensures forall i :: 0 <= i < |ms| ==> (
      var f := Table(fs, frames)[i];
      && f.name == ms[i].name && f.inUse && f.kind == F.Regular && f.size == |ms[i].data| && f.pos == 0
      && f.data == Some(frames[i]) && IsFrame(frames[i]) && PageHolds(Unpack(ram[frames[i]]), ms[i].data))
    ensures forall i :: |ms| <= i < 32 ==> !Table(fs, frames)[i].inUse
  {
    hide Unpack, Pages, PageHolds;
    forall i | 0 <= i < |ms| ensures PageHolds(Unpack(ram[frames[i]]), ms[i].data) {
      PageStored(fs, ms, i, ram[frames[i]]);
    }
  }

  lemma {:induction false} PageStored(fs: seq<A.File>, ms: seq<A.Member>, i: int, words: Frame)
    requires A.AllSmall(ms) && fs == A.Files(ms) && AreFiles(fs) && 0 <= i < |ms| && words == Pages(fs)[i]
    ensures PageHolds(Unpack(words), ms[i].data)
  {
    hide Unpack, Pack;
    UnpackPack(fs[i].data);
    assert fs[i].data == A.Padded(ms[i].data);
  }

  // ----- init

  lemma {:induction false} FirstInArchive(fs: seq<A.File>, j: nat, i: nat)
    requires i <= j < |fs| && fs[j].name == INIT && forall n :: i <= n < j ==> fs[n].name != INIT
    ensures Named(fs, INIT, i) == j
    decreases j - i
  {
    if i < j { FirstInArchive(fs, j, i + 1); }
  }

  /** Member j is the first one of that name, and a program with these headers, of which the one at s is to be
      loaded. */
  ghost predicate IsInit(ms: seq<A.Member>, j: int, page: Page, h: Elf.Ehdr, ps: seq<Elf.Phdr>, s: int) {
    && 0 <= j < |ms| && ms[j].name == [0x69, 0x6e, 0x69, 0x74]
    && (forall i :: 0 <= i < j ==> ms[i].name != [0x69, 0x6e, 0x69, 0x74])
    && PageHolds(page, ms[j].data)
    && Elf.IsImage(page, h, ps) && h.ident[..4] == [0x7f, 0x45, 0x4c, 0x46] && Elf.LoadsOnly(ps, s)
  }

  lemma InitStored(ms: seq<A.Member>, j: int, page: Page, h: Elf.Ehdr, ps: seq<Elf.Phdr>, s: int)
    requires A.AllSmall(ms) && AreFiles(A.Files(ms)) && IsInit(ms, j, page, h, ps, s)
    ensures Stored(A.Files(ms), INIT) == Program(page) && Elf.IsProgram(page)
    ensures Elf.Entry(page) == h.entry && Elf.Program(page).vaddr == ps[s].vaddr
    ensures Elf.Contents(page) == page[ps[s].offset..ps[s].offset + ps[s].filesz]
  {
    hide Elf.IsElf, Elf.IsProgram, Elf.Entry, Elf.Program, Elf.Contents, Elf.IsImage, Elf.LoadsOnly;
    var fs := A.Files(ms);
    FirstInArchive(fs, j, 0);
    assert fs[j].data == A.Padded(ms[j].data);
    SamePage(page, fs[j].data, ms[j].data);
    ImageRead(page, h, ps, s);
  }

  lemma ImageRead(page: Page, h: Elf.Ehdr, ps: seq<Elf.Phdr>, s: int)
    requires Elf.IsImage(page, h, ps) && h.ident[..4] == [0x7f, 0x45, 0x4c, 0x46] && Elf.LoadsOnly(ps, s)
    ensures Elf.IsElf(page) && Elf.IsProgram(page) && Elf.Entry(page) == h.entry
    ensures Elf.Program(page).vaddr == ps[s].vaddr
    ensures Elf.Contents(page) == page[ps[s].offset..ps[s].offset + ps[s].filesz]
  {
    hide Elf.IsElf, Elf.IsProgram, Elf.Entry, Elf.Program, Elf.Contents;
    Elf.HeaderRoundTrip(page, h);
    Elf.ProgramIff(page, h, ps);
  }

  /** The first dispatch of init, right after booting: its saved context returns to ret_to_int_site with the stack
      pointer at a trap frame, which leads to user mode at the entry that init's header names, with all registers
      zero, interrupts on, the stack pointer at the end of page 0 and the kernel stack empty. Its page 0 holds the
      program's segment. */
  lemma BootStartsInit(ram: seq<Frame>, kernelEnd: Word, ms: seq<A.Member>, retSite: Word, j: int, page: Page,
                       h: Elf.Ehdr, ps: seq<Elf.Phdr>, s: int, k: Kernel)
    requires |ram| == RAM_FRAMES && KernelEnd(kernelEnd) && A.AreMembers(ms) && IsInit(ms, j, page, h, ps, s)
    requires BootKernel(ram, kernelEnd, ArchiveOf(ms), retSite) == Ok(k)
    ensures k.sys.curr == 0 && k.sys.tasks[1].state == T.Runnable && !k.sys.tasks[1].waiting
    ensures Valid(StackOf(k, 1)) && 0 <= k.contexts[1] <= 1015
    ensures
      var cpu := SwitchIn(StackWords(k, 1), k.contexts[1]);
      && cpu.eip == retSite && cpu.sp == 1004
      && TrapReturn(Stack(StackWords(k, 1), cpu.sp))
         == (User(Regs(0, 0, 0, 0, 0, 0, 0), 0, 0, 0x1b, 0x1b, h.entry, 0x23, 0x200, 0x1000 - 8, 0x1b),
             Stack(StackWords(k, 1), 1023))
    ensures k.sys.tasks[1].pgdir.Some? && UserSpace(k.mem.ram, k.sys.tasks[1].pgdir.value)
    ensures IsFrame(UserFrame(k.mem.ram, k.sys.tasks[1].pgdir.value))
    ensures SegmentIn(Unpack(k.mem.ram[UserFrame(k.mem.ram, k.sys.tasks[1].pgdir.value)]), page, ps[s], 0, 0)
  {
    hide BootKernel, A.Walk, ArchiveOf, Booted, Table, Unpack, Pages, PageHolds, IsInit, InitMade, UserSpace, UserFrame,
         SwitchIn, TrapReturn, Elf.IsProgram, Elf.Entry, Stored, KernelSpace, AreFiles, Elf.LoadsOnly, SegmentIn,
         Elf.Program, Elf.Contents;
    InitFacts(ms, j, page, h, ps, s);
    BootReads(ram, kernelEnd, ms, retSite);
    InitStored(ms, j, page, h, ps, s);
    var kdir, bootStack, frames, m, stack, dir, m' := BootParts(ram, kernelEnd, ArchiveOf(ms), retSite, A.Files(ms));
    BootedIs(kdir, bootStack, frames, m', A.Files(ms), stack, dir, retSite, k);
    StackLeads(m'.ram, stack, dir, page, retSite);
    SegmentMade(m'.ram, stack, dir, page, ps[s], retSite);
  }

  lemma StackLeads(ram: seq<Frame>, stack: int, dir: int, elf: Page, retSite: Word)
    requires |ram| == RAM_FRAMES && Elf.IsProgram(elf) && InitMade(ram, stack, dir, elf, retSite)
    ensures IsFrame(stack)
    ensures
      var cpu := SwitchIn(ram[stack], 995);
      && cpu.eip == retSite && cpu.sp == 1004
      && TrapReturn(Stack(ram[stack], cpu.sp))
         == (User(Regs(0, 0, 0, 0, 0, 0, 0), 0, 0, 0x1b, 0x1b, Elf.Entry(elf), 0x23, 0x200, 0x1000 - 8, 0x1b),
             Stack(ram[stack], 1023))
  {
    hide UserSpace, UserFrame, ProgramImage, Elf.IsProgram, Elf.Entry, InitStack, SwitchIn, TrapReturn;
    var before :| ram[stack] == InitStack(before, Elf.Entry(elf), retSite);
    InitStarts(before, Elf.Entry(elf), retSite);
    ReturnStack(ram[stack]);
  }

  lemma SegmentMade(ram: seq<Frame>, stack: int, dir: int, elf: Page, p: Elf.Phdr, retSite: Word)
    requires |ram| == RAM_FRAMES && Elf.IsProgram(elf) && InitMade(ram, stack, dir, elf, retSite)
    requires p.vaddr + p.filesz <= 4096 && p.offset + p.filesz <= 4096
    requires Elf.Program(elf).vaddr == p.vaddr && Elf.Contents(elf) == elf[p.offset..p.offset + p.filesz]
    ensures UserSpace(ram, dir) && IsFrame(UserFrame(ram, dir))
    ensures SegmentIn(Unpack(ram[UserFrame(ram, dir)]), elf, p, 0, 0)
  {
    hide UserSpace, UserFrame, ProgramImage, Elf.IsProgram, Elf.Entry, Elf.Program, Elf.Contents, InitStack, Unpack,
         SegmentIn, SpaceFrames;
    SpaceFacts(ram, dir);
    var words :| ram[UserFrame(ram, dir)] == ProgramImage(words, elf);
    ImageIn(words, elf, p);
  }

  lemma InitFacts(ms: seq<A.Member>, j: int, page: Page, h: Elf.Ehdr, ps: seq<Elf.Phdr>, s: int)
    requires IsInit(ms, j, page, h, ps, s)
    ensures Elf.LoadsOnly(ps, s)
  {}

  lemma ImageIn(words: Frame, elf: Page, p: Elf.Phdr)
    requires Elf.IsProgram(elf) && p.vaddr + p.filesz <= 4096 && p.offset + p.filesz <= 4096
    requires Elf.Program(elf).vaddr == p.vaddr && Elf.Contents(elf) == elf[p.offset..p.offset + p.filesz]
    ensures SegmentIn(Unpack(ProgramImage(words, elf)), elf, p, 0, 0)
  {
    hide Unpack, WriteFrame, Elf.IsProgram, Elf.Program, Elf.Contents;
    FrameWritten(words, p.vaddr, Elf.Contents(elf));
    var page := WriteBytes(Unpack(words), p.vaddr, Elf.Contents(elf));
    forall v | p.vaddr <= v < p.vaddr + p.filesz ensures page[v] == elf[v - p.vaddr + p.offset] {
      assert page[v] == Elf.Contents(elf)[v - p.vaddr];
    }
  }

  // ----- The scheduler

  /** The scheduler runs in the kernel's own space, which translates every address as kernel_map says; the console
      is empty. */
  lemma BootScheduler(ram: seq<Frame>, kernelEnd: Word, ms: seq<A.Member>, retSite: Word, k: Kernel)
    requires |ram| == RAM_FRAMES && KernelEnd(kernelEnd) && A.AreMembers(ms)
    requires BootKernel(ram, kernelEnd, ArchiveOf(ms), retSite) == Ok(k)
    ensures k.sys.curr == 0 && k.sys.tasks[0].state == T.Running && k.sys.tasks[0].pgdir.Some?
    ensures IsSpace(k.mem.ram, k.sys.tasks[0].pgdir.value)
    ensures forall va: Word :: Translate(k.mem.ram, k.sys.tasks[0].pgdir.value, va) == KernelAddress(va)
    ensures C.Represents(k.console, [], []) && k.retSite == retSite
  {
    hide BootKernel, A.Walk, ArchiveOf, Booted, Table, Pages, InitMade, Translate, KernelSpace, Stored, AreFiles;
    BootReads(ram, kernelEnd, ms, retSite);
    var kdir, bootStack, frames, m, stack, dir, m' := BootParts(ram, kernelEnd, ArchiveOf(ms), retSite, A.Files(ms));
    BootedIs(kdir, bootStack, frames, m', A.Files(ms), stack, dir, retSite, k);
    var low :| KernelSpace(m'.ram, low) && |low| > 0 && low[0] == kdir;
    SpaceTranslates(m'.ram, low);
    NothingTyped();
  }

  lemma NothingTyped()
    ensures C.Represents(C.EmptyRing(), [], [])
  {}

  lemma SpaceTranslates(ram: seq<Frame>, low: seq<int>)
    requires KernelSpace(ram, low)
    ensures |low| > 0 && IsSpace(ram, low[0])
    ensures forall va: Word :: Translate(ram, low[0], va) == KernelAddress(va)
  {
    hide Translate;
    forall va: Word ensures Translate(ram, low[0], va) == KernelAddress(va) {
      KernelTranslation(ram, low[0], va);
    }
  }
}
