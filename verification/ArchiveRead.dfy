/** From the archive to a program: what a task reads of a file that came with the kernel. */
module ArchiveRead {
  import opened Machine
  import opened Bytes
  import opened AddressSpace
  import opened Accounts
  import opened Kernel
  import opened KernelInv
  import opened KernelEffects
  import opened KernelFiles
  import opened KernelSteps
  import opened KernelRuns
  import opened KernelIo
  import opened KernelCalls
  import opened KernelBoot
  import opened KernelStart
  import A = Archive
  import F = FileTable
  import P = SystemCalls
  import T = Tasks
  import U = UserStack

  /** The descriptor that sys_open takes, if there is one. */
  predicate LowestFree(t: T.Task, fd: int)
    requires |t.openFiles| == T.MAX_OPEN_FILES
  {
    0 <= fd < 8 && t.openFiles[fd] == None && forall i :: 0 <= i < fd ==> t.openFiles[i] != None
  }

  /** Opening an existing file and reading from it delivers the start of its page, up to the size of the file. */
  lemma OpenThenRead(k: Kernel, path: U.CString, f: int, fd: int, at: nat, count: nat, own: seq<int>,
                     registered: set<int>, a: Account)
      returns (k1: Kernel, k2: Kernel)
    requires KInv(k, own, registered, a) && KEnabled(k, Open(path, 0)) && LowestFree(Curr(k), fd)
    requires path != [] && path != CONSOLE_PATH && FirstNamed(k.files, path, f) && at + count <= 4096
    ensures k.files[f].inUse && Valid(k.files[f].data) && TaskOk(k.mem.ram, Curr(k))
    ensures KStep(k, Open(path, 0)) == Ok(k1) && IsKernel(k1) && KEnabled(k1, Read(fd, at, count))
    ensures KStep(k1, Read(fd, at, count)) == Ok(k2) && IsKernel(k2) && TaskOk(k2.mem.ram, Curr(k2))
    ensures
      var n := if k.files[f].size < count then k.files[f].size else count;
      Copied(UserPage(k), UserPage(k2), at, FilePage(k, f), 0, n) && k2.files == k.files[f := k.files[f].(pos := n)]
  {
    hide KInv, KStep, T.CoreInv, OpenedQuietly, FirstNamed, P.Given, P.OthersAfter, TaskOk, FilePagesKept, UserPage,
         FilePage, Copied, FailsEarly, Untouched;
    InvIsCore(k, own, registered, a);
    OpensToRead(k, path, f, own, registered, a);
    FoundFile(k.files, path, f);
    k1 := KStep(k, Open(path, 0)).value;
    OpenSimply(k, path);
    var a1 := StepBalanced(k, Open(path, 0), own, registered, a);
    OpenedFacts(k, k1, k.files[f := k.files[f].(pos := 0)]);
    GivenLowest(Curr(k), fd, f, Curr(k1));
    SameCaller(k.sys, k1.sys);
    ReadsFile(k1, Read(fd, at, count), f, own, After(k, Open(path, 0), registered), a1);
    k2 := KStep(k1, Read(fd, at, count)).value;
    InUse(k, own, registered, a, f);
    PageAfterOpen(k, k1, f);
    PageOfCaller(k, k1);
  }

  lemma OpenSimply(k: Kernel, path: U.CString)
    requires IsKernel(k)
    ensures !FailsEarly(k, Open(path, 0))
  {}

  lemma OpenedFacts(k: Kernel, k1: Kernel, files: seq<F.File>)
    requires IsKernel(k) && IsKernel(k1) && TaskOk(k.mem.ram, Curr(k)) && OpenedQuietly(k, k1, files)
    ensures k1.files == files && P.OthersAfter(k.sys, k1.sys, k.sys.curr)
    ensures Untouched(k.mem.ram, k1.mem.ram, Curr(k)) && FilePagesKept(k, k1, ALL_FILES)
  {}

  lemma GivenLowest(t: T.Task, fd: int, f: int, t': T.Task)
    requires |t.openFiles| == T.MAX_OPEN_FILES && LowestFree(t, fd) && P.Given(t, f, t')
    ensures t' == t.(openFiles := t.openFiles[fd := Some(f)])
  {}

  lemma InUse(k: Kernel, own: seq<int>, registered: set<int>, a: Account, f: int)
    requires KInv(k, own, registered, a) && IsFile(f) && k.files[f].name != []
    ensures k.files[f].inUse && Valid(k.files[f].data)
  {}

  lemma PageAfterOpen(k: Kernel, k1: Kernel, f: int)
    requires IsKernel(k) && IsKernel(k1) && IsFile(f) && k.files[f].inUse && FilePagesKept(k, k1, ALL_FILES)
    requires k1.files[f].data == k.files[f].data
    ensures Valid(k.files[f].data) && FilePage(k1, f) == FilePage(k, f)
  {}

  lemma PageOfCaller(k: Kernel, k1: Kernel)
    requires IsKernel(k) && IsKernel(k1) && TaskOk(k.mem.ram, Curr(k)) && Untouched(k.mem.ram, k1.mem.ram, Curr(k))
    requires Curr(k1).pgdir == Curr(k).pgdir && Curr(k1).kstack == Curr(k).kstack
    ensures TaskOk(k1.mem.ram, Curr(k1)) && UserPage(k1) == UserPage(k)
  {
    hide TaskFrames, UserSpace, UserFrame;
    UntouchedKeeps(k.mem.ram, k1.mem.ram, Curr(k));
    SameSpace(k1.mem.ram, Curr(k), Curr(k1));
  }

  lemma SameSpace(ram: seq<Frame>, t: T.Task, t': T.Task)
    requires TaskOk(ram, t) && t'.pgdir == t.pgdir && t'.kstack == t.kstack
    ensures TaskOk(ram, t')
  {}

  // ----- Members of the archive

  /** Member j is the first one of its name, which is not the console's. */
  predicate IsReachable(ms: seq<A.Member>, j: int) {
    && 0 <= j < |ms| && ms[j].name != CONSOLE_PATH
    && forall i :: 0 <= i < j ==> ms[i].name != ms[j].name
  }

  /** Whatever has happened since the kernel was booted from an archive, except for writes to the file: a task that
      opens a member by its name and reads from it gets the member's data, from the first byte on, as much as there is
      or was asked for, and nothing else. */
  lemma ArchiveIsRead(ram: seq<Frame>, kernelEnd: Word, ms: seq<A.Member>, retSite: Word, k0: Kernel, es: seq<KEvent>,
                      k: Kernel, j: int, fd: int, at: nat, count: nat)
      returns (k1: Kernel, k2: Kernel)
    requires |ram| == RAM_FRAMES && KernelEnd(kernelEnd) && A.AreMembers(ms)
    requires BootKernel(ram, kernelEnd, ArchiveOf(ms), retSite) == Ok(k0)
    requires KReaches(k0, es, k) && EarlyFailures(k0, es) <= 1
    requires IsReachable(ms, j) && NeverWrites(k0, es, j)
    requires KEnabled(k, Open(ms[j].name, 0)) && LowestFree(Curr(k), fd) && at + count <= 4096
    ensures KStep(k, Open(ms[j].name, 0)) == Ok(k1) && IsKernel(k1) && KEnabled(k1, Read(fd, at, count))
    ensures KStep(k1, Read(fd, at, count)) == Ok(k2) && IsKernel(k2)
    ensures TaskOk(k.mem.ram, Curr(k)) && TaskOk(k2.mem.ram, Curr(k2))
    ensures
      var n := if |ms[j].data| < count then |ms[j].data| else count;
      forall i :: 0 <= i < 4096 ==>
        UserPage(k2)[i] == if at <= i < at + n then ms[j].data[i - at] else UserPage(k)[i]
  {
    hide KInv, KStep, KEnabled, KReaches, BootKernel, ArchiveOf, LeavesPage, EarlyFailures, UserPage, Unpack, TaskOk,
         FirstNamed, LowestFree, PageHolds, Stepped, FilesKept, A.Walk, Stored, Copied;
    BootTable(ram, kernelEnd, ms, retSite, k0);
    var own, a := BootInv(ram, kernelEnd, ms, retSite, k0);
    InvIsCore(k0, own, Registered(kernelEnd), a);
    RecordsPersist(k0, es, k, own, Registered(kernelEnd), a);
    FilePersists(k0, es, k, own, Registered(kernelEnd), a, j);
    RunConserves(k0, es, k, own, Registered(kernelEnd), a);
    var registered := RunAfter(k0, es, Registered(kernelEnd));
    var a1 :| KInv(k, own, registered, a1);
    InvIsCore(k, own, registered, a1);
    StillFirst(ms, j, k0.files, k.files);
    k1, k2 := OpenThenRead(k, ms[j].name, j, fd, at, count, own, registered, a1);
    DataRead(FilePage(k, j), ms[j].data, UserPage(k), UserPage(k2), at, count);
  }

  /** No event of the run writes to file j, or opens it for writing. */
  ghost predicate NeverWrites(k: Kernel, es: seq<KEvent>, j: int)
    requires IsKernel(k)
  {
    IsFile(j) && k.files[j].data.Some? ==> LeavesPage(k, es, k.files[j].data.value)
  }

  lemma BootInv(ram: seq<Frame>, kernelEnd: Word, ms: seq<A.Member>, retSite: Word, k: Kernel)
      returns (own: seq<int>, a: Account)
    requires |ram| == RAM_FRAMES && KernelEnd(kernelEnd) && A.AreMembers(ms)
    requires BootKernel(ram, kernelEnd, ArchiveOf(ms), retSite) == Ok(k)
    ensures KInv(k, own, Registered(kernelEnd), a) && 0 !in Registered(kernelEnd)
  {
    hide BootKernel, KInv, A.Walk, Stored, ArchiveOf;
    BootReads(ram, kernelEnd, ms, retSite);
    BootOf(ram, kernelEnd, ArchiveOf(ms), retSite, A.Files(ms));
    own, a :| KInv(k, own, Registered(kernelEnd), a);
  }

  lemma StillFirst(ms: seq<A.Member>, j: int, files: seq<F.File>, files': seq<F.File>)
    requires F.IsTable(files) && F.IsTable(files') && FilesKept(files, files') && IsReachable(ms, j) && |ms| <= 31
    requires forall i :: 0 <= i < |ms| ==> files[i].inUse && files[i].name == ms[i].name
    ensures FirstNamed(files', ms[j].name, j) && files'[j].size == files[j].size && files'[j].data == files[j].data
  {}

  lemma DataRead(page: Page, data: seq<Byte>, before: Page, after: Page, at: nat, count: nat)
    requires PageHolds(page, data) && at + count <= 4096
    requires Copied(before, after, at, page, 0, if |data| < count then |data| else count)
    ensures
      var n := if |data| < count then |data| else count;
      forall i :: 0 <= i < 4096 ==> after[i] == if at <= i < at + n then data[i - at] else before[i]
  {}
}
