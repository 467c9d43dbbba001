/** What each system call on files does, in full: to its caller's page and slot, to the file table, to the pages of
    the files and to the console. */
module KernelCalls {
  import opened Machine
  import opened Bytes
  import opened PageAllocator
  import opened AddressSpace
  import opened SpaceCopy
  import opened Accounts
  import opened Kernel
  import opened Conservation
  import opened KernelInv
  import opened KernelEffects
  import opened KernelFiles
  import opened KernelSteps
  import opened KernelRuns
  import opened KernelIo
  import C = Console
  import D = Directory
  import F = FileTable
  import P = SystemCalls
  import T = Tasks
  import U = UserStack

  /** Page 0 of the running task. */
  ghost function UserPage(k: Kernel): Page
    requires IsKernel(k) && TaskOk(k.mem.ram, Curr(k))
  {
    Unpack(k.mem.ram[UserFrame(k.mem.ram, Curr(k).pgdir.value)])
  }

  /** The bytes of a file. */
  ghost function FilePage(k: Kernel, f: int): Page
    requires IsKernel(k) && IsFile(f) && Valid(k.files[f].data)
  {
    Unpack(k.mem.ram[k.files[f].data.value])
  }

  /** From `at` on page' has n bytes of data, those from `start` on; elsewhere it is page. */
  predicate Copied(page: Page, page': Page, at: int, data: Page, start: int, n: int)
    requires 0 <= start && start + n <= 4096
  {
    forall i :: 0 <= i < 4096 ==> page'[i] == if at <= i < at + n then data[start + (i - at)] else page[i]
  }

  /** The pages of these files are as they were. */
  ghost predicate FilePagesKept(k: Kernel, k': Kernel, fs: set<int>)
    requires IsKernel(k) && IsKernel(k')
  {
    forall g :: IsFile(g) && g in fs && k.files[g].inUse ==>
      Valid(k.files[g].data) && k'.mem.ram[k.files[g].data.value] == k.mem.ram[k.files[g].data.value]
  }

  const ALL_FILES := set f | 0 <= f < 32

  lemma OnlyWritten(k: Kernel, e: KEvent, own: seq<int>, registered: set<int>, a: Account, fs: set<int>)
    requires KInv(k, own, registered, a) && KEnabled(k, e) && !FailsEarly(k, e) && KStep(k, e).Ok?
    requires forall g :: IsFile(g) && g in fs && k.files[g].inUse && Valid(k.files[g].data) ==>
      k.files[g].data.value !in FileWritten(k, e)
    ensures FilePagesKept(k, KStep(k, e).value, fs)
  {
    hide KInv, KStep, Stepped, FileWritten, KEnabled, FailsEarly;
    FilesSame(k, own, registered, a);
    var a1 := StepBalanced(k, e, own, registered, a);
    forall g | IsFile(g) && g in fs && k.files[g].inUse
      ensures Valid(k.files[g].data)
        && KStep(k, e).value.mem.ram[k.files[g].data.value] == k.mem.ram[k.files[g].data.value]
    {
      FilePageFixed(k, own, g);
      StepKeepsFile(k, e, KStep(k, e).value, own, registered, a, g);
    }
  }

  /** No two files share a page. */
  lemma FilesApart(k: Kernel, own: seq<int>, registered: set<int>, a: Account, f: int, g: int)
    requires KInv(k, own, registered, a) && IsFile(f) && IsFile(g) && f != g && k.files[f].inUse && k.files[g].inUse
    ensures k.files[f].data != k.files[g].data
  {
    hide FilesOk, F.FilePages, Sum, T.CoreInv, DescriptorsOk, ContextsOk;
    FilePageFixed(k, own, f);
    if k.files[f].data == k.files[g].data {
      var page, pages := k.files[f].data.value, F.FilePages(k.files, F.MAX_FILES);
      F.SharedPage(k.files, if f < g then f else g, if f < g then g else f, page, F.MAX_FILES);
      SetMultiplicity(registered, page);
    }
  }

  // ----- sys_read

  /** sys_read copies the start of the file's page to the caller's buffer, as many bytes as are asked for but no
      more than lie between the position and the end; the position moves on by as many. A position behind the end
      leaves 2^32 minus the difference. Nothing else changes. */
  lemma ReadsFile(k: Kernel, e: KEvent, f: int, own: seq<int>, registered: set<int>, a: Account)
    requires KInv(k, own, registered, a) && KEnabled(k, e) && e.Read?
    requires Curr(k).openFiles[e.fd] == Some(f) && 0 <= f < 32
    ensures KStep(k, e).Ok? && TaskOk(k.mem.ram, Curr(k)) && k.files[f].inUse && Valid(k.files[f].data)
    ensures
      var k', file := KStep(k, e).value, k.files[f];
      var left := if file.pos <= file.size then file.size - file.pos else file.size - file.pos + 0x1_0000_0000;
      var n := if left < e.count then left else e.count;
      && TaskOk(k'.mem.ram, Curr(k')) && Copied(UserPage(k), UserPage(k'), e.at, FilePage(k, f), 0, n)
      && k'.files == k.files[f := file.(pos := (file.pos + n) % 0x1_0000_0000)]
      && (file.pos <= file.size ==> file.pos + n <= file.size)
      && k'.console == k.console && FilePagesKept(k, k', ALL_FILES)
      && Curr(k') == Curr(k) && P.OthersAfter(k.sys, k'.sys, k.sys.curr)
  {
    hide Effect, KStep, KInv, KEnabled, UserSpace, UserFrame, Unpack, WriteFrame, F.BytesRead, P.OthersAfter,
         FilePagesKept, FileWritten, Delivered, Finished, Copied, TaskFrames, FailsEarly;
    ReadRange(k, e, own, registered, a);
    ReadDelivers(k, e, own, registered, a);
    ReadIs(k, e);
    FileDelivered(k, e, f);
    PlainCall(k, Effect(k, e).value, KStep(k, e).value, own);
    Fits(k.files[f], e.count);
    SpaceFacts(k.mem.ram, Curr(k).pgdir.value);
    DataCopied(k.mem.ram[UserFrame(k.mem.ram, Curr(k).pgdir.value)], e.at, FilePage(k, f),
               0, F.BytesRead(k.files[f], e.count));
    OnlyWritten(k, e, own, registered, a, ALL_FILES);
  }

  /** What a call leaves that stores no descriptor. */
  lemma PlainCall(k: Kernel, d: Done, k': Kernel, own: seq<int>)
    requires IsKernel(k) && IsKernel(k') && IsDone(d) && T.Enabled(k.sys, d.event) && Finished(k, d, k', own)
    requires d.event.OtherSyscall?
    ensures Curr(k') == Curr(k) && P.OthersAfter(k.sys, k'.sys, k.sys.curr)
    ensures k'.files == d.files && k'.console == d.console
  {
    hide TaskOk, Untouched, SameFrames, P.OthersAfter;
  }

  lemma DataCopied(words: Frame, at: int, data: Page, start: int, n: int)
    requires 0 <= at && at + n <= 4096 && 0 <= start && 0 <= n && start + n <= 4096
    ensures Copied(Unpack(words), Unpack(WriteFrame(words, at, data[start..start + n])), at, data, start, n)
  {
    hide Unpack, WriteFrame;
    FrameWritten(words, at, data[start..start + n]);
  }

  lemma FileDelivered(k: Kernel, e: KEvent, f: int)
    requires IsKernel(k) && KEnabled(k, e) && e.Read? && FileOf(k, e.fd) == Some(f) && IsFile(f) &&
      Valid(k.files[f].data)
    requires e.at + e.count <= 4096
    ensures Delivered(k, e) == FilePage(k, f)[..F.BytesRead(k.files[f], e.count)]
    ensures FileWritten(k, e) == {} && !FailsEarly(k, e)
    ensures Effect(k, e).Ok? ==>
      var d := Effect(k, e).value;
      && d.event == T.OtherSyscall && d.console == k.console
      && d.files == k.files[f := F.Moved(k.files[f], F.BytesRead(k.files[f], e.count))]
  {
    hide ToUser, Unpack, F.BytesRead;
  }

  lemma Fits(file: F.File, count: nat)
    requires count <= 4096
    ensures
      var left := if file.pos <= file.size then file.size - file.pos else file.size - file.pos + 0x1_0000_0000;
      var n := if left < count then left else count;
      && F.BytesRead(file, count) == n && F.Moved(file, n) == file.(pos := (file.pos + n) % 0x1_0000_0000)
      && (file.pos <= file.size ==> file.pos + n <= file.size)
  {}

  /** A read from the console delivers the oldest unread bytes: as many as are asked for, or as there are, or as come
      before a -1, which is then gone. The line that is being edited stays. */
  lemma ReadsConsole(k: Kernel, e: KEvent, unread: seq<int>, line: seq<int>, own: seq<int>, registered: set<int>,
                     a: Account)
      returns (n: nat)
    requires KInv(k, own, registered, a) && KEnabled(k, e) && e.Read?
    requires Curr(k).openFiles[e.fd] == Some(32) && C.Represents(k.console, unread, line)
    ensures n <= e.count && n <= |unread| && (forall i :: 0 <= i < n ==> 0 <= unread[i])
    ensures n == e.count || n == |unread| || unread[n] < 0
    ensures KStep(k, e).Ok? && TaskOk(k.mem.ram, Curr(k))
    ensures
      var k' := KStep(k, e).value;
      && TaskOk(k'.mem.ram, Curr(k'))
      && (forall i :: 0 <= i < 4096 ==>
           UserPage(k')[i] == if e.at <= i < e.at + n then unread[i - e.at] % 256 else UserPage(k)[i])
      && C.Represents(k'.console, unread[if n < e.count && n < |unread| then n + 1 else n..], line)
      && k'.files == k.files && FilePagesKept(k, k', ALL_FILES)
      && Curr(k') == Curr(k) && P.OthersAfter(k.sys, k'.sys, k.sys.curr)
  {
    hide Effect, KStep, KInv, KEnabled, UserSpace, UserFrame, Unpack, WriteFrame, P.OthersAfter, FilePagesKept,
         FileWritten, Delivered, Finished, TaskFrames, FailsEarly, C.Represents, C.ReadMany;
    ReadRange(k, e, own, registered, a);
    ReadDelivers(k, e, own, registered, a);
    ReadIs(k, e);
    ConsoleDelivered(k, e);
    C.ReadManyRefines(k.console, unread, line, e.count);
    n := C.Deliverable(unread, e.count);
    UpToNegative(unread, e.count);
    PlainCall(k, Effect(k, e).value, KStep(k, e).value, own);
    SpaceFacts(k.mem.ram, Curr(k).pgdir.value);
    FrameWritten(k.mem.ram[UserFrame(k.mem.ram, Curr(k).pgdir.value)], e.at, Delivered(k, e));
    OnlyWritten(k, e, own, registered, a, ALL_FILES);
  }

  lemma ConsoleDelivered(k: Kernel, e: KEvent)
    requires IsKernel(k) && KEnabled(k, e) && e.Read? && FileOf(k, e.fd) == Some(F.CONSOLE)
    requires e.at + e.count <= 4096
    ensures Delivered(k, e) == AsBytes(C.ReadMany(k.console, e.count).0)
    ensures FileWritten(k, e) == {} && !FailsEarly(k, e)
    ensures Effect(k, e).Ok? ==>
      var d := Effect(k, e).value;
      d.event == T.OtherSyscall && d.console == C.ReadMany(k.console, e.count).1 && d.files == k.files
  {
    hide ToUser, C.ReadMany;
  }

  lemma {:induction false} UpToNegative(unread: seq<int>, count: nat)
    ensures var n := C.Deliverable(unread, count);
      && (forall i :: 0 <= i < n ==> 0 <= unread[i])
      && (n == count || n == |unread| || unread[n] < 0)
    decreases count
  {
    if count > 0 && unread != [] && unread[0] >= 0 {
      UpToNegative(unread[1..], count - 1);
      assert forall i :: 1 <= i < |unread| ==> unread[i] == unread[1..][i - 1];
    }
  }

  // ----- Calls that leave memory alone

  /** The caller's pages, the files and the console are as before the call. */
  ghost predicate NothingWritten(k: Kernel, k': Kernel)
    requires IsKernel(k) && IsKernel(k') && TaskOk(k.mem.ram, Curr(k))
  {
    && Untouched(k.mem.ram, k'.mem.ram, Curr(k))
    && k'.files == k.files && FilePagesKept(k, k', ALL_FILES) && k'.console == k.console
  }

  lemma QuietCall(k: Kernel, e: KEvent, te: T.Event, own: seq<int>, registered: set<int>, a: Account)
    requires KInv(k, own, registered, a) && KEnabled(k, e) && k.sys.curr != 0 && !Switches(e) && !e.Fork?
    requires !FailsEarly(k, e) && FileWritten(k, e) == {}
    requires Effect(k, e) == Ok(Quiet(k, te)) && T.Enabled(k.sys, te) && (te.OtherSyscall? || te.Close?)
    ensures KStep(k, e).Ok? && TaskOk(k.mem.ram, Curr(k)) && NothingWritten(k, KStep(k, e).value)
    ensures P.OthersAfter(k.sys, KStep(k, e).value.sys, k.sys.curr)
    ensures P.CallerAfter(Curr(k), te, Curr(KStep(k, e).value))
  {
    hide Effect, KStep, KInv, KEnabled, P.OthersAfter, P.CallerAfter, FilePagesKept, FileWritten, TaskFrames,
         FailsEarly, EffectDone, Untouched, TaskOk, SameFrames;
    FilesSame(k, own, registered, a);
    InvIsCore(k, own, registered, a);
    QuietEffect(k, e, Quiet(k, te), own, registered, a);
    CallFinishes(k, e, Quiet(k, te), own, registered, a);
    OnlyWritten(k, e, own, registered, a, ALL_FILES);
  }

  /** Without a file behind its descriptor sys_read does nothing. */
  lemma ReadsNothing(k: Kernel, e: KEvent, own: seq<int>, registered: set<int>, a: Account)
    requires KInv(k, own, registered, a) && KEnabled(k, e) && e.Read? && Curr(k).openFiles[e.fd] == None
    ensures KStep(k, e).Ok? && TaskOk(k.mem.ram, Curr(k)) && NothingWritten(k, KStep(k, e).value)
    ensures Curr(KStep(k, e).value) == Curr(k) && P.OthersAfter(k.sys, KStep(k, e).value.sys, k.sys.curr)
  {
    hide Effect, KStep, KInv, KEnabled, P.OthersAfter, NothingWritten;
    ReadRange(k, e, own, registered, a);
    ReadIs(k, e);
    QuietCall(k, e, T.OtherSyscall, own, registered, a);
  }

  // ----- sys_write

  /** sys_write to a regular file copies the caller's buffer to the file's position, which moves behind it, and panics
      exactly when that leaves the page. The size stays. */
  lemma WritesPage(k: Kernel, e: KEvent, f: int, own: seq<int>, registered: set<int>, a: Account)
    requires KInv(k, own, registered, a) && KEnabled(k, e) && e.Write?
    requires Curr(k).openFiles[e.fd] == Some(f) && 0 <= f < 32 && k.files[f].kind == F.Regular
    ensures TaskOk(k.mem.ram, Curr(k)) && k.files[f].inUse && Valid(k.files[f].data)
    ensures KStep(k, e).Ok? <==> k.files[f].pos + e.count <= 4096
    ensures KStep(k, e).Ok? ==>
      var k', file := KStep(k, e).value, k.files[f];
      && k'.files == k.files[f := file.(pos := file.pos + e.count)]
      && Copied(FilePage(k, f), FilePage(k', f), file.pos, UserPage(k), e.at, e.count)
      && FilePagesKept(k, k', ALL_FILES - {f}) && Untouched(k.mem.ram, k'.mem.ram, Curr(k))
      && k'.console == k.console && Curr(k') == Curr(k) && P.OthersAfter(k.sys, k'.sys, k.sys.curr)
  {
    hide Effect, KStep, KInv, KEnabled, UserSpace, UserFrame, Unpack, WriteFrame, P.OthersAfter, FilePagesKept,
         FileWritten, Finished, Copied, TaskFrames, FailsEarly, Untouched, TaskOk;
    InvIsCore(k, own, registered, a);
    WriteDone(k, e, f);
    WriteArrives(k, e, own, registered, a);
    WriteRange(k, e, own, registered, a);
    if KStep(k, e).Ok? {
      var d, file := Effect(k, e).value, k.files[f];
      WriteEffectIs(k, e, f);
      PlainCall(k, d, KStep(k, e).value, own);
      CallerApart(k, own, registered, a, f, d, KStep(k, e).value);
      SpaceOf(k.mem.ram, Curr(k));
      DataCopied(k.mem.ram[file.data.value], file.pos, UserPage(k), e.at, e.count);
      OthersApart(k, e, f, own, registered, a);
      OnlyWritten(k, e, own, registered, a, ALL_FILES - {f});
    }
  }

  lemma SpaceOf(ram: seq<Frame>, t: T.Task)
    requires TaskOk(ram, t)
    ensures IsFrame(t.pgdir.value) && IsFrame(t.kstack.value) && UserSpace(ram, t.pgdir.value)
    ensures IsFrame(UserFrame(ram, t.pgdir.value))
  {
    SpaceFacts(ram, t.pgdir.value);
  }

  lemma WriteDone(k: Kernel, e: KEvent, f: int)
    requires IsKernel(k) && KEnabled(k, e) && e.Write? && FileOf(k, e.fd) == Some(f) && IsFile(f)
    requires k.files[f].kind.Regular?
    ensures WritesFile(k, e.fd) && FileWritten(k, e) == PageOf(k.files[f]) && !FailsEarly(k, e)
  {}

  lemma WriteEffectIs(k: Kernel, e: KEvent, f: int)
    requires IsKernel(k) && KEnabled(k, e) && e.Write? && FileOf(k, e.fd) == Some(f) && IsFile(f)
    requires WritesFile(k, e.fd) && Effect(k, e).Ok?
    ensures Valid(k.files[f].data)
    ensures var d := Effect(k, e).value;
      && d.event == T.OtherSyscall && d.console == k.console
      && WellFormed(d.mem) && d.mem.ram == k.mem.ram[k.files[f].data.value := d.mem.ram[k.files[f].data.value]]
  {
    hide WriteFrame, PageZero, Unpack;
    WriteIs(k, e);
  }

  /** Writing the page of a file leaves the caller's pages as they are. */
  lemma CallerApart(k: Kernel, own: seq<int>, registered: set<int>, a: Account, f: int, d: Done, k': Kernel)
    requires KInv(k, own, registered, a) && k.sys.curr != 0 && IsFile(f) && k.files[f].inUse && Valid(k.files[f].data)
    requires IsDone(d) && T.Enabled(k.sys, d.event) && IsKernel(k') && Finished(k, d, k', own)
    requires d.mem.ram == k.mem.ram[k.files[f].data.value := d.mem.ram[k.files[f].data.value]]
    ensures TaskOk(k.mem.ram, Curr(k)) && Untouched(k.mem.ram, k'.mem.ram, Curr(k))
  {
    hide Sum, IsFreeList, Fixed, TaskOk, TaskFrames, P.OthersAfter, P.CallerAfter, SameFrames;
    CurrOwns(k, own, registered, a);
    FilePageFixed(k, own, f);
    FixedIsPrivate(k.sys.tasks, k.mem, Fixed(own, k.files), registered, a, k.sys.curr, k.files[f].data.value);
    UntouchedTwice(k.mem.ram, d.mem.ram, k'.mem.ram, Curr(k), Curr(k));
  }

  lemma OthersApart(k: Kernel, e: KEvent, f: int, own: seq<int>, registered: set<int>, a: Account)
    requires KInv(k, own, registered, a) && KEnabled(k, e) && IsFile(f) && k.files[f].inUse
    requires FileWritten(k, e) == PageOf(k.files[f])
    ensures forall g :: IsFile(g) && g in ALL_FILES - {f} && k.files[g].inUse && Valid(k.files[g].data) ==>
      k.files[g].data.value !in FileWritten(k, e)
  {
    hide KInv, FileWritten, KEnabled;
    InvIsCore(k, own, registered, a);
    forall g | IsFile(g) && g in ALL_FILES - {f} && k.files[g].inUse && Valid(k.files[g].data)
      ensures k.files[g].data.value !in FileWritten(k, e)
    {
      FilesApart(k, own, registered, a, f, g);
    }
  }

  /** What one task writes to a file another one reads, after any run in which nobody else writes the file: byte i
      of the file arrives as byte i of the reader's buffer, if the read gets that far. */
  lemma WrittenIsRead(k: Kernel, w: KEvent, k1: Kernel, es: seq<KEvent>, k2: Kernel, r: KEvent, f: int, own: seq<int>,
                      registered: set<int>, a: Account, i: int)
    requires KInv(k, own, registered, a) && KEnabled(k, w) && w.Write? && KStep(k, w) == Ok(k1)
    requires Curr(k).openFiles[w.fd] == Some(f) && 0 <= f < 32 && k.files[f].kind == F.Regular
    requires KReaches(k1, es, k2) && FreesZeroOnce(k1, es, registered)
    requires k.files[f].data.Some? && LeavesPage(k1, es, k.files[f].data.value)
    requires KEnabled(k2, r) && r.Read? && Curr(k2).openFiles[r.fd] == Some(f)
    requires k.files[f].pos <= i < k.files[f].pos + w.count && i < r.count
    requires
      var file := k2.files[f];
      i < if file.pos <= file.size then file.size - file.pos else file.size - file.pos + 0x1_0000_0000
    ensures TaskOk(k.mem.ram, Curr(k)) && KStep(k2, r).Ok?
    ensures
      var k' := KStep(k2, r).value;
      && TaskOk(k'.mem.ram, Curr(k')) && 0 <= w.at && 0 <= r.at && r.at + i < 4096
      && w.at + i - k.files[f].pos < 4096
      && UserPage(k')[r.at + i] == UserPage(k)[w.at + i - k.files[f].pos]
  {
    hide KStep, KReaches, FreesZeroOnce, LeavesPage, UserPage, FilePage, KInv, KEnabled, FailsEarly, Stepped, Copied,
         P.OthersAfter, FilePagesKept, Untouched, After, TaskOk;
    InvIsCore(k, own, registered, a);
    WriteDone(k, w, f);
    WriteRange(k, w, own, registered, a);
    WritesPage(k, w, f, own, registered, a);
    var a1 := StepBalanced(k, w, own, registered, a);
    Unchanged(k, w, registered);
    FilePersists(k1, es, k2, own, registered, a1, f);
    RunConserves(k1, es, k2, own, registered, a1);
    var registered2 := RunAfter(k1, es, registered);
    var a2 :| KInv(k2, own, registered2, a2);
    ReadRange(k2, r, own, registered2, a2);
    ReadsFile(k2, r, f, own, registered2, a2);
    SamePage(k1, k2, f);
    var buffer := UserPage(KStep(k2, r).value);
    ByteCopied(FilePage(k, f), FilePage(k1, f), k.files[f].pos, UserPage(k), w.at, w.count, i - k.files[f].pos);
    var file := k2.files[f];
    var left := if file.pos <= file.size then file.size - file.pos else file.size - file.pos + 0x1_0000_0000;
    ByteCopied(UserPage(k2), buffer, r.at, FilePage(k2, f), 0, if left < r.count then left else r.count, i);
  }

  lemma Unchanged(k: Kernel, e: KEvent, registered: set<int>)
    requires IsKernel(k) && !FailsEarly(k, e)
    ensures After(k, e, registered) == registered
  {}

  lemma SamePage(k: Kernel, k': Kernel, f: int)
    requires IsKernel(k) && IsKernel(k') && IsFile(f) && Valid(k.files[f].data) && k'.files[f].data == k.files[f].data
    requires k'.mem.ram[k.files[f].data.value] == k.mem.ram[k.files[f].data.value]
    ensures FilePage(k', f) == FilePage(k, f)
  {}

  lemma ByteCopied(page: Page, page': Page, at: int, data: Page, start: int, n: int, i: int)
    requires 0 <= start && start + n <= 4096 && Copied(page, page', at, data, start, n)
    requires 0 <= i < n && 0 <= at && at + n <= 4096
    ensures page'[at + i] == data[start + i]
  {}

  /** To anything else sys_write writes nothing in memory: without a file, to the console, to a directory. */
  lemma WritesNothing(k: Kernel, e: KEvent, own: seq<int>, registered: set<int>, a: Account)
    requires KInv(k, own, registered, a) && KEnabled(k, e) && e.Write?
    requires var fd := Curr(k).openFiles[e.fd];
      fd == None || fd == Some(32) || (0 <= fd.value < 32 && k.files[fd.value].kind == F.Dir)
    ensures KStep(k, e).Ok? && TaskOk(k.mem.ram, Curr(k)) && NothingWritten(k, KStep(k, e).value)
    ensures Curr(KStep(k, e).value) == Curr(k) && P.OthersAfter(k.sys, KStep(k, e).value.sys, k.sys.curr)
  {
    hide KStep, KInv, P.OthersAfter, NothingWritten;
    InvIsCore(k, own, registered, a);
    QuietCall(k, e, T.OtherSyscall, own, registered, a);
  }

  // ----- sys_close

  /** sys_close frees its descriptor exactly when that leads to a file in use. Nothing else changes, and so nothing at
      all in the other cases: a descriptor that is free or leads to the console stays as it is. */
  lemma ClosesFile(k: Kernel, fd: int, own: seq<int>, registered: set<int>, a: Account)
    requires KInv(k, own, registered, a) && KEnabled(k, Close(fd))
    ensures 0 <= fd < 8 && KStep(k, Close(fd)).Ok?
    ensures TaskOk(k.mem.ram, Curr(k)) && NothingWritten(k, KStep(k, Close(fd)).value)
    ensures P.OthersAfter(k.sys, KStep(k, Close(fd)).value.sys, k.sys.curr)
    ensures
      var t, t' := Curr(k), Curr(KStep(k, Close(fd)).value);
      var open := t.openFiles[fd].Some? && 0 <= t.openFiles[fd].value < 32 && k.files[t.openFiles[fd].value].inUse;
      && t' == t.(openFiles := t'.openFiles)
      && t'.openFiles[fd] == (if open then None else t.openFiles[fd])
      && (forall i :: 0 <= i < 8 && i != fd ==> t'.openFiles[i] == t.openFiles[i])
  {
    hide KStep, KInv, P.OthersAfter, NothingWritten;
    InvIsCore(k, own, registered, a);
    QuietCall(k, Close(fd), CloseFile(k, fd), own, registered, a);
    CloseIs(Curr(k), CloseFile(k, fd), Curr(KStep(k, Close(fd)).value), fd);
  }

  lemma CloseIs(t: T.Task, te: T.Event, t': T.Task, fd: int)
    requires |t.openFiles| == T.MAX_OPEN_FILES && 0 <= fd < 8 && te.Close? && (te.fd == None || te.fd == Some(fd))
    requires P.CallerAfter(t, te, t')
    ensures t' == t.(openFiles := t'.openFiles) && |t'.openFiles| == T.MAX_OPEN_FILES
    ensures t'.openFiles[fd] == (if te.fd.Some? then None else t.openFiles[fd])
    ensures forall i :: 0 <= i < 8 && i != fd ==> t'.openFiles[i] == t.openFiles[i]
  {}

  // ----- sys_open

  /** File f is the first one with this name. */
  predicate FirstNamed(files: seq<F.File>, path: seq<Byte>, f: int)
    requires F.IsTable(files)
  {
    0 <= f < 32 && files[f].name == path && forall i :: 0 <= i < f ==> files[i].name != path
  }

  /** The empty path names no file. */
  predicate NoneNamed(files: seq<F.File>, path: seq<Byte>)
    requires F.IsTable(files)
  {
    path == [] || forall i :: 0 <= i < 32 ==> files[i].name != path
  }

  lemma Named(files: seq<F.File>, path: seq<Byte>)
    requires F.IsTable(files)
    ensures NoneNamed(files, path) <==> F.GetFile(files, path) == None
    ensures forall f :: path != [] && FirstNamed(files, path, f) ==> F.GetFile(files, path) == Some(f)
  {
    var r := F.FindName(files, path, 0);
  }

  /** What sys_open leaves when it writes no memory. */
  ghost predicate OpenedQuietly(k: Kernel, k': Kernel, files: seq<F.File>)
    requires IsKernel(k) && IsKernel(k') && TaskOk(k.mem.ram, Curr(k))
  {
    && Untouched(k.mem.ram, k'.mem.ram, Curr(k)) && FilePagesKept(k, k', ALL_FILES)
    && k'.files == files && k'.console == k.console && P.OthersAfter(k.sys, k'.sys, k.sys.curr)
  }

  lemma QuietOpen(k: Kernel, e: KEvent, d: Done, own: seq<int>, registered: set<int>, a: Account)
    requires KInv(k, own, registered, a) && KEnabled(k, e) && e.Open? && FileWritten(k, e) == {}
    requires Effect(k, e) == Ok(d) && IsDone(d) && d.event.Open? && T.Enabled(k.sys, d.event)
    requires d.mem == k.mem && d.console == k.console && Fixed(own, d.files) == Fixed(own, k.files)
    ensures KStep(k, e).Ok? && TaskOk(k.mem.ram, Curr(k)) && OpenedQuietly(k, KStep(k, e).value, d.files)
    ensures P.CallerAfter(Curr(k), d.event, Curr(KStep(k, e).value))
  {
    hide Effect, KStep, KInv, KEnabled, P.OthersAfter, P.CallerAfter, FilePagesKept, FileWritten, TaskFrames,
         EffectDone, Untouched, TaskOk, SameFrames;
    InvIsCore(k, own, registered, a);
    CurrOwnsWhen(k, own, registered, a, e);
    QuietEffect(k, e, d, own, registered, a);
    CallFinishes(k, e, d, own, registered, a);
    OnlyWritten(k, e, own, registered, a, ALL_FILES);
  }

  /** The name of the console. */
  const CONSOLE_PATH: U.CString := [0x63, 0x6f, 0x6e, 0x73, 0x6f, 0x6c, 0x65]

  /** Opening the console: its descriptor, and nothing else. */
  lemma OpensConsole(k: Kernel, flags: int, own: seq<int>, registered: set<int>, a: Account)
    requires KInv(k, own, registered, a) && KEnabled(k, Open(CONSOLE_PATH, flags))
    ensures KStep(k, Open(CONSOLE_PATH, flags)).Ok? && TaskOk(k.mem.ram, Curr(k))
    ensures OpenedQuietly(k, KStep(k, Open(CONSOLE_PATH, flags)).value, k.files)
    ensures P.Given(Curr(k), 32, Curr(KStep(k, Open(CONSOLE_PATH, flags)).value))
  {
    hide KInv, KStep, Effect, KEnabled, OpenedQuietly, P.Given, F.GetFile, T.Enabled, Fixed;
    var e := Open(CONSOLE_PATH, flags);
    InvIsCore(k, own, registered, a);
    OpenIs(k, e);
    ConsoleOpened(k, flags);
    OpenIsEnabled(k, e, Done(T.Open(Some(32)), k.mem, k.files, k.console));
    QuietOpen(k, e, Done(T.Open(Some(32)), k.mem, k.files, k.console), own, registered, a);
  }

  lemma ConsoleOpened(k: Kernel, flags: int)
    requires IsKernel(k)
    ensures OpenFile(k, CONSOLE_PATH, flags) == Ok(Done(T.Open(Some(32)), k.mem, k.files, k.console))
  {}

  lemma OpenIsEnabled(k: Kernel, e: KEvent, d: Done)
    requires IsKernel(k) && KEnabled(k, e) && e.Open? && Effect(k, e) == Ok(d)
    ensures T.Enabled(k.sys, d.event) && IsDone(d)
  {
    hide Effect;
  }

  /** Opening an existing file for reading sets its position to the start. */
  lemma OpensToRead(k: Kernel, path: U.CString, f: int, own: seq<int>, registered: set<int>, a: Account)
    requires KInv(k, own, registered, a) && KEnabled(k, Open(path, 0))
    requires path != [] && path != CONSOLE_PATH && FirstNamed(k.files, path, f)
    ensures KStep(k, Open(path, 0)).Ok? && TaskOk(k.mem.ram, Curr(k))
    ensures OpenedQuietly(k, KStep(k, Open(path, 0)).value, k.files[f := k.files[f].(pos := 0)])
    ensures P.Given(Curr(k), f, Curr(KStep(k, Open(path, 0)).value))
  {
    hide KInv, KStep, Effect, KEnabled, OpenedQuietly, P.Given, F.GetFile, FirstNamed, T.Enabled, Fixed, FilesOk,
         FilesKept, IsOpen, F.OpenFile;
    FilesSame(k, own, registered, a);
    FoundFile(k.files, path, f);
    var e, d := Open(path, 0), Done(T.Open(Some(f)), k.mem, k.files[f := k.files[f].(pos := 0)], k.console);
    OpenIs(k, e);
    OpenedOld(k.files, k.mem, path, 0);
    OpenIsEnabled(k, e, d);
    UpdateKeeps(own, k.files, f, k.files[f].(pos := 0));
    QuietOpen(k, e, d, own, registered, a);
  }

  lemma FoundFile(files: seq<F.File>, path: seq<Byte>, f: int)
    requires F.IsTable(files) && path != [] && FirstNamed(files, path, f)
    ensures IsFile(f) && F.GetFile(files, path) == Some(f) && forall flags :: !F.MakesFile(files, path, flags)
  {
    Named(files, path);
  }

  /** Opening an existing file for writing makes it a regular file, sets its position to the start, and clears the
      first four bytes of its page. */
  lemma OpensToWrite(k: Kernel, e: KEvent, f: int, own: seq<int>, registered: set<int>, a: Account)
    requires KInv(k, own, registered, a) && KEnabled(k, e) && e.Open? && (e.flags == 1 || e.flags == 2)
    requires e.path != [] && e.path != CONSOLE_PATH && FirstNamed(k.files, e.path, f)
    ensures KStep(k, e).Ok? && TaskOk(k.mem.ram, Curr(k)) && k.files[f].inUse && Valid(k.files[f].data)
    ensures
      var k' := KStep(k, e).value;
      && k'.files == k.files[f := k.files[f].(kind := F.Regular, pos := 0)]
      && (forall i :: 0 <= i < 4096 ==> FilePage(k', f)[i] == if i < 4 then 0 else FilePage(k, f)[i])
      && FilePagesKept(k, k', ALL_FILES - {f}) && Untouched(k.mem.ram, k'.mem.ram, Curr(k))
      && k'.console == k.console && P.OthersAfter(k.sys, k'.sys, k.sys.curr) && P.Given(Curr(k), f, Curr(k'))
  {
    hide KInv, KStep, Effect, KEnabled, P.OthersAfter, P.Given, F.GetFile, FirstNamed, T.Enabled, Fixed, FilesOk,
         FilesKept, IsOpen, F.OpenFile, FilePagesKept, Untouched, TaskOk, EffectDone, FileWritten, Unpack, Finished,
         WriteWord;
    InvIsCore(k, own, registered, a);
    FilesSame(k, own, registered, a);
    FoundFile(k.files, e.path, f);
    FoundInUse(k.files, e.path);
    CurrOwnsWhen(k, own, registered, a, e);
    OpenOldEffect(k, own, registered, a, e);
    OpenIs(k, e);
    OpenedOld(k.files, k.mem, e.path, e.flags);
    OpenWrites(k, e);
    var d := Effect(k, e).value;
    CallFinishes(k, e, d, own, registered, a);
    WordIsFrame(k.mem, k.files[f].data.value);
    CallerApart(k, own, registered, a, f, d, KStep(k, e).value);
    OpenFinished(k, d, KStep(k, e).value, own, f);
    FourCleared(k.mem.ram[k.files[f].data.value]);
    OthersApart(k, e, f, own, registered, a);
    OnlyWritten(k, e, own, registered, a, ALL_FILES - {f});
  }

  lemma FourCleared(words: Frame)
    ensures forall i :: 0 <= i < 4096 ==> Unpack(words[0 := 0])[i] == if i < 4 then 0 else Unpack(words)[i]
  {
    assert WordBytes(0) == [0, 0, 0, 0];
    var page, page' := Unpack(words), Unpack(words[0 := 0]);
    forall i | 0 <= i < 4096 ensures page'[i] == if i < 4 then 0 else page[i] {
      assert i < 4 <==> i / 4 == 0;
    }
  }

  /** The page of file f behind a call that opens it. */
  lemma OpenFinished(k: Kernel, d: Done, k': Kernel, own: seq<int>, f: int)
    requires IsKernel(k) && IsKernel(k') && IsDone(d) && T.Enabled(k.sys, d.event) && Finished(k, d, k', own)
    requires d.event == T.Open(Some(f)) && IsFile(f) && d.files[f].inUse && Valid(d.files[f].data)
    ensures k'.files == d.files && k'.console == d.console && P.OthersAfter(k.sys, k'.sys, k.sys.curr)
    ensures P.Given(Curr(k), f, Curr(k')) && k'.mem.ram[d.files[f].data.value] == d.mem.ram[d.files[f].data.value]
  {
    hide P.OthersAfter, P.Given, TaskOk, Untouched;
    F.PageOfFile(d.files, f, F.MAX_FILES);
    assert d.files[f].data.value in F.OwnPage(d.files[f]);
    assert d.files[f].data.value in Elements(Fixed(own, d.files));
  }

  /** sys_open does nothing with a file that exists if the flags are none of the three, nor with one that does not
      exist if it cannot be made: the path is too long, the table is full, or it is opened for reading and not the
      root directory. */
  lemma OpensNothing(k: Kernel, e: KEvent, own: seq<int>, registered: set<int>, a: Account)
    requires KInv(k, own, registered, a) && KEnabled(k, e) && e.Open? && e.path != CONSOLE_PATH
    requires if NoneNamed(k.files, e.path)
             then |e.path| > 15 || (forall i :: 0 <= i < 32 ==> k.files[i].inUse)
               || (e.path != [0x2f] && e.flags != 1 && e.flags != 2)
             else e.flags < 0 || e.flags > 2
    ensures KStep(k, e).Ok? && TaskOk(k.mem.ram, Curr(k)) && OpenedQuietly(k, KStep(k, e).value, k.files)
    ensures Curr(KStep(k, e).value) == Curr(k)
  {
    hide KInv, KStep, Effect, KEnabled, OpenedQuietly, F.GetFile, T.Enabled, Fixed, FilesOk, FilesKept, IsOpen,
         F.OpenFile, NoneNamed;
    var d := Done(T.Open(None), k.mem, k.files, k.console);
    FilesSame(k, own, registered, a);
    Named(k.files, e.path);
    NotMade(k.files, e.path, e.flags);
    OpenIs(k, e);
    OpenedOld(k.files, k.mem, e.path, e.flags);
    OpenIsEnabled(k, e, d);
    NotWritten(k, e);
    QuietOpen(k, e, d, own, registered, a);
  }

  lemma NotMade(files: seq<F.File>, path: seq<Byte>, flags: int)
    requires F.IsTable(files) && path != CONSOLE_PATH
    requires if NoneNamed(files, path)
             then |path| > 15 || (forall i :: 0 <= i < 32 ==> files[i].inUse)
               || (path != [0x2f] && flags != 1 && flags != 2)
             else flags < 0 || flags > 2
    ensures !F.MakesFile(files, path, flags)
  {
    hide F.GetFile;
    Named(files, path);
  }

  lemma NotWritten(k: Kernel, e: KEvent)
    requires IsKernel(k) && KEnabled(k, e) && e.Open? &&
      (F.GetFile(k.files, e.path) == None || e.flags < 0 || e.flags > 2)
    ensures FileWritten(k, e) == {}
  {
    hide F.GetFile;
  }

  /** Can sys_open make a file of this name in slot n, the first one that is not in use? */
  predicate CanMake(files: seq<F.File>, path: seq<Byte>, n: int)
    requires F.IsTable(files)
  {
    && |path| <= 15 && path != CONSOLE_PATH && NoneNamed(files, path)
    && 0 <= n < 32 && !files[n].inUse && forall i :: 0 <= i < n ==> files[i].inUse
  }

  lemma Makes(files: seq<F.File>, path: seq<Byte>, flags: int, n: int)
    requires F.IsTable(files) && CanMake(files, path, n) && (path == [0x2f] || flags == 1 || flags == 2)
    ensures F.MakesFile(files, path, flags) && F.GetFile(files, path) == None && F.FindSlot(files, 0) == n
  {
    hide F.GetFile;
    Named(files, path);
    var i := F.FindSlot(files, 0);
  }

  /** A file that is made in slot n gets the first free page; there has to be one. */
  lemma MakesFile(k: Kernel, e: KEvent, n: int, own: seq<int>, registered: set<int>, a: Account)
    requires KInv(k, own, registered, a) && KEnabled(k, e) && e.Open? && CanMake(k.files, e.path, n)
    requires e.path == [0x2f] || e.flags == 1 || e.flags == 2
    ensures IsKernel(k) && TaskOk(k.mem.ram, Curr(k)) && (KStep(k, e).Ok? <==> a.free != [])
    ensures a.free != [] ==>
      IsFreeList(k.mem, a.free) && IsFrame(a.free[0]) && F.OpenFile(k.files, k.mem, e.path, e.flags).Ok?
    ensures a.free != [] ==>
      var k', o := KStep(k, e).value, F.OpenFile(k.files, k.mem, e.path, e.flags).value;
      && k'.files == o.files && k'.mem.ram[a.free[0]] == o.mem.ram[a.free[0]]
      && FilePagesKept(k, k', ALL_FILES) && Untouched(k.mem.ram, k'.mem.ram, Curr(k))
      && k'.console == k.console && P.OthersAfter(k.sys, k'.sys, k.sys.curr) && P.Given(Curr(k), n, Curr(k'))
  {
    hide KInv, KStep, Effect, KEnabled, P.OthersAfter, P.Given, CanMake, FilePagesKept, Untouched, TaskOk, F.OpenFile,
         F.MakesFile, F.FindSlot, F.GetFile, IsFreeList, EffectDone, Fixed, T.Enabled, Finished, FileWritten;
    InvIsCore(k, own, registered, a);
    CurrOwnsWhen(k, own, registered, a, e);
    FreeList(k, own, registered, a);
    Makes(k.files, e.path, e.flags, n);
    OpenIs(k, e);
    var a1 := OpenNewEffect(k, own, registered, a, e);
    OpenedNew(k.files, k.mem, a.free, e.path, e.flags);
    if a.free == [] {
      EffectFirst(k, e);
    } else {
      var d := Effect(k, e).value;
      CallFinishes(k, e, d, own, registered, a1);
      OpenFinished(k, d, KStep(k, e).value, own, n);
      CallerNotFree(k, own, registered, a, d, KStep(k, e).value);
      NotWritten(k, e);
      OnlyWritten(k, e, own, registered, a, ALL_FILES);
    }
  }

  lemma FreeList(k: Kernel, own: seq<int>, registered: set<int>, a: Account)
    requires KInv(k, own, registered, a)
    ensures IsFreeList(k.mem, a.free) && forall i :: 0 <= i < |a.free| ==> IsFrame(a.free[i])
  {
    hide Sum, Fixed, T.CoreInv;
  }

  lemma EffectFirst(k: Kernel, e: KEvent)
    requires IsKernel(k) && KEnabled(k, e) && Effect(k, e).Panic?
    ensures KStep(k, e).Panic?
  {
    hide Effect, KEnabled;
  }

  lemma CallerNotFree(k: Kernel, own: seq<int>, registered: set<int>, a: Account, d: Done, k': Kernel)
    requires KInv(k, own, registered, a) && k.sys.curr != 0 && a.free != [] && IsFrame(a.free[0])
    requires IsDone(d) && T.Enabled(k.sys, d.event) && IsKernel(k') && Finished(k, d, k', own)
    requires d.mem.ram == k.mem.ram[a.free[0] := d.mem.ram[a.free[0]]]
    ensures TaskOk(k.mem.ram, Curr(k)) && Untouched(k.mem.ram, k'.mem.ram, Curr(k))
  {
    hide Sum, IsFreeList, Fixed, TaskOk, TaskFrames, P.OthersAfter, P.CallerAfter, SameFrames;
    CurrOwns(k, own, registered, a);
    assert a.free[0] in a.free;
    UntouchedTwice(k.mem.ram, d.mem.ram, k'.mem.ram, Curr(k), Curr(k));
  }

  /** Opening a file for writing that does not exist makes an empty regular file of that name, in the first slot that
      is not in use and with the first free page, whose contents stay; it panics exactly without one. */
  lemma OpensNew(k: Kernel, e: KEvent, n: int, own: seq<int>, registered: set<int>, a: Account)
    requires KInv(k, own, registered, a) && KEnabled(k, e) && e.Open? && (e.flags == 1 || e.flags == 2)
    requires e.path != [0x2f] && CanMake(k.files, e.path, n)
    ensures TaskOk(k.mem.ram, Curr(k)) && (KStep(k, e).Ok? <==> a.free != [])
    ensures KStep(k, e).Ok? ==>
      var k' := KStep(k, e).value;
      && k'.files == k.files[n := F.File(e.path, true, F.Regular, 0, 0, Some(a.free[0]))]
      && IsFrame(a.free[0]) && k'.mem.ram[a.free[0]] == k.mem.ram[a.free[0]]
      && FilePagesKept(k, k', ALL_FILES) && Untouched(k.mem.ram, k'.mem.ram, Curr(k))
      && k'.console == k.console && P.OthersAfter(k.sys, k'.sys, k.sys.curr) && P.Given(Curr(k), n, Curr(k'))
  {
    hide KInv, KStep, KEnabled, P.OthersAfter, P.Given, FilePagesKept, Untouched, TaskOk, F.OpenFile, NoneNamed;
    MakesFile(k, e, n, own, registered, a);
    if a.free != [] { NewMember(k.files, k.mem, a.free, e.path, e.flags, n); }
  }

  lemma NewMember(files: seq<F.File>, m: Mem, free: seq<int>, path: seq<Byte>, flags: int, n: int)
    requires F.IsTable(files) && IsFreeList(m, free) && free != [] && CanMake(files, path, n)
    requires path != [0x2f] && (flags == 1 || flags == 2)
    ensures F.OpenFile(files, m, path, flags).Ok?
    ensures
      var o := F.OpenFile(files, m, path, flags).value;
      o.mem.ram == m.ram && o.files == files[n := F.File(path, true, F.Regular, 0, 0, Some(free[0]))]
  {
    hide Kmalloc, F.GetFile, IsFreeList, F.MakesFile, F.FindSlot, NoneNamed;
    KmallocPops(m, free);
    Makes(files, path, flags, n);
  }

  /** The slots below i that the root directory lists. */
  function ListedBelow(files: seq<F.File>, i: nat): set<int>
    requires i <= |files|
  {
    set j | 0 <= j < i && files[j].inUse && files[j].kind == F.Regular && |files[j].name| > 0
  }

  /** Opening the root directory, when it has not been opened before and whatever the flags are, makes it a file, with
      the names of the regular files in its page: one to a line, in the order of the table, with nothing changed
      behind them. */
  lemma OpensRoot(k: Kernel, e: KEvent, n: int, own: seq<int>, registered: set<int>, a: Account)
      returns (names: seq<seq<Byte>>)
    requires KInv(k, own, registered, a) && KEnabled(k, e) && e.Open?
    requires e.path == [0x2f] && CanMake(k.files, e.path, n)
    ensures |names| == |ListedBelow(k.files, 32)| && |D.Listing(names)| < 4096
    ensures forall i :: 0 <= i < 32 && i in ListedBelow(k.files, 32) ==>
      |ListedBelow(k.files, i)| < |names| && names[|ListedBelow(k.files, i)|] == k.files[i].name
    ensures TaskOk(k.mem.ram, Curr(k)) && (KStep(k, e).Ok? <==> a.free != [])
    ensures KStep(k, e).Ok? ==>
      var k', text := KStep(k, e).value, D.Listing(names);
      && k'.files == k.files[n := F.File([0x2f], true, F.Dir, |text|, 0, Some(a.free[0]))]
      && IsFrame(a.free[0])
      && (forall i :: 0 <= i < 4096 ==>
           FilePage(k', n)[i] == if i < |text| then text[i] else Unpack(k.mem.ram[a.free[0]])[i])
      && FilePagesKept(k, k', ALL_FILES) && Untouched(k.mem.ram, k'.mem.ram, Curr(k))
      && k'.console == k.console && P.OthersAfter(k.sys, k'.sys, k.sys.curr) && P.Given(Curr(k), n, Curr(k'))
  {
    hide KInv, KStep, KEnabled, P.OthersAfter, P.Given, FilePagesKept, Untouched, TaskOk, F.OpenFile, NoneNamed,
         ListedBelow, Unpack, D.Listing, WriteFrame;
    MakesFile(k, e, n, own, registered, a);
    names := RootNames(k.files, n, if a.free != [] then a.free[0] else 0);
    if a.free != [] {
      RootMember(k.files, k.mem, a.free, e.flags, n, names);
      FrameWritten(k.mem.ram[a.free[0]], 0, D.Listing(names));
    }
  }

  /** The table with the new directory, before it has its size. */
  function WithRoot(files: seq<F.File>, n: int, page: int): (r: seq<F.File>)
    requires F.IsTable(files) && 0 <= n < 32
    ensures F.IsTable(r)
  {
    files[n := files[n].(name := [0x2f], inUse := true, size := 0, data := Some(page), kind := F.Dir)]
  }

  lemma RootNames(files: seq<F.File>, n: int, page: int) returns (names: seq<seq<Byte>>)
    requires F.IsTable(files) && 0 <= n < 32 && !files[n].inUse
    ensures |names| == |ListedBelow(files, 32)|
    ensures forall i :: 0 <= i < 32 && i in ListedBelow(files, 32) ==>
      |ListedBelow(files, i)| < |names| && names[|ListedBelow(files, i)|] == files[i].name
    ensures D.Listing(names) == F.RootListing(WithRoot(files, n, page)) && |D.Listing(names)| < 4096
  {
    hide D.Listing;
    var es := F.Entries(WithRoot(files, n, page));
    F.RootListingFits(WithRoot(files, n, page));
    names := D.Names(es);
    D.NamesAt(es);
    forall i | 0 <= i <= 32 ensures D.ListedBelow(es, i) == ListedBelow(files, i) {}
  }

  lemma RootMember(files: seq<F.File>, m: Mem, free: seq<int>, flags: int, n: int, names: seq<seq<Byte>>)
    requires F.IsTable(files) && IsFreeList(m, free) && free != [] && CanMake(files, [0x2f], n) && IsFrame(free[0])
    requires D.Listing(names) == F.RootListing(WithRoot(files, n, free[0])) && |D.Listing(names)| < 4096
    ensures F.OpenFile(files, m, [0x2f], flags).Ok?
    ensures
      var o, text := F.OpenFile(files, m, [0x2f], flags).value, D.Listing(names);
      && o.mem.ram[free[0]] == WriteFrame(m.ram[free[0]], 0, text)
      && o.files == files[n := F.File([0x2f], true, F.Dir, |text|, 0, Some(free[0]))]
  {
    hide Kmalloc, F.GetFile, IsFreeList, F.MakesFile, F.FindSlot, NoneNamed, F.RootListing, D.Listing, WriteFrame;
    KmallocPops(m, free);
    Makes(files, [0x2f], flags, n);
    var file := files[n].(name := [0x2f], inUse := true, size := 0, data := Some(free[0]));
    assert files[n := file][n := file.(kind := F.Dir)] == WithRoot(files, n, free[0]);
  }

  // ----- One call after another

  lemma StepIs(k: Kernel, e: KEvent)
    requires IsKernel(k) && KEnabled(k, e) && KStep(k, e).Ok?
    ensures Effect(k, e).Ok?
    ensures
      var d, k' := Effect(k, e).value, KStep(k, e).value;
      && T.Enabled(k.sys, d.event) && T.Step(k.sys, d.event) == Ok(k'.sys)
      && k'.files == d.files && k'.console == d.console
  {
    hide Effect, T.Step, SaveContext, ReapAfter, KEnabled, ContextsAfter;
  }

  /** An open after a close finds a free descriptor, at or below the one that was closed. So it does not replace the
      parent. */
  lemma OpenAfterClose(k: Kernel, fd: int, k1: Kernel, e: KEvent, k2: Kernel, own: seq<int>, registered: set<int>,
                       a: Account)
    requires KInv(k, own, registered, a) && KEnabled(k, Close(fd)) && KStep(k, Close(fd)) == Ok(k1)
    requires Curr(k).openFiles[fd].Some?
    requires 0 <= Curr(k).openFiles[fd].value < 32 && k.files[Curr(k).openFiles[fd].value].inUse
    requires KEnabled(k1, e) && e.Open? && KStep(k1, e) == Ok(k2)
    ensures Curr(k2).parent == Curr(k).parent
    ensures Curr(k2) == Curr(k1) || exists i, f :: 0 <= i <= fd && P.StoredAt(Curr(k1), i, f, Curr(k2))
  {
    hide KInv, KEnabled, KStep, Effect, T.Step, T.Enabled, P.CallerAfter, P.OthersAfter, NothingWritten, P.StoredAt,
         P.Given, T.CoreInv;
    ClosesFile(k, fd, own, registered, a);
    InvIsCore(k, own, registered, a);
    CloseSimply(k, fd);
    var a1 := StepBalanced(k, Close(fd), own, registered, a);
    InvIsCore(k1, own, registered, a1);
    StepIs(k1, e);
    EffectEvent(k1, e);
    P.CallTransition(k1.sys, Effect(k1, e).value.event);
    SameCaller(k1.sys, k2.sys);
    OpenedOrNot(Curr(k1), Effect(k1, e).value.event, Curr(k2), fd);
  }

  /** So a program that closes a file can open one that exists, and finds it at such a descriptor. */
  lemma ReopensAfterClose(k: Kernel, fd: int, path: U.CString, f: int, own: seq<int>, registered: set<int>, a: Account)
      returns (i: int)
    requires KInv(k, own, registered, a) && KEnabled(k, Close(fd)) && Curr(k).openFiles[fd].Some?
    requires 0 <= Curr(k).openFiles[fd].value < 32 && k.files[Curr(k).openFiles[fd].value].inUse
    requires path != [] && path != CONSOLE_PATH && FirstNamed(k.files, path, f)
    ensures KStep(k, Close(fd)).Ok? && KEnabled(KStep(k, Close(fd)).value, Open(path, 0))
    ensures KStep(KStep(k, Close(fd)).value, Open(path, 0)).Ok?
    ensures
      var k1 := KStep(k, Close(fd)).value;
      var k2 := KStep(k1, Open(path, 0)).value;
      && 0 <= i <= fd && P.StoredAt(Curr(k1), i, f, Curr(k2)) && Curr(k2).parent == Curr(k).parent
      && k2.files == k.files[f := k.files[f].(pos := 0)]
  {
    hide KInv, KStep, Effect, T.CoreInv, NothingWritten, OpenedQuietly, FirstNamed, P.Given, P.StoredAt, P.OthersAfter,
         After;
    InvIsCore(k, own, registered, a);
    ClosesFile(k, fd, own, registered, a);
    CloseSimply(k, fd);
    var a1 := StepBalanced(k, Close(fd), own, registered, a);
    var k1 := KStep(k, Close(fd)).value;
    SameCaller(k.sys, k1.sys);
    QuietTable(k, k1);
    FoundFile(k.files, path, f);
    OpensToRead(k1, path, f, own, After(k, Close(fd), registered), a1);
    var k2 := KStep(k1, Open(path, 0)).value;
    OpenedTable(k1, k2, k1.files[f := k1.files[f].(pos := 0)]);
    i := P.GivenToFree(Curr(k1), fd, f, Curr(k2));
  }

  lemma QuietTable(k: Kernel, k': Kernel)
    requires IsKernel(k) && IsKernel(k') && TaskOk(k.mem.ram, Curr(k)) && NothingWritten(k, k')
    ensures k'.files == k.files
  {}

  lemma OpenedTable(k: Kernel, k': Kernel, files: seq<F.File>)
    requires IsKernel(k) && IsKernel(k') && TaskOk(k.mem.ram, Curr(k)) && OpenedQuietly(k, k', files)
    ensures k'.files == files
  {}

  lemma CloseSimply(k: Kernel, fd: int)
    requires IsKernel(k)
    ensures !FailsEarly(k, Close(fd))
  {}

  lemma SameCaller(s: T.Sys, s': T.Sys)
    requires T.WellFormed(s) && T.WellFormed(s') && P.OthersAfter(s, s', s.curr)
    ensures s'.curr == s.curr
  {}

  lemma OpenedOrNot(t: T.Task, te: T.Event, t': T.Task, fd: int)
    requires |t.openFiles| == T.MAX_OPEN_FILES && te.Open? && P.CallerAfter(t, te, t')
    requires 0 <= fd < 8 && t.openFiles[fd] == None
    ensures t'.parent == t.parent
    ensures t' == t || exists i, f :: 0 <= i <= fd && P.StoredAt(t, i, f, t')
  {
    hide P.Given, P.StoredAt;
    if te.file.Some? { var i := P.GivenToFree(t, fd, te.file.value, t'); }
  }

  // ----- The other events

  /** What a step of the kernel is in the task table: the transitions of SystemCalls apply to it. */
  lemma StepOnTasks(k: Kernel, e: KEvent)
    requires IsKernel(k) && KEnabled(k, e) && KStep(k, e).Ok?
    ensures var sys := KStep(k, e).value.sys;
      match e
      case Scan(_) => T.Step(k.sys, T.Scan) == Ok(sys)
      case Exit(_) => T.Step(k.sys, T.Exit) == Ok(sys)
      case Wait(_) => T.Step(k.sys, T.Wait) == Ok(sys)
      case Timer(_) => T.Step(k.sys, T.Timer) == Ok(sys)
      case Fork => exists dir, stack :: T.Step(k.sys, T.Fork(dir, stack)) == Ok(sys)
      case Execv(_, _) => exists dir :: T.Step(k.sys, T.Execv(dir)) == Ok(sys)
      case Open(_, _) => exists file :: T.Enabled(k.sys, T.Open(file)) && T.Step(k.sys, T.Open(file)) == Ok(sys)
      case Close(_) => exists fd :: T.Enabled(k.sys, T.Close(fd)) && T.Step(k.sys, T.Close(fd)) == Ok(sys)
      case Serial(_) => sys == k.sys
      case Compute(_, _) => sys == k.sys
      case _ => T.Step(k.sys, T.OtherSyscall) == Ok(sys)
  {
    hide T.Step, KStep, ForkMemory, ExecMemory, WritePageZero, C.WriteByte, C.ReadMany, ToUser, Unpack, Find,
         F.OpenFile, F.BytesRead, PageZero, WriteFrame;
    StepIs(k, e);
    if e.Serial? || e.Compute? { InterruptKeeps(k.sys); }
  }

  lemma InterruptKeeps(s: T.Sys)
    requires T.WellFormed(s) && s.curr != 0
    ensures T.Step(s, T.Serial) == Ok(s)
  {}

  /** sys_exit changes a file if the parent is one: where a task has its state, a file has its position, and 2
      (sleeping) becomes 3 (runnable). */
  lemma ExitWakes(k: Kernel, e: KEvent)
    requires IsKernel(k) && KEnabled(k, e) && e.Exit? && KStep(k, e).Ok?
    ensures Curr(k).parent.Some? && KStep(k, e).value.console == k.console
    ensures
      var f := Curr(k).parent.value - 1024;
      KStep(k, e).value.files ==
        if 0 <= f < 32 && k.files[f].pos == 2 then k.files[f := k.files[f].(pos := 3)] else k.files
  {
    hide KStep, Effect, KEnabled, T.Step;
    StepIs(k, e);
    SimpleIs(k, e);
    ExitHasParent(k.sys);
  }

  lemma ExitHasParent(s: T.Sys)
    requires T.WellFormed(s) && T.Enabled(s, T.Exit) && T.Step(s, T.Exit).Ok?
    ensures s.tasks[s.curr].parent.Some?
  {}

  /** The events that are no calls on files leave the file table and the console as they are; a byte from the line
      goes to the console alone. */
  lemma TablesKept(k: Kernel, e: KEvent)
    requires IsKernel(k) && KEnabled(k, e) && KStep(k, e).Ok? && !e.Exit? && !e.Open? && !e.Read? && !e.Write?
    ensures KStep(k, e).value.files == k.files
    ensures e.Serial? ==> C.WriteByte(k.console, e.ch) == Ok(KStep(k, e).value.console)
    ensures !e.Serial? ==> KStep(k, e).value.console == k.console
  {
    hide KStep, KEnabled, ForkMemory, ExecMemory, WritePageZero, C.WriteByte;
    StepIs(k, e);
  }
}
