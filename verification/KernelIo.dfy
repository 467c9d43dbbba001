/** What is read and what is written: a write arrives in the page of its file, stays there over any run in which
    nobody writes the file, and a read delivers the start of that page. */
module KernelIo {
  import opened Machine
  import opened Bytes
  import opened PageAllocator
  import opened AddressSpace
  import opened SpaceCopy
  import opened Accounts
  import opened Kernel
  import opened Conservation
  import opened KernelInv
  import opened KernelEffects
  import opened KernelFiles
  import opened KernelSteps
  import opened KernelRuns
  import C = Console
  import F = FileTable
  import P = SystemCalls
  import T = Tasks

  // ----- The end of a system call

  /** What the caller of a system call on files finds when it is back: of its slot CallerAfter says what has
      changed, of the others OthersAfter; the reaper has left the caller's pages and those of the kernel alone. */
  ghost predicate Finished(k: Kernel, d: Done, k': Kernel, own: seq<int>)
    requires IsKernel(k) && IsKernel(k') && IsDone(d) && T.Enabled(k.sys, d.event)
  {
    && P.OthersAfter(k.sys, k'.sys, k.sys.curr) && P.CallerAfter(Curr(k), d.event, Curr(k'))
    && k'.files == d.files && k'.console == d.console && k'.contexts == k.contexts
    && SameFrames(d.mem.ram, k'.mem.ram, Elements(Fixed(own, d.files)))
    && TaskOk(d.mem.ram, Curr(k)) && Untouched(d.mem.ram, k'.mem.ram, Curr(k))
  }

  lemma CallFinishes(k: Kernel, e: KEvent, d: Done, own: seq<int>, registered: set<int>, a: Account)
    requires IsKernel(k) && T.CoreInv(k.sys) && KEnabled(k, e) && k.sys.curr != 0 && !Switches(e) && !e.Fork?
    requires Effect(k, e) == Ok(d) && (d.event.OtherSyscall? || d.event.Open? || d.event.Close?)
    requires EffectDone(k, e, d, own, registered, a)
    ensures KStep(k, e).Ok? && IsDone(d) && T.Enabled(k.sys, d.event) && Finished(k, d, KStep(k, e).value, own)
  {
    hide Effect, KEnabled, KStep, Sum, PartOk, IsFreeList, TaskOk, Untouched, ReapMemory, T.Reap, Fixed, FileWritten,
         SameFrames, T.Step, P.OthersAfter, P.CallerAfter, T.CoreInv, Mid, T.Enabled, Spares, Balanced;
    P.CallTransition(k.sys, d.event);
    StepSwitches(k.sys, d.event);
    SameFramesNone(k, e, d, own, registered, a);
    var a' := FinishStep(k, d.event, d.mem, Fixed(own, d.files), registered, a, {});
    QuietParts(k, e, d);
    NotForked(k, e);
    CallerSpared(k, d.event, d.mem, T.Step(k.sys, d.event).value.tasks, ReapAfter(k.sys, d.event, d.mem).value.ram);
  }

  lemma NotForked(k: Kernel, e: KEvent)
    requires IsKernel(k) && KEnabled(k, e) && !e.Fork?
    ensures ContextsAfter(k, e, false) == k.contexts
  {}

  lemma CallerSpared(k: Kernel, te: T.Event, m: Mem, tasks': seq<T.Task>, ram': seq<Frame>)
    requires IsKernel(k) && T.CoreInv(k.sys) && T.Enabled(k.sys, te) && k.sys.curr != 0 && |tasks'| == T.MAX_TASKS
    requires te.OtherSyscall? || te.Open? || te.Close?
    requires Spares(Mid(k.sys, te), m.ram, ram', Gone(Mid(k.sys, te), tasks'))
    requires P.CallerAfter(Curr(k), te, tasks'[k.sys.curr])
    ensures TaskOk(m.ram, Curr(k)) && Untouched(m.ram, ram', Curr(k))
  {
    hide TaskOk, Untouched, T.FindDescriptor, Spares;
    var c, tasks := k.sys.curr, Mid(k.sys, te);
    assert T.SlotCore(Curr(k), c, c);
    CallerStill(k, te, tasks'[c]);
    assert c !in Gone(tasks, tasks') && Owns(c, tasks[c]);
    SparedOne(tasks, m.ram, ram', Gone(tasks, tasks'), c);
    SamePages(m.ram, ram', tasks[c], Curr(k));
  }

  lemma SparedOne(tasks: seq<T.Task>, ram: seq<Frame>, ram': seq<Frame>, except: set<int>, c: int)
    requires Spares(tasks, ram, ram', except) && T.IsSlot(c) && c !in except && Owns(c, tasks[c])
    ensures TaskOk(ram, tasks[c]) && Untouched(ram, ram', tasks[c])
  {
    hide TaskOk, Untouched;
  }

  lemma CallerStill(k: Kernel, te: T.Event, t': T.Task)
    requires IsKernel(k) && T.Enabled(k.sys, te) && (te.OtherSyscall? || te.Open? || te.Close?)
    requires P.CallerAfter(Curr(k), te, t')
    ensures t'.state == Curr(k).state
    ensures var t := Mid(k.sys, te)[k.sys.curr];
      t.state == Curr(k).state && t.pgdir == Curr(k).pgdir && t.kstack == Curr(k).kstack
  {
    hide T.FindDescriptor, P.Given;
    if te.Open? && te.file.Some? { P.GivenState(Curr(k), te.file.value, t'); }
  }

  lemma SamePages(ram: seq<Frame>, ram': seq<Frame>, t: T.Task, t': T.Task)
    requires TaskOk(ram, t) && Untouched(ram, ram', t) && t'.pgdir == t.pgdir && t'.kstack == t.kstack
    ensures TaskOk(ram, t') && Untouched(ram, ram', t')
  {
    hide UserSpace, SpaceFrames;
    assert TaskFrames(ram, t') == TaskFrames(ram, t);
  }

  lemma SameFramesNone(k: Kernel, e: KEvent, d: Done, own: seq<int>, registered: set<int>, a: Account)
    requires IsKernel(k) && KEnabled(k, e) && EffectDone(k, e, d, own, registered, a)
    ensures SameFrames(k.mem.ram, d.mem.ram, {})
  {
    hide Balanced, Spares, Fixed, FileWritten, KEnabled;
  }

  // ----- Writing

  /** sys_write to a file copies the caller's bytes to the file's position, which moves behind them; it panics
      exactly when they do not fit into the page. */
  lemma WriteArrives(k: Kernel, e: KEvent, own: seq<int>, registered: set<int>, a: Account)
    requires KInv(k, own, registered, a) && KEnabled(k, e) && e.Write? && WritesFile(k, e.fd)
    ensures TaskOk(k.mem.ram, Curr(k))
    ensures
      var f := FileOf(k, e.fd).value;
      var file := k.files[f];
      && Valid(file.data)
      && (KStep(k, e).Ok? <==> file.pos + e.count <= 4096)
      && (KStep(k, e).Ok? ==>
            var bytes := Unpack(k.mem.ram[UserFrame(k.mem.ram, Curr(k).pgdir.value)])[e.at..e.at + e.count];
            && KStep(k, e).value.mem.ram[file.data.value] == WriteFrame(k.mem.ram[file.data.value], file.pos, bytes)
            && KStep(k, e).value.files == k.files[f := file.(pos := file.pos + e.count)]
            && Effect(k, e).Ok? && Finished(k, Effect(k, e).value, KStep(k, e).value, own))
  {
    hide Effect, KStep, EffectDone, Fixed, FilesOk, PageZero, Unpack, UserSpace, UserFrame, WriteFrame, TaskFrames,
         Balanced, DescriptorsOk, Untouched;
    var f := FileOf(k, e.fd).value;
    CurrOwns(k, own, registered, a);
    DescriptorOpen(k, own, registered, a, e.fd);
    FilePageFixed(k, own, f);
    WriteIs(k, e);
    WriteEffect(k, own, registered, a, e);
    PageZeroIsUserFrame(k.mem.ram, Curr(k).pgdir.value);
    var a1 := StepBalanced(k, e, own, registered, a);
    if Effect(k, e).Ok? {
      var d := Effect(k, e).value;
      CallFinishes(k, e, d, own, registered, a);
      UpdateKeeps(own, k.files, f, F.Moved(k.files[f], e.count));
      assert k.files[f].data.value in Elements(Fixed(own, d.files));
    }
  }

  // ----- Reading

  /** What sys_read copies to its caller: the start of the file, or what the console has ready. */
  function Delivered(k: Kernel, e: KEvent): (bytes: seq<Byte>)
    requires IsKernel(k) && KEnabled(k, e) && e.Read? && FileOf(k, e.fd).Some?
    requires IsFile(FileOf(k, e.fd).value) ==> Valid(k.files[FileOf(k, e.fd).value].data)
    ensures e.at + |bytes| <= 4096
  {
    var f := FileOf(k, e.fd).value;
    if !IsFile(f) then AsBytes(C.ReadMany(k.console, e.count).0)
    else Unpack(k.mem.ram[k.files[f].data.value])[..F.BytesRead(k.files[f], e.count)]
  }

  /** sys_read never panics and changes in its caller's page just the buffer. */
  lemma ReadDelivers(k: Kernel, e: KEvent, own: seq<int>, registered: set<int>, a: Account)
    requires KInv(k, own, registered, a) && KEnabled(k, e) && e.Read? && FileOf(k, e.fd).Some?
    ensures KStep(k, e).Ok? && TaskOk(k.mem.ram, Curr(k))
    ensures IsOpen(k.files, FileOf(k, e.fd).value)
    ensures IsFile(FileOf(k, e.fd).value) ==> Valid(k.files[FileOf(k, e.fd).value].data)
    ensures
      var k', user := KStep(k, e).value, UserFrame(k.mem.ram, Curr(k).pgdir.value);
      && k'.sys.curr == k.sys.curr && Curr(k') == Curr(k)
      && TaskOk(k'.mem.ram, Curr(k)) && UserFrame(k'.mem.ram, Curr(k).pgdir.value) == user
      && k'.mem.ram[user] == WriteFrame(k.mem.ram[user], e.at, Delivered(k, e))
      && Effect(k, e).Ok? && Finished(k, Effect(k, e).value, k', own)
  {
    hide Effect, KStep, EffectDone, Fixed, FilesOk, PageZero, Unpack, UserSpace, UserFrame, WriteFrame, TaskFrames,
         Balanced, DescriptorsOk, Untouched, KEnabled, T.CoreInv, ToUser;
    ReadRange(k, e, own, registered, a);
    CurrOwns(k, own, registered, a);
    DescriptorOpen(k, own, registered, a, e.fd);
    ReadIs(k, e);
    ReadEffect(k, own, registered, a, e);
    var d, f := Effect(k, e).value, FileOf(k, e.fd).value;
    if IsFile(f) { FilePageFixed(k, own, f); }
    UserWriteEffect(k, e, e.at, Delivered(k, e), k.files, k.console, own, registered, a);
    ReadCopies(k, e);
    CallFinishes(k, e, d, own, registered, a);
    SpaceFacts(k.mem.ram, Curr(k).pgdir.value);
    PageKeptByWrite(k, own, registered, a, d.mem.ram[UserFrame(k.mem.ram, Curr(k).pgdir.value)]);
    UntouchedKeeps(d.mem.ram, KStep(k, e).value.mem.ram, Curr(k));
  }

  lemma ReadRange(k: Kernel, e: KEvent, own: seq<int>, registered: set<int>, a: Account)
    requires KInv(k, own, registered, a) && KEnabled(k, e) && e.Read?
    ensures IsKernel(k) && T.CoreInv(k.sys) && k.sys.curr != 0 && IsDescriptor(e.fd) && 0 <= e.at && 0 <= e.count &&
      e.at + e.count <= 4096
  {}

  lemma ReadCopies(k: Kernel, e: KEvent)
    requires IsKernel(k) && KEnabled(k, e) && e.Read? && FileOf(k, e.fd).Some? && IsOpen(k.files, FileOf(k, e.fd).value)
    requires IsFile(FileOf(k, e.fd).value) ==> Valid(k.files[FileOf(k, e.fd).value].data)
    ensures ReadFile(k, e.fd, e.at, e.count).Ok? ==>
      var d := ReadFile(k, e.fd, e.at, e.count).value;
      d.event == T.OtherSyscall && ToUser(k, e.at, Delivered(k, e)) == Ok(d.mem)
  {
    hide ToUser, C.ReadMany, Unpack;
  }

  /** A write to page 0 of the running task leaves its address space as it is. */
  lemma PageKeptByWrite(k: Kernel, own: seq<int>, registered: set<int>, a: Account, words: Frame)
    requires KInv(k, own, registered, a) && k.sys.curr != 0
    ensures TaskOk(k.mem.ram, Curr(k))
    ensures
      var user := UserFrame(k.mem.ram, Curr(k).pgdir.value);
      TaskOk(k.mem.ram[user := words], Curr(k)) && UserFrame(k.mem.ram[user := words], Curr(k).pgdir.value) == user
  {
    hide TaskFrames, UserSpace, Sum, IsFreeList, SamePaging, Fixed, UserFrame;
    var c, t := k.sys.curr, Curr(k);
    CurrOwns(k, own, registered, a);
    assert PartOk(k.mem.ram, c, t, a.parts[c]);
    SpaceFacts(k.mem.ram, t.pgdir.value);
    var user := UserFrame(k.mem.ram, t.pgdir.value);
    DataFramesArePrivate(k.sys.tasks, k.mem, Fixed(own, k.files), registered, a, c, user, k.mem.ram[user := words]);
    SamePagingSameFrames(k.mem.ram, k.mem.ram[user := words], t);
  }

  // ----- Files between writes

  /** No step of the run writes the page g of a file. */
  ghost predicate LeavesPage(k: Kernel, es: seq<KEvent>, g: int)
    requires IsKernel(k)
    decreases |es|
  {
    if es == [] || !KEnabled(k, es[0]) || KStep(k, es[0]).Panic? then true
    else g !in FileWritten(k, es[0]) && LeavesPage(KStep(k, es[0]).value, es[1..], g)
  }

  /** Files keep their names, sizes and pages in every run. */
  lemma {:induction false} RecordsPersist(k: Kernel, es: seq<KEvent>, k': Kernel, own: seq<int>, registered: set<int>,
                                          a: Account)
    requires KInv(k, own, registered, a) && KReaches(k, es, k') && FreesZeroOnce(k, es, registered)
    ensures FilesKept(k.files, k'.files)
    decreases |es|
  {
    hide KInv, KEnabled, KStep, FailsEarly, FilesOk;
    if es == [] {
      RunEnds(k, es, k', own, registered, a);
      FilesSame(k, own, registered, a);
    } else {
      var k1, a1 := RunStep(k, es, k', own, registered, a);
      RecordsPersist(k1, es[1..], k', own, After(k, es[0], registered), a1);
    }
  }

  /** A file that nobody writes keeps its contents, its name and its page in every run, whatever is forked,
      loaded, exited and opened meanwhile. */
  lemma {:induction false} FilePersists(k: Kernel, es: seq<KEvent>, k': Kernel, own: seq<int>, registered: set<int>,
                                        a: Account, f: int)
    requires KInv(k, own, registered, a) && KReaches(k, es, k') && FreesZeroOnce(k, es, registered)
    requires IsFile(f) && k.files[f].inUse && k.files[f].data.Some? && LeavesPage(k, es, k.files[f].data.value)
    ensures k'.files[f].inUse && k'.files[f].name == k.files[f].name && k'.files[f].data == k.files[f].data
    ensures Valid(k.files[f].data) && k'.mem.ram[k.files[f].data.value] == k.mem.ram[k.files[f].data.value]
    decreases |es|
  {
    hide KInv, KEnabled, KStep, FailsEarly, FileWritten;
    if es == [] {
      RunEnds(k, es, k', own, registered, a);
      FilesSame(k, own, registered, a);
      FilePageFixed(k, own, f);
    } else {
      var k1, a1 := RunStep(k, es, k', own, registered, a);
      StepKeepsFile(k, es[0], k1, own, registered, a, f);
      FilePersists(k1, es[1..], k', own, After(k, es[0], registered), a1, f);
    }
  }

  lemma StepKeepsFile(k: Kernel, e: KEvent, k1: Kernel, own: seq<int>, registered: set<int>, a: Account, f: int)
    requires KInv(k, own, registered, a) && IsKernel(k1) && KEnabled(k, e) && Stepped(k, e, k1, own)
    requires IsFile(f) && k.files[f].inUse && k.files[f].data.Some? && k.files[f].data.value !in FileWritten(k, e)
    ensures k1.files[f].inUse && k1.files[f].name == k.files[f].name && k1.files[f].data == k.files[f].data
    ensures Valid(k.files[f].data) && k1.mem.ram[k.files[f].data.value] == k.mem.ram[k.files[f].data.value]
  {
    hide Balanced, KEnabled, FileWritten, Spares, T.CoreInv, F.FilePages;
    FilePageFixed(k, own, f);
    F.PageOfFile(k.files, f, F.MAX_FILES);
    OwnedOnce(k.sys.tasks, k.mem, own, F.FilePages(k.files, F.MAX_FILES), registered, a, k.bootStack);
    assert k.files[f].data.value in F.OwnPage(k.files[f]);
  }

  lemma WriteRange(k: Kernel, e: KEvent, own: seq<int>, registered: set<int>, a: Account)
    requires KInv(k, own, registered, a) && KEnabled(k, e) && e.Write? && WritesFile(k, e.fd)
    ensures IsKernel(k) && IsDescriptor(e.fd) && 0 <= e.at && 0 <= e.count && e.at + e.count <= 4096 &&
      !FailsEarly(k, e)
    ensures k.files[FileOf(k, e.fd).value].inUse
  {}
}
