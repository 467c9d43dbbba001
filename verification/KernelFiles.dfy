/** What opening, reading and writing files does to the books of all pages, and to what is in the pages. */
module KernelFiles {
  import opened Machine
  import opened Bytes
  import opened PageAllocator
  import opened PageTable
  import opened AddressSpace
  import opened SpaceCopy
  import opened Accounts
  import opened Kernel
  import opened Conservation
  import opened KernelInv
  import C = Console
  import F = FileTable
  import T = Tasks

  /** Events of the task table that open, close or do nothing. */
  predicate FileEvent(s: T.Sys, te: T.Event)
    requires T.WellFormed(s)
  {
    T.Enabled(s, te) && (te.Open? || te.Close? || te.OtherSyscall? || te.Serial?)
  }

  /** The same file with another kind or position. */
  predicate SameFile(file: F.File, file': F.File) {
    file'.name == file.name && file'.inUse == file.inUse && file'.size == file.size && file'.data == file.data
  }

  lemma UpdateKeeps(own: seq<int>, files: seq<F.File>, f: int, file: F.File)
    requires F.IsTable(files) && IsFile(f) && SameFile(files[f], file)
    ensures Fixed(own, files[f := file]) == Fixed(own, files)
    ensures FilesOk(files) ==> FilesOk(files[f := file]) && FilesKept(files, files[f := file])
    ensures forall g :: IsOpen(files, g) ==> IsOpen(files[f := file], g)
  {
    SamePages(own, files, f, file);
  }

  /** A write to a page that the kernel keeps. */
  lemma KernelPageWrite(k: Kernel, own: seq<int>, registered: set<int>, a: Account, g: int, words: Frame)
    requires KInv(k, own, registered, a) && IsFrame(g) && g in Fixed(own, k.files)
    ensures var ram' := k.mem.ram[g := words];
      && Balanced(k.sys.tasks, Mem(ram', k.mem.head), Fixed(own, k.files), registered, a)
      && Spares(k.sys.tasks, k.mem.ram, ram', {})
      && SameFrames(k.mem.ram, ram', Elements(Fixed(own, k.files)) - {g})
  {
    hide TaskFrames, Sum, IsFreeList, Fixed;
    var tasks, fixed, ram' := k.sys.tasks, Fixed(own, k.files), k.mem.ram[g := words];
    assert T.SlotCore(tasks[0], 0, k.sys.curr);
    FixedWriteBalanced(tasks, k.mem, fixed, registered, a, g, words);
    forall j | T.IsSlot(j) && Owns(j, tasks[j])
      ensures TaskOk(k.mem.ram, tasks[j]) && Untouched(k.mem.ram, ram', tasks[j])
    {
      assert PartOk(k.mem.ram, j, tasks[j], a.parts[j]);
      FixedIsPrivate(tasks, k.mem, fixed, registered, a, j, g);
    }
  }

  /** Writing a file's page. */
  lemma FileWriteEffect(k: Kernel, e: KEvent, te: T.Event, f: int, file: F.File, words: Frame, own: seq<int>,
                        registered: set<int>, a: Account)
    requires KInv(k, own, registered, a) && KEnabled(k, e) && FileEvent(k.sys, te)
    requires IsFile(f) && k.files[f].inUse && SameFile(k.files[f], file) && PageOf(k.files[f]) == FileWritten(k, e)
    ensures Valid(k.files[f].data)
    ensures EffectDone(k, e,
                       Done(te, Mem(k.mem.ram[k.files[f].data.value := words], k.mem.head), k.files[f := file],
                            k.console),
                       own, registered, a)
  {
    hide Balanced, Spares, SameFrames, Fixed, FilesOk, Mid, FileWritten, KEnabled, T.Enabled;
    FilePageFixed(k, own, f);
    UpdateKeeps(own, k.files, f, file);
    var g := k.files[f].data.value;
    KernelPageWrite(k, own, registered, a, g, words);
    MidBalanced(k.sys, te, Mem(k.mem.ram[g := words], k.mem.head), Fixed(own, k.files), registered, a);
    MoreExcepted(k.sys.tasks, k.mem.ram, k.mem.ram[g := words], {k.sys.curr});
  }

  /** Copying to a buffer of the running task. */
  lemma UserWriteEffect(k: Kernel, e: KEvent, at: int, bytes: seq<Byte>, files: seq<F.File>, ring: C.Ring,
                        own: seq<int>, registered: set<int>, a: Account)
    requires KInv(k, own, registered, a) && KEnabled(k, e) && k.sys.curr != 0
    requires 0 <= at && at + |bytes| <= 4096 && F.IsTable(files) && C.WellFormed(ring) &&
      Fixed(own, files) == Fixed(own, k.files)
    ensures TaskOk(k.mem.ram, Curr(k)) && ToUser(k, at, bytes).Ok?
    ensures var user := UserFrame(k.mem.ram, Curr(k).pgdir.value);
      ToUser(k, at, bytes).value == Mem(k.mem.ram[user := WriteFrame(k.mem.ram[user], at, bytes)], k.mem.head)
    ensures EffectDone(k, e, Done(T.OtherSyscall, ToUser(k, at, bytes).value, files, ring), own, registered, a)
  {
    hide UserSpace, TaskFrames, Sum, UserFrame, Spares, SameFrames, PageZero, Fixed, FileWritten, KEnabled, Mid,
         WriteFrame, EffectDone;
    CurrOwns(k, own, registered, a);
    var c, t, fixed := k.sys.curr, Curr(k), Fixed(own, k.files);
    PageZeroIsUserFrame(k.mem.ram, t.pgdir.value);
    SpaceFacts(k.mem.ram, t.pgdir.value);
    var user := UserFrame(k.mem.ram, t.pgdir.value);
    var m := Mem(k.mem.ram[user := WriteFrame(k.mem.ram[user], at, bytes)], k.mem.head);
    TaskWriteBalanced(k.sys.tasks, k.mem, fixed, registered, a, c, user, m.ram[user]);
    FramesContain(k.mem.ram, t);
    WritesSpare(k.sys.tasks, k.mem, m.ram, fixed, registered, a, c, [user]);
    MidBalanced(k.sys, T.OtherSyscall, m, fixed, registered, a);
    EffectSpares(k, e, Done(T.OtherSyscall, m, files, ring), own, registered, a);
  }

  // ----- The books after each file system call

  /** An effect on the file table that loses no file. */
  ghost predicate TableKept(k: Kernel, d: Done)
    requires IsKernel(k)
  {
    && IsDone(d) && FilesOk(d.files) && FilesKept(k.files, d.files)
    && (d.event.Open? && d.event.file.Some? ==> IsOpen(d.files, d.event.file.value))
  }

  lemma ReadIs(k: Kernel, e: KEvent)
    requires IsKernel(k) && KEnabled(k, e) && e.Read?
    ensures Effect(k, e) == ReadFile(k, e.fd, e.at, e.count)
  {}

  lemma WriteIs(k: Kernel, e: KEvent)
    requires IsKernel(k) && KEnabled(k, e) && e.Write?
    ensures Effect(k, e) == WriteFile(k, e.fd, e.at, e.count)
  {}

  lemma OpenIs(k: Kernel, e: KEvent)
    requires IsKernel(k) && KEnabled(k, e) && e.Open?
    ensures Effect(k, e) == OpenFile(k, e.path, e.flags)
  {}

  /** A descriptor leads to the console or to a file in use. */
  lemma DescriptorOpen(k: Kernel, own: seq<int>, registered: set<int>, a: Account, fd: int)
    requires KInv(k, own, registered, a) && IsDescriptor(fd)
    ensures FileOf(k, fd).Some? ==> IsOpen(k.files, FileOf(k, fd).value)
  {}

  lemma FilesSame(k: Kernel, own: seq<int>, registered: set<int>, a: Account)
    requires KInv(k, own, registered, a)
    ensures FilesOk(k.files) && FilesKept(k.files, k.files) && F.IsTable(k.files) && IsKernel(k)
  {}

  lemma ReadEffect(k: Kernel, own: seq<int>, registered: set<int>, a: Account, e: KEvent)
    requires KInv(k, own, registered, a) && KEnabled(k, e) && e.Read?
    ensures Effect(k, e).Ok? && EffectDone(k, e, Effect(k, e).value, own, registered, a) &&
      TableKept(k, Effect(k, e).value)
  {
    hide Effect, KInv, EffectDone, Fixed, FilesOk, FilesKept, ToUser, Unpack, UserSpace, UserFrame, C.ReadMany;
    FilesSame(k, own, registered, a);
    ReadIs(k, e);
    DescriptorOpen(k, own, registered, a, e.fd);
    match FileOf(k, e.fd)
    case None => QuietEffect(k, e, Quiet(k, T.OtherSyscall), own, registered, a);
    case Some(f) =>
      if f == F.CONSOLE {
        var (chars, ring) := C.ReadMany(k.console, e.count);
        UserWriteEffect(k, e, e.at, AsBytes(chars), k.files, ring, own, registered, a);
      } else {
        FilePageFixed(k, own, f);
        var n := F.BytesRead(k.files[f], e.count);
        UpdateKeeps(own, k.files, f, F.Moved(k.files[f], n));
        UserWriteEffect(k, e, e.at, Unpack(k.mem.ram[k.files[f].data.value])[..n],
                        k.files[f := F.Moved(k.files[f], n)], k.console,
                        own, registered, a);
      }
  }

  lemma WriteEffect(k: Kernel, own: seq<int>, registered: set<int>, a: Account, e: KEvent)
    requires KInv(k, own, registered, a) && KEnabled(k, e) && e.Write?
    ensures Effect(k, e).Panic? <==> WritesFile(k, e.fd) && k.files[FileOf(k, e.fd).value].pos + e.count > 4096
    ensures Effect(k, e).Ok? ==>
      EffectDone(k, e, Effect(k, e).value, own, registered, a) && TableKept(k, Effect(k, e).value)
  {
    hide Effect, KInv, EffectDone, Fixed, FilesOk, FilesKept, PageZero, Unpack, UserSpace, UserFrame, WriteFrame,
         TaskFrames;
    FilesSame(k, own, registered, a);
    WriteIs(k, e);
    DescriptorOpen(k, own, registered, a, e.fd);
    if WritesFile(k, e.fd) {
      var f := FileOf(k, e.fd).value;
      var file := k.files[f];
      FilePageFixed(k, own, f);
      CurrOwns(k, own, registered, a);
      PageZeroIsUserFrame(k.mem.ram, Curr(k).pgdir.value);
      if file.pos + e.count <= 4096 {
        var user := UserFrame(k.mem.ram, Curr(k).pgdir.value);
        var words := WriteFrame(k.mem.ram[file.data.value], file.pos, Unpack(k.mem.ram[user])[e.at..e.at + e.count]);
        UpdateKeeps(own, k.files, f, F.Moved(file, e.count));
        FileWriteEffect(k, e, T.OtherSyscall, f, F.Moved(file, e.count), words, own, registered, a);
      }
    } else {
      QuietEffect(k, e, Quiet(k, T.OtherSyscall), own, registered, a);
    }
  }

  /** Files have a page: also the ones that a path finds. */
  lemma FoundInUse(files: seq<F.File>, path: seq<Byte>)
    requires F.IsTable(files) && FilesOk(files)
    ensures F.GetFile(files, path).Some? ==>
      files[F.GetFile(files, path).value].inUse && Valid(files[F.GetFile(files, path).value].data)
  {}

  /** What sys_open does when it makes no file. */
  lemma OpenedOld(files: seq<F.File>, m: Mem, path: seq<Byte>, flags: int)
    requires F.IsTable(files) && WellFormed(m) && FilesOk(files) && !F.MakesFile(files, path, flags)
    ensures F.OpenFile(files, m, path, flags) ==
      if path == F.CONSOLE_NAME then Ok(F.Opened(Some(F.CONSOLE), files, m)) else
      match F.GetFile(files, path)
      case None => Ok(F.Opened(None, files, m))
      case Some(f) =>
        if flags == F.O_RDONLY then Ok(F.Opened(Some(f), files[f := files[f].(pos := 0)], m))
        else if flags != F.O_WRONLY && flags != F.O_RDWR then Ok(F.Opened(None, files, m))
        else Ok(F.Opened(Some(f), files[f := files[f].(kind := F.Regular, pos := 0)],
                         Mem(WriteWord(m.ram, files[f].data.value, 0, 0), m.head)))
  {
    FoundInUse(files, path);
  }

  lemma OpenOldEffect(k: Kernel, own: seq<int>, registered: set<int>, a: Account, e: KEvent)
    requires KInv(k, own, registered, a) && KEnabled(k, e) && e.Open? && !F.MakesFile(k.files, e.path, e.flags)
    ensures Effect(k, e).Ok? && EffectDone(k, e, Effect(k, e).value, own, registered, a) &&
      TableKept(k, Effect(k, e).value)
  {
    hide Effect, KInv, KEnabled, EffectDone, Fixed, FilesOk, FilesKept, F.GetFile, F.OpenFile, F.MakesFile, WriteWord;
    FilesSame(k, own, registered, a);
    OpenIs(k, e);
    OpenedOld(k.files, k.mem, e.path, e.flags);
    OpenWrites(k, e);
    var d := Effect(k, e).value;
    match F.GetFile(k.files, e.path) {
      case None => QuietEffect(k, e, d, own, registered, a);
      case Some(f) =>
        FoundInUse(k.files, e.path);
        if e.path == F.CONSOLE_NAME || (e.flags != F.O_RDONLY && e.flags != F.O_WRONLY && e.flags != F.O_RDWR) {
          QuietEffect(k, e, d, own, registered, a);
        } else if e.flags == F.O_RDONLY {
          UpdateKeeps(own, k.files, f, k.files[f].(pos := 0));
          QuietEffect(k, e, d, own, registered, a);
        } else {
          var file := k.files[f].(kind := F.Regular, pos := 0);
          UpdateKeeps(own, k.files, f, file);
          WordIsFrame(k.mem, k.files[f].data.value);
          FileWriteEffect(k, e, d.event, f, file, k.mem.ram[k.files[f].data.value][0 := 0], own, registered, a);
        }
    }
  }

  lemma WordIsFrame(m: Mem, g: int)
    requires WellFormed(m) && IsFrame(g)
    ensures WriteWord(m.ram, g, 0, 0) == m.ram[g := m.ram[g][0 := 0]]
  {}

  lemma OpenWrites(k: Kernel, e: KEvent)
    requires IsKernel(k) && KEnabled(k, e) && e.Open? && !F.MakesFile(k.files, e.path, e.flags)
    ensures Effect(k, e).Ok? ==> Effect(k, e).value.event.Open? && T.Enabled(k.sys, Effect(k, e).value.event)
    ensures e.path != F.CONSOLE_NAME && (e.flags == F.O_WRONLY || e.flags == F.O_RDWR) ==>
      F.GetFile(k.files, e.path).Some? ==> FileWritten(k, e) == PageOf(k.files[F.GetFile(k.files, e.path).value])
  {
    hide F.GetFile, F.OpenFile, F.MakesFile;
  }

  // ----- A new file

  /** What sys_open does when it makes a file: the first free page becomes the file's. */
  lemma OpenedNew(files: seq<F.File>, m: Mem, free: seq<int>, path: seq<Byte>, flags: int)
    requires F.IsTable(files) && IsFreeList(m, free) && F.MakesFile(files, path, flags)
    ensures F.OpenFile(files, m, path, flags).Panic? <==> free == []
    ensures free != [] ==>
      var o := F.OpenFile(files, m, path, flags).value;
      var f := F.FindSlot(files, 0);
      && IsFile(f) && !files[f].inUse
      && o.file == Some(f) && o.files == files[f := o.files[f]]
      && o.files[f].inUse && o.files[f].name == path && o.files[f].data == Some(free[0])
      && |o.mem.ram| == RAM_FRAMES && o.mem.ram == m.ram[free[0] := o.mem.ram[free[0]]]
      && IsFreeList(o.mem, free[1..])
  {
    hide Kmalloc, WriteFrame, F.GetFile, F.RootListing;
    KmallocPops(m, free);
    if free != [] {
      var o := F.OpenFile(files, m, path, flags).value;
      var m1 := Kmalloc(m).value.1;
      assert free[0] !in free[1..];
      FreeListFrame(m1, free[1..], m1.ram[free[0] := o.mem.ram[free[0]]]);
      assert o.mem.ram == m.ram[free[0] := o.mem.ram[free[0]]];
    }
  }

  lemma OpenNewEffect(k: Kernel, own: seq<int>, registered: set<int>, a: Account, e: KEvent) returns (a': Account)
    requires KInv(k, own, registered, a) && KEnabled(k, e) && e.Open? && F.MakesFile(k.files, e.path, e.flags)
    ensures Effect(k, e).Panic? <==> a.free == []
    ensures Effect(k, e).Ok? ==>
      EffectDone(k, e, Effect(k, e).value, own, registered, a') && TableKept(k, Effect(k, e).value)
  {
    hide Effect, KEnabled, EffectDone, Fixed, F.OpenFile, F.MakesFile, F.FindSlot, Balanced, IsFreeList, Spares,
         SameFrames;
    OpenIs(k, e);
    BooksList(k.sys.tasks, k.mem, Fixed(own, k.files), registered, a);
    OpenedNew(k.files, k.mem, a.free, e.path, e.flags);
    a' := Account(if a.free == [] then [] else a.free[1..], a.parts);
    if a.free != [] {
      var d := Effect(k, e).value;
      var f := F.FindSlot(k.files, 0);
      NewFileBalanced(k, own, registered, a, d.files, d.mem, f);
      MidBalanced(k.sys, d.event, d.mem, Fixed(own, d.files), registered, a');
      CurrOwnsWhen(k, own, registered, a, e);
      assert WritesOnly(k.mem.ram, d.mem.ram, [a.free[0]]);
      WritesSpare(k.sys.tasks, k.mem, d.mem.ram, Fixed(own, k.files), registered, a, k.sys.curr, [a.free[0]]);
      EffectSpares(k, e, d, own, registered, a');
    }
  }

  lemma CurrOwnsWhen(k: Kernel, own: seq<int>, registered: set<int>, a: Account, e: KEvent)
    requires KInv(k, own, registered, a) && KEnabled(k, e) && e.Open?
    ensures k.sys.curr != 0 && Owns(k.sys.curr, Curr(k)) && TaskOk(k.mem.ram, Curr(k))
  {
    CurrOwns(k, own, registered, a);
  }

  /** The first free page moves to the pages of the files. */
  lemma NewFileBalanced(k: Kernel, own: seq<int>, registered: set<int>, a: Account, files: seq<F.File>, m: Mem, f: int)
    requires KInv(k, own, registered, a) && a.free != [] && IsFile(f) && !k.files[f].inUse
    requires F.IsTable(files) && files == k.files[f := files[f]] && files[f].inUse && files[f].data == Some(a.free[0])
    requires |m.ram| == RAM_FRAMES && m.ram == k.mem.ram[a.free[0] := m.ram[a.free[0]]] && IsFreeList(m, a.free[1..])
    ensures Balanced(k.sys.tasks, m, Fixed(own, files), registered, Account(a.free[1..], a.parts))
  {
    hide Balanced, IsFreeList, Fixed, T.CoreInv;
    SchedulerOwnsNothing(k.sys);
    FixedGrows(own, k.files, files, f, a.free[0]);
    PageKept(k.sys.tasks, k.mem, m, Fixed(own, k.files), Fixed(own, files), registered, a);
  }

  lemma SchedulerOwnsNothing(s: T.Sys)
    requires T.CoreInv(s)
    ensures !Owns(0, s.tasks[0])
  {}

  lemma FixedGrows(own: seq<int>, files: seq<F.File>, files': seq<F.File>, f: int, page: int)
    requires F.IsTable(files) && IsFile(f) && !files[f].inUse
    requires F.IsTable(files') && files' == files[f := files'[f]] && files'[f].inUse && files'[f].data == Some(page)
    ensures multiset(Fixed(own, files')) == multiset(Fixed(own, files)) + multiset([page])
  {
    hide F.FilePages;
    F.OneMorePage(files, f, files'[f], F.MAX_FILES);
    Added(own, F.FilePages(files, F.MAX_FILES), F.FilePages(files', F.MAX_FILES), page);
  }

  lemma Added(own: seq<int>, pages: seq<int>, pages': seq<int>, page: int)
    requires multiset(pages') == multiset(pages) + multiset([page])
    ensures multiset(own + pages') == multiset(own + pages) + multiset([page])
  {}

  // ----- wakeup_parent of a file

  lemma WakeKeeps(own: seq<int>, files: seq<F.File>, parent: Option<int>)
    requires F.IsTable(files)
    ensures Fixed(own, WakeFile(files, parent)) == Fixed(own, files)
    ensures FilesOk(files) ==> FilesOk(WakeFile(files, parent)) && FilesKept(files, WakeFile(files, parent))
    ensures forall g :: IsOpen(files, g) ==> IsOpen(WakeFile(files, parent), g)
  {
    if parent.Some? && IsFile(parent.value - T.MAX_TASKS) {
      var f := parent.value - T.MAX_TASKS;
      UpdateKeeps(own, files, f, files[f].(pos := 3));
    }
  }
}
