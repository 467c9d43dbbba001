/** What every step of the kernel keeps: a consistent task table, one owner for every page, and descriptors that
    lead to files. */
module KernelInv {
  import opened Machine
  import opened Bytes
  import opened PageAllocator
  import opened AddressSpace
  import opened SpaceCopy
  import opened Accounts
  import opened Context
  import opened Kernel
  import opened Conservation
  import C = Console
  import Elf
  import F = FileTable
  import T = Tasks
  import U = UserStack
  import S = Scheduling

  // ----- Pages left alone

  ghost predicate Untouched(ram: seq<Frame>, ram': seq<Frame>, t: T.Task)
    requires TaskOk(ram, t)
  {
    && |ram'| == RAM_FRAMES
    && forall f :: IsFrame(f) && f in TaskFrames(ram, t) ==> ram'[f] == ram[f]
  }

  /** Every owner but those in `except` finds all of its 260 pages as they were. */
  ghost predicate Spares(tasks: seq<T.Task>, ram: seq<Frame>, ram': seq<Frame>, except: set<int>) {
    && |tasks| == T.MAX_TASKS
    && forall j :: T.IsSlot(j) && j !in except && Owns(j, tasks[j]) ==>
      TaskOk(ram, tasks[j]) && Untouched(ram, ram', tasks[j])
  }

  ghost predicate SameFrames(ram: seq<Frame>, ram': seq<Frame>, fs: set<int>) {
    && |ram| == |ram'| == RAM_FRAMES
    && forall f :: f in fs && IsFrame(f) ==> ram'[f] == ram[f]
  }

  lemma UntouchedKeeps(ram: seq<Frame>, ram': seq<Frame>, t: T.Task)
    requires TaskOk(ram, t) && Untouched(ram, ram', t)
    ensures TaskOk(ram', t) && TaskFrames(ram', t) == TaskFrames(ram, t)
    ensures UserFrame(ram', t.pgdir.value) == UserFrame(ram, t.pgdir.value)
    ensures ram'[t.kstack.value] == ram[t.kstack.value]
    ensures ram'[UserFrame(ram, t.pgdir.value)] == ram[UserFrame(ram, t.pgdir.value)]
  {
    hide TablesBelow, SpaceFrames;
    FramesContain(ram, t);
    SamePagingSameFrames(ram, ram', t);
  }

  lemma UntouchedTwice(ram: seq<Frame>, ram1: seq<Frame>, ram2: seq<Frame>, t: T.Task, t1: T.Task)
    requires TaskOk(ram, t) && Untouched(ram, ram1, t)
    requires t1.pgdir == t.pgdir && t1.kstack == t.kstack
    requires TaskOk(ram1, t1) && Untouched(ram1, ram2, t1)
    ensures Untouched(ram, ram2, t)
  {
    hide TablesBelow, SpaceFrames;
    UntouchedKeeps(ram, ram1, t);
    assert TaskFrames(ram1, t1) == TaskFrames(ram1, t);
  }

  /** Two phases in a row. */
  lemma SparesTwice(tasks: seq<T.Task>, tasks1: seq<T.Task>, ram: seq<Frame>, ram1: seq<Frame>, ram2: seq<Frame>,
                    e: set<int>, e1: set<int>)
    requires Spares(tasks, ram, ram1, e) && Spares(tasks1, ram1, ram2, e1)
    requires forall j :: T.IsSlot(j) && j !in e && Owns(j, tasks[j]) ==> SameOwner(tasks[j], tasks1[j], j)
    ensures Spares(tasks, ram, ram2, e + e1)
  {
    hide TaskOk, Untouched;
    forall j | T.IsSlot(j) && j !in e + e1 && Owns(j, tasks[j])
      ensures TaskOk(ram, tasks[j]) && Untouched(ram, ram2, tasks[j])
    {
      assert SameOwner(tasks[j], tasks1[j], j);
      UntouchedTwice(ram, ram1, ram2, tasks[j], tasks1[j]);
    }
  }

  /** Writes to free pages and to pages of task c spare everybody else and the fixed pages. */
  lemma WritesSpare(tasks: seq<T.Task>, m: Mem, ram': seq<Frame>, fixed: seq<int>, registered: set<int>, a: Account,
                    c: int, written: seq<int>)
    requires Balanced(tasks, m, fixed, registered, a) && WritesOnly(m.ram, ram', written)
    requires T.IsSlot(c) && Owns(c, tasks[c]) && TaskOk(m.ram, tasks[c])
    requires forall f :: f in written ==> f in a.free || f in TaskFrames(m.ram, tasks[c])
    ensures Spares(tasks, m.ram, ram', {c})
    ensures SameFrames(m.ram, ram', Elements(fixed))
  {
    hide TaskFrames, IsFreeList, Sum;
    forall j | T.IsSlot(j) && j != c && Owns(j, tasks[j])
      ensures TaskOk(m.ram, tasks[j]) && Untouched(m.ram, ram', tasks[j])
    {
      assert PartOk(m.ram, j, tasks[j], a.parts[j]);
      forall f | IsFrame(f) && f in TaskFrames(m.ram, tasks[j]) ensures ram'[f] == m.ram[f] {
        OneOwner(tasks, m, fixed, registered, a, j, f);
      }
    }
    forall f | f in fixed && IsFrame(f) ensures ram'[f] == m.ram[f] {
      FixedIsPrivate(tasks, m, fixed, registered, a, c, f);
    }
  }

  lemma FixedIsPrivate(tasks: seq<T.Task>, m: Mem, fixed: seq<int>, registered: set<int>, a: Account, c: int, f: int)
    requires Balanced(tasks, m, fixed, registered, a) && f in fixed
    requires T.IsSlot(c) && Owns(c, tasks[c]) && TaskOk(m.ram, tasks[c])
    ensures f !in a.free && f !in TaskFrames(m.ram, tasks[c])
  {
    hide TaskFrames, IsFreeList;
    if f in TaskFrames(m.ram, tasks[c]) {
      OneOwner(tasks, m, fixed, registered, a, c, f);
    }
    SetMultiplicity(registered, f);
    var total := multiset(a.free) + multiset(fixed) + Sum(a.parts);
    assert f in multiset(fixed);
    assert f !in multiset(a.free);
  }

  // ----- The reaper

  /** The slots below n after the loop of kill_off_zombies has passed them. */
  function Reaped(tasks: seq<T.Task>, p: int, n: int): (r: seq<T.Task>)
    requires |tasks| == T.MAX_TASKS
    ensures |r| == T.MAX_TASKS
  {
    seq(1024, i requires 0 <= i < 1024 => if i < n && T.Reapable(tasks[i], p) then T.FREE_TASK else tasks[i])
  }

  ghost function ReapSet(tasks: seq<T.Task>, p: int): set<int>
    requires |tasks| == T.MAX_TASKS
  {
    set i | 0 <= i < T.MAX_TASKS && T.Reapable(tasks[i], p)
  }

  /** What the reaper leaves: balanced books, more free pages, and all other tasks' pages as they were. */
  ghost predicate ReapDone(tasks: seq<T.Task>, tasks': seq<T.Task>, m: Mem, m': Mem, fixed: seq<int>,
                           registered: set<int>, a: Account, a': Account, p: int)
    requires |tasks| == T.MAX_TASKS
  {
    && Balanced(tasks', m', fixed, registered, a')
    && Spares(tasks, m.ram, m'.ram, ReapSet(tasks, p))
    && SameFrames(m.ram, m'.ram, Elements(fixed))
    && (forall f :: f in a.free ==> f in a'.free)
  }

  lemma SparesSame(tasks: seq<T.Task>, m: Mem, fixed: seq<int>, registered: set<int>, a: Account, e: set<int>)
    requires Balanced(tasks, m, fixed, registered, a)
    ensures Spares(tasks, m.ram, m.ram, e)
  {
    hide TaskOk;
    forall j | T.IsSlot(j) && j !in e && Owns(j, tasks[j])
      ensures TaskOk(m.ram, tasks[j]) && Untouched(m.ram, m.ram, tasks[j])
    {
      assert PartOk(m.ram, j, tasks[j], a.parts[j]);
    }
  }

  lemma {:induction false} ReapLoopBalanced(tasks: seq<T.Task>, p: int, m: Mem, fixed: seq<int>,
                                            registered: set<int>, a: Account, n: nat) returns (a': Account)
    requires Balanced(tasks, m, fixed, registered, a) && n <= T.MAX_TASKS
    requires !T.Reapable(tasks[0], p)
    ensures ReapLoop(tasks, p, m, n).Ok?
    ensures ReapDone(tasks, Reaped(tasks, p, n), m, ReapLoop(tasks, p, m, n).value, fixed, registered, a, a', p)
  {
    hide PartOk, Sum, DestroyTaskMemory, Spares, SameFrames, Reaped;
    if n == 0 {
      a' := a;
      NothingReaped(tasks, p);
      SparesSame(tasks, m, fixed, registered, a, ReapSet(tasks, p));
      SameFramesSame(m, tasks, fixed, registered, a);
    } else {
      a' := ReapLoopBalanced(tasks, p, m, fixed, registered, a, n - 1);
      var m1 := ReapLoop(tasks, p, m, n - 1).value;
      if T.Reapable(tasks[n - 1], p) {
        a' := ReapOne(tasks, p, m, m1, fixed, registered, a, a', n);
      } else {
        ReapSkips(tasks, p, n);
      }
    }
  }

  lemma NothingReaped(tasks: seq<T.Task>, p: int)
    requires |tasks| == T.MAX_TASKS
    ensures Reaped(tasks, p, 0) == tasks
  {}

  lemma SameFramesSame(m: Mem, tasks: seq<T.Task>, fixed: seq<int>, registered: set<int>, a: Account)
    requires Balanced(tasks, m, fixed, registered, a)
    ensures SameFrames(m.ram, m.ram, Elements(fixed))
  {}

  lemma ReapSkips(tasks: seq<T.Task>, p: int, n: nat)
    requires |tasks| == T.MAX_TASKS && 0 < n <= T.MAX_TASKS && !T.Reapable(tasks[n - 1], p)
    ensures Reaped(tasks, p, n) == Reaped(tasks, p, n - 1)
  {}

  lemma ReapTakes(tasks: seq<T.Task>, p: int, n: nat)
    requires |tasks| == T.MAX_TASKS && 0 < n <= T.MAX_TASKS && T.Reapable(tasks[n - 1], p)
    ensures Reaped(tasks, p, n) == Reaped(tasks, p, n - 1)[n - 1 := T.FREE_TASK]
    ensures Reaped(tasks, p, n - 1)[n - 1] == tasks[n - 1]
    ensures forall j :: T.IsSlot(j) && j !in ReapSet(tasks, p) ==> Reaped(tasks, p, n - 1)[j] == tasks[j]
  {}

  lemma ReapOne(tasks: seq<T.Task>, p: int, m: Mem, m1: Mem, fixed: seq<int>, registered: set<int>, a: Account,
                a1: Account, n: nat) returns (a': Account)
    requires |tasks| == T.MAX_TASKS && 0 < n <= T.MAX_TASKS && T.Reapable(tasks[n - 1], p) && !T.Reapable(tasks[0], p)
    requires ReapDone(tasks, Reaped(tasks, p, n - 1), m, m1, fixed, registered, a, a1, p)
    ensures WellFormed(m1) && DestroyTaskMemory(m1, tasks[n - 1]).Ok?
    ensures ReapDone(tasks, Reaped(tasks, p, n), m, DestroyTaskMemory(m1, tasks[n - 1]).value, fixed, registered, a,
                     a', p)
  {
    hide DestroyTaskMemory, Reaped, TaskOk, Sum, PartOk, Untouched, WritesOnly;
    var before := Reaped(tasks, p, n - 1);
    ReapTakes(tasks, p, n);
    a' := DestroyTaskBalanced(before, m1, fixed, registered, a1, n - 1);
    var m' := DestroyTaskMemory(m1, tasks[n - 1]).value;
    WritesSpare(before, m1, m'.ram, fixed, registered, a1, n - 1, TaskFrames(m1.ram, tasks[n - 1]));
    SparesTwice(tasks, before, m.ram, m1.ram, m'.ram, ReapSet(tasks, p), {n - 1});
    assert ReapSet(tasks, p) + {n - 1} == ReapSet(tasks, p);
  }

  /** The slots whose task is gone. */
  ghost function Gone(tasks: seq<T.Task>, tasks': seq<T.Task>): set<int>
    requires |tasks| == |tasks'| == T.MAX_TASKS
  {
    set i | 0 <= i < T.MAX_TASKS && Owns(i, tasks[i]) && !Owns(i, tasks'[i])
  }

  /** kill_off_zombies never panics, keeps the books balanced and spares every task it does not reap. */
  lemma ReapBalanced(s: T.Sys, m: Mem, fixed: seq<int>, registered: set<int>, a: Account) returns (a': Account)
    requires T.WellFormed(s) && Balanced(s.tasks, m, fixed, registered, a) && s.tasks[0].state != T.Zombie
    ensures ReapMemory(s, m).Ok?
    ensures var m' := ReapMemory(s, m).value;
      && Balanced(T.Reap(s).tasks, m', fixed, registered, a')
      && Spares(s.tasks, m.ram, m'.ram, Gone(s.tasks, T.Reap(s).tasks))
      && SameFrames(m.ram, m'.ram, Elements(fixed))
      && (forall f :: f in a.free ==> f in a'.free)
  {
    hide Balanced, ReapLoop, Spares, SameFrames;
    if !s.zombies || s.tasks[s.curr].state == T.Sleeping {
      a' := a;
      SparesSame(s.tasks, m, fixed, registered, a, Gone(s.tasks, T.Reap(s).tasks));
      SameFramesSame(m, s.tasks, fixed, registered, a);
    } else {
      a' := ReapLoopBalanced(s.tasks, s.curr, m, fixed, registered, a, 1024);
      assert T.Reap(s).tasks == Reaped(s.tasks, s.curr, 1024);
      assert Gone(s.tasks, T.Reap(s).tasks) == ReapSet(s.tasks, s.curr);
    }
  }

  lemma MoreExcepted(tasks: seq<T.Task>, ram: seq<Frame>, ram': seq<Frame>, except: set<int>)
    requires Spares(tasks, ram, ram', {})
    ensures Spares(tasks, ram, ram', except)
  {
    hide TaskOk, Untouched;
  }

  // ----- The invariant of the whole kernel

  /** Live tasks that do not run have a saved context on their stack. */
  ghost predicate ContextsOk(k: Kernel)
    requires IsKernel(k)
  {
    forall i :: T.IsSlot(i) && i != k.sys.curr && T.Live(k.sys.tasks[i]) ==> 0 <= k.contexts[i] <= 1015
  }

  /** Files have a page, and only files have a name. */
  ghost predicate FilesOk(files: seq<F.File>)
    requires F.IsTable(files)
  {
    forall f :: 0 <= f < F.MAX_FILES ==>
      (files[f].inUse ==> Valid(files[f].data)) && (files[f].name != [] ==> files[f].inUse)
  }

  /** The console, or a file in use. */
  predicate IsOpen(files: seq<F.File>, f: int)
    requires F.IsTable(files)
  {
    f == F.CONSOLE || (IsFile(f) && files[f].inUse)
  }

  ghost predicate DescriptorsOk(tasks: seq<T.Task>, files: seq<F.File>)
    requires F.IsTable(files)
  {
    forall i, fd :: 0 <= i < |tasks| && 0 <= fd < |tasks[i].openFiles| && tasks[i].openFiles[fd].Some? ==>
      IsOpen(files, tasks[i].openFiles[fd].value)
  }

  /** The pages that the kernel keeps: its own, taken at boot, and those of the files. */
  function Fixed(own: seq<int>, files: seq<F.File>): seq<int>
    requires F.IsTable(files)
  {
    own + F.FilePages(files, F.MAX_FILES)
  }

  /** The task table is consistent, every page has exactly one owner, whoever is switched out can be switched in,
      and descriptors lead to files. */
  ghost predicate KInv(k: Kernel, own: seq<int>, registered: set<int>, a: Account) {
    && IsKernel(k)
    && T.CoreInv(k.sys)
    && Balanced(k.sys.tasks, k.mem, Fixed(own, k.files), registered, a)
    && k.bootStack in own
    && ContextsOk(k)
    && FilesOk(k.files)
    && DescriptorsOk(k.sys.tasks, k.files)
  }

  /** The failures of sys_execv that tear down a space without a program in it. */
  predicate FailsEarly(k: Kernel, e: KEvent)
    requires IsKernel(k)
  {
    e.Execv? && (var image := Find(k.files, k.mem, e.path); image.NoFile? || image.NotElf?)
  }

  /** How many free pages a step needs. */
  function PagesNeeded(k: Kernel, e: KEvent): nat
    requires IsKernel(k)
  {
    match e
    case Fork => 260
    case Execv(_, _) => if FailsEarly(k, e) then 258 else 259
    case Open(path, flags) => if F.MakesFile(k.files, path, flags) then 1 else 0
    case _ => 0
  }

  /** What a step panics on: init exits and still has no parent, too few pages are free, a byte arrives on a full
      ring, a write goes past the page of its file. */
  predicate Panics(k: Kernel, e: KEvent, free: nat)
    requires IsKernel(k) && KEnabled(k, e)
  {
    || (e.Exit? && k.sys.curr == 1 && Curr(k).parent == None)
    || free < PagesNeeded(k, e)
    || (e.Serial? && e.ch != C.DEL && k.console.editLen == C.MAX_BUF)
    || (e.Write? && WritesFile(k, e.fd) && k.files[FileOf(k, e.fd).value].pos + e.count > 4096)
  }

  /** The page of a file that a step writes: of one that is written, or that is opened for writing. */
  function FileWritten(k: Kernel, e: KEvent): (pages: set<int>)
    requires IsKernel(k) && KEnabled(k, e)
  {
    match e
    case Write(fd, _, _) => if WritesFile(k, fd) then PageOf(k.files[FileOf(k, fd).value]) else {}
    case Open(path, flags) =>
      if path == F.CONSOLE_NAME then {} else
      (match F.GetFile(k.files, path)
       case Some(f) => if flags == F.O_WRONLY || flags == F.O_RDWR then PageOf(k.files[f]) else {}
       case None => {})
    case _ => {}
  }

  function PageOf(file: F.File): set<int> {
    if file.data.Some? then {file.data.value} else {}
  }

  /** Files keep their names, their sizes and their pages. */
  ghost predicate FilesKept(files: seq<F.File>, files': seq<F.File>)
    requires F.IsTable(files) && F.IsTable(files')
  {
    forall f :: 0 <= f < F.MAX_FILES && files[f].inUse ==>
      && files'[f].inUse && files'[f].name == files[f].name && files'[f].size == files[f].size
      && files'[f].data == files[f].data
  }

  // ----- The effect of a step before any switch

  /** The task table when the reaper, if any, looks at it. */
  function Mid(s: T.Sys, te: T.Event): (tasks: seq<T.Task>)
    requires T.WellFormed(s) && T.Enabled(s, te)
    ensures |tasks| == T.MAX_TASKS
  {
    match ReapPoint(s, te) case None => s.tasks case Some(s1) => s1.tasks
  }

  ghost predicate EffectDone(k: Kernel, e: KEvent, d: Done, own: seq<int>, registered: set<int>, a: Account)
    requires IsKernel(k) && KEnabled(k, e)
  {
    && IsDone(d) && T.Enabled(k.sys, d.event)
    && Balanced(Mid(k.sys, d.event), d.mem, Fixed(own, d.files), registered, a)
    && Spares(k.sys.tasks, k.mem.ram, d.mem.ram, {k.sys.curr})
    && SameFrames(k.mem.ram, d.mem.ram, Elements(Fixed(own, k.files)) - FileWritten(k, e))
  }

  /** An effect that leaves all pages of the kernel alone. */
  lemma EffectSpares(k: Kernel, e: KEvent, d: Done, own: seq<int>, registered: set<int>, a: Account)
    requires IsKernel(k) && KEnabled(k, e) && IsDone(d) && T.Enabled(k.sys, d.event)
    requires Balanced(Mid(k.sys, d.event), d.mem, Fixed(own, d.files), registered, a)
    requires Spares(k.sys.tasks, k.mem.ram, d.mem.ram, {k.sys.curr})
    requires SameFrames(k.mem.ram, d.mem.ram, Elements(Fixed(own, k.files)))
    ensures EffectDone(k, e, d, own, registered, a)
  {
    hide KEnabled, T.Enabled, Balanced, Spares, Fixed, FileWritten, Mid;
  }

  lemma BalancedSameOwner(tasks: seq<T.Task>, tasks': seq<T.Task>, m: Mem, fixed: seq<int>, registered: set<int>,
                          a: Account)
    requires Balanced(tasks, m, fixed, registered, a) && |tasks'| == T.MAX_TASKS
    requires forall j :: T.IsSlot(j) ==> SameOwner(tasks[j], tasks'[j], j)
    ensures Balanced(tasks', m, fixed, registered, a)
  {
    forall j | 0 <= j < T.MAX_TASKS ensures PartOk(m.ram, j, tasks'[j], a.parts[j]) {
      assert SameOwner(tasks[j], tasks'[j], j) && PartOk(m.ram, j, tasks[j], a.parts[j]);
      assert Owns(j, tasks[j]) ==> TaskFrames(m.ram, tasks'[j]) == TaskFrames(m.ram, tasks[j]);
    }
  }

  /** The running task owns its pages. */
  lemma CurrOwns(k: Kernel, own: seq<int>, registered: set<int>, a: Account)
    requires KInv(k, own, registered, a) && k.sys.curr != 0
    ensures Owns(k.sys.curr, Curr(k)) && TaskOk(k.mem.ram, Curr(k))
    ensures IsFrame(Curr(k).kstack.value) && IsFrame(Curr(k).pgdir.value)
    ensures SeparateTask(k.mem.ram, Curr(k), a.free)
    ensures k.sys.tasks[0].state != T.Zombie
  {
    hide TaskFrames, Sum;
    var c := k.sys.curr;
    assert T.SlotCore(Curr(k), c, c) && T.SlotCore(k.sys.tasks[0], 0, c);
    assert PartOk(k.mem.ram, c, Curr(k), a.parts[c]);
    forall f | f in TaskFrames(k.mem.ram, Curr(k)) ensures f !in a.free {
      OneOwner(k.sys.tasks, k.mem, Fixed(own, k.files), registered, a, c, f);
    }
  }

  /** Events that build and destroy no space leave every page with its owner. */
  lemma MidSameOwner(s: T.Sys, te: T.Event, j: int)
    requires T.CoreInv(s) && T.Enabled(s, te) && T.IsSlot(j)
    requires !te.Fork? && (te.Execv? ==> te.newPgdir == None)
    ensures SameOwner(s.tasks[j], Mid(s, te)[j], j)
  {
    hide T.FindDescriptor, T.FindChild;
    assert T.SlotCore(s.tasks[j], j, s.curr);
    assert T.SlotCore(s.tasks[s.curr], s.curr, s.curr);
  }

  /** ... so that balanced books stay balanced. */
  lemma MidBalanced(s: T.Sys, te: T.Event, m: Mem, fixed: seq<int>, registered: set<int>, a: Account)
    requires T.CoreInv(s) && T.Enabled(s, te) && !te.Fork? && (te.Execv? ==> te.newPgdir == None)
    requires Balanced(s.tasks, m, fixed, registered, a)
    ensures Balanced(Mid(s, te), m, fixed, registered, a)
  {
    hide PartOk, Sum, IsFreeList, Mid;
    forall j | T.IsSlot(j) ensures SameOwner(s.tasks[j], Mid(s, te)[j], j) {
      MidSameOwner(s, te, j);
    }
    BalancedSameOwner(s.tasks, Mid(s, te), m, fixed, registered, a);
  }

  /** Events that leave memory and the pages of files alone. */
  lemma QuietEffect(k: Kernel, e: KEvent, d: Done, own: seq<int>, registered: set<int>, a: Account)
    requires KInv(k, own, registered, a) && KEnabled(k, e)
    requires IsDone(d) && d.mem == k.mem && T.Enabled(k.sys, d.event)
    requires !d.event.Fork? && (d.event.Execv? ==> d.event.newPgdir == None)
    requires Fixed(own, d.files) == Fixed(own, k.files)
    ensures EffectDone(k, e, d, own, registered, a)
  {
    hide PartOk, Sum, IsFreeList, Spares, Mid, Fixed, FileWritten, KEnabled;
    MidBalanced(k.sys, d.event, k.mem, Fixed(own, k.files), registered, a);
    SparesSame(k.sys.tasks, k.mem, Fixed(own, k.files), registered, a, {k.sys.curr});
  }

  /** The slots other than the written one keep their pages. */
  lemma SamePages(own: seq<int>, files: seq<F.File>, f: int, file: F.File)
    requires F.IsTable(files) && IsFile(f) && F.OwnPage(file) == F.OwnPage(files[f])
    ensures Fixed(own, files[f := file]) == Fixed(own, files)
  {
    F.SameFilePages(files, files[f := file], F.MAX_FILES);
  }

  lemma FixedNotFree(tasks: seq<T.Task>, m: Mem, fixed: seq<int>, registered: set<int>, a: Account, f: int)
    requires Balanced(tasks, m, fixed, registered, a) && f in fixed
    ensures f !in a.free
  {
    SetMultiplicity(registered, f);
    var total := multiset(a.free) + multiset(fixed) + Sum(a.parts);
    assert f in multiset(fixed) && total[f] <= 1;
    assert f !in multiset(a.free);
  }

  /** The page of a file is kept by the kernel. */
  lemma FilePageFixed(k: Kernel, own: seq<int>, f: int)
    requires IsKernel(k) && FilesOk(k.files) && IsFile(f) && k.files[f].inUse
    ensures Valid(k.files[f].data) && k.files[f].data.value in Fixed(own, k.files)
  {
    F.PageOfFile(k.files, f, F.MAX_FILES);
    assert k.files[f].data.value in F.OwnPage(k.files[f]);
  }
}
