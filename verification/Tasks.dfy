/** The task table of proc.c and the atomic steps of the kernel on it. Interrupts are off in the kernel,
    so a system call or a timer tick is one step, except that switch_to splits a task's step in two:
    the part before it gives up the processor and the part after it is scheduled again. */
module Tasks {
  import opened Machine

  const MAX_TASKS := 1024
  const MAX_OPEN_FILES := 8

  datatype State = Unused | Embryo | Sleeping | Runnable | Running | Zombie

  /** struct task_struct. A pointer to a page is its frame, a pointer to a task its slot, a pointer to file f the
      number MAX_TASKS + f behind the slots. `openFiles` holds the numbers of the files; the member behind it is
      `parent`. `waiting` says that the task's kernel stack is suspended inside sys_wait. */
  datatype Task = Task(state: State, pid: int, openFiles: seq<Option<int>>, parent: Option<int>, pgdir: Option<int>,
                       kstack: Option<int>, waiting: bool)

  /** tasks, curr_task, the loop variable of schedule, zombie_exists. Slot 0 is the scheduler. */
  datatype Sys = Sys(tasks: seq<Task>, curr: int, scan: int, zombies: bool)

  predicate IsSlot(i: int) {
    0 <= i < MAX_TASKS
  }

  predicate WellFormed(s: Sys) {
    && |s.tasks| == MAX_TASKS
    && IsSlot(s.curr)
    && IsSlot(s.scan)
    && (forall i :: 0 <= i < MAX_TASKS ==> |s.tasks[i].openFiles| == MAX_OPEN_FILES)
  }

  predicate Live(t: Task) {
    t.state in {Sleeping, Runnable, Running}
  }

  const NO_FILES: seq<Option<int>> := [None, None, None, None, None, None, None, None]

  const FREE_TASK := Task(Unused, 0, NO_FILES, None, None, None, false)

  function SetState(s: Sys, i: int, state: State): (s': Sys)
    requires WellFormed(s) && IsSlot(i)
    ensures WellFormed(s')
  {
    s.(tasks := s.tasks[i := s.tasks[i].(state := state)])
  }

  /** What switch_to does to slot i. */
  function AfterSwitch(s: Sys, next: int, i: int): Task
    requires WellFormed(s) && IsSlot(next) && IsSlot(i)
  {
    if i == next then s.tasks[i].(state := Running)
    else if i == s.curr && s.tasks[i].state == Running then s.tasks[i].(state := Runnable)
    else s.tasks[i]
  }

  /** switch_to */
  function SwitchTo(s: Sys, next: int): (s': Sys)
    requires WellFormed(s) && IsSlot(next)
    ensures WellFormed(s') && s'.curr == next && s'.scan == s.scan && s'.zombies == s.zombies
    ensures forall i :: 0 <= i < MAX_TASKS ==> s'.tasks[i] == AfterSwitch(s, next, i)
  {
    var s1 := if s.tasks[s.curr].state == Running then SetState(s, s.curr, Runnable) else s;
    SetState(s1, next, Running).(curr := next)
  }

  /** A task gives up the processor: the scheduler comes back from switch_to and moves on. */
  function Yield(s: Sys): (s': Sys)
    requires WellFormed(s)
    ensures WellFormed(s')
  {
    SwitchTo(s, 0).(scan := (s.scan + 1) % 1024)
  }

  /** The first unused slot from i on, or MAX_TASKS. */
  function FindUnused(tasks: seq<Task>, i: int): (r: int)
    requires |tasks| == MAX_TASKS && 0 <= i <= MAX_TASKS
    ensures i <= r <= MAX_TASKS
    ensures r < MAX_TASKS ==> tasks[r].state == Unused
    ensures forall j :: i <= j < r ==> tasks[j].state != Unused
    decreases MAX_TASKS - i
  {
    if i == MAX_TASKS || tasks[i].state == Unused then i else FindUnused(tasks, i + 1)
  }

  /** The first slot from i on that names p as its parent, or MAX_TASKS. */
  function FindChild(tasks: seq<Task>, p: int, i: int): (r: int)
    requires |tasks| == MAX_TASKS && 0 <= i <= MAX_TASKS
    ensures i <= r <= MAX_TASKS
    ensures r < MAX_TASKS ==> tasks[r].parent == Some(p)
    ensures forall j :: i <= j < r ==> tasks[j].parent != Some(p)
    decreases MAX_TASKS - i
  {
    if i == MAX_TASKS || tasks[i].parent == Some(p) then i else FindChild(tasks, p, i + 1)
  }

  predicate Reapable(t: Task, p: int) {
    t.parent == Some(p) && t.state == Zombie
  }

  /** kill_off_zombies */
  function Reap(s: Sys): (s': Sys)
    requires WellFormed(s)
    ensures WellFormed(s')
  {
    if !s.zombies then s
    else if s.tasks[s.curr].state == Sleeping then s.(zombies := false)
    else
      s.(tasks := seq(1024, i requires 0 <= i < 1024 =>
                        if Reapable(s.tasks[i], s.curr) then FREE_TASK else s.tasks[i]),
         zombies := false)
  }

  datatype Event =
    | Scan                                // schedule looks at tasks[i]
    | Fork(pgdir: int, kstack: int)       // the pages of the new task
    | Execv(newPgdir: Option<int>)        // the new directory, or None when sys_execv fails
    | Exit
    | Wait
    | Open(file: Option<int>)             // the file that sys_open stores, or None when it stores none
    | Close(fd: Option<int>)              // the descriptor that sys_close clears, if any
    | OtherSyscall
    | Timer
    | Serial

  /** The scheduler scans when it is current; a user task traps when it is. sys_fork relies on a free slot,
      sys_close on the range of its argument. */
  predicate Enabled(s: Sys, e: Event)
    requires WellFormed(s)
  {
    && (e.Scan? <==> s.curr == 0)
    && (e.Fork? ==> FindUnused(s.tasks, 0) < MAX_TASKS)
    && (e.Open? && e.file.Some? ==> e.file.value >= 0)
    && (e.Close? && e.fd.Some? ==> 0 <= e.fd.value < MAX_OPEN_FILES)
  }

  function ForkTask(s: Sys, pgdir: int, kstack: int): (s': Sys)
    requires WellFormed(s) && FindUnused(s.tasks, 0) < MAX_TASKS
    ensures WellFormed(s')
  {
    var n := FindUnused(s.tasks, 0);
    s.(tasks := s.tasks[n := Task(Runnable, n, s.tasks[s.curr].openFiles, Some(s.curr), Some(pgdir), Some(kstack),
                                  false)])
  }

  /** A task whose turn it is: inside sys_wait it still has to return and reap. */
  function Dispatch(s: Sys, i: int): (s': Sys)
    requires WellFormed(s) && IsSlot(i)
    ensures WellFormed(s')
  {
    var s1 := SwitchTo(s, i);
    if s1.tasks[i].waiting then
      Reap(s1.(tasks := s1.tasks[i := s1.tasks[i].(waiting := false)]))
    else s1
  }

  function ExitTask(s: Sys): (r: Result<Sys>)
    requires WellFormed(s)
    ensures r.Ok? ==> WellFormed(r.value)
  {
    var s1 := SetState(s, s.curr, Zombie).(zombies := true);
    match s.tasks[s.curr].parent
    case None => Panic
    case Some(p) =>
      var s2 := if IsSlot(p) && s1.tasks[p].state == Sleeping then SetState(s1, p, Runnable) else s1;
      Ok(Yield(s2))
  }

  /** sleep, up to its switch_to */
  function SleepTask(s: Sys): (s': Sys)
    requires WellFormed(s)
    ensures WellFormed(s')
  {
    Yield(s.(tasks := s.tasks[s.curr := s.tasks[s.curr].(state := Sleeping, waiting := true)]))
  }

  function WaitTask(s: Sys): (s': Sys)
    requires WellFormed(s)
    ensures WellFormed(s')
  {
    var c := FindChild(s.tasks, s.curr, 0);
    if c == MAX_TASKS || s.tasks[c].state == Zombie then Reap(s)
    else SleepTask(s)
  }

  /** The first free descriptor from fd on, or MAX_OPEN_FILES. */
  function FindDescriptor(t: Task, fd: int): (r: int)
    requires |t.openFiles| == MAX_OPEN_FILES && 0 <= fd <= MAX_OPEN_FILES
    ensures fd <= r <= MAX_OPEN_FILES
    ensures r < MAX_OPEN_FILES ==> t.openFiles[r] == None
    ensures forall j :: fd <= j < r ==> t.openFiles[j] != None
    decreases MAX_OPEN_FILES - fd
  {
    if fd == MAX_OPEN_FILES || t.openFiles[fd] == None then fd else FindDescriptor(t, fd + 1)
  }

  /** sys_open stores its file at the first free descriptor. When there is none, the search ends behind the
      descriptors, at `parent`. */
  function StoreFile(t: Task, file: int): (t': Task)
    requires |t.openFiles| == MAX_OPEN_FILES
    ensures |t'.openFiles| == MAX_OPEN_FILES
  {
    var fd := FindDescriptor(t, 0);
    if fd < MAX_OPEN_FILES then t.(openFiles := t.openFiles[fd := Some(file)])
    else t.(parent := Some(MAX_TASKS + file))
  }

  /** The running task with another descriptor table. */
  function OpenTask(s: Sys, file: Option<int>): (s': Sys)
    requires WellFormed(s)
    ensures WellFormed(s')
  {
    if file == None then s else s.(tasks := s.tasks[s.curr := StoreFile(s.tasks[s.curr], file.value)])
  }

  function CloseTask(s: Sys, fd: Option<int>): (s': Sys)
    requires WellFormed(s) && (fd.Some? ==> 0 <= fd.value < MAX_OPEN_FILES)
    ensures WellFormed(s')
  {
    if fd == None then s else
    var t := s.tasks[s.curr];
    s.(tasks := s.tasks[s.curr := t.(openFiles := t.openFiles[fd.value := None])])
  }

  /** A successful sys_execv: a new directory and no open files. */
  function ExecTask(s: Sys, newPgdir: Option<int>): (s': Sys)
    requires WellFormed(s)
    ensures WellFormed(s')
  {
    if newPgdir == None then s
    else s.(tasks := s.tasks[s.curr := s.tasks[s.curr].(pgdir := newPgdir, openFiles := NO_FILES)])
  }

  /** One atomic step of the kernel. */
  function Step(s: Sys, e: Event): (r: Result<Sys>)
    requires WellFormed(s) && Enabled(s, e)
    ensures r.Ok? ==> WellFormed(r.value)
  {
    match e
    case Scan =>
      if s.tasks[s.scan].state == Runnable then Ok(Dispatch(s, s.scan))
      else Ok(s.(scan := (s.scan + 1) % 1024))
    case Fork(pgdir, kstack) => Ok(Reap(ForkTask(s, pgdir, kstack)))
    case Execv(newPgdir) => Ok(Reap(ExecTask(s, newPgdir)))
    case Exit => ExitTask(s)
    case Wait => Ok(WaitTask(s))
    case Open(file) => Ok(Reap(OpenTask(s, file)))
    case Close(fd) => Ok(Reap(CloseTask(s, fd)))
    case OtherSyscall => Ok(Reap(s))
    case Timer => Ok(Yield(s))
    case Serial => Ok(s)
  }

  /** The events es take the system from s to s'. */
  ghost predicate Reaches(s: Sys, es: seq<Event>, s': Sys)
    decreases |es|
  {
    && WellFormed(s) && WellFormed(s')
    && if es == [] then s' == s
       else Enabled(s, es[0]) && Step(s, es[0]).Ok? && Reaches(Step(s, es[0]).value, es[1..], s')
  }

  /** init_tasks and create_init_task */
  function Boot(kpgdir: int, pgdir: int, kstack: int): (s: Sys)
    ensures WellFormed(s)
  {
    Sys(seq(1024, i =>
              if i == 0 then Task(Running, 0, NO_FILES, None, Some(kpgdir), None, false)
              else if i == 1 then Task(Runnable, 1, NO_FILES, None, Some(pgdir), Some(kstack), false)
              else FREE_TASK),
        0, 0, false)
  }

  // ----- What every step keeps

  ghost predicate HasLiveChild(s: Sys, p: int)
    requires WellFormed(s)
  {
    exists c :: 0 <= c < MAX_TASKS && s.tasks[c].parent == Some(p) && Live(s.tasks[c])
  }

  /** Slot by slot, whatever the parents are: exactly curr is running; unused slots are empty; pids are slots;
      sleepers are inside sys_wait, and the scheduler never sleeps; only the scheduler, init and unused slots have no
      parent. */
  ghost predicate SlotCore(t: Task, i: int, curr: int) {
    && (t.state == Running <==> i == curr)
    && t.state != Embryo
    && (t.state == Unused ==> t == FREE_TASK)
    && (t.state != Unused ==> t.pid == i && t.pgdir.Some? && (i != 0 ==> t.kstack.Some?))
    && (i == 0 ==> t.state == Running || t.state == Runnable)
    && (t.waiting ==> i != 0 && (t.state == Sleeping || t.state == Runnable))
    && (t.state == Sleeping ==> t.waiting && i != 0)
    && (i >= 2 && t.state != Unused ==> t.parent.Some?)
  }

  /** What every step of every run keeps. */
  ghost predicate CoreInv(s: Sys) {
    && WellFormed(s)
    && (s.curr != 0 ==> s.scan == s.curr)
    && (forall i {:trigger SlotCore(s.tasks[i], i, s.curr)} :: 0 <= i < MAX_TASKS ==> SlotCore(s.tasks[i], i, s.curr))
  }

  /** The parent is a task, neither the scheduler nor the task itself. Init lives, and has none. */
  ghost predicate ParentOk(t: Task, i: int) {
    && (i >= 2 && t.state != Unused ==>
          t.parent.Some? && IsSlot(t.parent.value) && t.parent.value != 0 && t.parent.value != i)
    && (i < 2 ==> Live(t) && t.parent == None)
  }

  ghost predicate SlotOk(t: Task, i: int, curr: int) {
    SlotCore(t, i, curr) && ParentOk(t, i)
  }

  /** ... and what holds besides as long as parents are tasks: every sleeper has a live child. */
  ghost predicate SysInv(s: Sys) {
    && WellFormed(s)
    && (s.curr != 0 ==> s.scan == s.curr)
    && (forall i {:trigger SlotOk(s.tasks[i], i, s.curr)} :: 0 <= i < MAX_TASKS ==> SlotOk(s.tasks[i], i, s.curr))
    && (forall i {:trigger HasLiveChild(s, i)} ::
          0 <= i < MAX_TASKS && s.tasks[i].state == Sleeping ==> HasLiveChild(s, i))
  }

  lemma SysInvIsCore(s: Sys)
    requires SysInv(s)
    ensures CoreInv(s)
  {
    forall i | 0 <= i < MAX_TASKS ensures SlotCore(s.tasks[i], i, s.curr) { assert SlotOk(s.tasks[i], i, s.curr); }
  }

  lemma BootInv(kpgdir: int, pgdir: int, kstack: int)
    ensures SysInv(Boot(kpgdir, pgdir, kstack))
  {}

  lemma ReapKeepsInv(s: Sys)
    requires SysInv(s)
    ensures SysInv(Reap(s))
  {
    var s' := Reap(s);
    forall i | 0 <= i < MAX_TASKS ensures SlotOk(s'.tasks[i], i, s'.curr) { assert SlotOk(s.tasks[i], i, s.curr); }
    forall i | 0 <= i < MAX_TASKS && s'.tasks[i].state == Sleeping ensures HasLiveChild(s', i) {
      assert HasLiveChild(s, i);
      var c :| 0 <= c < MAX_TASKS && s.tasks[c].parent == Some(i) && Live(s.tasks[c]);
      assert s'.tasks[c] == s.tasks[c];
    }
  }

  lemma SleepersKeep(s: Sys, s': Sys)
    requires SysInv(s) && WellFormed(s')
    requires forall i :: 0 <= i < MAX_TASKS && s'.tasks[i].state == Sleeping ==> s.tasks[i].state == Sleeping
    requires forall c | 0 <= c < MAX_TASKS && Live(s.tasks[c]) ::
      s.tasks[c].parent.Some? && IsSlot(s.tasks[c].parent.value) ==>
        s'.tasks[c].parent == s.tasks[c].parent &&
        (Live(s'.tasks[c]) || s'.tasks[s.tasks[c].parent.value].state != Sleeping)
    ensures forall i :: 0 <= i < MAX_TASKS && s'.tasks[i].state == Sleeping ==> HasLiveChild(s', i)
  {
    forall i | 0 <= i < MAX_TASKS && s'.tasks[i].state == Sleeping ensures HasLiveChild(s', i) {
      assert HasLiveChild(s, i);
      var c :| 0 <= c < MAX_TASKS && s.tasks[c].parent == Some(i) && Live(s.tasks[c]);
    }
  }

  lemma YieldKeepsInv(s: Sys)
    requires SysInv(s) && s.curr != 0
    ensures SysInv(Yield(s))
  {
    hide SwitchTo;
    assert SlotOk(s.tasks[s.curr], s.curr, s.curr);
    forall i | 0 <= i < MAX_TASKS
      ensures SlotOk(Yield(s).tasks[i], i, Yield(s).curr) { assert SlotOk(s.tasks[i], i, s.curr); }
    SleepersKeep(s, Yield(s));
  }

  lemma DispatchKeepsInv(s: Sys)
    requires SysInv(s) && s.curr == 0 && s.tasks[s.scan].state == Runnable
    ensures SysInv(Dispatch(s, s.scan))
  {
    hide Reap, SwitchTo;
    var i := s.scan;
    var s1 := SwitchTo(s, i);
    var s2 := s1.(tasks := s1.tasks[i := s1.tasks[i].(waiting := false)]);
    assert s2 == s1 || s1.tasks[i].waiting;
    assert SlotOk(s.tasks[i], i, s.curr);
    forall j | 0 <= j < MAX_TASKS ensures SlotOk(s2.tasks[j], j, s2.curr) { assert SlotOk(s.tasks[j], j, s.curr); }
    SleepersKeep(s, s2);
    ReapKeepsInv(s2);
  }

  lemma ForkKeepsInv(s: Sys, pgdir: int, kstack: int)
    requires SysInv(s) && s.curr != 0 && FindUnused(s.tasks, 0) < MAX_TASKS
    ensures SysInv(ForkTask(s, pgdir, kstack))
  {
    forall i | 0 <= i < MAX_TASKS
      ensures SlotOk(ForkTask(s, pgdir, kstack).tasks[i], i,
                     ForkTask(s, pgdir, kstack).curr) { assert SlotOk(s.tasks[i], i, s.curr); }
    SleepersKeep(s, ForkTask(s, pgdir, kstack));
  }

  /** What sys_exit does to slot i. */
  function AfterExit(s: Sys, i: int): Task
    requires WellFormed(s) && IsSlot(i)
  {
    if i == 0 then s.tasks[i].(state := Running)
    else if i == s.curr then s.tasks[i].(state := Zombie)
    else if s.tasks[s.curr].parent == Some(i) && s.tasks[i].state == Sleeping then s.tasks[i].(state := Runnable)
    else s.tasks[i]
  }

  lemma ExitEffect(s: Sys)
    requires CoreInv(s) && s.curr != 0
    ensures ExitTask(s).Panic? <==> s.tasks[s.curr].parent == None
    ensures ExitTask(s).Ok? ==>
      var s' := ExitTask(s).value;
      && s'.curr == 0 && s'.scan == (s.scan + 1) % 1024
      && s'.zombies
      && forall i :: 0 <= i < MAX_TASKS ==> s'.tasks[i] == AfterExit(s, i)
  {
    assert SlotCore(s.tasks[s.curr], s.curr, s.curr);
    assert SlotCore(s.tasks[0], 0, s.curr);
    if s.tasks[s.curr].parent.Some? && IsSlot(s.tasks[s.curr].parent.value) {
      var p := s.tasks[s.curr].parent.value;
      assert SlotCore(s.tasks[p], p, s.curr);
    }
  }

  /** sys_exit panics exactly for init, which has no parent to wake up. */
  lemma ExitKeepsInv(s: Sys)
    requires SysInv(s) && s.curr != 0
    ensures ExitTask(s).Panic? <==> s.curr == 1
    ensures ExitTask(s).Ok? ==> SysInv(ExitTask(s).value)
  {
    hide ExitTask;
    SysInvIsCore(s);
    ExitEffect(s);
    assert SlotOk(s.tasks[s.curr], s.curr, s.curr);
    if s.curr != 1 {
      forall i | 0 <= i < MAX_TASKS
        ensures SlotOk(ExitTask(s).value.tasks[i], i, ExitTask(s).value.curr) { assert SlotOk(s.tasks[i], i, s.curr); }
      SleepersKeep(s, ExitTask(s).value);
    }
  }

  /** sys_wait sleeps only when the child it found is alive. */
  lemma SleepKeepsInv(s: Sys, c: int)
    requires SysInv(s) && s.curr != 0
    requires IsSlot(c) && s.tasks[c].parent == Some(s.curr) && s.tasks[c].state != Zombie
    ensures SysInv(SleepTask(s))
  {
    hide SwitchTo;
    var s' := SleepTask(s);
    assert SlotOk(s.tasks[c], c, s.curr);
    forall i | 0 <= i < MAX_TASKS ensures SlotOk(s'.tasks[i], i, s'.curr) { assert SlotOk(s.tasks[i], i, s.curr); }
    assert Live(s'.tasks[c]);
    forall i | 0 <= i < MAX_TASKS && s'.tasks[i].state == Sleeping ensures HasLiveChild(s', i) {
      if i != s.curr {
        assert HasLiveChild(s, i);
        var d :| 0 <= d < MAX_TASKS && s.tasks[d].parent == Some(i) && Live(s.tasks[d]);
        assert Live(s'.tasks[d]);
      }
    }
  }

  lemma WaitKeepsInv(s: Sys)
    requires SysInv(s) && s.curr != 0
    ensures SysInv(WaitTask(s))
  {
    hide Reap, SleepTask;
    var c := FindChild(s.tasks, s.curr, 0);
    if c == MAX_TASKS || s.tasks[c].state == Zombie {
      ReapKeepsInv(s);
    } else {
      SleepKeepsInv(s, c);
    }
  }

  // ----- Steps that keep the core

  /** The slots of s', each one looked at. */
  lemma CoreByReap(s: Sys)
    requires CoreInv(s)
    ensures CoreInv(Reap(s))
  {
    var s' := Reap(s);
    forall i | 0 <= i < MAX_TASKS ensures SlotCore(s'.tasks[i], i, s'.curr) { assert SlotCore(s.tasks[i], i, s.curr); }
  }

  lemma CoreByYield(s: Sys)
    requires WellFormed(s) && s.curr != 0 && s.scan == s.curr
    requires forall i :: 0 <= i < MAX_TASKS && i != s.curr ==> SlotCore(s.tasks[i], i, s.curr)
    requires var t := s.tasks[s.curr];
      (t.state == Running && SlotCore(t, s.curr, s.curr)) || (t.state != Running && SlotCore(t, s.curr, 0))
    ensures CoreInv(Yield(s))
  {
    hide SwitchTo;
    assert SlotCore(s.tasks[0], 0, s.curr);
    var s' := Yield(s);
    forall i | 0 <= i < MAX_TASKS ensures SlotCore(s'.tasks[i], i, s'.curr) {
      if i != s.curr { assert SlotCore(s.tasks[i], i, s.curr); }
    }
  }

  lemma CoreByDispatch(s: Sys)
    requires CoreInv(s) && s.curr == 0 && s.tasks[s.scan].state == Runnable
    ensures CoreInv(Dispatch(s, s.scan))
  {
    hide Reap, SwitchTo;
    var i := s.scan;
    var s1 := SwitchTo(s, i);
    var s2 := s1.(tasks := s1.tasks[i := s1.tasks[i].(waiting := false)]);
    assert SlotCore(s.tasks[i], i, s.curr);
    assert s2 == s1 || s1.tasks[i].waiting;
    forall j | 0 <= j < MAX_TASKS ensures SlotCore(s2.tasks[j], j, s2.curr) { assert SlotCore(s.tasks[j], j, s.curr); }
    CoreByReap(s2);
  }

  lemma CoreByFork(s: Sys, pgdir: int, kstack: int)
    requires CoreInv(s) && s.curr != 0 && FindUnused(s.tasks, 0) < MAX_TASKS
    ensures CoreInv(ForkTask(s, pgdir, kstack))
  {
    var s' := ForkTask(s, pgdir, kstack);
    assert SlotCore(s.tasks[0], 0, s.curr);
    forall i | 0 <= i < MAX_TASKS ensures SlotCore(s'.tasks[i], i, s'.curr) { assert SlotCore(s.tasks[i], i, s.curr); }
  }

  /** Other descriptors, another parent or another directory of the running task. */
  lemma CoreByUpdate(s: Sys, t: Task)
    requires CoreInv(s) && s.curr != 0 && |t.openFiles| == MAX_OPEN_FILES && t.pgdir.Some?
    requires t == s.tasks[s.curr].(openFiles := t.openFiles, parent := t.parent, pgdir := t.pgdir)
    requires t.parent == None ==> s.tasks[s.curr].parent == None
    ensures CoreInv(s.(tasks := s.tasks[s.curr := t]))
  {
    var s' := s.(tasks := s.tasks[s.curr := t]);
    forall i | 0 <= i < MAX_TASKS ensures SlotCore(s'.tasks[i], i, s'.curr) { assert SlotCore(s.tasks[i], i, s.curr); }
  }

  lemma CoreByExit(s: Sys)
    requires CoreInv(s) && s.curr != 0 && ExitTask(s).Ok?
    ensures CoreInv(ExitTask(s).value)
  {
    hide ExitTask;
    ExitEffect(s);
    ExitScans(s);
    var s' := ExitTask(s).value;
    forall i | 0 <= i < MAX_TASKS ensures SlotCore(s'.tasks[i], i, s'.curr) {
      assert SlotCore(s.tasks[i], i, s.curr) && SlotCore(s.tasks[s.curr], s.curr, s.curr);
    }
  }

  lemma ExitScans(s: Sys)
    requires WellFormed(s) && ExitTask(s).Ok?
    ensures ExitTask(s).value.curr == 0 && ExitTask(s).value.scan == (s.scan + 1) % 1024
  {}

  lemma CoreByWait(s: Sys)
    requires CoreInv(s) && s.curr != 0
    ensures CoreInv(WaitTask(s))
  {
    hide Reap, Yield, FindChild;
    CoreByReap(s);
    assert SlotCore(s.tasks[s.curr], s.curr, s.curr);
    var s1 := s.(tasks := s.tasks[s.curr := s.tasks[s.curr].(state := Sleeping, waiting := true)]);
    forall i | 0 <= i < MAX_TASKS && i != s.curr ensures SlotCore(s1.tasks[i], i, s1.curr) {
      assert SlotCore(s.tasks[i], i, s.curr);
    }
    CoreByYield(s1);
  }

  /** Every step of the kernel keeps the core, also one that overwrites a parent. It panics if and only if init
      exits and still has no parent. */
  lemma StepKeepsCore(s: Sys, e: Event)
    requires CoreInv(s) && Enabled(s, e)
    ensures Step(s, e).Panic? <==> e.Exit? && s.curr == 1 && s.tasks[1].parent == None
    ensures Step(s, e).Ok? ==> CoreInv(Step(s, e).value)
  {
    hide Reap, Dispatch, ExitTask, WaitTask, Yield, SwitchTo, ForkTask, StoreFile;
    assert SlotCore(s.tasks[s.curr], s.curr, s.curr);
    match e
    case Scan =>
      if s.tasks[s.scan].state == Runnable {
        CoreByDispatch(s);
      } else {
        var s' := Step(s, e).value;
        forall i | 0 <= i < MAX_TASKS
          ensures SlotCore(s'.tasks[i], i, s'.curr) { assert SlotCore(s.tasks[i], i, s.curr); }
      }
    case Fork(pgdir, kstack) =>
      CoreByFork(s, pgdir, kstack);
      CoreByReap(ForkTask(s, pgdir, kstack));
    case Execv(newPgdir) =>
      if newPgdir.Some? { CoreByUpdate(s, s.tasks[s.curr].(pgdir := newPgdir, openFiles := NO_FILES)); }
      CoreByReap(ExecTask(s, newPgdir));
    case Exit =>
      ExitEffect(s);
      if ExitTask(s).Ok? { CoreByExit(s); }
    case Wait => CoreByWait(s);
    case Open(file) =>
      if file.Some? { CoreByStore(s, file.value); }
      CoreByReap(OpenTask(s, file));
    case Close(fd) =>
      if fd.Some? { CoreByUpdate(s, s.tasks[s.curr].(openFiles := s.tasks[s.curr].openFiles[fd.value := None])); }
      CoreByReap(CloseTask(s, fd));
    case OtherSyscall => CoreByReap(s);
    case Timer =>
      forall i | 0 <= i < MAX_TASKS && i != s.curr ensures SlotCore(s.tasks[i], i, s.curr) {}
      CoreByYield(s);
    case Serial =>
  }

  lemma CoreByStore(s: Sys, file: int)
    requires CoreInv(s) && s.curr != 0
    ensures CoreInv(OpenTask(s, Some(file)))
  {
    assert SlotCore(s.tasks[s.curr], s.curr, s.curr);
    CoreByUpdate(s, StoreFile(s.tasks[s.curr], file));
  }

  lemma {:induction false} ReachableCore(s: Sys, es: seq<Event>, s': Sys)
    requires CoreInv(s) && Reaches(s, es, s')
    ensures CoreInv(s')
    decreases |es|
  {
    hide Step;
    if es != [] {
      StepKeepsCore(s, es[0]);
      ReachableCore(Step(s, es[0]).value, es[1..], s');
    }
  }

  // ----- Steps that keep the parents

  /** A ninth open: no descriptor is free, so that the file is stored over the parent. */
  predicate OverwritesParent(s: Sys, e: Event)
    requires WellFormed(s)
  {
    e.Open? && e.file.Some? && FindDescriptor(s.tasks[s.curr], 0) == MAX_OPEN_FILES
  }

  /** sys_open keeps the parent if and only if a descriptor is free. */
  lemma OpenKeepsParentIff(s: Sys, file: int)
    requires SysInv(s) && s.curr != 0 && file >= 0
    ensures Step(s, Open(Some(file))).Ok?
    ensures
      var s' := Step(s, Open(Some(file))).value;
      s'.tasks[s.curr].parent == s.tasks[s.curr].parent <==> FindDescriptor(s.tasks[s.curr], 0) < MAX_OPEN_FILES
  {
    assert SlotOk(s.tasks[s.curr], s.curr, s.curr);
  }

  lemma UpdateKeepsInv(s: Sys, t: Task)
    requires SysInv(s) && s.curr != 0 && |t.openFiles| == MAX_OPEN_FILES && t.pgdir.Some?
    requires t == s.tasks[s.curr].(openFiles := t.openFiles, pgdir := t.pgdir)
    ensures SysInv(s.(tasks := s.tasks[s.curr := t]))
  {
    var s' := s.(tasks := s.tasks[s.curr := t]);
    forall i | 0 <= i < MAX_TASKS ensures SlotOk(s'.tasks[i], i, s'.curr) { assert SlotOk(s.tasks[i], i, s.curr); }
    SleepersKeep(s, s');
  }

  /** Every other atomic step keeps the invariant; the only panic is init's exit. */
  lemma StepKeepsInv(s: Sys, e: Event)
    requires SysInv(s) && Enabled(s, e) && !OverwritesParent(s, e)
    ensures Step(s, e).Panic? <==> e.Exit? && s.curr == 1
    ensures Step(s, e).Ok? ==> SysInv(Step(s, e).value)
  {
    hide Reap, Dispatch, ExitTask, WaitTask, SleepTask, Yield, SwitchTo, ForkTask;
    assert SlotOk(s.tasks[s.curr], s.curr, s.curr);
    match e
    case Scan =>
      if s.tasks[s.scan].state == Runnable {
        DispatchKeepsInv(s);
      } else {
        ScanKeepsInv(s);
      }
    case Fork(pgdir, kstack) =>
      ForkKeepsInv(s, pgdir, kstack);
      ReapKeepsInv(ForkTask(s, pgdir, kstack));
    case Execv(newPgdir) =>
      if newPgdir.Some? { UpdateKeepsInv(s, s.tasks[s.curr].(pgdir := newPgdir, openFiles := NO_FILES)); }
      ReapKeepsInv(ExecTask(s, newPgdir));
    case Exit => ExitKeepsInv(s);
    case Wait => WaitKeepsInv(s);
    case Open(file) =>
      if file.Some? { UpdateKeepsInv(s, StoreFile(s.tasks[s.curr], file.value)); }
      ReapKeepsInv(OpenTask(s, file));
    case Close(fd) =>
      if fd.Some? { UpdateKeepsInv(s, s.tasks[s.curr].(openFiles := s.tasks[s.curr].openFiles[fd.value := None])); }
      ReapKeepsInv(CloseTask(s, fd));
    case OtherSyscall => ReapKeepsInv(s);
    case Timer => YieldKeepsInv(s);
    case Serial =>
  }

  lemma ScanKeepsInv(s: Sys)
    requires SysInv(s) && s.curr == 0
    ensures SysInv(s.(scan := (s.scan + 1) % 1024))
  {
    var s' := s.(scan := (s.scan + 1) % 1024);
    forall i | 0 <= i < MAX_TASKS ensures SlotOk(s'.tasks[i], i, s'.curr) { assert SlotOk(s.tasks[i], i, s.curr); }
    SleepersKeep(s, s');
  }

  /** Some task has a file for its parent. */
  ghost predicate HasStray(s: Sys) {
    exists i :: 0 <= i < |s.tasks| && s.tasks[i].state != Unused && s.tasks[i].parent.Some? &&
      s.tasks[i].parent.value >= MAX_TASKS
  }

  lemma NoStray(s: Sys)
    requires SysInv(s)
    ensures !HasStray(s)
  {
    forall i | 0 <= i < MAX_TASKS && s.tasks[i].state != Unused && s.tasks[i].parent.Some?
      ensures s.tasks[i].parent.value < MAX_TASKS
    {
      assert SlotOk(s.tasks[i], i, s.curr);
    }
  }

  /** Nobody reaps a task whose parent is a file, and nothing gives it another parent than a file. */
  lemma StepKeepsStray(s: Sys, e: Event)
    requires CoreInv(s) && Enabled(s, e) && Step(s, e).Ok?
    requires HasStray(s) || OverwritesParent(s, e)
    ensures HasStray(Step(s, e).value)
  {
    hide Step;
    var s' := Step(s, e).value;
    assert SlotCore(s.tasks[s.curr], s.curr, s.curr);
    var i := s.curr;
    if !OverwritesParent(s, e) {
      i :| 0 <= i < |s.tasks| && s.tasks[i].state != Unused && s.tasks[i].parent.Some? &&
        s.tasks[i].parent.value >= MAX_TASKS;
    }
    StrayStep(s, e, i);
    assert s'.tasks[i].state != Unused && s'.tasks[i].parent.Some? && s'.tasks[i].parent.value >= MAX_TASKS;
  }

  lemma StrayStep(s: Sys, e: Event, i: int)
    requires CoreInv(s) && Enabled(s, e) && Step(s, e).Ok? && IsSlot(i) && s.tasks[i].state != Unused
    requires (s.tasks[i].parent.Some? && s.tasks[i].parent.value >= MAX_TASKS) || (OverwritesParent(s, e) &&
      i == s.curr)
    ensures
      var t' := Step(s, e).value.tasks[i];
      t'.state != Unused && t'.parent.Some? && t'.parent.value >= MAX_TASKS
  {
    hide ExitTask, SwitchTo, Reap, FindChild;
    match e
    case Scan => if s.tasks[s.scan].state == Runnable {
      var s1 := SwitchTo(s, s.scan);
      StrayStays(s1.(tasks := s1.tasks[s.scan := s1.tasks[s.scan].(waiting := false)]), i);
    }
    case Fork(pgdir, kstack) => StrayStays(ForkTask(s, pgdir, kstack), i);
    case Execv(newPgdir) => StrayStays(ExecTask(s, newPgdir), i);
    case Exit => ExitEffect(s);
    case Wait => StrayStays(s, i);
    case Open(file) => StrayStays(OpenTask(s, file), i);
    case Close(fd) => StrayStays(CloseTask(s, fd), i);
    case OtherSyscall => StrayStays(s, i);
    case Timer =>
    case Serial =>
  }

  lemma StrayStays(s: Sys, i: int)
    requires WellFormed(s) && IsSlot(i) && s.tasks[i].parent.Some? && s.tasks[i].parent.value >= MAX_TASKS
    ensures Reap(s).tasks[i] == s.tasks[i]
  {}

  /** No open of the run overwrites a parent. */
  ghost predicate ParentsKept(s: Sys, es: seq<Event>)
    requires WellFormed(s)
    decreases |es|
  {
    if es == [] || !Enabled(s, es[0]) || Step(s, es[0]).Panic? then true
    else !OverwritesParent(s, es[0]) && ParentsKept(Step(s, es[0]).value, es[1..])
  }

  lemma {:induction false} StrayForever(s: Sys, es: seq<Event>, s': Sys)
    requires CoreInv(s) && HasStray(s) && Reaches(s, es, s')
    ensures HasStray(s')
    decreases |es|
  {
    hide Step, HasStray;
    if es != [] {
      StepKeepsCore(s, es[0]);
      StepKeepsStray(s, es[0]);
      StrayForever(Step(s, es[0]).value, es[1..], s');
    }
  }

  /** The invariant holds at the end of a run if and only if no open of the run was the ninth of its task. */
  lemma {:induction false} ReachableInvIff(s: Sys, es: seq<Event>, s': Sys)
    requires SysInv(s) && Reaches(s, es, s')
    ensures SysInv(s') <==> ParentsKept(s, es)
    decreases |es|
  {
    hide Step, HasStray, SysInv, OverwritesParent;
    if es != [] {
      var s1 := Step(s, es[0]).value;
      SysInvIsCore(s);
      StepKeepsCore(s, es[0]);
      if OverwritesParent(s, es[0]) {
        StepKeepsStray(s, es[0]);
        StrayForever(s1, es[1..], s');
        if SysInv(s') { NoStray(s'); }
      } else {
        StepKeepsInv(s, es[0]);
        ReachableInvIff(s1, es[1..], s');
      }
    }
  }
}
