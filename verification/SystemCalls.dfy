/** What each event leaves in every member of every slot of the task table. */
module SystemCalls {
  import opened Machine
  import opened Tasks

  /** kill_off_zombies at the end of a system call frees slot j: a zombie child of the caller, if the flag is set. */
  predicate Freed(s: Sys, j: int)
    requires WellFormed(s) && IsSlot(j)
  {
    s.zombies && s.tasks[j].parent == Some(s.curr) && s.tasks[j].state == Zombie
  }

  /** A system call that comes back to its caller leaves the slots but the caller's and n as they were, or frees
      them, and the flag is clear. */
  ghost predicate OthersAfter(s: Sys, s': Sys, n: int)
    requires WellFormed(s) && WellFormed(s')
  {
    && s'.curr == s.curr && s'.scan == s.scan && !s'.zombies
    && (forall j :: 0 <= j < MAX_TASKS && j != s.curr && j != n ==>
          s'.tasks[j] == if Freed(s, j) then FREE_TASK else s.tasks[j])
  }

  /** t' is t with the file at its first free descriptor or, without one, in place of its parent. */
  predicate Given(t: Task, file: int, t': Task)
    requires |t.openFiles| == MAX_OPEN_FILES
  {
    && (forall fd :: 0 <= fd < 8 && t.openFiles[fd] == None && (forall i :: 0 <= i < fd ==> t.openFiles[i] != None) ==>
          t' == t.(openFiles := t.openFiles[fd := Some(file)]))
    && ((forall i :: 0 <= i < 8 ==> t.openFiles[i] != None) ==> t' == t.(parent := Some(1024 + file)))
  }

  /** The caller's slot behind a system call: sys_execv replaces the directory and closes all files, sys_open stores
      its file, sys_close clears its descriptor. Nothing else in it changes. */
  predicate CallerAfter(t: Task, e: Event, t': Task)
    requires |t.openFiles| == MAX_OPEN_FILES && (e.Close? && e.fd.Some? ==> 0 <= e.fd.value < MAX_OPEN_FILES)
  {
    match e
    case Execv(Some(dir)) =>
      && t' == t.(pgdir := Some(dir), openFiles := t'.openFiles)
      && |t'.openFiles| == MAX_OPEN_FILES && (forall fd :: 0 <= fd < MAX_OPEN_FILES ==> t'.openFiles[fd] == None)
    case Open(Some(file)) => Given(t, file, t')
    case Close(Some(fd)) => t' == t.(openFiles := t.openFiles[..fd] + [None] + t.openFiles[fd + 1..])
    case _ => t' == t
  }

  lemma CallTransition(s: Sys, e: Event)
    requires CoreInv(s) && Enabled(s, e) && (e.Execv? || e.Open? || e.Close? || e.OtherSyscall?)
    ensures Step(s, e).Ok?
    ensures OthersAfter(s, Step(s, e).value, s.curr)
    ensures CallerAfter(s.tasks[s.curr], e, Step(s, e).value.tasks[s.curr])
  {
    hide Given, StoreFile;
    assert SlotCore(s.tasks[s.curr], s.curr, s.curr);
    if e.Open? && e.file.Some? {
      FileGiven(s.tasks[s.curr], e.file.value);
      GivenState(s.tasks[s.curr], e.file.value, StoreFile(s.tasks[s.curr], e.file.value));
    }
  }

  lemma FileGiven(t: Task, file: int)
    requires |t.openFiles| == MAX_OPEN_FILES
    ensures Given(t, file, StoreFile(t, file))
  {
    hide FindDescriptor;
    var fd := FindDescriptor(t, 0);
  }

  /** t' is t with the file at descriptor i, which was free. */
  predicate StoredAt(t: Task, i: int, file: int, t': Task)
    requires |t.openFiles| == MAX_OPEN_FILES
  {
    0 <= i < 8 && t.openFiles[i] == None && t' == t.(openFiles := t.openFiles[i := Some(file)])
  }

  /** A task with a free descriptor gets its file there, or at a lower one, and keeps its parent. */
  lemma GivenToFree(t: Task, fd: int, file: int, t': Task) returns (i: int)
    requires |t.openFiles| == MAX_OPEN_FILES && 0 <= fd < 8 && t.openFiles[fd] == None && Given(t, file, t')
    ensures 0 <= i <= fd && StoredAt(t, i, file, t') && t'.parent == t.parent
    ensures forall j :: 0 <= j < i ==> t.openFiles[j] != None
  {
    i := FindDescriptor(t, 0);
  }

  lemma GivenState(t: Task, file: int, t': Task)
    requires |t.openFiles| == MAX_OPEN_FILES && Given(t, file, t')
    ensures t'.state == t.state
  {
    hide FindDescriptor;
    var fd := FindDescriptor(t, 0);
  }

  /** sys_fork fills the first unused slot: the child can run, and has its parent's open files. */
  lemma ForkTransition(s: Sys, pgdir: int, kstack: int, n: int)
    requires CoreInv(s) && Enabled(s, Fork(pgdir, kstack))
    requires IsSlot(n) && s.tasks[n].state == Unused && forall j :: 0 <= j < n ==> s.tasks[j].state != Unused
    ensures Step(s, Fork(pgdir, kstack)).Ok? && n != s.curr
    ensures
      var s' := Step(s, Fork(pgdir, kstack)).value;
      && OthersAfter(s, s', n) && s'.tasks[s.curr] == s.tasks[s.curr]
      && s'.tasks[n] == Task(Runnable, n, s.tasks[s.curr].openFiles, Some(s.curr), Some(pgdir), Some(kstack), false)
  {
    hide FindUnused;
    assert SlotCore(s.tasks[s.curr], s.curr, s.curr);
    var first := FindUnused(s.tasks, 0);
    assert first == n;
  }

  /** The task gives up the processor with this slot: the scheduler runs, and its loop has gone one further. */
  ghost predicate GivesUp(s: Sys, t: Task, s': Sys)
    requires WellFormed(s) && WellFormed(s')
  {
    && s'.curr == 0 && s'.scan == (s.scan + 1) % 1024
    && s'.tasks[s.curr] == t && s'.tasks[0] == s.tasks[0].(state := Running)
  }

  /** A tick: the task can run on. */
  lemma TickTransition(s: Sys)
    requires CoreInv(s) && s.curr != 0
    ensures Step(s, Timer).Ok?
    ensures
      var s' := Step(s, Timer).value;
      && GivesUp(s, s.tasks[s.curr].(state := Runnable), s') && s'.zombies == s.zombies
      && (forall j :: 0 < j < MAX_TASKS && j != s.curr ==> s'.tasks[j] == s.tasks[j])
  {
    assert SlotCore(s.tasks[s.curr], s.curr, s.curr);
  }

  /** Slot c is the first one whose parent is the running task. */
  predicate FirstChild(s: Sys, c: int)
    requires WellFormed(s)
  {
    IsSlot(c) && s.tasks[c].parent == Some(s.curr) && forall j :: 0 <= j < c ==> s.tasks[j].parent != Some(s.curr)
  }

  predicate NoChild(s: Sys)
    requires WellFormed(s)
  {
    forall j :: 0 <= j < MAX_TASKS ==> s.tasks[j].parent != Some(s.curr)
  }

  /** sys_wait sleeps exactly if there is a child and the first one is no zombie; otherwise it comes back at once. */
  lemma WaitTransition(s: Sys, c: int)
    requires CoreInv(s) && s.curr != 0
    requires FirstChild(s, c) || (c == MAX_TASKS && NoChild(s))
    ensures Step(s, Wait).Ok?
    ensures
      var s' := Step(s, Wait).value;
      if c < MAX_TASKS && s.tasks[c].state != Zombie then
        && GivesUp(s, s.tasks[s.curr].(state := Sleeping, waiting := true), s') && s'.zombies == s.zombies
        && (forall j :: 0 < j < MAX_TASKS && j != s.curr ==> s'.tasks[j] == s.tasks[j])
      else OthersAfter(s, s', s.curr) && s'.tasks[s.curr] == s.tasks[s.curr]
  {
    hide FindChild;
    assert SlotCore(s.tasks[s.curr], s.curr, s.curr);
    var first := FindChild(s.tasks, s.curr, 0);
    assert first == c;
  }

  /** sys_exit leaves a zombie and sets the flag; it wakes the parent up if that is a task that sleeps. */
  lemma ExitTransition(s: Sys)
    requires CoreInv(s) && s.curr != 0
    ensures Step(s, Exit).Ok? <==> s.tasks[s.curr].parent.Some?
    ensures Step(s, Exit).Ok? ==>
      var s', p := Step(s, Exit).value, s.tasks[s.curr].parent.value;
      && GivesUp(s, s.tasks[s.curr].(state := Zombie), s') && s'.zombies
      && (forall j :: 0 < j < MAX_TASKS && j != s.curr ==>
           s'.tasks[j] == if j == p && s.tasks[j].state == Sleeping then s.tasks[j].(state := Runnable) else s.tasks[j])
  {
    hide ExitTask;
    ExitEffect(s);
    assert SlotCore(s.tasks[0], 0, s.curr);
  }

  /** One look of schedule at the slot of its loop variable: a runnable task is switched to and, if it comes back from
      sleeping, has its zombie children freed; at another slot the loop goes on. */
  lemma ScanTransition(s: Sys)
    requires CoreInv(s) && s.curr == 0
    ensures Step(s, Scan).Ok?
    ensures
      var s', i := Step(s, Scan).value, s.scan;
      if s.tasks[i].state != Runnable then s' == s.(scan := (i + 1) % 1024) else
        && i != 0 && s'.curr == i && s'.scan == i && s'.zombies == (s.zombies && !s.tasks[i].waiting)
        && s'.tasks[i] == s.tasks[i].(state := Running, waiting := false)
        && s'.tasks[0] == s.tasks[0].(state := Runnable)
        && (forall j :: 0 < j < MAX_TASKS && j != i ==>
             s'.tasks[j] ==
             if s.tasks[i].waiting && s.zombies && s.tasks[j].parent == Some(i) && s.tasks[j].state == Zombie
             then FREE_TASK else s.tasks[j])
  {
    assert SlotCore(s.tasks[s.scan], s.scan, 0) && SlotCore(s.tasks[0], 0, 0);
  }
}
