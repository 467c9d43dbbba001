/** Concrete runs from boot, move by move, with at most three user tasks. */
module Runs {
  import opened Machine
  import opened Tasks
  import opened Scheduling

  predicate IsThree(ts: seq<Task>) {
    |ts| == 3 && forall i :: 0 <= i < 3 ==> |ts[i].openFiles| == MAX_OPEN_FILES
  }

  /** The table in which ts are the slots 1, 2 and 3, and the others are unused. */
  function World(curr: int, scan: int, ts: seq<Task>, zombies: bool): (s: Sys)
    requires 0 <= curr <= 3 && IsSlot(scan) && IsThree(ts)
    ensures WellFormed(s)
  {
    Sys(seq(1024, i requires 0 <= i < 1024 =>
              if i == 0 then Task(if curr == 0 then Running else Runnable, 0, NO_FILES, None, Some(0), None, false)
              else if i <= 3 then ts[i - 1] else FREE_TASK),
        curr, scan, zombies)
  }

  function Start(): (s: Sys)
    ensures WellFormed(s)
  {
    Boot(0, 1, 2)
  }

  /** Slot j in another state. */
  function Set(ts: seq<Task>, j: int, state: State): (ts': seq<Task>)
    requires IsThree(ts) && 1 <= j <= 3
    ensures IsThree(ts')
  {
    ts[j - 1 := ts[j - 1].(state := state)]
  }

  /** The events lead from boot to this world. */
  ghost predicate Led(es: seq<Event>, curr: int, scan: int, ts: seq<Task>, z: bool) {
    0 <= curr <= 3 && IsSlot(scan) && IsThree(ts) && Reaches(Start(), es, World(curr, scan, ts, z))
  }

  lemma {:induction false} ReachesThen(s: Sys, es: seq<Event>, s1: Sys, e: Event, s2: Sys)
    requires Reaches(s, es, s1) && Enabled(s1, e) && Step(s1, e) == Ok(s2)
    ensures Reaches(s, es + [e], s2)
    decreases |es|
  {
    hide Step;
    if es == [] {
      assert Reaches(s2, [], s2);
      assert (es + [e])[1..] == [];
    } else {
      ReachesThen(Step(s, es[0]).value, es[1..], s1, e, s2);
      assert (es + [e])[1..] == es[1..] + [e];
    }
  }

  /** One more event, whose result is a world. */
  lemma Moved(es: seq<Event>, curr: int, scan: int, ts: seq<Task>, z: bool, e: Event, curr': int, scan': int,
              ts': seq<Task>, z': bool)
      returns (es': seq<Event>)
    requires Led(es, curr, scan, ts, z) && Enabled(World(curr, scan, ts, z), e)
    requires 0 <= curr' <= 3 && IsSlot(scan') && IsThree(ts')
    requires Step(World(curr, scan, ts, z), e) == Ok(World(curr', scan', ts', z'))
    ensures Led(es', curr', scan', ts', z')
  {
    hide Step, Reaches, World;
    es' := es + [e];
    ReachesThen(Start(), es, World(curr, scan, ts, z), e, World(curr', scan', ts', z'));
  }

  const INIT := Task(Runnable, 1, NO_FILES, None, Some(1), Some(2), false)

  lemma Begun() returns (es: seq<Event>, ts: seq<Task>)
    ensures ts == [INIT, FREE_TASK, FREE_TASK] && Led(es, 0, 1, ts, false)
  {
    ts := [INIT, FREE_TASK, FREE_TASK];
    assert World(0, 0, ts, false).tasks == Start().tasks;
    assert Led([], 0, 0, ts, false);
    es := Scanned([], ts, false, 0, 1);
  }

  /** The scheduler passes over slots that are not runnable. */
  lemma {:induction false} Scanned(es: seq<Event>, ts: seq<Task>, z: bool, from: int, to: int) returns (es': seq<Event>)
    requires Led(es, 0, from, ts, z) && IsSlot(to)
    requires from <= to ==> forall i :: 0 <= i < 3 && from <= i + 1 < to ==> ts[i].state != Runnable
    requires from > to ==> forall i :: 0 <= i < 3 && (from <= i + 1 || i + 1 < to) ==> ts[i].state != Runnable
    ensures Led(es', 0, to, ts, z)
    decreases if from <= to then to - from else to - from + MAX_TASKS
  {
    hide Reaches;
    if from == to {
      es' := es;
    } else {
      var next := (from + 1) % 1024;
      assert Step(World(0, from, ts, z), Scan).value.tasks == World(0, next, ts, z).tasks;
      es' := Moved(es, 0, from, ts, z, Scan, 0, next, ts, z);
      es' := Scanned(es', ts, z, next, to);
    }
  }

  lemma Dispatched(es: seq<Event>, ts: seq<Task>, z: bool, j: int) returns (es': seq<Event>, ts': seq<Task>)
    requires Led(es, 0, j, ts, z) && 1 <= j <= 3 && ts[j - 1].state == Runnable && !ts[j - 1].waiting
    ensures ts' == Set(ts, j, Running) && Led(es', j, j, ts', z)
  {
    hide Reaches;
    ts' := Set(ts, j, Running);
    assert Step(World(0, j, ts, z), Scan).value.tasks == World(j, j, ts', z).tasks;
    es' := Moved(es, 0, j, ts, z, Scan, j, j, ts', z);
  }

  lemma Ticked(es: seq<Event>, ts: seq<Task>, z: bool, j: int) returns (es': seq<Event>, ts': seq<Task>)
    requires Led(es, j, j, ts, z) && 1 <= j <= 3 && ts[j - 1].state == Running
    ensures ts' == Set(ts, j, Runnable) && Led(es', 0, j + 1, ts', z)
  {
    hide Reaches;
    ts' := Set(ts, j, Runnable);
    assert Step(World(j, j, ts, z), Timer).value.tasks == World(0, j + 1, ts', z).tasks;
    es' := Moved(es, j, j, ts, z, Timer, 0, j + 1, ts', z);
  }

  lemma FirstUnused(ts: seq<Task>, curr: int, scan: int, z: bool, n: int, i: int)
    requires 0 <= curr <= 3 && IsSlot(scan) && IsThree(ts) && 0 <= i <= n && 1 <= n <= 3
    requires ts[n - 1].state == Unused && forall k :: 0 <= k < n - 1 ==> ts[k].state != Unused
    ensures FindUnused(World(curr, scan, ts, z).tasks, i) == n
    decreases n - i
  {
    if i < n { FirstUnused(ts, curr, scan, z, n, i + 1); }
  }

  /** The child that slot j gets by forking into slot n. */
  function ChildOf(ts: seq<Task>, j: int, n: int): Task
    requires IsThree(ts) && 1 <= j <= 3
  {
    Task(Runnable, n, ts[j - 1].openFiles, Some(j), Some(1), Some(2), false)
  }

  lemma ForkedInto(es: seq<Event>, ts: seq<Task>, j: int, n: int) returns (es': seq<Event>, ts': seq<Task>)
    requires Led(es, j, j, ts, false) && 1 <= j <= 3 && 1 <= n <= 3
    requires ts[n - 1].state == Unused && forall i :: 0 <= i < n - 1 ==> ts[i].state != Unused
    ensures ts' == ts[n - 1 := ChildOf(ts, j, n)] && Led(es', j, j, ts', false)
  {
    hide Reaches, FindUnused;
    ts' := ts[n - 1 := ChildOf(ts, j, n)];
    FirstUnused(ts, j, j, false, n, 0);
    assert Step(World(j, j, ts, false), Fork(1, 2)).value.tasks == World(j, j, ts', false).tasks;
    es' := Moved(es, j, j, ts, false, Fork(1, 2), j, j, ts', false);
  }

  /** The parent p of a task that exits wakes up, if it is a task that sleeps. */
  function Woken(ts: seq<Task>, p: int): (ts': seq<Task>)
    requires IsThree(ts)
    ensures IsThree(ts')
  {
    if 1 <= p <= 3 && ts[p - 1].state == Sleeping then Set(ts, p, Runnable) else ts
  }

  lemma Exited(es: seq<Event>, ts: seq<Task>, z: bool, j: int, p: int) returns (es': seq<Event>, ts': seq<Task>)
    requires Led(es, j, j, ts, z) && 1 <= j <= 3 && ts[j - 1].state == Running && ts[j - 1].parent == Some(p)
    requires 1 <= p <= 3 || p >= MAX_TASKS
    ensures ts' == Woken(Set(ts, j, Zombie), p) && Led(es', 0, j + 1, ts', true)
  {
    hide Reaches;
    ts' := Woken(Set(ts, j, Zombie), p);
    assert Step(World(j, j, ts, z), Exit).value.tasks == World(0, j + 1, ts', true).tasks;
    es' := Moved(es, j, j, ts, z, Exit, 0, j + 1, ts', true);
  }

  lemma FirstChild(ts: seq<Task>, curr: int, scan: int, z: bool, p: int, c: int, i: int)
    requires 0 <= curr <= 3 && IsSlot(scan) && IsThree(ts) && 0 <= i <= c && 1 <= c <= 3
    requires ts[c - 1].parent == Some(p) && forall k :: 0 <= k < c - 1 ==> ts[k].parent != Some(p)
    ensures FindChild(World(curr, scan, ts, z).tasks, p, i) == c
    decreases c - i
  {
    if i < c { FirstChild(ts, curr, scan, z, p, c, i + 1); }
  }

  /** Slot j inside sys_wait. */
  function Asleep(ts: seq<Task>, j: int): (ts': seq<Task>)
    requires IsThree(ts) && 1 <= j <= 3
    ensures IsThree(ts')
  {
    ts[j - 1 := ts[j - 1].(state := Sleeping, waiting := true)]
  }

  lemma Waited(es: seq<Event>, ts: seq<Task>, z: bool, j: int, c: int) returns (es': seq<Event>, ts': seq<Task>)
    requires Led(es, j, j, ts, z) && 1 <= j <= 3 && ts[j - 1].state == Running && 1 <= c <= 3
    requires ts[c - 1].parent == Some(j) && ts[c - 1].state != Zombie && forall i :: 0 <= i < c - 1 ==>
      ts[i].parent != Some(j)
    ensures ts' == Asleep(ts, j) && Led(es', 0, j + 1, ts', z)
  {
    hide Reaches, FindChild;
    ts' := Asleep(ts, j);
    FirstChild(ts, j, j, z, j, c, 0);
    assert Step(World(j, j, ts, z), Wait).value.tasks == World(0, j + 1, ts', z).tasks;
    es' := Moved(es, j, j, ts, z, Wait, 0, j + 1, ts', z);
  }

  /** The zombie children of slot j are freed. */
  function AllReaped(ts: seq<Task>, j: int): (ts': seq<Task>)
    requires IsThree(ts)
    ensures IsThree(ts')
  {
    seq(3, i requires 0 <= i < 3 => if Reapable(ts[i], j) then FREE_TASK else ts[i])
  }

  /** Any system call that changes no task: the reaper runs behind it and clears the flag. */
  lemma Called(es: seq<Event>, ts: seq<Task>, z: bool, j: int) returns (es': seq<Event>, ts': seq<Task>)
    requires Led(es, j, j, ts, z) && 1 <= j <= 3 && ts[j - 1].state == Running
    ensures ts' == (if z then AllReaped(ts, j) else ts) && Led(es', j, j, ts', false)
  {
    hide Reaches;
    ts' := if z then AllReaped(ts, j) else ts;
    assert Step(World(j, j, ts, z), OtherSyscall).value.tasks == World(j, j, ts', false).tasks;
    es' := Moved(es, j, j, ts, z, OtherSyscall, j, j, ts', false);
  }

  /** sys_open of a file. */
  lemma Opened(es: seq<Event>, ts: seq<Task>, j: int, file: int) returns (es': seq<Event>, ts': seq<Task>)
    requires Led(es, j, j, ts, false) && 1 <= j <= 3 && file >= 0
    ensures ts' == ts[j - 1 := StoreFile(ts[j - 1], file)] && Led(es', j, j, ts', false)
  {
    hide Reaches, StoreFile;
    ts' := ts[j - 1 := StoreFile(ts[j - 1], file)];
    assert Step(World(j, j, ts, false), Open(Some(file))).value.tasks == World(j, j, ts', false).tasks;
    es' := Moved(es, j, j, ts, false, Open(Some(file)), j, j, ts', false);
  }
}
