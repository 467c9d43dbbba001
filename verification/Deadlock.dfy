/** Concrete runs from boot that end badly: a reused slot puts two tasks to sleep on each other, and a ninth open
    loses a wakeup. */
module Deadlock {
  import opened Machine
  import opened Tasks
  import opened Scheduling
  import opened SlotReuse
  import opened Runs

  /** A forked task without open files. */
  function Child(slot: int, state: State, parent: int): (t: Task)
    ensures |t.openFiles| == MAX_OPEN_FILES
  {
    Task(state, slot, NO_FILES, Some(parent), Some(1), Some(2), state == Sleeping)
  }

  /** init forks 2, which forks 3. */
  lemma Family() returns (es: seq<Event>, ts: seq<Task>)
    ensures ts == [INIT, Child(2, Running, 1), Child(3, Runnable, 2)] && Led(es, 2, 2, ts, false)
  {
    hide Led;
    es, ts := Begun();
    es, ts := Dispatched(es, ts, false, 1);
    es, ts := ForkedInto(es, ts, 1, 2);
    es, ts := Ticked(es, ts, false, 1);
    assert ts == [INIT, Child(2, Runnable, 1), FREE_TASK];
    es, ts := Dispatched(es, ts, false, 2);
    es, ts := ForkedInto(es, ts, 2, 3);
  }

  /** 2 exits, and the end of a system call of init frees its slot, while 3 still names it as its parent. */
  lemma Orphaned() returns (es: seq<Event>, ts: seq<Task>)
    ensures ts == [INIT, FREE_TASK, Child(3, Running, 2)] && Led(es, 3, 3, ts, false)
  {
    hide Led;
    es, ts := Family();
    es, ts := Exited(es, ts, false, 2, 1);
    assert ts == [INIT, Child(2, Zombie, 1), Child(3, Runnable, 2)];
    es, ts := Dispatched(es, ts, true, 3);
    es, ts := Ticked(es, ts, true, 3);
    es := Scanned(es, ts, true, 4, 1);
    es, ts := Dispatched(es, ts, true, 1);
    es, ts := Called(es, ts, true, 1);
    assert ts == [INIT.(state := Running), FREE_TASK, Child(3, Runnable, 2)];
    es, ts := Ticked(es, ts, false, 1);
    es := Scanned(es, ts, false, 2, 3);
    es, ts := Dispatched(es, ts, false, 3);
  }

  /** 3 forks into slot 2, so that each of the two is now the other's child, and both wait. */
  lemma BothAsleep() returns (es: seq<Event>, ts: seq<Task>)
    ensures ts == [INIT, Child(2, Sleeping, 3), Child(3, Sleeping, 2)] && Led(es, 0, 3, ts, false)
  {
    hide Led;
    es, ts := Orphaned();
    es, ts := ForkedInto(es, ts, 3, 2);
    assert ts == [INIT, Child(2, Runnable, 3), Child(3, Running, 2)];
    es, ts := Waited(es, ts, false, 3, 2);
    es := Scanned(es, ts, false, 4, 1);
    es, ts := Dispatched(es, ts, false, 1);
    es, ts := Ticked(es, ts, false, 1);
    assert ts == [INIT, Child(2, Runnable, 3), Child(3, Sleeping, 2)];
    es, ts := Dispatched(es, ts, false, 2);
    es, ts := Waited(es, ts, false, 2, 3);
  }

  lemma StuckOnEachOther(s: Sys)
    requires var ts := [INIT, Child(2, Sleeping, 3), Child(3, Sleeping, 2)]; IsThree(ts) && s == World(0, 3, ts, false)
    ensures Stuck(s, {2, 3}) && !Acyclic(s)
  {
    assert Ancestor(s, 2, 0) == Some(2) && Ancestor(s, 2, 1) == Some(3) && Ancestor(s, 2, 2) == Some(2);
  }

  /** A reachable deadlock: from boot two tasks end as each other's child, both asleep, and neither of them ever
      wakes up again. */
  lemma ReachableDeadlock()
    ensures exists es, s :: (
      && Reaches(Boot(0, 1, 2), es, s)
      && s.tasks[2].state == Sleeping && s.tasks[3].state == Sleeping
      && !Acyclic(s)
      && forall es', s' :: Reaches(s, es', s') ==> Stuck(s', {2, 3}))
  {
    hide Step, Reaches, Stuck, Acyclic, CoreInv, SysInv, Boot;
    var es, ts := BothAsleep();
    var s := World(0, 3, ts, false);
    StuckOnEachOther(s);
    StuckForEver(es, s, {2, 3});
    assert s.tasks[2].state == Sleeping && s.tasks[3].state == Sleeping;
  }

  lemma StuckForEver(es: seq<Event>, s: Sys, group: set<int>)
    requires Reaches(Boot(0, 1, 2), es, s) && Stuck(s, group)
    ensures forall es', s' :: Reaches(s, es', s') ==> Stuck(s', group)
  {
    hide Reaches, Stuck, CoreInv, SysInv, Boot;
    BootInv(0, 1, 2);
    SysInvIsCore(Boot(0, 1, 2));
    ReachableCore(Boot(0, 1, 2), es, s);
    StuckInEveryFuture(s, group);
  }

  // ----- A lost wakeup

  /** A task that has opened the console n times. */
  function Opens(t: Task, n: nat): (t': Task)
    requires |t.openFiles| == MAX_OPEN_FILES
    ensures |t'.openFiles| == MAX_OPEN_FILES && t'.state == t.state && t'.waiting == t.waiting
  {
    if n == 0 then t else StoreFile(Opens(t, n - 1), CONSOLE)
  }

  /** The number of console_file behind the file table. */
  const CONSOLE := 32

  lemma {:induction false} FillsDescriptors(t: Task, n: nat)
    requires t.openFiles == NO_FILES && n <= 8
    ensures Opens(t, n) == t.(openFiles := Opens(t, n).openFiles)
    ensures forall fd :: 0 <= fd < 8 ==> Opens(t, n).openFiles[fd] == if fd < n then Some(CONSOLE) else None
  {
    if n > 0 {
      FillsDescriptors(t, n - 1);
      FirstFree(Opens(t, n - 1), n - 1, 0);
    }
  }

  lemma {:induction false} FirstFree(t: Task, n: nat, fd: nat)
    requires |t.openFiles| == MAX_OPEN_FILES && fd <= n <= 8
    requires forall i :: 0 <= i < 8 ==> t.openFiles[i] == if i < n then Some(CONSOLE) else None
    ensures FindDescriptor(t, fd) == n
    decreases n - fd
  {
    if fd < n { FirstFree(t, n, fd + 1); }
  }

  /** The ninth time, the search for a descriptor ends at the parent. */
  lemma NinthOpen(t: Task)
    requires t.openFiles == NO_FILES
    ensures Opens(t, 9).parent == Some(MAX_TASKS + CONSOLE) &&
      Opens(t, 9).(openFiles := NO_FILES) == t.(parent := Opens(t, 9).parent)
  {
    FillsDescriptors(t, 8);
    FirstFree(Opens(t, 8), 8, 0);
  }

  lemma {:induction false} OpensAll(es: seq<Event>, ts: seq<Task>, j: int, n: nat) returns (es': seq<Event>)
    requires Led(es, j, j, ts, false) && 1 <= j <= 3
    ensures Led(es', j, j, ts[j - 1 := Opens(ts[j - 1], n)], false)
  {
    hide Reaches, StoreFile;
    if n == 0 {
      es' := es;
      assert ts[j - 1 := Opens(ts[j - 1], 0)] == ts;
    } else {
      es' := OpensAll(es, ts, j, n - 1);
      var ts1 := ts[j - 1 := Opens(ts[j - 1], n - 1)];
      var ts2;
      es', ts2 := Opened(es', ts1, j, CONSOLE);
      assert ts2 == ts[j - 1 := Opens(ts[j - 1], n)];
    }
  }

  /** init forks 2 and waits for it; 2 opens the console nine times and exits. */
  lemma ParentLost() returns (es: seq<Event>, ts: seq<Task>)
    ensures ts == [INIT.(state := Sleeping, waiting := true), Opens(Child(2, Running, 1), 9).(state := Zombie),
                   FREE_TASK]
    ensures Led(es, 0, 3, ts, true)
  {
    hide Led, Opens;
    es, ts := Begun();
    es, ts := Dispatched(es, ts, false, 1);
    es, ts := ForkedInto(es, ts, 1, 2);
    assert ts == [INIT.(state := Running), Child(2, Runnable, 1), FREE_TASK];
    es, ts := Waited(es, ts, false, 1, 2);
    es, ts := Dispatched(es, ts, false, 2);
    assert ts == [INIT.(state := Sleeping, waiting := true), Child(2, Running, 1), FREE_TASK];
    es := OpensAll(es, ts, 2, 9);
    ts := ts[1 := Opens(ts[1], 9)];
    NinthOpen(Child(2, Running, 1));
    es, ts := Exited(es, ts, false, 2, MAX_TASKS + CONSOLE);
  }

  lemma NobodyLeft(s: Sys)
    requires
      var ts := [INIT.(state := Sleeping, waiting := true), Opens(Child(2, Running, 1), 9).(state := Zombie),
                 FREE_TASK];
      IsThree(ts) && s == World(0, 3, ts, true)
    ensures Stuck(s, {1}) && s.tasks[1].state == Sleeping && !HasLiveChild(s, 1)
    ensures forall i :: 1 <= i < MAX_TASKS ==> s.tasks[i].state != Runnable
  {
    hide Opens;
    NinthOpen(Child(2, Running, 1));
  }

  /** A lost wakeup: a child that opens a ninth file exits without waking its sleeping parent. Here the parent is
      init; it sleeps for ever, without a live child, and the scheduler finds nobody to run. */
  lemma ReachableLostWakeup()
    ensures exists es, s :: (
      && Reaches(Boot(0, 1, 2), es, s)
      && s.tasks[1].state == Sleeping && !HasLiveChild(s, 1)
      && s.curr == 0 && (forall i :: 1 <= i < MAX_TASKS ==> s.tasks[i].state != Runnable)
      && forall es', s' :: Reaches(s, es', s') ==> Stuck(s', {1}))
  {
    hide Step, Reaches, Stuck, CoreInv, SysInv, Boot, HasLiveChild, Opens;
    var es, ts := ParentLost();
    var s := World(0, 3, ts, true);
    NobodyLeft(s);
    StuckForEver(es, s, {1});
  }
}
