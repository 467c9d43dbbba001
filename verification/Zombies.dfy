/** When kill_off_zombies frees a zombie: the flag zombie_exists is one for all parents. */
module Zombies {
  import opened Machine
  import opened Tasks
  import opened Scheduling
  import opened Runs
  import opened Deadlock

  /** The task whose system call ends in this step, if one does: the running task, unless it sleeps or exits, or
      the task that comes back from sleeping in sys_wait. */
  function Finisher(s: Sys, e: Event): Option<int>
    requires WellFormed(s) && Enabled(s, e)
  {
    match e
    case Scan => if s.tasks[s.scan].state == Runnable && s.tasks[s.scan].waiting then Some(s.scan) else None
    case Wait =>
      var c := FindChild(s.tasks, s.curr, 0);
      if c == MAX_TASKS || s.tasks[c].state == Zombie then Some(s.curr) else None
    case Exit => None
    case Timer => None
    case Serial => None
    case _ => Some(s.curr)
  }

  /** A zombie is freed in a step if and only if a system call of its parent ends there while the flag is set. */
  lemma ZombieFreedIff(s: Sys, e: Event, z: int)
    requires CoreInv(s) && Enabled(s, e) && Step(s, e).Ok? && IsSlot(z) && s.tasks[z].state == Zombie
    ensures
      var t' := Step(s, e).value.tasks[z];
      && (t'.state == Unused <==> s.zombies && Finisher(s, e).Some? && s.tasks[z].parent == Finisher(s, e))
      && (t'.state != Unused ==> t' == s.tasks[z])
  {
    hide Reap, ExitTask, ForkTask, StoreFile;
    assert SlotCore(s.tasks[z], z, s.curr) && SlotCore(s.tasks[s.curr], s.curr, s.curr);
    match e
    case Scan => if s.tasks[s.scan].state == Runnable {
      assert SlotCore(s.tasks[s.scan], s.scan, s.curr);
      var s1 := SwitchTo(s, s.scan);
      ReapFrees(s1.(tasks := s1.tasks[s.scan := s1.tasks[s.scan].(waiting := false)]), z);
    }
    case Fork(pgdir, kstack) =>
      ForkTransition(s, pgdir, kstack, z);
      ForkTransition(s, pgdir, kstack, s.curr);
      ForkKeepsFlag(s, pgdir, kstack);
      ReapFrees(ForkTask(s, pgdir, kstack), z);
    case Execv(newPgdir) => ReapFrees(ExecTask(s, newPgdir), z);
    case Exit => ExitEffect(s);
    case Wait => ReapFrees(s, z);
    case Open(file) =>
      if file.Some? { CoreByStore(s, file.value); }
      StoreKeepsState(s, file);
      ReapFrees(OpenTask(s, file), z);
    case Close(fd) => ReapFrees(CloseTask(s, fd), z);
    case OtherSyscall => ReapFrees(s, z);
    case Timer =>
    case Serial =>
  }

  lemma ReapFrees(s: Sys, z: int)
    requires WellFormed(s) && IsSlot(z) && s.tasks[z].state == Zombie && s.tasks[s.curr].state == Running
    ensures Reap(s).tasks[z] == if s.zombies && s.tasks[z].parent == Some(s.curr) then FREE_TASK else s.tasks[z]
  {}

  lemma ForkKeepsFlag(s: Sys, pgdir: int, kstack: int)
    requires WellFormed(s) && FindUnused(s.tasks, 0) < MAX_TASKS
    ensures ForkTask(s, pgdir, kstack).zombies == s.zombies
  {}

  lemma StoreKeepsState(s: Sys, file: Option<int>)
    requires WellFormed(s)
    ensures OpenTask(s, file).tasks[s.curr].state == s.tasks[s.curr].state
    ensures OpenTask(s, file).zombies == s.zombies && OpenTask(s, file).curr == s.curr
    ensures forall i :: 0 <= i < MAX_TASKS && i != s.curr ==> OpenTask(s, file).tasks[i] == s.tasks[i]
  {}

  /** Only exits set the flag. */
  lemma FlagStaysClear(s: Sys, e: Event)
    requires WellFormed(s) && Enabled(s, e) && !e.Exit? && !s.zombies
    ensures Step(s, e).Ok? && !Step(s, e).value.zombies
  {
    hide FindUnused, FindChild, StoreFile;
  }

  predicate NoExit(es: seq<Event>) {
    forall i :: 0 <= i < |es| ==> !es[i].Exit?
  }

  /** Once the flag is clear, whoever cleared it, no zombie is freed before another task exits. */
  lemma {:induction false} ZombiesStay(s: Sys, es: seq<Event>, s': Sys, z: int)
    requires CoreInv(s) && !s.zombies && Reaches(s, es, s') && NoExit(es)
    requires IsSlot(z) && s.tasks[z].state == Zombie
    ensures s'.tasks[z] == s.tasks[z]
    decreases |es|
  {
    hide Step, CoreInv;
    if es != [] {
      StepKeepsCore(s, es[0]);
      FlagStaysClear(s, es[0]);
      ZombieFreedIff(s, es[0], z);
      ZombiesStay(Step(s, es[0]).value, es[1..], s', z);
    }
  }

  // ----- A zombie that outlives a system call of its parent

  /** 3 exits while its parent 2 is runnable; a system call of init clears the flag. */
  lemma FlagCleared() returns (es: seq<Event>, ts: seq<Task>)
    ensures ts == [INIT, Child(2, Running, 1), Child(3, Zombie, 2)] && Led(es, 2, 2, ts, false)
  {
    hide Led;
    es, ts := Family();
    es, ts := Ticked(es, ts, false, 2);
    es, ts := Dispatched(es, ts, false, 3);
    assert ts == [INIT, Child(2, Runnable, 1), Child(3, Running, 2)];
    es, ts := Exited(es, ts, false, 3, 2);
    es := Scanned(es, ts, true, 4, 1);
    es, ts := Dispatched(es, ts, true, 1);
    es, ts := Called(es, ts, true, 1);
    assert ts == [INIT.(state := Running), Child(2, Runnable, 1), Child(3, Zombie, 2)];
    es, ts := Ticked(es, ts, false, 1);
    es, ts := Dispatched(es, ts, false, 2);
  }

  /** Not every zombie is reaped by its parent's next system call: from boot a state is reached in which the parent
      of a zombie runs, and whatever it and the others do, the zombie stays until another task exits. */
  lemma ReachableZombie()
    ensures exists es, s :: (
      && Reaches(Boot(0, 1, 2), es, s)
      && s.curr == 2 && s.tasks[3].state == Zombie && s.tasks[3].parent == Some(2)
      && forall es', s': Sys :: Reaches(s, es', s') && NoExit(es') ==> s'.tasks[3] == s.tasks[3])
  {
    hide Reaches, CoreInv, SysInv, Boot;
    var es, ts := FlagCleared();
    var s := World(2, 2, ts, false);
    BootInv(0, 1, 2);
    SysInvIsCore(Boot(0, 1, 2));
    ReachableCore(Boot(0, 1, 2), es, s);
    assert s.tasks[3] == Child(3, Zombie, 2);
    StaysInEveryFuture(s, 3);
  }

  lemma StaysInEveryFuture(s: Sys, z: int)
    requires CoreInv(s) && !s.zombies && IsSlot(z) && s.tasks[z].state == Zombie
    ensures forall es', s': Sys :: Reaches(s, es', s') && NoExit(es') ==> s'.tasks[z] == s.tasks[z]
  {
    hide Step, CoreInv;
    forall es', s': Sys | Reaches(s, es', s') && NoExit(es') ensures s'.tasks[z] == s.tasks[z] {
      ZombiesStay(s, es', s', z);
    }
  }
}
