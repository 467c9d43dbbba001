/** Whole-run properties of the scheduler: which state changes happen, that the scheduler never starves for
    work, that nobody waits longer than one round, and what reusing a task slot can do to sleepers. */
module Scheduling {
  import opened Machine
  import opened Tasks

  // ----- The state machine of a task

  /** From one step to the next, for every slot: the scheduler is at one end of every switch; a zombie stays or is
      freed, the latter by its running parent; only exit makes one; a slot comes to life only through a fork of the
      running task; a runnable task only changes by being dispatched; a sleeper only wakes when a child exits; the
      pid never changes during a task's life, and the parent only by an open without a free descriptor. */
  ghost predicate Transition(s: Sys, e: Event, s': Sys)
    requires WellFormed(s) && WellFormed(s')
  {
    && (s'.curr == s.curr || s.curr == 0 || s'.curr == 0)
    && (forall i {:trigger s'.tasks[i]} :: 0 <= i < MAX_TASKS ==> TaskTransition(s, e, s', i))
  }

  ghost predicate TaskTransition(s: Sys, e: Event, s': Sys, i: int)
    requires WellFormed(s) && WellFormed(s') && IsSlot(i)
  {
    var t, t' := s.tasks[i], s'.tasks[i];
    && (t.state == Zombie ==> t'.state == Zombie || (t' == FREE_TASK && t.parent == Some(s'.curr)))
    && (t.state == Unused && t'.state != Unused ==>
          e.Fork? && i == FindUnused(s.tasks, 0) && t'.state == Runnable && t'.parent == Some(s.curr))
    && (t.state == Runnable ==> t'.state == if s'.curr == i then Running else Runnable)
    && (t.state == Sleeping ==>
          t'.state == Sleeping || (t'.state == Runnable && e.Exit? && s.tasks[s.curr].parent == Some(i)))
    && (t.state == Running ==> t'.state != Unused)
    && (t.state != Zombie && t'.state == Zombie ==> e.Exit? && i == s.curr)
    && (t.state != Unused && t'.state != Unused ==>
          t'.pid == t.pid && (t'.parent == t.parent || (OverwritesParent(s, e) && i == s.curr)))
  }

  lemma ReapTransition(s: Sys, i: int)
    requires CoreInv(s) && IsSlot(i)
    ensures Reap(s).curr == s.curr && Reap(s).scan == s.scan
    ensures Reap(s).tasks[i] == s.tasks[i] || (Reapable(s.tasks[i], s.curr) && Reap(s).tasks[i] == FREE_TASK)
  {}

  lemma StepTransition(s: Sys, e: Event)
    requires CoreInv(s) && Enabled(s, e) && Step(s, e).Ok?
    ensures Transition(s, e, Step(s, e).value)
  {
    hide Step;
    StepScan(s, e);
    forall i | 0 <= i < MAX_TASKS ensures TaskTransition(s, e, Step(s, e).value, i) {
      StepTaskTransition(s, e, i);
    }
  }

  lemma StepTaskTransition(s: Sys, e: Event, i: int)
    requires CoreInv(s) && Enabled(s, e) && Step(s, e).Ok? && IsSlot(i)
    ensures TaskTransition(s, e, Step(s, e).value, i)
  {
    hide Reap, ExitTask, WaitTask, Yield, Dispatch, ForkTask;
    assert SlotCore(s.tasks[s.curr], s.curr, s.curr) && SlotCore(s.tasks[0], 0, s.curr);
    assert SlotCore(s.tasks[i], i, s.curr);
    match e
    case Scan =>
      if s.tasks[s.scan].state == Runnable {
        DispatchTransition(s, i);
      }
    case Fork(pgdir, kstack) =>
      CoreByFork(s, pgdir, kstack);
      ReapTransition(ForkTask(s, pgdir, kstack), i);
      ForkTransition(s, pgdir, kstack, i);
    case Execv(newPgdir) => ReapOfSameTasks(s, ExecTask(s, newPgdir), i);
    case Exit => ExitEffect(s);
    case Wait => WaitTransition(s, i);
    case Open(file) => OpenTransition(s, file, i);
    case Close(fd) => ReapOfSameTasks(s, CloseTask(s, fd), i);
    case OtherSyscall => ReapTransition(s, i);
    case Timer => TimerTransition(s, i);
    case Serial =>
  }

  lemma ForkTransition(s: Sys, pgdir: int, kstack: int, i: int)
    requires CoreInv(s) && s.curr != 0 && FindUnused(s.tasks, 0) < MAX_TASKS && IsSlot(i)
    ensures ForkTask(s, pgdir, kstack).curr == s.curr
    ensures ForkTask(s, pgdir, kstack).tasks[i] ==
      if i == FindUnused(s.tasks, 0) then
        Task(Runnable, i, s.tasks[s.curr].openFiles, Some(s.curr), Some(pgdir), Some(kstack), false)
      else s.tasks[i]
  {}

  lemma OpenTransition(s: Sys, file: Option<int>, i: int)
    requires CoreInv(s) && s.curr != 0 && IsSlot(i) && (file.Some? ==> file.value >= 0)
    ensures Reap(OpenTask(s, file)).curr == s.curr
    ensures TaskTransition(s, Open(file), Reap(OpenTask(s, file)), i)
  {
    hide Reap;
    assert SlotCore(s.tasks[s.curr], s.curr, s.curr) && SlotCore(s.tasks[i], i, s.curr);
    var s1 := OpenTask(s, file);
    if file.Some? { CoreByStore(s, file.value); }
    ReapTransition(s1, i);
  }

  lemma WaitTransition(s: Sys, i: int)
    requires CoreInv(s) && s.curr != 0 && IsSlot(i)
    ensures TaskTransition(s, Wait, WaitTask(s), i)
  {
    hide Reap, SwitchTo, FindChild;
    assert SlotCore(s.tasks[s.curr], s.curr, s.curr) && SlotCore(s.tasks[0], 0, s.curr);
    assert SlotCore(s.tasks[i], i, s.curr);
    ReapTransition(s, i);
  }

  lemma TimerTransition(s: Sys, i: int)
    requires CoreInv(s) && s.curr != 0 && IsSlot(i)
    ensures TaskTransition(s, Timer, Yield(s), i)
  {
    assert SlotCore(s.tasks[s.curr], s.curr, s.curr) && SlotCore(s.tasks[0], 0, s.curr);
    assert SlotCore(s.tasks[i], i, s.curr);
  }

  lemma ReapOfSameTasks(s: Sys, s1: Sys, i: int)
    requires CoreInv(s) && IsSlot(i) && WellFormed(s1) && s1.curr == s.curr
    requires s1.tasks[i].state == s.tasks[i].state && s1.tasks[i].parent == s.tasks[i].parent
    ensures Reap(s1).curr == s.curr
    ensures Reap(s1).tasks[i] == s1.tasks[i] || (Reapable(s.tasks[i], s.curr) && Reap(s1).tasks[i] == FREE_TASK)
  {}

  lemma DispatchTransition(s: Sys, i: int)
    requires CoreInv(s) && s.curr == 0 && s.tasks[s.scan].state == Runnable && IsSlot(i)
    ensures Dispatch(s, s.scan).curr == s.scan && Dispatch(s, s.scan).scan == s.scan
    ensures TaskTransition(s, Scan, Dispatch(s, s.scan), i)
  {
    assert SlotCore(s.tasks[s.scan], s.scan, s.curr) && SlotCore(s.tasks[0], 0, s.curr);
    assert SlotCore(s.tasks[i], i, s.curr);
  }

  // ----- The scheduler always finds work

  lemma {:induction false} Pigeonhole(xs: seq<int>, n: nat)
    requires NoDuplicates(xs) && forall k :: 0 <= k < |xs| ==> 0 <= xs[k] < n
    ensures |xs| <= n
  {
    if n == 0 {
    } else if n - 1 in xs {
      var k :| 0 <= k < |xs| && xs[k] == n - 1;
      var ys := xs[..k] + xs[k + 1..];
      assert forall j :: 0 <= j < |ys| ==> ys[j] == xs[if j < k then j else j + 1];
      Pigeonhole(ys, n - 1);
    } else {
      Pigeonhole(xs, n - 1);
    }
  }

  /** chain[0] is init, and every further task is a live child of the one before. */
  ghost predicate IsChain(s: Sys, chain: seq<int>)
    requires WellFormed(s)
  {
    && chain != [] && chain[0] == 1
    && (forall k :: 0 <= k < |chain| ==> IsSlot(chain[k]) && Live(s.tasks[chain[k]]))
    && (forall k :: 1 <= k < |chain| ==> s.tasks[chain[k]].parent == Some(chain[k - 1]))
    && NoDuplicates(chain)
  }

  lemma NewInChain(s: Sys, chain: seq<int>, c: int)
    requires SysInv(s) && IsChain(s, chain)
    requires IsSlot(c) && s.tasks[c].parent == Some(chain[|chain| - 1])
    ensures c !in chain
  {
    forall k | 0 <= k < |chain| ensures chain[k] != c {
      assert k > 0 ==> s.tasks[chain[k]].parent == Some(chain[k - 1]);
      assert SlotOk(s.tasks[1], 1, s.curr);
    }
  }

  /** Following live children from init never comes back to a task already met, since init has no parent
      and every other task has only one. So it ends, at a task that does not sleep. */
  lemma {:induction false} ChainEnds(s: Sys, chain: seq<int>) returns (j: int)
    requires SysInv(s) && s.curr == 0 && IsChain(s, chain)
    ensures IsSlot(j) && j != 0 && s.tasks[j].state == Runnable
    decreases MAX_TASKS - |chain|
  {
    var last := chain[|chain| - 1];
    assert SlotOk(s.tasks[last], last, s.curr) && SlotOk(s.tasks[0], 0, s.curr) && SlotOk(s.tasks[1], 1, s.curr);
    assert |chain| > 1 ==> s.tasks[last].parent == Some(chain[|chain| - 2]);
    if s.tasks[last].state == Sleeping {
      assert HasLiveChild(s, last);
      var c :| 0 <= c < MAX_TASKS && s.tasks[c].parent == Some(last) && Live(s.tasks[c]);
      var longer := chain + [c];
      NewInChain(s, chain, c);
      Pigeonhole(longer, MAX_TASKS);
      j := ChainEnds(s, longer);
    } else {
      j := last;
    }
  }

  /** Whenever the scheduler is current, in any reachable state, some task other than the scheduler is
      runnable: the loop of schedule never runs empty. */
  lemma Progress(s: Sys)
    requires SysInv(s) && s.curr == 0
    ensures exists j :: IsSlot(j) && j != 0 && s.tasks[j].state == Runnable
  {
    assert SlotOk(s.tasks[1], 1, s.curr);
    var j := ChainEnds(s, [1]);
  }

  /** n iterations of the loop of schedule. */
  function Scans(n: nat): (es: seq<Event>)
    ensures |es| == n
  {
    if n == 0 then [] else [Scan] + Scans(n - 1)
  }

  /** ... and within 1024 iterations it dispatches a task. */
  lemma SchedulerDispatches(s: Sys)
    requires SysInv(s) && s.curr == 0
    ensures exists n: nat, s' :: 1 <= n <= MAX_TASKS && Reaches(s, Scans(n), s') && s'.curr != 0
  {
    Progress(s);
    var j :| IsSlot(j) && j != 0 && s.tasks[j].state == Runnable;
    var n, s' := ScanTo(s, j);
  }

  lemma {:induction false} ScanTo(s: Sys, j: int) returns (n: nat, s': Sys)
    requires SysInv(s) && s.curr == 0 && IsSlot(j) && s.tasks[j].state == Runnable
    ensures 1 <= n <= Distance(s, j) + 1 && Reaches(s, Scans(n), s') && s'.curr != 0
    decreases Distance(s, j)
  {
    hide Step;
    SysInvIsCore(s);
    StepKeepsInv(s, Scan);
    var s1 := Step(s, Scan).value;
    StepScan(s, Scan);
    if s1.curr != 0 {
      n, s' := 1, s1;
      assert Scans(1) == [Scan] && Scans(1)[1..] == [];
    } else {
      assert s.scan != j;
      assert SlotOk(s.tasks[0], 0, s.curr);
      StepDistance(s, Scan, j);
      var n1;
      n1, s' := ScanTo(s1, j);
      n := n1 + 1;
      assert Scans(n)[0] == Scan && Scans(n)[1..] == Scans(n1);
    }
  }

  // ----- Nobody waits longer than one round

  /** How many times the loop variable of schedule has to move on to arrive at slot j. */
  function Distance(s: Sys, j: int): (d: int)
    requires WellFormed(s) && IsSlot(j)
    ensures 0 <= d < MAX_TASKS
    ensures d == 0 <==> s.scan == j
  {
    if s.scan <= j then j - s.scan else j - s.scan + MAX_TASKS
  }

  /** How often the loop variable moves on in a run. */
  ghost function Moves(s: Sys, es: seq<Event>): nat
    requires WellFormed(s)
    decreases |es|
  {
    if es == [] || !Enabled(s, es[0]) || Step(s, es[0]).Panic? then 0 else
    var s1 := Step(s, es[0]).value;
    (if s1.scan == s.scan then 0 else 1) + Moves(s1, es[1..])
  }

  /** How often the scheduler dispatches slot k in a run. */
  ghost function Dispatches(s: Sys, es: seq<Event>, k: int): nat
    requires WellFormed(s)
    decreases |es|
  {
    if es == [] || !Enabled(s, es[0]) || Step(s, es[0]).Panic? then 0 else
    var s1 := Step(s, es[0]).value;
    (if s.curr == 0 && s1.curr == k then 1 else 0) + Dispatches(s1, es[1..], k)
  }

  /** One step either dispatches the slot under the loop variable, or moves the loop variable on by one and
      makes the scheduler current, or changes neither. */
  lemma StepScan(s: Sys, e: Event)
    requires CoreInv(s) && Enabled(s, e) && Step(s, e).Ok?
    ensures
      var s' := Step(s, e).value;
      || (s.curr == 0 && s'.curr == s.scan == s'.scan && s.scan != 0 && s.tasks[s.scan].state == Runnable)
      || (s'.curr == 0 && s'.scan == (s.scan + 1) % 1024 && (s.curr == 0 ==> s.tasks[s.scan].state != Runnable))
      || (s.curr != 0 && s'.curr == s.curr && s'.scan == s.scan)
  {
    hide Reap, ExitTask;
    assert SlotCore(s.tasks[s.curr], s.curr, s.curr) && SlotCore(s.tasks[s.scan], s.scan, s.curr);
    match e
    case Scan => if s.tasks[s.scan].state == Runnable { DispatchTransition(s, s.scan); }
    case Fork(pgdir, kstack) =>
      CoreByFork(s, pgdir, kstack);
      ReapTransition(ForkTask(s, pgdir, kstack), 0);
    case Execv(newPgdir) => ReapKeepsCurr(ExecTask(s, newPgdir));
    case Exit => ExitScans(s);
    case Wait => ReapTransition(s, 0);
    case Open(file) => ReapKeepsCurr(OpenTask(s, file));
    case Close(fd) => ReapKeepsCurr(CloseTask(s, fd));
    case OtherSyscall => ReapTransition(s, 0);
    case Timer =>
    case Serial =>
  }

  lemma ReapKeepsCurr(s: Sys)
    requires WellFormed(s)
    ensures Reap(s).curr == s.curr && Reap(s).scan == s.scan
  {}

  /** As long as a runnable task j is not dispatched, each move of the loop variable brings it one nearer. */
  lemma StepDistance(s: Sys, e: Event, j: int)
    requires CoreInv(s) && Enabled(s, e) && Step(s, e).Ok?
    requires IsSlot(j) && s.tasks[j].state == Runnable && Step(s, e).value.curr != j
    ensures Step(s, e).value.tasks[j].state == Runnable
    ensures Distance(Step(s, e).value, j) ==
      if Step(s, e).value.scan == s.scan then Distance(s, j) else Distance(s, j) - 1
  {
    hide Step;
    StepScan(s, e);
    StepTransition(s, e);
    assert TaskTransition(s, e, Step(s, e).value, j);
    assert SlotCore(s.tasks[j], j, s.curr);
  }

  /** The task in slot k may still get its turn before slot j: the loop variable has not passed it. */
  predicate StillAhead(s: Sys, k: int, j: int)
    requires WellFormed(s) && IsSlot(k) && IsSlot(j)
  {
    if s.curr == 0 then Distance(s, k) < Distance(s, j) else Distance(s, k) < Distance(s, j) && k != s.scan
  }

  lemma StepStillAhead(s: Sys, e: Event, k: int, j: int)
    requires CoreInv(s) && Enabled(s, e) && Step(s, e).Ok?
    requires IsSlot(j) && IsSlot(k) && k != j && s.tasks[j].state == Runnable && Step(s, e).value.curr != j
    ensures StillAhead(Step(s, e).value, k, j) ==> StillAhead(s, k, j)
    ensures s.curr == 0 && Step(s, e).value.curr == k && k != 0 ==>
      StillAhead(s, k, j) && !StillAhead(Step(s, e).value, k, j)
  {
    hide Step;
    StepScan(s, e);
    StepDistance(s, e, j);
    assert SlotCore(s.tasks[s.curr], s.curr, s.curr) && SlotCore(s.tasks[j], j, s.curr);
  }

  /** Bounded waiting, for every run: until a runnable task j is dispatched, the loop variable moves at most
      (j - i) mod 1024 times and every other task is dispatched at most once; j stays runnable meanwhile. */
  lemma {:induction false} BoundedWait(s: Sys, es: seq<Event>, s': Sys, j: int, k: int)
    requires CoreInv(s) && Reaches(s, es, s')
    requires IsSlot(j) && s.tasks[j].state == Runnable && j != 0
    requires IsSlot(k) && k != j && k != 0
    requires Dispatches(s, es, j) == 0
    ensures s'.tasks[j].state == Runnable
    ensures Moves(s, es) + Distance(s', j) == Distance(s, j)
    ensures Dispatches(s, es, k) <= if StillAhead(s, k, j) then 1 else 0
    decreases |es|
  {
    hide Step;
    if es != [] {
      var s1 := Step(s, es[0]).value;
      StepKeepsCore(s, es[0]);
      StepScan(s, es[0]);
      assert SlotCore(s.tasks[j], j, s.curr);
      StepDistance(s, es[0], j);
      StepStillAhead(s, es[0], k, j);
      BoundedWait(s1, es[1..], s', j, k);
    }
  }

  /** So a run in which the dispatched tasks keep returning to the scheduler dispatches j in time. */
  lemma DispatchedInTime(s: Sys, es: seq<Event>, s': Sys, j: int)
    requires CoreInv(s) && Reaches(s, es, s')
    requires IsSlot(j) && j != 0 && s.tasks[j].state == Runnable
    requires Moves(s, es) > Distance(s, j)
    ensures Dispatches(s, es, j) >= 1
  {
    if Dispatches(s, es, j) == 0 {
      BoundedWait(s, es, s', j, if j == 1 then 2 else 1);
    }
  }

  // ----- Sleeping and waking across slot reuse

  /** No wakeup is lost, in any run from boot that overwrites no parent: every sleeper is the recorded parent of a
      live task. */
  lemma NoLostWakeup(kpgdir: int, pgdir: int, kstack: int, es: seq<Event>, s: Sys, p: int)
    requires Reaches(Boot(kpgdir, pgdir, kstack), es, s) && ParentsKept(Boot(kpgdir, pgdir, kstack), es)
    requires IsSlot(p) && s.tasks[p].state == Sleeping
    ensures HasLiveChild(s, p)
  {
    BootInv(kpgdir, pgdir, kstack);
    ReachableInvIff(Boot(kpgdir, pgdir, kstack), es, s);
  }
}
