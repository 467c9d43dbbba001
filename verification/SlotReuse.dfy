/** Parent links across the reuse of task slots: when they stay acyclic, what that guarantees to sleepers,
    and how a reused slot can put two tasks to sleep on each other for ever. */
module SlotReuse {
  import opened Machine
  import opened Tasks
  import opened Scheduling

  /** The task that is the parent of slot j, if it is a task. */
  function Link(s: Sys, j: int): (r: Option<int>)
    requires WellFormed(s) && IsSlot(j)
    ensures r.Some? ==> IsSlot(r.value) && s.tasks[j].parent == r
  {
    var p := s.tasks[j].parent;
    if p.Some? && IsSlot(p.value) then p else None
  }

  /** The slot that k parent links lead to from slot i. */
  function Ancestor(s: Sys, i: int, k: nat): (r: Option<int>)
    requires WellFormed(s) && IsSlot(i)
    ensures r.Some? ==> IsSlot(r.value)
  {
    if k == 0 then Some(i) else
    match Ancestor(s, i, k - 1)
    case None => None
    case Some(j) => Link(s, j)
  }

  ghost predicate Acyclic(s: Sys)
    requires WellFormed(s)
  {
    forall i, k :: 0 <= i < MAX_TASKS && 1 <= k ==> Ancestor(s, i, k) != Some(i)
  }

  /** Slot n is slot i itself or one of its ancestors. */
  ghost predicate LeadsTo(s: Sys, i: int, n: int)
    requires WellFormed(s) && IsSlot(i)
  {
    exists k: nat :: Ancestor(s, i, k) == Some(n)
  }

  lemma {:induction false} AncestorAdd(s: Sys, i: int, a: nat, b: nat)
    requires WellFormed(s) && IsSlot(i)
    ensures Ancestor(s, i, a + b) ==
      match Ancestor(s, i, a) case None => None case Some(j) => Ancestor(s, j, b)
  {
    if b > 0 { AncestorAdd(s, i, a, b - 1); }
  }

  /** Two tables that agree on the parent of every slot on a path agree on the path. */
  lemma {:induction false} SamePath(s: Sys, s': Sys, i: int, k: nat)
    requires WellFormed(s) && WellFormed(s') && IsSlot(i)
    requires forall m {:trigger Ancestor(s, i, m)} :: 0 <= m < k && Ancestor(s, i, m).Some? ==>
      Link(s', Ancestor(s, i, m).value) == Link(s, Ancestor(s, i, m).value)
    ensures Ancestor(s', i, k) == Ancestor(s, i, k)
  {
    if k > 0 {
      SamePath(s, s', i, k - 1);
      assert Ancestor(s, i, k - 1).Some? ==>
        Link(s', Ancestor(s, i, k - 1).value) == Link(s, Ancestor(s, i, k - 1).value);
    }
  }

  /** Removing parent links only shortens paths. */
  lemma {:induction false} FewerLinks(s: Sys, s': Sys, i: int, k: nat)
    requires WellFormed(s) && WellFormed(s') && IsSlot(i)
    requires forall j :: 0 <= j < MAX_TASKS ==> Link(s', j) == None || Link(s', j) == Link(s, j)
    ensures Ancestor(s', i, k).Some? ==> Ancestor(s', i, k) == Ancestor(s, i, k)
  {
    if k > 0 { FewerLinks(s, s', i, k - 1); }
  }

  /** Every event but fork keeps parent links acyclic. */
  lemma OtherStepsKeepAcyclic(s: Sys, e: Event)
    requires CoreInv(s) && Acyclic(s) && Enabled(s, e) && Step(s, e).Ok? && !e.Fork?
    ensures Acyclic(Step(s, e).value)
  {
    hide Step;
    var s' := Step(s, e).value;
    StepTransition(s, e);
    StepKeepsCore(s, e);
    forall j | 0 <= j < MAX_TASKS ensures Link(s', j) == None || Link(s', j) == Link(s, j) {
      OtherStepLink(s, e, j);
    }
    forall i, k | 0 <= i < MAX_TASKS && 1 <= k ensures Ancestor(s', i, k) != Some(i) {
      FewerLinks(s, s', i, k);
    }
  }

  lemma OtherStepLink(s: Sys, e: Event, j: int)
    requires CoreInv(s) && Enabled(s, e) && Step(s, e).Ok? && !e.Fork? && IsSlot(j)
    ensures Link(Step(s, e).value, j) == None || Link(Step(s, e).value, j) == Link(s, j)
  {
    hide Step;
    var s' := Step(s, e).value;
    StepKeepsCore(s, e);
    StepTransition(s, e);
    assert TaskTransition(s, e, s', j) && SlotCore(s'.tasks[j], j, s'.curr) && SlotCore(s.tasks[j], j, s.curr);
    if OverwritesParent(s, e) && j == s.curr { OverwriteCutsLink(s, e); }
  }

  lemma OverwriteCutsLink(s: Sys, e: Event)
    requires CoreInv(s) && Enabled(s, e) && Step(s, e).Ok? && OverwritesParent(s, e)
    ensures Link(Step(s, e).value, s.curr) == None
  {
    assert SlotCore(s.tasks[s.curr], s.curr, s.curr);
    StrayStep(s, e, s.curr);
  }

  /** After a fork of slot n: n is a child of the running task, all others keep their parent or lose it to
      the reaper, which takes only zombie children of the running task. */
  ghost predicate ForkLinks(s: Sys, s': Sys, n: int)
    requires WellFormed(s) && WellFormed(s') && IsSlot(n)
  {
    && s'.tasks[n].parent == Some(s.curr)
    && forall j :: 0 <= j < MAX_TASKS && j != n ==>
         s'.tasks[j].parent == s.tasks[j].parent || (s'.tasks[j].parent == None && s.tasks[j].parent == Some(s.curr))
  }

  lemma ForkStepLinks(s: Sys, pgdir: int, kstack: int)
    requires CoreInv(s) && Enabled(s, Fork(pgdir, kstack))
    ensures Step(s, Fork(pgdir, kstack)).Ok?
    ensures ForkLinks(s, Step(s, Fork(pgdir, kstack)).value, FindUnused(s.tasks, 0))
  {
    hide Reap, ForkTask;
    var s1 := ForkTask(s, pgdir, kstack);
    CoreByFork(s, pgdir, kstack);
    forall j | 0 <= j < MAX_TASKS
      ensures Reap(s1).tasks[j] == s1.tasks[j] || (Reapable(s1.tasks[j], s.curr) && Reap(s1).tasks[j] == FREE_TASK)
      ensures j != FindUnused(s.tasks, 0) ==> s1.tasks[j] == s.tasks[j]
    {
      ForkTransition(s, pgdir, kstack, j);
      ReapTransition(s1, j);
    }
    ForkTransition(s, pgdir, kstack, FindUnused(s.tasks, 0));
  }

  /** A fork keeps the parent links acyclic if and only if the slot it takes is not an ancestor of the
      running task: only a dangling link to a freed slot can lead there. */
  lemma ForkKeepsAcyclicIff(s: Sys, pgdir: int, kstack: int)
    requires CoreInv(s) && Acyclic(s) && Enabled(s, Fork(pgdir, kstack))
    ensures Step(s, Fork(pgdir, kstack)).Ok?
    ensures Acyclic(Step(s, Fork(pgdir, kstack)).value) <==> !LeadsTo(s, s.curr, FindUnused(s.tasks, 0))
  {
    hide Step;
    var n := FindUnused(s.tasks, 0);
    ForkStepLinks(s, pgdir, kstack);
    var s' := Step(s, Fork(pgdir, kstack)).value;
    assert SlotCore(s.tasks[s.curr], s.curr, s.curr);
    if LeadsTo(s, s.curr, n) {
      var k: nat :| Ancestor(s, s.curr, k) == Some(n);
      ForkClosesCycle(s, s', n, k);
    } else {
      forall i, k | 0 <= i < MAX_TASKS && 1 <= k ensures Ancestor(s', i, k) != Some(i) {
        ForkNoCycle(s, s', n, i, k);
      }
    }
  }

  lemma {:induction false} ForkClosesCycle(s: Sys, s': Sys, n: int, k: nat)
    requires WellFormed(s) && WellFormed(s') && Acyclic(s) && IsSlot(n) && n != s.curr
    requires ForkLinks(s, s', n) && Ancestor(s, s.curr, k) == Some(n)
    ensures !Acyclic(s')
  {
    if m: nat :| m < k && Ancestor(s, s.curr, m) == Some(n) {
      ForkClosesCycle(s, s', n, m);
    } else {
      forall m | 0 <= m < k && Ancestor(s, s.curr, m).Some?
        ensures Link(s', Ancestor(s, s.curr, m).value) == Link(s, Ancestor(s, s.curr, m).value)
      {
        assert Ancestor(s, s.curr, m + 1) != Some(s.curr);
      }
      SamePath(s, s', s.curr, k);
      assert Ancestor(s', n, 0) == Some(n) && Ancestor(s', n, 1) == Some(s.curr);
      AncestorAdd(s', n, 1, k);
      assert Ancestor(s', n, 1 + k) == Some(n);
    }
  }

  /** The new link is on no cycle when the running task does not lead to the new slot. */
  lemma ForkNoCycle(s: Sys, s': Sys, n: int, i: int, k: nat)
    requires WellFormed(s) && WellFormed(s') && Acyclic(s) && IsSlot(n) && IsSlot(i) && 1 <= k
    requires ForkLinks(s, s', n) && !LeadsTo(s, s.curr, n)
    ensures Ancestor(s', i, k) != Some(i)
  {
    hide Ancestor;
    if m: nat :| m < k && Ancestor(s', i, m) == Some(n) {
      AncestorAdd(s', i, m, k - m);
      AncestorAdd(s', n, k - m, m);
      NewSlotOnNoCycle(s, s', n, k);
    } else {
      WithoutNewLink(s, s', n, i, k);
    }
  }

  lemma NewSlotOnNoCycle(s: Sys, s': Sys, n: int, k: nat)
    requires WellFormed(s) && WellFormed(s') && IsSlot(n) && 1 <= k
    requires ForkLinks(s, s', n) && !LeadsTo(s, s.curr, n)
    ensures Ancestor(s', n, k) != Some(n)
  {
    assert Ancestor(s', n, 0) == Some(n) && Ancestor(s', n, 1) == Some(s.curr);
    AncestorAdd(s', n, 1, k - 1);
    FromCurr(s, s', n, k - 1);
  }

  lemma {:induction false} FromCurr(s: Sys, s': Sys, n: int, k: nat)
    requires WellFormed(s) && WellFormed(s') && IsSlot(n)
    requires ForkLinks(s, s', n) && !LeadsTo(s, s.curr, n)
    ensures Ancestor(s', s.curr, k).Some? ==> Ancestor(s', s.curr, k) == Ancestor(s, s.curr, k)
    ensures Ancestor(s', s.curr, k) != Some(n)
  {
    assert Ancestor(s, s.curr, k) != Some(n);
    if k > 0 { FromCurr(s, s', n, k - 1); }
  }

  lemma {:induction false} WithoutNewLink(s: Sys, s': Sys, n: int, i: int, k: nat)
    requires WellFormed(s) && WellFormed(s') && IsSlot(n) && IsSlot(i)
    requires ForkLinks(s, s', n)
    requires forall m: nat :: m < k ==> Ancestor(s', i, m) != Some(n)
    ensures Ancestor(s', i, k).Some? ==> Ancestor(s', i, k) == Ancestor(s, i, k)
  {
    if k > 0 {
      WithoutNewLink(s, s', n, i, k - 1);
      assert Ancestor(s', i, k - 1) != Some(n);
    }
  }

  /** The parent links start acyclic. */
  lemma BootAcyclic(kpgdir: int, pgdir: int, kstack: int)
    ensures Acyclic(Boot(kpgdir, pgdir, kstack))
  {}

  /** No fork of the run takes an ancestor's slot. */
  ghost predicate CleanForks(s: Sys, es: seq<Event>)
    requires WellFormed(s)
    decreases |es|
  {
    if es == [] || !Enabled(s, es[0]) || Step(s, es[0]).Panic? then true else
    && (es[0].Fork? ==> !LeadsTo(s, s.curr, FindUnused(s.tasks, 0)))
    && CleanForks(Step(s, es[0]).value, es[1..])
  }

  lemma {:induction false} CleanRunsStayAcyclic(s: Sys, es: seq<Event>, s': Sys)
    requires CoreInv(s) && Acyclic(s) && Reaches(s, es, s') && CleanForks(s, es)
    ensures Acyclic(s')
    decreases |es|
  {
    hide Step;
    if es != [] {
      StepKeepsCore(s, es[0]);
      if es[0].Fork? {
        ForkKeepsAcyclicIff(s, es[0].pgdir, es[0].kstack);
      } else {
        OtherStepsKeepAcyclic(s, es[0]);
      }
      CleanRunsStayAcyclic(Step(s, es[0]).value, es[1..], s');
    }
  }

  // ----- Links that lead to init

  /** From every task but the scheduler the parent links lead to init. */
  ghost predicate Rooted(s: Sys)
    requires WellFormed(s)
  {
    forall i :: 1 <= i < MAX_TASKS && s.tasks[i].state != Unused ==> LeadsTo(s, i, 1)
  }

  /** From s to s' a slot is freed that a task of s' still names as its parent. */
  ghost predicate Orphans(s: Sys, s': Sys)
    requires WellFormed(s) && WellFormed(s')
  {
    exists z, c :: 0 <= z < MAX_TASKS && 0 <= c < MAX_TASKS
      && s.tasks[z].state != Unused && s'.tasks[z].state == Unused
      && s'.tasks[c].state != Unused && s.tasks[c].parent == Some(z)
  }

  lemma {:induction false} RootedPath(s: Sys, e: Event, i: int, k: nat)
    requires SysInv(s) && Enabled(s, e) && !OverwritesParent(s, e) && Step(s, e).Ok?
    requires !Orphans(s, Step(s, e).value)
    requires 1 <= i < MAX_TASKS && s.tasks[i].state != Unused && Step(s, e).value.tasks[i].state != Unused
    requires Ancestor(s, i, k) == Some(1)
    ensures Ancestor(Step(s, e).value, i, k) == Some(1)
    decreases k
  {
    hide Step;
    var s' := Step(s, e).value;
    if k > 0 {
      SysInvIsCore(s);
      StepTransition(s, e);
      assert TaskTransition(s, e, s', i);
      AncestorAdd(s, i, 1, k - 1);
      assert Ancestor(s, i, 0) == Some(i) && Ancestor(s', i, 0) == Some(i);
      assert Ancestor(s, i, 1) == Link(s, i) && Ancestor(s', i, 1) == Link(s', i);
      var p := Link(s, i).value;
      PathStaysUsed(s, i, p, k - 1);
      assert s'.tasks[p].state != Unused;
      RootedPath(s, e, p, k - 1);
      AncestorAdd(s', i, 1, k - 1);
    }
  }

  /** A link on the way to init leads to a used slot. */
  lemma PathStaysUsed(s: Sys, i: int, p: int, k: nat)
    requires SysInv(s) && IsSlot(i) && Link(s, i) == Some(p) && Ancestor(s, p, k) == Some(1)
    ensures 1 <= p && s.tasks[p].state != Unused
  {
    assert SlotOk(s.tasks[i], i, s.curr) && SlotOk(s.tasks[p], p, s.curr) && SlotOk(s.tasks[1], 1, s.curr);
    if s.tasks[p].state == Unused {
      assert Ancestor(s, p, 0) == Some(p) && Link(s, p) == None;
      NoWayOn(s, p, k);
    }
  }

  lemma {:induction false} NoWayOn(s: Sys, p: int, k: nat)
    requires WellFormed(s) && IsSlot(p) && Link(s, p) == None
    ensures k > 0 ==> Ancestor(s, p, k) == None
  {
    assert Ancestor(s, p, 0) == Some(p);
    if k > 1 { NoWayOn(s, p, k - 1); }
  }

  /** A step keeps all links leading to init if and only if it frees no slot that is still a parent. */
  lemma RootedIff(s: Sys, e: Event)
    requires SysInv(s) && Rooted(s) && Enabled(s, e) && !OverwritesParent(s, e) && Step(s, e).Ok?
    ensures Rooted(Step(s, e).value) <==> !Orphans(s, Step(s, e).value)
  {
    hide Step;
    var s' := Step(s, e).value;
    SysInvIsCore(s);
    StepTransition(s, e);
    StepKeepsInv(s, e);
    if Orphans(s, s') {
      var z, c :| 0 <= z < MAX_TASKS && 0 <= c < MAX_TASKS
        && s.tasks[z].state != Unused && s'.tasks[z].state == Unused
        && s'.tasks[c].state != Unused && s.tasks[c].parent == Some(z);
      OrphanLost(s, e, z, c);
    } else {
      forall i | 1 <= i < MAX_TASKS && s'.tasks[i].state != Unused ensures LeadsTo(s', i, 1) {
        StillRooted(s, e, i);
      }
    }
  }

  lemma StillRooted(s: Sys, e: Event, i: int)
    requires SysInv(s) && Rooted(s) && Enabled(s, e) && !OverwritesParent(s, e) && Step(s, e).Ok?
    requires !Orphans(s, Step(s, e).value) && 1 <= i < MAX_TASKS && Step(s, e).value.tasks[i].state != Unused
    ensures LeadsTo(Step(s, e).value, i, 1)
  {
    hide Step, Orphans, Ancestor;
    var s' := Step(s, e).value;
    SysInvIsCore(s);
    StepTransition(s, e);
    assert TaskTransition(s, e, s', i);
    if s.tasks[i].state != Unused {
      var k: nat :| Ancestor(s, i, k) == Some(1);
      RootedPath(s, e, i, k);
    } else {
      assert SlotCore(s.tasks[s.curr], s.curr, s.curr) && TaskTransition(s, e, s', s.curr);
      var k: nat :| Ancestor(s, s.curr, k) == Some(1);
      RootedPath(s, e, s.curr, k);
      OneLinkMore(s', i, s.curr, k);
    }
  }

  lemma OneLinkMore(s: Sys, i: int, p: int, k: nat)
    requires WellFormed(s) && IsSlot(i) && IsSlot(p) && s.tasks[i].parent == Some(p) && Ancestor(s, p, k) == Some(1)
    ensures LeadsTo(s, i, 1)
  {
    assert Ancestor(s, i, 0) == Some(i) && Ancestor(s, i, 1) == Some(p);
    AncestorAdd(s, i, 1, k);
    assert Ancestor(s, i, 1 + k) == Some(1);
  }

  lemma OrphanLost(s: Sys, e: Event, z: int, c: int)
    requires SysInv(s) && Enabled(s, e) && !OverwritesParent(s, e) && Step(s, e).Ok? && IsSlot(z) && IsSlot(c)
    requires s.tasks[z].state != Unused && Step(s, e).value.tasks[z].state == Unused
    requires Step(s, e).value.tasks[c].state != Unused && s.tasks[c].parent == Some(z)
    ensures !Rooted(Step(s, e).value)
  {
    hide Step;
    var s' := Step(s, e).value;
    SysInvIsCore(s);
    StepTransition(s, e);
    StepKeepsInv(s, e);
    assert SlotOk(s.tasks[c], c, s.curr) && TaskTransition(s, e, s', c) && TaskTransition(s, e, s', z);
    assert SlotOk(s'.tasks[z], z, s'.curr) && SlotOk(s'.tasks[1], 1, s'.curr);
    forall k: nat ensures Ancestor(s', c, k) != Some(1) {
      assert Ancestor(s', c, 0) == Some(c);
      if k > 0 {
        assert Ancestor(s', c, 1) == Some(z);
        AncestorAdd(s', c, 1, k - 1);
        NoWayOn(s', z, k - 1);
        assert Ancestor(s', z, 0) == Some(z);
      }
    }
    assert !LeadsTo(s', c, 1);
  }

  lemma {:induction false} RootedIsAcyclic(s: Sys)
    requires SysInv(s) && Rooted(s)
    ensures Acyclic(s)
  {
    forall i, k: nat | 0 <= i < MAX_TASKS && 1 <= k ensures Ancestor(s, i, k) != Some(i) {
      assert SlotOk(s.tasks[i], i, s.curr) && SlotOk(s.tasks[1], 1, s.curr);
      if i == 0 || s.tasks[i].state == Unused {
        NoWayOn(s, i, k);
      } else if Ancestor(s, i, k) == Some(i) {
        var m: nat :| Ancestor(s, i, m) == Some(1);
        AroundAndAround(s, i, k, m + 1);
        LongEnough(s, i, m, k * (m + 1));
      }
    }
  }

  lemma {:induction false} AroundAndAround(s: Sys, i: int, k: nat, t: nat)
    requires WellFormed(s) && IsSlot(i) && Ancestor(s, i, k) == Some(i) && k >= 1
    ensures Ancestor(s, i, k * t) == Some(i) && k * t >= t
  {
    if t > 0 {
      AroundAndAround(s, i, k, t - 1);
      assert k * t == k * (t - 1) + k;
      AncestorAdd(s, i, k * (t - 1), k);
    } else {
      assert Ancestor(s, i, 0) == Some(i);
    }
  }

  lemma LongEnough(s: Sys, i: int, m: nat, n: nat)
    requires SysInv(s) && IsSlot(i) && Ancestor(s, i, m) == Some(1) && n > m
    ensures Ancestor(s, i, n) == None
  {
    assert SlotOk(s.tasks[1], 1, s.curr);
    AncestorAdd(s, i, m, n - m);
    NoWayOn(s, 1, n - m);
  }

  /** No step of the run frees a slot that is still a parent. */
  ghost predicate CleanFrees(s: Sys, es: seq<Event>)
    requires WellFormed(s)
    decreases |es|
  {
    if es == [] || !Enabled(s, es[0]) || Step(s, es[0]).Panic? then true
    else !Orphans(s, Step(s, es[0]).value) && CleanFrees(Step(s, es[0]).value, es[1..])
  }

  /** In runs in which no slot is freed while a task still names it as its parent, the parent links of all tasks
      stay rooted at init, and so acyclic. */
  lemma {:induction false} CleanRunsStayRooted(s: Sys, es: seq<Event>, s': Sys)
    requires SysInv(s) && Rooted(s) && Reaches(s, es, s') && ParentsKept(s, es) && CleanFrees(s, es)
    ensures Rooted(s') && Acyclic(s')
    decreases |es|
  {
    hide Step, Orphans, Acyclic;
    if es == [] {
      RootedIsAcyclic(s);
    } else {
      StepKeepsInv(s, es[0]);
      RootedIff(s, es[0]);
      CleanRunsStayRooted(Step(s, es[0]).value, es[1..], s');
    }
  }

  lemma BootRooted(kpgdir: int, pgdir: int, kstack: int)
    ensures Rooted(Boot(kpgdir, pgdir, kstack))
  {
    var s := Boot(kpgdir, pgdir, kstack);
    assert Ancestor(s, 1, 0) == Some(1);
  }

  // ----- What acyclic links guarantee

  /** From p downwards, every task a live child of the one before. */
  ghost predicate IsDescent(s: Sys, p: int, chain: seq<int>)
    requires WellFormed(s)
  {
    && chain != [] && chain[0] == p
    && (forall k :: 0 <= k < |chain| ==> IsSlot(chain[k]))
    && (forall k :: 1 <= k < |chain| ==> Live(s.tasks[chain[k]]))
    && (forall k :: 0 <= k < |chain| - 1 ==> s.tasks[chain[k + 1]].parent == Some(chain[k]))
  }

  lemma {:induction false} DescentAncestor(s: Sys, p: int, chain: seq<int>, a: nat, b: nat)
    requires WellFormed(s) && IsDescent(s, p, chain) && a <= b < |chain|
    ensures Ancestor(s, chain[b], b - a) == Some(chain[a])
    decreases b - a
  {
    if a < b {
      DescentAncestor(s, p, chain, a + 1, b);
      assert s.tasks[chain[a + 1]].parent == Some(chain[a]);
    }
  }

  lemma DescentDistinct(s: Sys, p: int, chain: seq<int>)
    requires WellFormed(s) && Acyclic(s) && IsDescent(s, p, chain)
    ensures NoDuplicates(chain)
  {
    forall a, b | 0 <= a < b < |chain| ensures chain[a] != chain[b] {
      DescentAncestor(s, p, chain, a, b);
    }
  }

  lemma {:induction false} DescentEnds(s: Sys, p: int, chain: seq<int>) returns (j: int, k: nat)
    requires SysInv(s) && Acyclic(s) && IsDescent(s, p, chain)
    requires s.tasks[p].state == Sleeping
    ensures IsSlot(j) && s.tasks[j].state in {Runnable, Running} && Ancestor(s, j, k) == Some(p)
    decreases MAX_TASKS - |chain|
  {
    var last := chain[|chain| - 1];
    DescentDistinct(s, p, chain);
    Pigeonhole(chain, MAX_TASKS);
    if s.tasks[last].state == Sleeping {
      assert HasLiveChild(s, last);
      var c :| 0 <= c < MAX_TASKS && s.tasks[c].parent == Some(last) && Live(s.tasks[c]);
      var longer := chain + [c];
      DescentDistinct(s, p, longer);
      Pigeonhole(longer, MAX_TASKS);
      j, k := DescentEnds(s, p, longer);
    } else {
      j, k := last, |chain| - 1;
      DescentAncestor(s, p, chain, 0, k);
    }
  }

  /** With acyclic links nobody sleeps on sleepers alone: below every sleeping task there is one that can
      run. */
  lemma SleepersHaveActiveDescendants(s: Sys, p: int)
    requires SysInv(s) && Acyclic(s) && IsSlot(p) && s.tasks[p].state == Sleeping
    ensures exists j, k: nat :: IsSlot(j) && s.tasks[j].state in {Runnable, Running} && Ancestor(s, j, k) == Some(p)
  {
    var j, k := DescentEnds(s, p, [p]);
  }

  // ----- What a cycle does

  /** All of the set sleep, and their only live children are in the set. */
  ghost predicate Stuck(s: Sys, group: set<int>)
    requires WellFormed(s)
  {
    && (forall i :: i in group ==> IsSlot(i) && s.tasks[i].state == Sleeping)
    && (forall c | 0 <= c < MAX_TASKS && Live(s.tasks[c]) ::
          s.tasks[c].parent.Some? && s.tasks[c].parent.value in group ==> c in group)
  }

  /** Such a group never wakes up again, whatever happens. */
  lemma {:induction false} StuckForever(s: Sys, es: seq<Event>, s': Sys, group: set<int>)
    requires CoreInv(s) && Reaches(s, es, s') && Stuck(s, group)
    ensures Stuck(s', group)
    decreases |es|
  {
    hide Step;
    if es != [] {
      StepKeepsCore(s, es[0]);
      StepStuck(s, es[0], group);
      StuckForever(Step(s, es[0]).value, es[1..], s', group);
    }
  }

  lemma StuckInEveryFuture(s: Sys, group: set<int>)
    requires CoreInv(s) && Stuck(s, group)
    ensures forall es, s' :: Reaches(s, es, s') ==> Stuck(s', group)
  {
    hide Stuck;
    forall es, s' | Reaches(s, es, s') ensures Stuck(s', group) {
      StuckForever(s, es, s', group);
    }
  }

  lemma StepStuck(s: Sys, e: Event, group: set<int>)
    requires CoreInv(s) && Enabled(s, e) && Step(s, e).Ok? && Stuck(s, group)
    ensures Stuck(Step(s, e).value, group)
  {
    hide Step;
    var s' := Step(s, e).value;
    StepTransition(s, e);
    assert SlotCore(s.tasks[s.curr], s.curr, s.curr);
    assert s.curr !in group;
    forall i | i in group ensures s'.tasks[i].state == Sleeping {
      assert TaskTransition(s, e, s', i);
    }
    forall c | 0 <= c < MAX_TASKS && Live(s'.tasks[c]) && s'.tasks[c].parent.Some? && s'.tasks[c].parent.value in group
      ensures c in group
    {
      assert TaskTransition(s, e, s', c) && SlotCore(s.tasks[c], c, s.curr);
      if OverwritesParent(s, e) { StrayStep(s, e, s.curr); }
    }
  }
}
