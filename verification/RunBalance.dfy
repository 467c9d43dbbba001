/** When the books of all pages balance throughout a run: if and only if sys_execv fails at most once before it
    loads a program. */
module RunBalance {
  import opened Machine
  import opened PageAllocator
  import opened PageTable
  import opened AddressSpace
  import opened Accounts
  import opened Conservation
  import opened Kernel
  import opened KernelInv
  import opened KernelEffects
  import opened KernelSteps
  import opened KernelRuns
  import opened DoubleFree
  import T = Tasks
  import S = Scheduling

  // ----- Another early failure

  /** What the failing sys_execv leaves before the reaper. */
  lemma EarlyEffect(k: Kernel, e: KEvent, own: seq<int>, registered: set<int>, a: Account) returns (m: Mem)
    requires KInv(k, own, registered, a) && KEnabled(k, e) && FailsEarly(k, e) && Effect(k, e).Ok?
    ensures Effect(k, e) == Ok(Changed(k, T.Execv(None), m)) && k.sys.curr != 0
    ensures var s := Elements(a.free) + {0};
      && Holds(m, 0, s) && SameOutside(k.mem.ram, m.ram, s)
      && (0 in a.free ==> Circular(m, s))
  {
    hide Effect, MapKernel, DestroyAddressSpace, KernelBuilt, Find, Holds, Circular, Fixed, Balanced, IsFreeList,
         SameOutside;
    ExecIs(k, e);
    ExecAble(k, own, registered, a, e);
    BooksList(k.sys.tasks, k.mem, Fixed(own, k.files), registered, a);
    MapKernelBuilds(k.mem, a.free);
    var (dir, m1) := MapKernel(k.mem).value;
    KernelWrites(k.mem, m1, a.free, dir);
    FindKept(k, own, registered, a, m1, e.path);
    m := DestroyAddressSpace(m1, dir).value;
    if 0 in a.free {
      EarlyFailureLoops(k.mem, m1, a.free, dir);
      assert Elements(a.free) + {0} == Elements(a.free);
    } else {
      EarlyFrees(k.mem, m1, a.free, dir);
    }
  }

  lemma EarlyFrees(m: Mem, m1: Mem, free: seq<int>, dir: int)
    requires IsFreeList(m, free) && |free| >= KERNEL_PAGES && KernelBuilt(m, dir, m1, free) && 0 !in free
    ensures WellFormed(m1) && IsFrame(dir) && DestroyAddressSpace(m1, dir).Ok?
    ensures var m2 := DestroyAddressSpace(m1, dir).value;
      Holds(m2, 0, Elements(free) + {0}) && SameOutside(m.ram, m2.ram, Elements(free) + {0})
  {
    hide KernelBuilt, DestroyAddressSpace, IsFreeList, Holds;
    BuiltFacts(m, m1, free, dir);
    KernelDestroyed(m, m1, free, dir);
    var m2 := DestroyAddressSpace(m1, dir).value;
    var free' :| IsFreeList(m2, free') && multiset(free') == multiset(free) + multiset{0};
    forall g ensures g in free' <==> g in Elements(free) + {0} {
      assert g in free' <==> g in multiset(free');
      assert g in free <==> g in multiset(free);
    }
    ListHolds(m2, free', 0, Elements(free) + {0});
  }

  /** ... and behind it. */
  lemma EarlyStep(k: Kernel, e: KEvent, own: seq<int>, registered: set<int>, a: Account) returns (m: Mem, n: nat)
    requires KInv(k, own, registered, a) && KEnabled(k, e) && FailsEarly(k, e) && KStep(k, e).Ok?
    ensures WellFormed(m) && (n == 0 || n == T.MAX_TASKS)
    ensures var s := Elements(a.free) + {0};
      && Holds(m, 0, s) && SameOutside(k.mem.ram, m.ram, s)
      && (0 in a.free ==> Circular(m, s))
    ensures ReapLoop(k.sys.tasks, k.sys.curr, m, n) == Ok(KStep(k, e).value.mem)
    ensures KStep(k, e).value.files == k.files
    ensures KStep(k, e).value.sys.tasks == if n == 0 then k.sys.tasks else Reaped(k.sys.tasks, k.sys.curr, 1024)
  {
    hide Effect, ReapLoop, Holds, Circular, Balanced, Find, FailsEarly, SameOutside, KEnabled;
    EarlyParts(k, e);
    m := EarlyEffect(k, e, own, registered, a);
    HoldsWf(m, 0, Elements(a.free) + {0});
    n := if k.sys.zombies && k.sys.tasks[k.sys.curr].state != T.Sleeping then T.MAX_TASKS else 0;
    QuietReap(k.sys, m, n);
  }

  lemma EarlyParts(k: Kernel, e: KEvent)
    requires IsKernel(k) && KEnabled(k, e) && FailsEarly(k, e) && KStep(k, e).Ok?
    ensures Effect(k, e).Ok? && !Switches(e)
    ensures Effect(k, e).value.event == T.Execv(None) ==>
      && KStep(k, e).value.sys == T.Reap(k.sys) && KStep(k, e).value.files == Effect(k, e).value.files
      && ReapMemory(k.sys, Effect(k, e).value.mem) == Ok(KStep(k, e).value.mem)
  {
    hide Effect, ReapMemory, T.Reap;
  }

  lemma QuietReap(s: T.Sys, m: Mem, n: nat)
    requires T.WellFormed(s) && WellFormed(m)
    requires n == if s.zombies && s.tasks[s.curr].state != T.Sleeping then T.MAX_TASKS else 0
    ensures ReapMemory(s, m) == ReapLoop(s.tasks, s.curr, m, n)
    ensures T.Reap(s).tasks == if n == 0 then s.tasks else Reaped(s.tasks, s.curr, 1024)
  {
    hide DestroyTaskMemory;
  }

  /** If frame 0 is free when sys_execv fails early, there is no free list any more. */
  lemma SecondFailureLoops(k: Kernel, e: KEvent, own: seq<int>, registered: set<int>, a: Account)
    requires KInv(k, own, registered, a) && KEnabled(k, e) && FailsEarly(k, e) && KStep(k, e).Ok? && 0 in a.free
    ensures forall free :: !IsFreeList(KStep(k, e).value.mem, free)
  {
    hide KStep, KEnabled, FailsEarly, ReapLoop, Holds, Circular, TaskFrames, TaskOk, Looped, IsFreeList;
    var m, n := EarlyStep(k, e, own, registered, a);
    var s := Elements(a.free) + {0};
    AfterReaper(k, own, registered, a, m, n);
    var s' := s + Taken(k.sys.tasks, k.sys.curr, k.mem.ram, n);
    CircularHasNoEnd(KStep(k, e).value.mem, s');
  }

  lemma CircularHasNoEnd(m: Mem, s: set<int>)
    requires Circular(m, s)
    ensures forall free :: !IsFreeList(m, free)
  {
    hide Looped, IsFreeList;
    var p :| Looped(m, p) && Elements(p) <= s;
    forall free ensures !IsFreeList(m, free) { LoopHasNoEnd(m, p, free); }
  }

  lemma AfterReaper(k: Kernel, own: seq<int>, registered: set<int>, a: Account, m: Mem, n: nat)
    requires KInv(k, own, registered, a) && WellFormed(m) && n <= T.MAX_TASKS &&
      ReapLoop(k.sys.tasks, k.sys.curr, m, n).Ok?
    requires Holds(m, 0, Elements(a.free) + {0}) && SameOutside(k.mem.ram, m.ram, Elements(a.free) + {0})
    ensures Apart(k.sys.tasks, k.mem.ram)
    ensures
      var s, taken := Elements(a.free) + {0}, Taken(k.sys.tasks, k.sys.curr, k.mem.ram, n);
      var m' := ReapLoop(k.sys.tasks, k.sys.curr, m, n).value;
      && Holds(m', 0, s + taken) && SameOutside(k.mem.ram, m'.ram, s + taken)
      && (Circular(m, s) || 0 in taken ==> Circular(m', s + taken))
  {
    hide ReapLoop, Holds, Circular, TaskFrames, TaskOk, Fixed;
    assert T.SlotCore(k.sys.tasks[0], 0, k.sys.curr);
    BooksApart(k.sys.tasks, k.mem, Fixed(own, k.files), registered, a);
    forall j, g | T.IsSlot(j) && Owns(j, k.sys.tasks[j]) && g in TaskFrames(k.mem.ram, k.sys.tasks[j]) &&
      g in Elements(a.free) + {0}
      ensures g == 0
    {
      OneOwner(k.sys.tasks, k.mem, Fixed(own, k.files), registered, a, j, g);
    }
    ReapLoopSpoilt(k.sys.tasks, k.sys.curr, k.mem.ram, m, 0, Elements(a.free) + {0}, n);
  }

  /** A registered page is free, or the kernel's, or a task's. */
  lemma {:induction false} InSum(parts: seq<multiset<int>>, f: int) returns (i: int)
    requires f in Sum(parts)
    ensures 0 <= i < |parts| && f in parts[i]
  {
    var n := |parts| - 1;
    if f in parts[n] { i := n; } else { i := InSum(parts[..n], f); }
  }

  lemma OwnerOf(tasks: seq<T.Task>, m: Mem, fixed: seq<int>, registered: set<int>, a: Account, f: int) returns (i: int)
    requires Balanced(tasks, m, fixed, registered, a) && f in registered && f !in a.free && f !in fixed
    ensures T.IsSlot(i) && Owns(i, tasks[i]) && TaskOk(m.ram, tasks[i]) && f in TaskFrames(m.ram, tasks[i])
  {
    hide TaskOk, TaskFrames, IsFreeList;
    var total := multiset(a.free) + multiset(fixed) + Sum(a.parts);
    assert f in multiset(registered) && f in total;
    assert f !in multiset(a.free) && f !in multiset(fixed);
    i := InSum(a.parts, f);
    assert PartOk(m.ram, i, tasks[i], a.parts[i]);
  }

  /** A task does not lose a page by changes to that page alone. */
  lemma StillOwned(ram: seq<Frame>, ram': seq<Frame>, t: T.Task, f: int)
    requires TaskOk(ram, t) && TaskOk(ram', t) && f in TaskFrames(ram, t)
    requires forall g :: IsFrame(g) && g in TaskFrames(ram, t) && g != f ==> ram'[g] == ram[g]
    ensures f in TaskFrames(ram', t)
  {
    hide TaskFrames, UserSpace;
    SpaceShape(ram, t);
    SpaceShape(ram', t);
    FramesContain(ram, t);
    FramesContain(ram', t);
    var dir := t.pgdir.value;
    assert f in Elements(TaskFrames(ram, t));
    assert f in TableSet(ram[dir], PDE_SIZE) + {UserFrame(ram, dir), dir, t.kstack.value};
    if dir != f {
      assert ram'[dir] == ram[dir];
      assert TableSet(ram'[dir], PDE_SIZE) == TableSet(ram[dir], PDE_SIZE);
      if f == UserFrame(ram, dir) {
        assert TableAt(ram, dir, 0) in TaskFrames(ram, t);
        assert UserFrame(ram', dir) == f;
      }
    }
    assert f in Elements(TaskFrames(ram', t));
  }

  /** A second early failure ruins the books for good: frame 0 is then free and somebody's as well, or the free list
      runs in a circle. */
  lemma SecondFailureRuins(k: Kernel, e: KEvent, own: seq<int>, registered: set<int>, a: Account,
                           registered': set<int>, a': Account)
    requires KInv(k, own, registered, a) && KEnabled(k, e) && FailsEarly(k, e) && KStep(k, e).Ok? && 0 in registered
    ensures !KInv(KStep(k, e).value, own, registered', a')
  {
    hide KStep, KEnabled, FailsEarly, ReapLoop, Holds, Circular, TaskFrames, TaskOk, IsFreeList, Fixed, Sum, Reaped;
    var k' := KStep(k, e).value;
    if KInv(k', own, registered', a') {
      var m, n := EarlyStep(k, e, own, registered, a);
      AfterReaper(k, own, registered, a, m, n);
      var taken := Taken(k.sys.tasks, k.sys.curr, k.mem.ram, n);
      var s' := Elements(a.free) + {0} + taken;
      FreeThen(k'.mem, s', a'.free);
      if 0 in Fixed(own, k.files) {
        FixedNotFree(k'.sys.tasks, k'.mem, Fixed(own, k.files), registered', a', 0);
      } else {
        var j := OwnerOf(k.sys.tasks, k.mem, Fixed(own, k.files), registered, a, 0);
        OwnerStays(k, own, registered, a, k', own, registered', a', n, j);
      }
    }
  }

  /** Frame 0 is free when the list ends. */
  lemma FreeThen(m: Mem, s: set<int>, free: seq<int>)
    requires Holds(m, 0, s) && IsFreeList(m, free)
    ensures 0 in free && !Circular(m, s)
  {
    hide IsFreeList, Looped;
    if Circular(m, s) {
      CircularHasNoEnd(m, s);
    } else {
      var l :| IsFreeList(m, l) && 0 in l && Elements(l) <= s;
      FreeListUnique(m, l, free);
    }
  }

  lemma OwnerStays(k: Kernel, own: seq<int>, registered: set<int>, a: Account, k': Kernel, own': seq<int>,
                   registered': set<int>, a': Account,
                   n: nat, j: int)
    requires KInv(k, own, registered, a) && KInv(k', own', registered', a') && Apart(k.sys.tasks, k.mem.ram) &&
      n <= T.MAX_TASKS
    requires n == 0 || n == T.MAX_TASKS
    requires k'.sys.tasks == if n == 0 then k.sys.tasks else Reaped(k.sys.tasks, k.sys.curr, 1024)
    requires SameOutside(k.mem.ram, k'.mem.ram, Elements(a.free) + {0} + Taken(k.sys.tasks, k.sys.curr, k.mem.ram, n))
    requires T.IsSlot(j) && Owns(j, k.sys.tasks[j]) && 0 in TaskFrames(k.mem.ram, k.sys.tasks[j])
    requires 0 !in Taken(k.sys.tasks, k.sys.curr, k.mem.ram, n)
    ensures 0 !in a'.free
  {
    hide TaskFrames, TaskOk, IsFreeList, Fixed, Sum;
    var t := k.sys.tasks[j];
    if n == T.MAX_TASKS && T.Reapable(t, k.sys.curr) { TakenHas(k.sys.tasks, k.sys.curr, k.mem.ram, n, j); }
    assert k'.sys.tasks[j] == t;
    TakenFromOthers(k.sys.tasks, k.sys.curr, k.mem.ram, n, j);
    forall g | IsFrame(g) && g in TaskFrames(k.mem.ram, t) && g != 0 ensures k'.mem.ram[g] == k.mem.ram[g] {
      OneOwner(k.sys.tasks, k.mem, Fixed(own, k.files), registered, a, j, g);
    }
    assert PartOk(k'.mem.ram, j, t, a'.parts[j]);
    StillOwned(k.mem.ram, k'.mem.ram, t, 0);
    OneOwner(k'.sys.tasks, k'.mem, Fixed(own', k'.files), registered', a', j, 0);
  }

  lemma {:induction false} TakenHas(tasks: seq<T.Task>, p: int, ram: seq<Frame>, n: nat, j: int)
    requires Apart(tasks, ram) && n <= T.MAX_TASKS && 0 <= j < n && Owns(j, tasks[j]) && T.Reapable(tasks[j], p)
    ensures Elements(TaskFrames(ram, tasks[j])) <= Taken(tasks, p, ram, n)
  {
    hide TaskFrames, TaskOk, Apart;
    if j < n - 1 { TakenHas(tasks, p, ram, n - 1, j); }
  }

  /** Two early failures one after the other leave no free list. */
  lemma TwoFailuresInARow(k: Kernel, e1: KEvent, e2: KEvent, own: seq<int>, registered: set<int>, a: Account)
    requires KInv(k, own, registered, a) && 0 !in registered && KEnabled(k, e1) && FailsEarly(k, e1) && KStep(k, e1).Ok?
    requires KEnabled(KStep(k, e1).value, e2) && FailsEarly(KStep(k, e1).value, e2) && KStep(KStep(k, e1).value, e2).Ok?
    ensures forall free :: !IsFreeList(KStep(KStep(k, e1).value, e2).value.mem, free)
  {
    hide KInv, KStep, KEnabled, FailsEarly, Stepped, IsFreeList;
    InvIsCore(k, own, registered, a);
    var a1 := StepBalanced(k, e1, own, registered, a);
    SecondFailureLoops(KStep(k, e1).value, e2, own, After(k, e1, registered), a1);
  }

  /** An execv of the empty path, which is no file's. */
  const NOTHING := Execv([], None)

  lemma NothingFails(k: Kernel)
    requires IsKernel(k) && k.sys.curr != 0
    ensures KEnabled(k, NOTHING) && FailsEarly(k, NOTHING) && !Switches(NOTHING)
  {}

  lemma NothingStep(k: Kernel, own: seq<int>, registered: set<int>, a: Account)
    requires KInv(k, own, registered, a) && k.sys.curr != 0 && !k.sys.zombies && |a.free| >= 258
    ensures KEnabled(k, NOTHING) && FailsEarly(k, NOTHING) && KStep(k, NOTHING).Ok?
    ensures KStep(k, NOTHING).value.sys == k.sys && KStep(k, NOTHING).value.files == k.files
  {
    hide KEnabled, FailsEarly, Effect, ReapMemory, KStep, Balanced, Fixed;
    NothingFails(k);
    NothingEffect(k, own, registered, a);
    var m := EarlyEffect(k, NOTHING, own, registered, a);
    NoReaper(k.sys, m);
    QuietParts(k, NOTHING, Changed(k, T.Execv(None), m));
  }

  lemma NoReaper(s: T.Sys, m: Mem)
    requires T.WellFormed(s) && WellFormed(m) && !s.zombies && s.curr != 0
    ensures T.Enabled(s, T.Execv(None)) && T.Step(s, T.Execv(None)) == Ok(s) && ReapAfter(s, T.Execv(None), m) == Ok(m)
  {}

  lemma NothingEffect(k: Kernel, own: seq<int>, registered: set<int>, a: Account)
    requires KInv(k, own, registered, a) && KEnabled(k, NOTHING) && FailsEarly(k, NOTHING) && |a.free| >= 258
    ensures Effect(k, NOTHING).Ok?
  {
    hide Effect, MapKernel, DestroyAddressSpace, KernelBuilt, Find, Holds, Circular, Fixed, Balanced, IsFreeList,
         SameOutside;
    ExecIs(k, NOTHING);
    BooksList(k.sys.tasks, k.mem, Fixed(own, k.files), registered, a);
    MapKernelBuilds(k.mem, a.free);
    var (dir, m1) := MapKernel(k.mem).value;
    KernelWrites(k.mem, m1, a.free, dir);
    FindKept(k, own, registered, a, m1, []);
    if 0 in a.free { EarlyFailureLoops(k.mem, m1, a.free, dir); } else { EarlyFrees(k.mem, m1, a.free, dir); }
  }

  /** A run that does it: any program that calls execv twice with an empty path. */
  lemma EmptyPathTwice(k: Kernel, own: seq<int>, registered: set<int>, a: Account)
    requires KInv(k, own, registered, a) && k.sys.curr != 0 && !k.sys.zombies && 0 !in registered && |a.free| >= 258
    ensures exists k' :: KReaches(k, [NOTHING, NOTHING], k') && forall free :: !IsFreeList(k'.mem, free)
  {
    hide KInv, KStep, KEnabled, FailsEarly, Stepped, IsFreeList;
    InvIsCore(k, own, registered, a);
    NothingStep(k, own, registered, a);
    var a1 := StepBalanced(k, NOTHING, own, registered, a);
    var k1 := KStep(k, NOTHING).value;
    OneMoreFree(k, k1, own, registered, a, After(k, NOTHING, registered), a1);
    NothingStep(k1, own, After(k, NOTHING, registered), a1);
    TwoFailuresInARow(k, NOTHING, NOTHING, own, registered, a);
    var k2 := KStep(k1, NOTHING).value;
    assert KReaches(k2, [], k2);
    assert KReaches(k1, [NOTHING], k2) by { assert [NOTHING][1..] == []; }
    assert KReaches(k, [NOTHING, NOTHING], k2) by { assert [NOTHING, NOTHING][1..] == [NOTHING]; }
  }

  lemma OneMoreFree(k: Kernel, k1: Kernel, own: seq<int>, registered: set<int>, a: Account, registered1: set<int>,
                    a1: Account)
    requires KInv(k, own, registered, a) && KInv(k1, own, registered1, a1) && registered <= registered1
    requires k1.sys == k.sys && k1.files == k.files
    ensures |a1.free| >= |a.free|
  {
    hide Balanced, Fixed;
    BalancedCount(k.sys.tasks, k.mem, Fixed(own, k.files), registered, a);
    BalancedCount(k1.sys.tasks, k1.mem, Fixed(own, k.files), registered1, a1);
    SubsetSize(registered, registered1);
  }

  lemma SubsetSize(s: set<int>, s': set<int>)
    requires s <= s'
    ensures |s| <= |s'|
  {
    assert s' == s + (s' - s);
  }

  // ----- Whole runs

  ghost predicate Balances(k: Kernel, own: seq<int>) {
    exists registered, a :: KInv(k, own, registered, a)
  }

  /** The books balance after every step of the run. */
  ghost predicate BalancesThroughout(k: Kernel, es: seq<KEvent>, own: seq<int>)
    requires IsKernel(k)
    decreases |es|
  {
    && Balances(k, own)
    && (es == [] || !KEnabled(k, es[0]) || KStep(k, es[0]).Panic? ||
      BalancesThroughout(KStep(k, es[0]).value, es[1..], own))
  }

  /** The books of all pages balance throughout a run if and only if frame 0 is freed at most once in it, that is, if
      and only if sys_execv fails at most once before it loads a program. */
  lemma {:induction false} BalancesIff(k: Kernel, es: seq<KEvent>, k': Kernel, own: seq<int>, registered: set<int>,
                                       a: Account)
    requires KInv(k, own, registered, a) && KReaches(k, es, k')
    ensures BalancesThroughout(k, es, own) <==> FreesZeroOnce(k, es, registered)
    decreases |es|
  {
    hide KInv, KStep, KEnabled, FailsEarly, Stepped;
    if es != [] {
      var k1 := KStep(k, es[0]).value;
      if FailsEarly(k, es[0]) && 0 in registered {
        forall registered', a' ensures !KInv(k1, own, registered', a') {
          SecondFailureRuins(k, es[0], own, registered, a, registered', a');
        }
      } else {
        var a1 := StepBalanced(k, es[0], own, registered, a);
        BalancesIff(k1, es[1..], k', own, After(k, es[0], registered), a1);
      }
    }
  }
}
