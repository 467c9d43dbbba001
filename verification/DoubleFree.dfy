/** What freeing a page twice does to the free list, and what it means for runs in which sys_execv fails twice
    before it loads a program: frame 0 is freed each time. */
module DoubleFree {
  import opened Machine
  import opened PageAllocator
  import opened PageTable
  import opened AddressSpace
  import opened Accounts
  import opened Conservation
  import opened Kernel
  import T = Tasks

  // ----- Lists that run in a circle

  /** The links, followed from free_pages, run through p and from its last page back to a page of p. */
  ghost predicate Looped(m: Mem, p: seq<int>) {
    && WellFormed(m) && p != []
    && (forall k :: 0 <= k < |p| ==> IsFrame(p[k]))
    && NoDuplicates(p)
    && m.head == VirtualOf(p[0])
    && (forall k {:trigger m.ram[p[k]]} :: 0 <= k < |p| - 1 ==> m.ram[p[k]][0] == VirtualOf(p[k + 1]))
    && exists j :: 0 <= j < |p| && m.ram[p[|p| - 1]][0] == VirtualOf(p[j])
  }

  /** No list then ever ends. */
  lemma LoopHasNoEnd(m: Mem, p: seq<int>, free: seq<int>)
    requires Looped(m, p)
    ensures !IsFreeList(m, free)
  {
    if IsFreeList(m, free) {
      FollowsLoop(m, p, free, |p|);
      var j :| 0 <= j < |p| && m.ram[p[|p| - 1]][0] == VirtualOf(p[j]);
      assert m.ram[free[|p| - 1]][0] == LinkTo(free, |p|);
      VirtualOfInjective(free[|p|], free[j]);
    }
  }

  lemma {:induction false} FollowsLoop(m: Mem, p: seq<int>, free: seq<int>, k: int)
    requires Looped(m, p) && IsFreeList(m, free) && 1 <= k <= |p|
    ensures |free| >= k && forall i :: 0 <= i < k ==> free[i] == p[i]
  {
    if k == 1 {
      VirtualOfInjective(free[0], p[0]);
    } else {
      FollowsLoop(m, p, free, k - 1);
      assert m.ram[free[k - 2]][0] == LinkTo(free, k - 1) && m.ram[p[k - 2]][0] == VirtualOf(p[k - 1]);
      VirtualOfInjective(free[k - 1], p[k - 1]);
    }
  }

  /** The list runs in a circle within these pages. */
  ghost predicate Circular(m: Mem, s: set<int>) {
    exists p :: Looped(m, p) && Elements(p) <= s
  }

  /** Frame f is free, within these pages, or the list runs in a circle. Its first word is no present entry. */
  ghost predicate Holds(m: Mem, f: int, s: set<int>) {
    && WellFormed(m) && IsFrame(f) && m.ram[f][0] % 2 == 0
    && (Circular(m, s) || exists l :: IsFreeList(m, l) && f in l && Elements(l) <= s)
  }

  lemma ListHolds(m: Mem, l: seq<int>, f: int, s: set<int>)
    requires IsFreeList(m, l) && f in l && Elements(l) <= s
    ensures Holds(m, f, s)
  {
    hide IsFreeList, Circular;
    var k :| 0 <= k < |l| && l[k] == f;
    LinkIsEven(m, l, k);
  }

  lemma LinkIsEven(m: Mem, l: seq<int>, k: int)
    requires IsFreeList(m, l) && 0 <= k < |l|
    ensures WellFormed(m) && IsFrame(l[k]) && m.ram[l[k]][0] % 2 == 0
  {
    assert m.ram[l[k]][0] == LinkTo(l, k + 1);
  }

  /** Freeing the page at position i of a list, or of a circle, closes a circle through the pages before it. */
  lemma FreedAgain(m: Mem, l: seq<int>, i: int)
    requires IsFreeList(m, l) || Looped(m, l)
    requires 0 <= i < |l|
    ensures Kfree(m, VirtualOf(l[i])).Ok? && Looped(Kfree(m, VirtualOf(l[i])).value, [l[i]] + l[..i])
  {
    FrameOfVirtual(l[i]);
    var m', p := Kfree(m, VirtualOf(l[i])).value, [l[i]] + l[..i];
    forall k | 0 <= k < |p| - 1 ensures m'.ram[p[k]][0] == VirtualOf(p[k + 1]) {
      if k > 0 { assert m.ram[l[k - 1]][0] == VirtualOf(l[k]); }
    }
    if i > 0 { assert m.ram[l[i - 1]][0] == VirtualOf(l[i]); }
    assert m'.ram[p[|p| - 1]][0] == VirtualOf(p[0]);
  }

  lemma FreedInFront(m: Mem, p: seq<int>, g: int)
    requires Looped(m, p) && IsFrame(g) && g !in p
    ensures Kfree(m, VirtualOf(g)).Ok? && Looped(Kfree(m, VirtualOf(g)).value, [g] + p)
  {
    FrameOfVirtual(g);
    var m', p' := Kfree(m, VirtualOf(g)).value, [g] + p;
    forall k | 0 <= k < |p'| - 1 ensures m'.ram[p'[k]][0] == VirtualOf(p'[k + 1]) {
      if k > 0 { assert m.ram[p[k - 1]][0] == VirtualOf(p[k]); }
    }
    var j :| 0 <= j < |p| && m.ram[p[|p| - 1]][0] == VirtualOf(p[j]);
    assert m'.ram[p'[|p'| - 1]][0] == VirtualOf(p'[j + 1]);
  }

  lemma KfreeOfLoop(m: Mem, p: seq<int>, g: int) returns (p': seq<int>)
    requires Looped(m, p) && IsFrame(g)
    ensures Kfree(m, VirtualOf(g)).Ok? && Looped(Kfree(m, VirtualOf(g)).value, p') && Elements(p') <= Elements(p) + {g}
  {
    hide Looped, Kfree;
    if g in p {
      var i :| 0 <= i < |p| && p[i] == g;
      FreedAgain(m, p, i);
      p' := [g] + p[..i];
    } else {
      FreedInFront(m, p, g);
      p' := [g] + p;
    }
  }

  /** Whatever is freed next, f stays free or the list runs in a circle; and it does once f is freed again. */
  lemma KfreeHolds(m: Mem, f: int, s: set<int>, g: int)
    requires Holds(m, f, s) && IsFrame(g)
    ensures Kfree(m, VirtualOf(g)).Ok?
    ensures
      var m' := Kfree(m, VirtualOf(g)).value;
      && Holds(m', f, s + {g})
      && (Circular(m, s) || g == f ==> Circular(m', s + {g}))
      && m'.ram == m.ram[g := m'.ram[g]]
  {
    hide Looped, Kfree, IsFreeList;
    KfreeWrites(m, f, s, g);
    var m' := Kfree(m, VirtualOf(g)).value;
    if Circular(m, s) {
      var p :| Looped(m, p) && Elements(p) <= s;
      var p' := KfreeOfLoop(m, p, g);
    } else {
      var l :| IsFreeList(m, l) && f in l && Elements(l) <= s;
      if g in l {
        var i :| 0 <= i < |l| && l[i] == g;
        FreedAgain(m, l, i);
        assert Elements([g] + l[..i]) <= s + {g};
      } else {
        KfreePushes(m, l, g);
        assert IsFreeList(m', [g] + l) && f in [g] + l && Elements([g] + l) <= s + {g};
      }
    }
  }

  lemma KfreeWrites(m: Mem, f: int, s: set<int>, g: int)
    requires Holds(m, f, s) && IsFrame(g)
    ensures Kfree(m, VirtualOf(g)).Ok?
    ensures
      var m' := Kfree(m, VirtualOf(g)).value;
      WellFormed(m') && m'.ram == m.ram[g := m'.ram[g]] && m'.ram[f][0] % 2 == 0
  {
    hide Circular, Looped, IsFreeList;
    FrameOfVirtual(g);
    HeadEven(m, f, s);
  }

  lemma HeadEven(m: Mem, f: int, s: set<int>)
    requires Holds(m, f, s)
    ensures m.head % 2 == 0
  {
    hide Looped, IsFreeList;
    if Circular(m, s) {
      var p :| Looped(m, p) && Elements(p) <= s;
      LoopHeadEven(m, p);
    } else {
      var l :| IsFreeList(m, l) && f in l && Elements(l) <= s;
      ListHeadEven(m, l);
    }
  }

  lemma LoopHeadEven(m: Mem, p: seq<int>)
    requires Looped(m, p)
    ensures m.head % 2 == 0
  {}

  lemma ListHeadEven(m: Mem, l: seq<int>)
    requires IsFreeList(m, l)
    ensures m.head % 2 == 0
  {}

  /** Writes outside of the list do not change that. */
  lemma WriteHolds(m: Mem, f: int, s: set<int>, g: int, words: Frame)
    requires Holds(m, f, s) && IsFrame(g) && g !in s && g != f
    ensures Holds(Mem(m.ram[g := words], m.head), f, s)
    ensures Circular(m, s) ==> Circular(Mem(m.ram[g := words], m.head), s)
  {
    var m' := Mem(m.ram[g := words], m.head);
    if Circular(m, s) {
      var p :| Looped(m, p) && Elements(p) <= s;
      assert g !in p;
      assert Looped(m', p) by {
        assert m'.ram[p[|p| - 1]] == m.ram[p[|p| - 1]];
        assert forall k :: 0 <= k < |p| ==> m'.ram[p[k]] == m.ram[p[k]];
      }
    } else {
      var l :| IsFreeList(m, l) && f in l && Elements(l) <= s;
      assert g !in l;
      FreeListFrame(m, l, m'.ram);
    }
  }

  // ----- Taking spaces apart

  /** The tables of the first n entries of a directory. */
  ghost function TableSet(words: Frame, n: nat): set<int>
    requires n <= 1024
  {
    set i | 0 <= i < n && Present(words[i]) :: words[i] / 0x1000
  }

  /** All tables are frames other than the directory. */
  ghost predicate TablesOk(ram: seq<Frame>, dir: int) {
    && |ram| == RAM_FRAMES && IsFrame(dir)
    && forall i :: 0 <= i < 1024 && Present(ram[dir][i]) ==>
      IsFrame(TableAt(ram, dir, i)) && TableAt(ram, dir, i) != dir
  }

  ghost predicate SameOutside(ram: seq<Frame>, ram': seq<Frame>, s: set<int>) {
    |ram| == |ram'| == RAM_FRAMES && forall g :: IsFrame(g) && g !in s ==> ram'[g] == ram[g]
  }

  lemma {:induction false} FreeTablesHolds(m: Mem, f: int, s: set<int>, dir: int, n: nat)
    requires Holds(m, f, s) && TablesOk(m.ram, dir) && n <= 1024
    ensures FreeTables(m, dir, n).Ok?
    ensures
      var m', t := FreeTables(m, dir, n).value, TableSet(m.ram[dir], n);
      && Holds(m', f, s + t)
      && (Circular(m, s) || f in t ==> Circular(m', s + t))
      && m'.ram[dir] == m.ram[dir] && SameOutside(m.ram, m'.ram, t)
  {
    hide Kfree, Holds, Circular;
    HoldsWf(m, f, s);
    if n == 0 {
      assert TableSet(m.ram[dir], 0) == {} && s + {} == s;
    } else {
      FreeTablesHolds(m, f, s, dir, n - 1);
      var m1, t := FreeTables(m, dir, n - 1).value, TableSet(m.ram[dir], n - 1);
      if Present(m.ram[dir][n - 1]) {
        var g := TableAt(m.ram, dir, n - 1);
        KfreeHolds(m1, f, s + t, g);
        assert TableSet(m.ram[dir], n) == t + {g};
        assert s + t + {g} == s + (t + {g});
      } else {
        assert TableSet(m.ram[dir], n) == t;
      }
    }
  }

  lemma HoldsWf(m: Mem, f: int, s: set<int>)
    requires Holds(m, f, s)
    ensures WellFormed(m) && IsFrame(f) && m.ram[f][0] % 2 == 0
  {}

  /** destroy_address_space behind its unmap_memory. */
  lemma DirectoryHolds(m: Mem, f: int, s: set<int>, dir: int)
    requires Holds(m, f, s) && TablesOk(m.ram, dir)
    ensures FreeTables(m, dir, PDE_SIZE).Ok? && Kfree(FreeTables(m, dir, PDE_SIZE).value, VirtualOf(dir)).Ok?
    ensures
      var m', t := Kfree(FreeTables(m, dir, PDE_SIZE).value, VirtualOf(dir)).value, TableSet(m.ram[dir], PDE_SIZE);
      && Holds(m', f, s + t + {dir})
      && (Circular(m, s) || f in t || f == dir ==> Circular(m', s + t + {dir}))
      && SameOutside(m.ram, m'.ram, t + {dir})
  {
    hide Kfree, Holds, Circular, FreeTables;
    FreeTablesHolds(m, f, s, dir, PDE_SIZE);
    KfreeHolds(FreeTables(m, dir, PDE_SIZE).value, f, s + TableSet(m.ram[dir], PDE_SIZE), dir);
  }

  /** unmap_page of page 0, when it is mapped. */
  lemma UnmapIs(m: Mem, dir: int, table: int, user: int)
    requires WellFormed(m) && IsFrame(dir) && Present(m.ram[dir][0]) && TableAt(m.ram, dir, 0) == table &&
      IsFrame(table)
    requires Present(m.ram[table][0]) && m.ram[table][0] / 0x1000 == user && IsFrame(user)
    ensures Kfree(m, VirtualOf(user)).Ok?
    ensures
      var m1 := Kfree(m, VirtualOf(user)).value;
      UnmapMemory(m, dir, 0, 0x1000) == Ok(Mem(m1.ram[table := m1.ram[table][0 := 0]], m1.head))
  {
    FrameOfVirtual(user);
    UnmapFirstPage(m, dir);
  }

  // ----- An early failure of sys_execv while frame 0 is free

  /** map_kernel's space maps page 0 to frame 0. */
  lemma BuiltMapsZero(m: Mem, m1: Mem, free: seq<int>, dir: int)
    requires IsFreeList(m, free) && |free| >= KERNEL_PAGES && KernelBuilt(m, dir, m1, free)
    ensures TablesOk(m1.ram, dir) && Present(m1.ram[dir][0]) && TableAt(m1.ram, dir, 0) == free[1] && IsFrame(free[1])
    ensures dir == free[0] && dir != free[1] && Present(m1.ram[free[1]][0]) && m1.ram[free[1]][0] / 0x1000 == 0
    ensures TableSet(m1.ram[dir], PDE_SIZE) == Elements(free[1..258])
    ensures IsFreeList(m1, free[258..]) && free[1] !in free[258..]
  {
    var tables := free[1..258];
    assert KernelTable(0) == Some(0) && tables[0] == free[1];
    assert Lookup(m1.ram, dir, 0) == KernelMapping(0);
    var t := TableSet(m1.ram[dir], PDE_SIZE);
    forall g ensures g in t <==> g in tables {
      if g in tables {
        var k :| 0 <= k < 257 && tables[k] == g;
        var i := if k == 0 then 0 else k + 767;
        assert KernelTable(i) == Some(k) && Present(m1.ram[dir][i]) && m1.ram[dir][i] / 0x1000 == g;
      }
    }
  }

  /** The unmap frees frame 0; what it leaves of the list. */
  lemma EarlyUnmap(m: Mem, m1: Mem, free: seq<int>, dir: int) returns (m3: Mem)
    requires IsFreeList(m, free) && |free| >= KERNEL_PAGES && KernelBuilt(m, dir, m1, free) && 0 in free
    ensures UnmapMemory(m1, dir, 0, 0x1000) == Ok(m3)
    ensures Holds(m3, 0, Elements(free)) && (0 in free[258..] ==> Circular(m3, Elements(free)))
    ensures SameOutside(m1.ram, m3.ram, Elements(free))
    ensures dir != 0 ==> m3.ram[dir] == m1.ram[dir]
    ensures dir == 0 ==> !Present(m3.ram[dir][0]) && forall i :: 1 <= i < 1024 ==> m3.ram[dir][i] == m1.ram[dir][i]
  {
    hide KernelBuilt, Holds, Circular, TableSet, UnmapMemory, TablesOk;
    BuiltMapsZero(m, m1, free, dir);
    UnmapIs(m1, dir, free[1], 0);
    var l, m2 := free[258..], Kfree(m1, VirtualOf(0)).value;
    m3 := Mem(m2.ram[free[1] := m2.ram[free[1]][0 := 0]], m2.head);
    FrameOfVirtual(0);
    if free[1] == 0 {
      OnlyZero(m1, l, m3);
    } else if 0 in l {
      ListFreesZero(m1, l, free[1], m3, Elements(free));
    } else {
      KfreePushes(m1, l, 0);
      FreeListFrame(m2, [0] + l, m3.ram);
      ListHolds(m3, [0] + l, 0, Elements(free));
    }
    if dir == 0 { ListHeadEven(m1, l); }
  }

  lemma OnlyZero(m1: Mem, l: seq<int>, m3: Mem)
    requires IsFreeList(m1, l) && 0 !in l && m3.head == VirtualOf(0) && WellFormed(m3) && m3.ram[0][0] == 0
    ensures Holds(m3, 0, {0}) && forall s: set<int> :: 0 in s ==> Holds(m3, 0, s)
  {
    assert IsFreeList(m3, [0]);
    forall s: set<int> | 0 in s ensures Holds(m3, 0, s) { ListHolds(m3, [0], 0, s); }
  }

  lemma ListFreesZero(m1: Mem, l: seq<int>, table: int, m3: Mem, s: set<int>)
    requires IsFreeList(m1, l) && 0 in l && IsFrame(table) && table !in l && table != 0 && Elements(l) <= s
    requires Kfree(m1, VirtualOf(0)).Ok?
    requires var m2 := Kfree(m1, VirtualOf(0)).value;
      WellFormed(m2) && m3 == Mem(m2.ram[table := m2.ram[table][0 := 0]], m2.head)
    ensures Holds(m3, 0, s) && Circular(m3, s)
  {
    hide Kfree, IsFreeList, Holds, Circular;
    ListHolds(m1, l, 0, Elements(l));
    HoldsWf(m1, 0, Elements(l));
    var m2 := Kfree(m1, VirtualOf(0)).value;
    KfreeHolds(m1, 0, Elements(l), 0);
    assert Elements(l) + {0} == Elements(l);
    WriteHolds(m2, 0, Elements(l), table, m2.ram[table][0 := 0]);
    HoldsGrows(m3, 0, Elements(l), s);
  }

  lemma HoldsGrows(m: Mem, f: int, s: set<int>, s': set<int>)
    requires Holds(m, f, s) && s <= s'
    ensures Holds(m, f, s') && (Circular(m, s) ==> Circular(m, s'))
  {}

  /** If frame 0 is free when sys_execv fails early, the free list runs in a circle afterwards: it has no end. */
  lemma EarlyFailureLoops(m: Mem, m1: Mem, free: seq<int>, dir: int)
    requires IsFreeList(m, free) && |free| >= KERNEL_PAGES && KernelBuilt(m, dir, m1, free) && 0 in free
    ensures WellFormed(m1) && IsFrame(dir) && DestroyAddressSpace(m1, dir).Ok?
    ensures Holds(DestroyAddressSpace(m1, dir).value, 0, Elements(free)) &&
      Circular(DestroyAddressSpace(m1, dir).value, Elements(free))
    ensures SameOutside(m.ram, DestroyAddressSpace(m1, dir).value.ram, Elements(free))
  {
    hide KernelBuilt, Holds, Circular, UnmapMemory, FreeTables, Kfree, TableSet;
    BuiltFacts(m, m1, free, dir);
    BuiltMapsZero(m, m1, free, dir);
    KernelWritesFree(m, m1, free, dir);
    var s := Elements(free);
    var m3 := EarlyUnmap(m, m1, free, dir);
    DirectoryAfter(m1, m3, free, dir);
    DirectoryHolds(m3, 0, s, dir);
    var t := TableSet(m3.ram[dir], PDE_SIZE);
    assert s + t + {dir} == s;
    assert free == free[..1] + free[1..258] + free[258..];
  }

  lemma KernelWritesFree(m: Mem, m1: Mem, free: seq<int>, dir: int)
    requires IsFreeList(m, free) && |free| >= KERNEL_PAGES && KernelBuilt(m, dir, m1, free)
    ensures SameOutside(m.ram, m1.ram, Elements(free))
  {
    assert free[0] in free;
    assert forall i :: 0 <= i < 257 ==> free[1..258][i] == free[i + 1];
  }

  lemma DirectoryAfter(m1: Mem, m3: Mem, free: seq<int>, dir: int)
    requires |free| >= KERNEL_PAGES && TablesOk(m1.ram, dir) && WellFormed(m3) && dir == free[0]
    requires TableSet(m1.ram[dir], PDE_SIZE) == Elements(free[1..258])
    requires dir != 0 ==> m3.ram[dir] == m1.ram[dir]
    requires dir == 0 ==> !Present(m3.ram[dir][0]) && forall i :: 1 <= i < 1024 ==> m3.ram[dir][i] == m1.ram[dir][i]
    ensures TablesOk(m3.ram, dir) && TableSet(m3.ram[dir], PDE_SIZE) <= Elements(free) && dir in free
    ensures dir != 0 ==> TableSet(m3.ram[dir], PDE_SIZE) == Elements(free[1..258])
  {
    forall g | g in TableSet(m3.ram[dir], PDE_SIZE) ensures g in free {
      assert g in TableSet(m1.ram[dir], PDE_SIZE);
      assert g in free[1..258];
    }
  }

  // ----- The reaper behind it

  /** Memory differs from ram only within s, where frame f holds no present entry in its first word; the task's
      pages are outside of s, but for f. */
  ghost predicate Spoilt(ram: seq<Frame>, m: Mem, f: int, s: set<int>, t: T.Task)
    requires TaskOk(ram, t)
  {
    && Holds(m, f, s) && f in s && SameOutside(ram, m.ram, s)
    && forall g :: g in s && g in TaskFrames(ram, t) ==> g == f
  }

  /** Destroying a task whose pages may include f: if it does not panic, f stays free or the list runs in a circle,
      and it does if f is one of the pages. */
  lemma DestroySpoilt(ram: seq<Frame>, m: Mem, f: int, s: set<int>, t: T.Task)
    requires TaskOk(ram, t) && Spoilt(ram, m, f, s, t) && DestroyTaskMemory(m, t).Ok?
    ensures
      var m', s' := DestroyTaskMemory(m, t).value, s + Elements(TaskFrames(ram, t));
      && Holds(m', f, s') && SameOutside(ram, m'.ram, s')
      && (Circular(m, s) || f in TaskFrames(ram, t) ==> Circular(m', s'))
  {
    hide Holds, Circular, Kfree, UnmapMemory, FreeTables, UserSpace, TaskFrames, TableSet;
    HoldsWf(m, f, s);
    var dir, stack := t.pgdir.value, t.kstack.value;
    DirectoryKept(ram, m, f, s, t);
    SpaceShape(ram, t);
    var table, user := TableAt(ram, dir, 0), UserFrame(ram, dir);
    UnmapIs(m, dir, table, user);
    KfreeHolds(m, f, s, user);
    var m1 := Kfree(m, VirtualOf(user)).value;
    WriteHolds(m1, f, s + {user}, table, m1.ram[table][0 := 0]);
    var m2 := Mem(m1.ram[table := m1.ram[table][0 := 0]], m1.head);
    assert m2.ram[dir] == ram[dir];
    SameTables(ram, m2.ram, dir);
    DirectoryHolds(m2, f, s + {user}, dir);
    var m3 := DestroyAddressSpace(m, dir).value;
    var s3 := s + {user} + TableSet(ram[dir], PDE_SIZE) + {dir};
    KfreeHolds(m3, f, s3, stack);
    assert s3 + {stack} == s + Elements(TaskFrames(ram, t));
    assert f in TaskFrames(ram, t) ==> f in TableSet(ram[dir], PDE_SIZE) + {user, dir, stack};
  }

  lemma SameTables(ram: seq<Frame>, ram': seq<Frame>, dir: int)
    requires TablesOk(ram, dir) && |ram'| == RAM_FRAMES && ram'[dir] == ram[dir]
    ensures TablesOk(ram', dir)
  {}

  /** A task's directory and its first table are intact, or its destruction panics. */
  lemma DirectoryKept(ram: seq<Frame>, m: Mem, f: int, s: set<int>, t: T.Task)
    requires TaskOk(ram, t) && Spoilt(ram, m, f, s, t) && DestroyTaskMemory(m, t).Ok?
    ensures
      var dir := t.pgdir.value;
      && IsFrame(dir) && dir !in s && m.ram[dir] == ram[dir]
      && var table := TableAt(ram, dir, 0);
      IsFrame(table) && table !in s && table != f && m.ram[table] == ram[table]
  {
    hide Circular, FreeTables, TaskFrames, UserSpace, TableSet;
    var dir := t.pgdir.value;
    FramesContain(ram, t);
    SpaceShape(ram, t);
    UnmapFirstPage(m, dir);
  }

  lemma SpaceShape(ram: seq<Frame>, t: T.Task)
    requires TaskOk(ram, t)
    ensures
      var dir, user := t.pgdir.value, UserFrame(ram, t.pgdir.value);
      && TablesOk(ram, dir) && Present(ram[dir][0]) && IsFrame(user) && user != dir && user != TableAt(ram, dir, 0)
      && TableAt(ram, dir, 0) in TableSet(ram[dir], PDE_SIZE)
      && Present(ram[TableAt(ram, dir, 0)][0]) && ram[TableAt(ram, dir, 0)][0] / 0x1000 == user
      && Elements(TaskFrames(ram, t)) == TableSet(ram[dir], PDE_SIZE) + {user, dir, t.kstack.value}
  {
    hide TablesBelow;
    var dir := t.pgdir.value;
    var tables := TablesBelow(ram, dir, PDE_SIZE);
    var frames := TaskFrames(ram, t);
    assert Lookup(ram, dir, 0).Some?;
    FramesContain(ram, t);
    TablesBelowMembers(ram, dir, PDE_SIZE);
    ReverseMembers(tables);
    assert frames == [t.kstack.value, dir] + Reverse(tables) + [UserFrame(ram, dir)];
    forall g | g in frames ensures g in TableSet(ram[dir], PDE_SIZE) + {UserFrame(ram, dir), dir, t.kstack.value} {
      if g in Reverse(tables) { assert g in tables; }
    }
  }

  /** Every owner has its own pages. */
  ghost predicate Apart(tasks: seq<T.Task>, ram: seq<Frame>) {
    && |tasks| == T.MAX_TASKS && !Owns(0, tasks[0])
    && (forall j :: T.IsSlot(j) && Owns(j, tasks[j]) ==> TaskOk(ram, tasks[j]))
    && (forall i, j, g | T.IsSlot(i) && T.IsSlot(j) && i != j && Owns(i, tasks[i]) && Owns(j, tasks[j]) ::
          g in TaskFrames(ram, tasks[i]) ==> g !in TaskFrames(ram, tasks[j]))
  }

  lemma BooksApart(tasks: seq<T.Task>, m: Mem, fixed: seq<int>, registered: set<int>, a: Account)
    requires Balanced(tasks, m, fixed, registered, a) && !Owns(0, tasks[0])
    ensures Apart(tasks, m.ram)
  {
    hide TaskFrames, IsFreeList;
    forall j | T.IsSlot(j) && Owns(j, tasks[j]) ensures TaskOk(m.ram, tasks[j]) {
      assert PartOk(m.ram, j, tasks[j], a.parts[j]);
    }
    forall i, j, g | T.IsSlot(i) && T.IsSlot(j) && i != j && Owns(i, tasks[i]) && Owns(j, tasks[j]) &&
      g in TaskFrames(m.ram, tasks[i])
      ensures g !in TaskFrames(m.ram, tasks[j])
    {
      OneOwner(tasks, m, fixed, registered, a, i, g);
    }
  }

  /** The pages of the tasks below n that the reaper destroys. */
  ghost function Taken(tasks: seq<T.Task>, p: int, ram: seq<Frame>, n: nat): set<int>
    requires Apart(tasks, ram) && n <= T.MAX_TASKS
  {
    if n == 0 then {}
    else if T.Reapable(tasks[n - 1], p) && Owns(n - 1, tasks[n - 1]) then
      Taken(tasks, p, ram, n - 1) + Elements(TaskFrames(ram, tasks[n - 1]))
    else Taken(tasks, p, ram, n - 1)
  }

  lemma {:induction false} TakenFromOthers(tasks: seq<T.Task>, p: int, ram: seq<Frame>, n: nat, j: int)
    requires Apart(tasks, ram) && n <= T.MAX_TASKS && T.IsSlot(j) && Owns(j, tasks[j]) &&
      (j >= n || !T.Reapable(tasks[j], p))
    ensures forall g :: g in TaskFrames(ram, tasks[j]) ==> g !in Taken(tasks, p, ram, n)
  {
    hide TaskFrames, TaskOk;
    if n > 0 { TakenFromOthers(tasks, p, ram, n - 1, j); }
  }

  lemma {:induction false} ReapLoopSpoilt(tasks: seq<T.Task>, p: int, ram: seq<Frame>, m: Mem, f: int, s: set<int>,
                                          n: nat)
    requires Apart(tasks, ram) && n <= T.MAX_TASKS && Holds(m, f, s) && f in s && SameOutside(ram, m.ram, s)
    requires forall j, g :: T.IsSlot(j) && Owns(j, tasks[j]) && g in TaskFrames(ram, tasks[j]) && g in s ==> g == f
    requires !T.Reapable(tasks[0], p) && WellFormed(m) && ReapLoop(tasks, p, m, n).Ok?
    ensures
      var m', s' := ReapLoop(tasks, p, m, n).value, s + Taken(tasks, p, ram, n);
      && Holds(m', f, s') && SameOutside(ram, m'.ram, s')
      && (Circular(m, s) || f in Taken(tasks, p, ram, n) ==> Circular(m', s'))
  {
    hide TaskFrames, TaskOk, Holds, Circular, DestroyTaskMemory;
    if n == 0 {
      assert s + {} == s;
    } else {
      ReapLoopSpoilt(tasks, p, ram, m, f, s, n - 1);
      if T.Reapable(tasks[n - 1], p) {
        var m1, s1, t := ReapLoop(tasks, p, m, n - 1).value, s + Taken(tasks, p, ram, n - 1), tasks[n - 1];
        assert Owns(n - 1, t);
        TakenFromOthers(tasks, p, ram, n - 1, n - 1);
        DestroySpoilt(ram, m1, f, s1, t);
        assert s1 + Elements(TaskFrames(ram, t)) == s + Taken(tasks, p, ram, n);
      }
    }
  }
}
