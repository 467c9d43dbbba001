/** Who owns which page: the free list, the pages taken at boot, and 260 pages for every task. */
module Accounts {
  import opened Machine
  import opened PageAllocator
  import opened PageTable
  import opened AddressSpace
  import T = Tasks

  /** Pages are owned by every used slot but the scheduler's, which runs on pages taken at boot. */
  predicate Owns(i: int, t: T.Task) {
    i != 0 && t.state != T.Unused
  }

  /** A task's kernel stack and address space are frames of its own. */
  ghost predicate TaskOk(ram: seq<Frame>, t: T.Task) {
    && t.pgdir.Some? && t.kstack.Some?
    && UserSpace(ram, t.pgdir.value)
    && IsFrame(t.kstack.value)
  }

  /** The 260 pages of a task: kernel stack, directory, 257 tables, user page. */
  ghost function TaskFrames(ram: seq<Frame>, t: T.Task): (frames: seq<int>)
    requires TaskOk(ram, t)
    ensures |frames| == 260
  {
    [t.kstack.value] + SpaceFrames(ram, t.pgdir.value)
  }

  ghost function Sum(parts: seq<multiset<int>>): multiset<int> {
    if parts == [] then multiset{} else Sum(parts[..|parts| - 1]) + parts[|parts| - 1]
  }

  /** The free pages in list order, and the pages of every slot. */
  datatype Account = Account(free: seq<int>, parts: seq<multiset<int>>)

  ghost predicate PartOk(ram: seq<Frame>, i: int, t: T.Task, part: multiset<int>) {
    if Owns(i, t) then TaskOk(ram, t) && part == multiset(TaskFrames(ram, t)) else part == multiset{}
  }

  /** Every registered page has exactly one owner. */
  ghost predicate Balanced(tasks: seq<T.Task>, m: Mem, fixed: seq<int>, registered: set<int>, a: Account) {
    && |tasks| == T.MAX_TASKS && |a.parts| == T.MAX_TASKS
    && IsFreeList(m, a.free)
    && (forall i {:trigger PartOk(m.ram, i, tasks[i], a.parts[i])} :: 0 <= i < T.MAX_TASKS ==>
      PartOk(m.ram, i, tasks[i], a.parts[i]))
    && multiset(a.free) + multiset(fixed) + Sum(a.parts) == multiset(registered)
  }

  // ----- Sums

  lemma {:induction false} SumUpdate(parts: seq<multiset<int>>, i: int, part: multiset<int>)
    requires 0 <= i < |parts|
    ensures Sum(parts[i := part]) + parts[i] == Sum(parts) + part
  {
    var n := |parts| - 1;
    var parts' := parts[i := part];
    var front := parts[..n];
    assert Sum(parts') == Sum(parts'[..n]) + parts'[n];
    if i == n {
      assert parts'[..n] == front;
      Swap(Sum(front), part, parts[n]);
    } else {
      assert parts'[..n] == front[i := part];
      SumUpdate(front, i, part);
      Swap(Sum(front[i := part]), parts[n], parts[i]);
      Swap(Sum(front), parts[n], part);
    }
  }

  lemma Swap(a: multiset<int>, b: multiset<int>, c: multiset<int>)
    ensures a + b + c == a + c + b
  {}

  lemma {:induction false} SumContains(parts: seq<multiset<int>>, i: int)
    requires 0 <= i < |parts|
    ensures parts[i] <= Sum(parts)
  {
    if i < |parts| - 1 { SumContains(parts[..|parts| - 1], i); }
  }

  lemma SumContainsTwo(parts: seq<multiset<int>>, i: int, j: int)
    requires 0 <= i < |parts| && 0 <= j < |parts| && i != j
    ensures parts[i] + parts[j] <= Sum(parts)
  {
    var parts' := parts[i := multiset{}];
    SumUpdate(parts, i, multiset{});
    SumContains(parts', j);
    assert Sum(parts') + parts[i] == Sum(parts);
    assert parts'[j] == parts[j];
  }

  lemma {:induction false} SumSize(parts: seq<multiset<int>>, owners: set<int>)
    requires owners == set i | 0 <= i < |parts| && parts[i] != multiset{}
    requires forall i :: 0 <= i < |parts| ==> parts[i] == multiset{} || |parts[i]| == 260
    ensures |Sum(parts)| == 260 * |owners|
  {
    if parts != [] {
      var n := |parts| - 1;
      var front := parts[..n];
      var before := set i | 0 <= i < |front| && front[i] != multiset{};
      SumSize(front, before);
      assert forall i :: i in before <==> 0 <= i < n && parts[i] != multiset{};
      assert n !in before;
      if parts[n] == multiset{} {
        assert owners == before;
      } else {
        assert owners == before + {n};
      }
    }
  }

  // ----- Consequences of balance

  lemma SetMultiplicity(registered: set<int>, f: int)
    ensures multiset(registered)[f] <= 1
  {}

  lemma BooksList(tasks: seq<T.Task>, m: Mem, fixed: seq<int>, registered: set<int>, a: Account)
    requires Balanced(tasks, m, fixed, registered, a)
    ensures IsFreeList(m, a.free)
  {}

  /** A free page belongs to no task and is not fixed; a page of one task belongs to no other. */
  lemma OneOwner(tasks: seq<T.Task>, m: Mem, fixed: seq<int>, registered: set<int>, a: Account, i: int, f: int)
    requires Balanced(tasks, m, fixed, registered, a) && T.IsSlot(i) && Owns(i, tasks[i])
    requires TaskOk(m.ram, tasks[i]) && f in TaskFrames(m.ram, tasks[i])
    ensures f in registered
    ensures f !in a.free && f !in fixed
    ensures forall j :: 0 <= j < T.MAX_TASKS && j != i && Owns(j, tasks[j]) ==>
      TaskOk(m.ram, tasks[j]) && f !in TaskFrames(m.ram, tasks[j])
    ensures a.parts[i][f] == 1
  {
    SumContains(a.parts, i);
    SetMultiplicity(registered, f);
    assert PartOk(m.ram, i, tasks[i], a.parts[i]);
    assert f in multiset(TaskFrames(m.ram, tasks[i]));
    var total := multiset(a.free) + multiset(fixed) + Sum(a.parts);
    assert total[f] <= 1 && a.parts[i][f] >= 1;
    assert f !in multiset(a.free) && f !in multiset(fixed);
    forall j | 0 <= j < T.MAX_TASKS && j != i && Owns(j, tasks[j])
      ensures TaskOk(m.ram, tasks[j]) && f !in TaskFrames(m.ram, tasks[j])
    {
      assert PartOk(m.ram, j, tasks[j], a.parts[j]);
      SumContainsTwo(a.parts, i, j);
      assert f !in multiset(TaskFrames(m.ram, tasks[j]));
    }
  }

  ghost function Owners(tasks: seq<T.Task>): set<int> {
    set i | 0 <= i < |tasks| && Owns(i, tasks[i])
  }

  /** Conservation in numbers: free pages, fixed pages and 260 pages per owner are all the pages. */
  lemma BalancedCount(tasks: seq<T.Task>, m: Mem, fixed: seq<int>, registered: set<int>, a: Account)
    requires Balanced(tasks, m, fixed, registered, a)
    ensures |a.free| + |fixed| + 260 * |Owners(tasks)| == |registered|
  {
    var owners := Owners(tasks);
    forall i | 0 <= i < T.MAX_TASKS
      ensures (a.parts[i] != multiset{} <==> Owns(i, tasks[i])) && (a.parts[i] == multiset{} || |a.parts[i]| == 260)
    {
      assert PartOk(m.ram, i, tasks[i], a.parts[i]);
    }
    assert owners == set i | 0 <= i < |a.parts| && a.parts[i] != multiset{};
    SumSize(a.parts, owners);
    assert |multiset(a.free) + multiset(fixed) + Sum(a.parts)| == |multiset(registered)|;
  }

  // ----- Changing balance

  /** The task's directory and tables are unchanged. */
  ghost predicate SamePaging(ram: seq<Frame>, ram': seq<Frame>, t: T.Task)
    requires TaskOk(ram, t)
  {
    var dir := t.pgdir.value;
    && |ram'| == RAM_FRAMES
    && ram'[dir] == ram[dir]
    && forall i :: 0 <= i < 1024 && Present(ram[dir][i]) ==> ram'[TableAt(ram, dir, i)] == ram[TableAt(ram, dir, i)]
  }

  lemma SamePagingSameFrames(ram: seq<Frame>, ram': seq<Frame>, t: T.Task)
    requires TaskOk(ram, t) && SamePaging(ram, ram', t)
    ensures TaskOk(ram', t) && TaskFrames(ram', t) == TaskFrames(ram, t)
    ensures UserFrame(ram', t.pgdir.value) == UserFrame(ram, t.pgdir.value)
  {
    var dir := t.pgdir.value;
    LookupFrame(ram, ram', dir);
    TablesBelowFrame(ram, ram', dir, PDE_SIZE);
    assert forall i :: 0 <= i < 1024 ==> TableAt(ram', dir, i) == TableAt(ram, dir, i);
  }

  /** Any writes outside a task's frames leave its paging alone. */
  lemma WritesElsewhere(ram: seq<Frame>, ram': seq<Frame>, t: T.Task, written: set<int>)
    requires TaskOk(ram, t) && |ram'| == RAM_FRAMES
    requires forall f :: 0 <= f < RAM_FRAMES && f !in written ==> ram'[f] == ram[f]
    requires forall f :: f in TaskFrames(ram, t) ==> f !in written
    ensures SamePaging(ram, ram', t)
  {
    var dir := t.pgdir.value;
    FramesContain(ram, t);
    forall i | 0 <= i < 1024 && Present(ram[dir][i]) ensures ram'[TableAt(ram, dir, i)] == ram[TableAt(ram, dir, i)] {
      assert TableAt(ram, dir, i) in TaskFrames(ram, t);
    }
  }

  lemma FramesContain(ram: seq<Frame>, t: T.Task)
    requires TaskOk(ram, t)
    ensures t.kstack.value in TaskFrames(ram, t) && t.pgdir.value in TaskFrames(ram, t)
    ensures UserFrame(ram, t.pgdir.value) in TaskFrames(ram, t)
    ensures forall i :: 0 <= i < 1024 && Present(ram[t.pgdir.value][i]) ==>
      TableAt(ram, t.pgdir.value, i) in TaskFrames(ram, t)
  {
    var dir := t.pgdir.value;
    var tables := TablesBelow(ram, dir, PDE_SIZE);
    var frames := TaskFrames(ram, t);
    TablesBelowMembers(ram, dir, PDE_SIZE);
    ReverseMembers(tables);
    assert frames[0] == t.kstack.value && frames[1] == dir && frames[259] == UserFrame(ram, dir);
    forall i | 0 <= i < 1024 && Present(ram[dir][i]) ensures TableAt(ram, dir, i) in frames {
      assert TableAt(ram, dir, i) in tables;
      assert TableAt(ram, dir, i) in Reverse(tables);
      assert frames == [t.kstack.value, dir] + Reverse(tables) + [UserFrame(ram, dir)];
    }
  }

  /** The kernel stack and the user page of a task are not part of any task's paging. */
  lemma DataFramesArePrivate(tasks: seq<T.Task>, m: Mem, fixed: seq<int>, registered: set<int>, a: Account, i: int,
                             f: int, ram': seq<Frame>)
    requires Balanced(tasks, m, fixed, registered, a)
    requires T.IsSlot(i) && Owns(i, tasks[i])
    requires PartOk(m.ram, i, tasks[i], a.parts[i]) &&
      (f == tasks[i].kstack.value || f == UserFrame(m.ram, tasks[i].pgdir.value))
    requires |ram'| == RAM_FRAMES && forall g :: 0 <= g < RAM_FRAMES && g != f ==> ram'[g] == m.ram[g]
    ensures f !in a.free
    ensures forall j :: 0 <= j < T.MAX_TASKS && Owns(j, tasks[j]) ==>
      TaskOk(m.ram, tasks[j]) && SamePaging(m.ram, ram', tasks[j])
  {
    FramesContain(m.ram, tasks[i]);
    OneOwner(tasks, m, fixed, registered, a, i, f);
    forall j | 0 <= j < T.MAX_TASKS && Owns(j, tasks[j])
      ensures TaskOk(m.ram, tasks[j]) && SamePaging(m.ram, ram', tasks[j])
    {
      assert PartOk(m.ram, j, tasks[j], a.parts[j]);
      if j == i {
        StackOutside(tasks, m, fixed, registered, a, i);
      } else {
        WritesElsewhere(m.ram, ram', tasks[j], {f});
      }
    }
  }

  lemma StackOutside(tasks: seq<T.Task>, m: Mem, fixed: seq<int>, registered: set<int>, a: Account, i: int)
    requires Balanced(tasks, m, fixed, registered, a)
    requires T.IsSlot(i) && Owns(i, tasks[i]) && PartOk(m.ram, i, tasks[i], a.parts[i])
    ensures Outside(m.ram, tasks[i].pgdir.value, tasks[i].kstack.value)
    ensures tasks[i].kstack.value != UserFrame(m.ram, tasks[i].pgdir.value)
    ensures tasks[i].kstack.value !in SpaceFrames(m.ram, tasks[i].pgdir.value)
  {
    var t := tasks[i];
    var stack := t.kstack.value;
    FramesContain(m.ram, t);
    OneOwner(tasks, m, fixed, registered, a, i, stack);
    var rest := SpaceFrames(m.ram, t.pgdir.value);
    assert multiset(TaskFrames(m.ram, t)) == multiset([stack]) + multiset(rest);
    assert stack !in multiset(rest);
    var tables := TablesBelow(m.ram, t.pgdir.value, PDE_SIZE);
    ReverseMembers(tables);
    TablesBelowMembers(m.ram, t.pgdir.value, PDE_SIZE);
    assert rest[0] == t.pgdir.value && rest[258] == UserFrame(m.ram, t.pgdir.value);
    forall k | 0 <= k < 1024 && Present(m.ram[t.pgdir.value][k]) ensures TableAt(m.ram, t.pgdir.value, k) != stack {
      assert TableAt(m.ram, t.pgdir.value, k) in Reverse(tables);
    }
  }

  /** Pages moved between the free list, the fixed pages and one slot keep the books balanced, if every
      other owner's paging is left alone. */
  lemma Rebalance(tasks: seq<T.Task>, tasks': seq<T.Task>, m: Mem, m': Mem, fixed: seq<int>, fixed': seq<int>,
                  registered: set<int>,
                  a: Account, a': Account, i: int)
    requires Balanced(tasks, m, fixed, registered, a)
    requires T.IsSlot(i) && |tasks'| == T.MAX_TASKS && |a'.parts| == T.MAX_TASKS
    requires forall j :: 0 <= j < T.MAX_TASKS && j != i ==>
      a'.parts[j] == a.parts[j] && SameOwner(tasks[j], tasks'[j], j)
    requires IsFreeList(m', a'.free)
    requires PartOk(m'.ram, i, tasks'[i], a'.parts[i])
    requires forall j :: 0 <= j < T.MAX_TASKS && j != i && Owns(j, tasks[j]) ==>
      TaskOk(m.ram, tasks[j]) && SamePaging(m.ram, m'.ram, tasks[j])
    requires multiset(a'.free) + multiset(fixed') + a'.parts[i] == multiset(a.free) + multiset(fixed) + a.parts[i]
    ensures Balanced(tasks', m', fixed', registered, a')
  {
    forall j | 0 <= j < T.MAX_TASKS ensures PartOk(m'.ram, j, tasks'[j], a'.parts[j]) {
      if j != i {
        assert PartOk(m.ram, j, tasks[j], a.parts[j]);
        if Owns(j, tasks[j]) {
          SamePagingSameFrames(m.ram, m'.ram, tasks[j]);
          assert TaskFrames(m'.ram, tasks'[j]) == TaskFrames(m'.ram, tasks[j]);
        }
      }
    }
    assert a'.parts == a.parts[i := a'.parts[i]];
    SumUpdate(a.parts, i, a'.parts[i]);
    Exchange(multiset(a.free), multiset(fixed), Sum(a.parts), a.parts[i],
             multiset(a'.free), multiset(fixed'), Sum(a'.parts), a'.parts[i]);
  }

  lemma Exchange(free: multiset<int>, fixed: multiset<int>, sum: multiset<int>, part: multiset<int>,
                 free': multiset<int>, fixed': multiset<int>, sum': multiset<int>, part': multiset<int>)
    requires sum' + part == sum + part'
    requires free' + fixed' + part' == free + fixed + part
    ensures free' + fixed' + sum' == free + fixed + sum
  {
    assert (free' + fixed' + sum') + (part + part') == (free' + fixed' + part') + (sum' + part);
    assert (free + fixed + sum) + (part + part') == (free + fixed + part) + (sum + part');
    forall x ensures (free' + fixed' + sum')[x] == (free + fixed + sum)[x] {
      assert ((free' + fixed' + sum') + (part + part'))[x] == ((free + fixed + sum) + (part + part'))[x];
    }
  }

  /** A change that moves no page: both tasks own the same pages, or both own none. */
  ghost predicate SameOwner(t: T.Task, t': T.Task, i: int) {
    && (Owns(i, t) <==> Owns(i, t'))
    && (Owns(i, t) ==> t'.pgdir == t.pgdir && t'.kstack == t.kstack)
  }
}
