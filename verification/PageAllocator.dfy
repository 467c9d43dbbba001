/** The page allocator of memory.c: a linked list of free pages whose links live in word 0 of the
    free pages themselves. */
module PageAllocator {
  import opened Machine

  /** Physical memory and the variable free_pages. */
  datatype Mem = Mem(ram: seq<Frame>, head: Word)

  predicate WellFormed(m: Mem) {
    |m.ram| == RAM_FRAMES
  }

  function WriteWord(ram: seq<Frame>, f: int, i: int, w: Word): (r: seq<Frame>)
    requires |ram| == RAM_FRAMES && IsFrame(f) && 0 <= i < 1024
    ensures |r| == RAM_FRAMES
  {
    ram[f := ram[f][i := w]]
  }

  /** kfree: link the page in front of the list, then insist on its alignment. */
  function Kfree(m: Mem, ptr: Word): (r: Result<Mem>)
    requires WellFormed(m)
    ensures r.Ok? ==> WellFormed(r.value)
  {
    if !IsKernelPointer(ptr) || ptr % 0x1000 != 0 then
      Panic
    else
      Ok(Mem(WriteWord(m.ram, FrameOf(ptr), 0, m.head), ptr))
  }

  /** kmalloc: unlink the first page of the list. */
  function Kmalloc(m: Mem): (r: Result<(Word, Mem)>)
    requires WellFormed(m)
    ensures r.Ok? ==> WellFormed(r.value.1) && IsKernelPointer(r.value.0)
  {
    if m.head == 0 || m.head % 0x1000 != 0 || !IsKernelPointer(m.head) then
      Panic
    else
      Ok((m.head, m.(head := m.ram[FrameOf(m.head)][0])))
  }

  /** The word that must link to element i of the list: its address, or NULL past the end. */
  function LinkTo(free: seq<int>, i: int): Word
    requires forall k :: 0 <= k < |free| ==> IsFrame(free[k])
    requires 0 <= i <= |free|
  {
    if i == |free| then 0 else VirtualOf(free[i])
  }

  /** The links in memory, followed from free_pages, run through exactly the frames of `free`, in
      this order and without ever returning to one of them. */
  ghost predicate IsFreeList(m: Mem, free: seq<int>) {
    && WellFormed(m)
    && (forall k :: 0 <= k < |free| ==> IsFrame(free[k]))
    && NoDuplicates(free)
    && m.head == LinkTo(free, 0)
    && (forall k {:trigger m.ram[free[k]]} :: 0 <= k < |free| ==> m.ram[free[k]][0] == LinkTo(free, k + 1))
  }

  lemma SameFreeList(m: Mem, a: seq<int>, b: seq<int>)
    requires IsFreeList(m, a) && a == b
    ensures IsFreeList(m, b)
  {}

  lemma VirtualOfInjective(f: int, g: int)
    requires IsFrame(f) && IsFrame(g) && VirtualOf(f) == VirtualOf(g)
    ensures f == g
  {}

  /** kmalloc hands out the first free page, or panics exactly when there is none. */
  lemma KmallocPops(m: Mem, free: seq<int>)
    requires IsFreeList(m, free)
    ensures free == [] <==> Kmalloc(m).Panic?
    ensures free != [] ==>
      var (ptr, m') := Kmalloc(m).value;
      ptr == VirtualOf(free[0]) && FrameOf(ptr) == free[0] && m'.ram == m.ram && IsFreeList(m', free[1..])
  {}

  /** kfree of a page that is not free puts it in front and touches only its first word. */
  lemma KfreePushes(m: Mem, free: seq<int>, f: int)
    requires IsFreeList(m, free) && IsFrame(f) && f !in free
    ensures Kfree(m, VirtualOf(f)).Ok?
    ensures var m' := Kfree(m, VirtualOf(f)).value;
      IsFreeList(m', [f] + free) && m'.ram == m.ram[f := m.ram[f][0 := m.head]]
  {}

  /** The list is determined by the contents of memory. */
  lemma {:induction false} FreeListUnique(m: Mem, a: seq<int>, b: seq<int>)
    requires IsFreeList(m, a) && IsFreeList(m, b)
    ensures a == b
  {
    FreeListPrefix(m, a, b, if |a| <= |b| then |a| else |b|);
    if |a| < |b| {
      LinksAgree(m, a, b, |a|);
    } else if |b| < |a| {
      LinksAgree(m, b, a, |b|);
    }
  }

  lemma LinksAgree(m: Mem, a: seq<int>, b: seq<int>, k: int)
    requires IsFreeList(m, a) && IsFreeList(m, b)
    requires 0 <= k <= |a| && k <= |b| && a[..k] == b[..k]
    ensures LinkTo(a, k) == LinkTo(b, k)
  {
    if k > 0 {
      assert a[k - 1] == a[..k][k - 1] == b[..k][k - 1] == b[k - 1];
      assert m.ram[a[k - 1]][0] == LinkTo(a, k);
      assert m.ram[b[k - 1]][0] == LinkTo(b, k);
    }
  }

  lemma {:induction false} FreeListPrefix(m: Mem, a: seq<int>, b: seq<int>, k: int)
    requires IsFreeList(m, a) && IsFreeList(m, b)
    requires 0 <= k <= |a| && k <= |b|
    ensures a[..k] == b[..k]
  {
    if k > 0 {
      FreeListPrefix(m, a, b, k - 1);
      LinksAgree(m, a, b, k - 1);
      VirtualOfInjective(a[k - 1], b[k - 1]);
      assert a[..k] == a[..k - 1] + [a[k - 1]];
      assert b[..k] == b[..k - 1] + [b[k - 1]];
    }
  }

  /** kfree keeps a list that can be followed to its end exactly when the page was not free already:
      a page freed twice links the list back to itself. */
  lemma KfreeSoundIff(m: Mem, free: seq<int>, f: int)
    requires IsFreeList(m, free) && IsFrame(f)
    ensures Kfree(m, VirtualOf(f)).Ok?
    ensures (exists free' :: IsFreeList(Kfree(m, VirtualOf(f)).value, free')) <==> f !in free
  {
    FrameOfVirtual(f);
    if f !in free {
      KfreePushes(m, free, f);
    } else {
      var m' := Kfree(m, VirtualOf(f)).value;
      forall free' | IsFreeList(m', free') ensures false {
        var k :| 0 <= k < |free| && free[k] == f;
        assert LinkTo(free', 0) == VirtualOf(f);
        VirtualOfInjective(free'[0], f);
        CycleFollows(m, free, m', free', f, k, k);
      }
    }
  }

  /** After a double free of free[k], any list starts with f and then repeats free[0], free[1], ... */
  lemma {:induction false} CycleFollows(m: Mem, free: seq<int>, m': Mem, free': seq<int>, f: int, k: int, i: int)
    requires IsFreeList(m, free) && IsFreeList(m', free')
    requires 0 <= i <= k < |free| && free[k] == f
    requires m'.ram == m.ram[f := m.ram[f][0 := m.head]]
    requires free' != [] && free'[0] == f
    ensures i + 1 < |free'| && free'[i + 1] == free[i]
  {
    if i == 0 {
      assert m'.ram[free'[0]][0] == VirtualOf(free[0]) == LinkTo(free', 1);
      VirtualOfInjective(free[0], free'[1]);
    } else {
      CycleFollows(m, free, m', free', f, k, i - 1);
      assert free[i - 1] != f;
      assert m'.ram[free'[i]][0] == m.ram[free[i - 1]][0] == LinkTo(free, i) == LinkTo(free', i + 1);
      VirtualOfInjective(free[i], free'[i + 1]);
    }
  }

  function RoundDown(a: Word): (r: Word)
    ensures r % 0x1000 == 0 && r <= a < r + 0x1000
  {
    a / 0x1000 * 0x1000
  }

  /** PG_ROUNDUP, in wrapping 32-bit arithmetic: from the last page the sum wraps into page 0. */
  function RoundUp(a: Word): (r: Word)
    ensures r % 0x1000 == 0
    ensures a <= 0x1_0000_0000 - 0x1000 ==> a <= r < a + 0x1000
    ensures a > 0x1_0000_0000 - 0x1000 ==> r == 0
  {
    if a > 0x1_0000_0000 - 0x1000 then 0 else RoundDown(a + 0x1000 - 1)
  }

  /** The loop of register_free_mem. */
  function KfreeRange(m: Mem, now: Word, end: Word): (r: Result<Mem>)
    requires WellFormed(m) && now % 0x1000 == 0 && end % 0x1000 == 0
    ensures r.Ok? ==> WellFormed(r.value)
    decreases end - now
  {
    if now >= end then Ok(m) else
    var m1 :- Kfree(m, now);
    KfreeRange(m1, now + 0x1000, end)
  }

  function RegisterFreeMem(m: Mem, start: Word, end: Word): (r: Result<Mem>)
    requires WellFormed(m)
    ensures r.Ok? ==> WellFormed(r.value)
  {
    if RoundDown(start) >= RoundDown(end) then Panic
    else KfreeRange(m, RoundUp(start), RoundDown(end))
  }

  /** The address of frame f, or of the end of memory. */
  function Boundary(f: int): (a: Word)
    requires 0 <= f <= RAM_FRAMES
    ensures a % 0x1000 == 0 && a <= KERN_TOP
  {
    KERN_BASE + f * 0x1000
  }

  /** hi - 1, hi - 2, ..., lo */
  function Descending(lo: int, hi: int): (r: seq<int>)
    requires lo <= hi
    ensures |r| == hi - lo && forall k :: 0 <= k < |r| ==> r[k] == hi - 1 - k
  {
    seq(hi - lo, k requires 0 <= k < hi - lo => hi - 1 - k)
  }

  lemma DescendingUnfolds(lo: int, hi: int, free: seq<int>)
    requires lo < hi
    ensures Descending(lo, hi) + free == Descending(lo + 1, hi) + ([lo] + free)
  {}

  lemma KfreeRangeUnfolds(m: Mem, now: Word, next: Word, end: Word)
    requires WellFormed(m) && now % 0x1000 == 0 && end % 0x1000 == 0 && next % 0x1000 == 0
    requires now < end && next == now + 0x1000 && Kfree(m, now).Ok?
    ensures KfreeRange(m, now, end) == KfreeRange(Kfree(m, now).value, next, end)
  {}

  lemma {:induction false} KfreeRangePushes(m: Mem, free: seq<int>, lo: int, hi: int)
    requires IsFreeList(m, free)
    requires 0 <= lo <= hi <= RAM_FRAMES && forall f :: lo <= f < hi ==> f !in free
    ensures KfreeRange(m, Boundary(lo), Boundary(hi)).Ok?
    ensures IsFreeList(KfreeRange(m, Boundary(lo), Boundary(hi)).value, Descending(lo, hi) + free)
    ensures forall f :: IsFrame(f) && !(lo <= f < hi) ==>
      KfreeRange(m, Boundary(lo), Boundary(hi)).value.ram[f] == m.ram[f]
    decreases hi - lo
  {
    hide Kfree;
    if lo == hi {
      assert Descending(lo, hi) + free == free;
    } else {
      KfreePushes(m, free, lo);
      var m1 := Kfree(m, VirtualOf(lo)).value;
      var free1 := [lo] + free;
      assert forall f :: lo < f < hi ==> f !in free1;
      KfreeRangePushes(m1, free1, lo + 1, hi);
      KfreeRangeUnfolds(m, VirtualOf(lo), Boundary(lo + 1), Boundary(hi));
      DescendingUnfolds(lo, hi, free);
    }
  }

  /** register_free_mem adds every whole page of [start, end), each once, unless the two addresses lie
      in the same page, which is a panic. */
  lemma RegisterAddsWholePages(m: Mem, free: seq<int>, start: Word, end: Word, lo: int, hi: int)
    requires IsFreeList(m, free)
    requires KERN_BASE <= start && end <= KERN_TOP
    requires 0 <= lo <= RAM_FRAMES && RoundUp(start) == Boundary(lo)
    requires 0 <= hi <= RAM_FRAMES && RoundDown(end) == Boundary(hi)
    requires forall f :: lo <= f < hi ==> f !in free
    ensures RoundDown(start) >= RoundDown(end) <==> RegisterFreeMem(m, start, end).Panic?
    ensures RoundDown(start) < RoundDown(end) ==>
      && lo <= hi && IsFreeList(RegisterFreeMem(m, start, end).value, Descending(lo, hi) + free)
      && forall f :: IsFrame(f) && !(lo <= f < hi) ==> RegisterFreeMem(m, start, end).value.ram[f] == m.ram[f]
  {
    if RoundDown(start) < RoundDown(end) {
      assert lo <= hi;
      KfreeRangePushes(m, free, lo, hi);
    }
  }
}
