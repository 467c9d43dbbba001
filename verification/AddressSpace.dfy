/** Whole address spaces: map_memory, map_kernel, destroy_address_space and their composition. */
module AddressSpace {
  import opened Machine
  import opened PageAllocator
  import opened PageTable

  /** The number of pages of a region of this size. */
  function PageCount(size: Word): (n: nat)
    ensures n <= 0x10_0000
  {
    RoundUp(size) / 0x1000
  }

  /** The first n iterations of the loop of map_memory, whose addresses wrap at 2^32. */
  function MapPages(m: Mem, dir: int, va: Word, pa: Word, n: nat, perm: int): (r: Result<Mem>)
    requires WellFormed(m) && IsFrame(dir) && 0 <= perm < 8
    ensures r.Ok? ==> WellFormed(r.value)
  {
    if n == 0 then Ok(m) else
    match MapPages(m, dir, va, pa, n - 1, perm)
    case Panic => Panic
    case Ok(m1) =>
      MapPage(m1, dir, Wrap(va + (n - 1) * 0x1000), Wrap(pa + (n - 1) * 0x1000), perm)
  }

  function MapMemory(m: Mem, dir: int, va: Word, pa: Word, size: Word, perm: int): (r: Result<Mem>)
    requires WellFormed(m) && IsFrame(dir) && 0 <= perm < 8
    ensures r.Ok? ==> WellFormed(r.value)
  {
    if size == 0 then Panic
    else MapPages(m, dir, va, pa, PageCount(size), perm)
  }

  /** The first n iterations of the loop of alloc_map_memory. */
  function AllocMapPages(m: Mem, dir: int, va: Word, n: nat, perm: int): (r: Result<Mem>)
    requires WellFormed(m) && IsFrame(dir) && 0 <= perm < 8
    ensures r.Ok? ==> WellFormed(r.value)
  {
    if n == 0 then Ok(m) else
    match AllocMapPages(m, dir, va, n - 1, perm)
    case Panic => Panic
    case Ok(m1) =>
      match Kmalloc(m1)
      case Panic => Panic
      case Ok((ptr, m2)) =>
        MapPage(m2, dir, Wrap(va + (n - 1) * 0x1000), ptr - KERN_BASE, perm)
  }

  function AllocMapMemory(m: Mem, dir: int, va: Word, size: Word, perm: int): (r: Result<Mem>)
    requires WellFormed(m) && IsFrame(dir) && 0 <= perm < 8
    ensures r.Ok? ==> WellFormed(r.value)
  {
    if size == 0 then Panic
    else AllocMapPages(m, dir, va, PageCount(size), perm)
  }

  function UnmapPages(m: Mem, dir: int, va: Word, n: nat): (r: Result<Mem>)
    requires WellFormed(m) && IsFrame(dir)
    ensures r.Ok? ==> WellFormed(r.value)
  {
    if n == 0 then Ok(m) else
    match UnmapPages(m, dir, va, n - 1)
    case Panic => Panic
    case Ok(m1) => UnmapPage(m1, dir, Wrap(va + (n - 1) * 0x1000))
  }

  function UnmapMemory(m: Mem, dir: int, va: Word, size: Word): (r: Result<Mem>)
    requires WellFormed(m) && IsFrame(dir)
    ensures r.Ok? ==> WellFormed(r.value)
  {
    if size == 0 then Panic
    else UnmapPages(m, dir, va, PageCount(size))
  }

  /** One row of kernel_map. */
  datatype MapInfo = MapInfo(va: Word, pa: Word, size: Word, perm: int)

  /** kernel_map: the low 4 MB, the kernel, and the memory-mapped devices. */
  function KernelMap(i: int): MapInfo
    requires 0 <= i < 3
  {
    if i == 0 then MapInfo(0, 0, 0x40_0000, RW)
    else if i == 1 then MapInfo(KERN_BASE, 0, MMDEV_BASE - KERN_BASE, RW)
    else MapInfo(MMDEV_BASE, MMDEV_BASE, 0x1_0000_0000 - MMDEV_BASE, RW)
  }

  const KERNEL_ROWS := 3

  /** The first n rows of kernel_map. */
  function MapKernelRows(m: Mem, dir: int, n: int): (r: Result<Mem>)
    requires WellFormed(m) && IsFrame(dir) && 0 <= n <= 3
    ensures r.Ok? ==> WellFormed(r.value)
  {
    if n == 0 then Ok(m) else
    match MapKernelRows(m, dir, n - 1)
    case Panic => Panic
    case Ok(m1) =>
      var row := KernelMap(n - 1);
      MapMemory(m1, dir, row.va, row.pa, row.size, RW)
  }

  /** map_kernel: a new directory with the three regions of kernel_map. */
  function MapKernel(m: Mem): (r: Result<(int, Mem)>)
    requires WellFormed(m)
    ensures r.Ok? ==> IsFrame(r.value.0) && WellFormed(r.value.1)
  {
    match Kmalloc(m)
    case Panic => Panic
    case Ok((ptr, m1)) =>
      var dir := FrameOf(ptr);
      match MapKernelRows(Mem(m1.ram[dir := ZeroFrame()], m1.head), dir, KERNEL_ROWS)
      case Panic => Panic
      case Ok(m2) => Ok((dir, m2))
  }

  /** The loop of destroy_address_space up to directory entry n. */
  function FreeTables(m: Mem, dir: int, n: nat): (r: Result<Mem>)
    requires WellFormed(m) && IsFrame(dir) && n <= 1024
    ensures r.Ok? ==> WellFormed(r.value)
  {
    if n == 0 then Ok(m) else
    match FreeTables(m, dir, n - 1)
    case Panic => Panic
    case Ok(m1) =>
      if !Present(m1.ram[dir][n - 1]) then Ok(m1)
      else if !IsFrame(TableAt(m1.ram, dir, n - 1)) then Panic
      else Kfree(m1, VirtualOf(TableAt(m1.ram, dir, n - 1)))
  }

  function DestroyAddressSpace(m: Mem, dir: int): (r: Result<Mem>)
    requires WellFormed(m) && IsFrame(dir)
    ensures r.Ok? ==> WellFormed(r.value)
  {
    match UnmapMemory(m, dir, 0, 0x1000)
    case Panic => Panic
    case Ok(m1) =>
      match FreeTables(m1, dir, PDE_SIZE)
      case Panic => Panic
      case Ok(m2) => Kfree(m2, VirtualOf(dir))
  }

  // ----- What mapping a region builds

  /** The number of page tables that n consecutive pages need, the first page being the first of its
      table. */
  function TablesFor(n: nat): nat {
    (n + 1023) / 1024
  }

  lemma TablesForStep(n: nat)
    requires 0 < n
    ensures TablesFor(n) == if (n - 1) % 1024 == 0 then TablesFor(n - 1) + 1 else TablesFor(n - 1)
    ensures (n - 1) % 1024 == 0 ==> (n - 1) / 1024 == TablesFor(n - 1)
    ensures (n - 1) % 1024 != 0 ==> (n - 1) / 1024 < TablesFor(n - 1)
  {}

  /** The directory got the first free pages as tables from entry `base` on and is otherwise as before. */
  ghost predicate TablesInstalled(ram: seq<Frame>, ram': seq<Frame>, free: seq<int>, dir: int, base: nat, tables: nat)
    requires |ram| == |ram'| == RAM_FRAMES && IsFrame(dir) && tables <= |free|
    requires forall k :: 0 <= k < |free| ==> IsFrame(free[k])
  {
    && (forall j :: 0 <= j < 1024 && !(base <= j < base + tables) ==> ram'[dir][j] == ram[dir][j])
    && (forall k {:trigger free[k]} :: 0 <= k < tables && base + k < 1024 ==>
      ram'[dir][base + k] == TableEntry(free[k]))
  }

  /** The flat map sends the n pages from directory entry `base` on to consecutive frames, and all other
      pages where it sent them before. */
  ghost predicate PagesMapped(ram: seq<Frame>, ram': seq<Frame>, dir: int, base: nat, pa: Word, n: nat, perm: int)
    requires IsSpace(ram, dir) && IsSpace(ram', dir)
  {
    && (forall p :: 0 <= p < 0x10_0000 && base * 1024 <= p < base * 1024 + n ==>
          Lookup(ram', dir, p) == Some(Mapping(pa / 0x1000 + p - base * 1024, perm + P)))
    && (forall p :: 0 <= p < 0x10_0000 && !(base * 1024 <= p < base * 1024 + n) ==>
          Lookup(ram', dir, p) == Lookup(ram, dir, p))
  }

  /** Only the directory and the given frames were written. */
  ghost predicate OnlyWrites(ram: seq<Frame>, ram': seq<Frame>, dir: int, frames: seq<int>) {
    && |ram| == |ram'| == RAM_FRAMES
    && forall f :: 0 <= f < RAM_FRAMES && f != dir && f !in frames ==> ram'[f] == ram[f]
  }

  /** m' is m after n pages from directory entry `base` on were mapped to consecutive frames from
      pa on: the tables are the first free pages in order, the flat map is as before elsewhere, and
      nothing but the directory and the new tables was written. */
  ghost predicate Mapped(m: Mem, m': Mem, free: seq<int>, dir: int, base: nat, pa: Word, n: nat, perm: int)
    requires IsSpace(m.ram, dir) && TablesFor(n) <= |free| && IsFreeList(m, free)
  {
    var tables := TablesFor(n);
    && IsFreeList(m', free[tables..])
    && IsSpace(m'.ram, dir)
    && Separate(m'.ram, dir, free[tables..])
    && TablesInstalled(m.ram, m'.ram, free, dir, base, tables)
    && PagesMapped(m.ram, m'.ram, dir, base, pa, n, perm)
    && OnlyWrites(m.ram, m'.ram, dir, free[..tables])
  }

  lemma MapPagesUnfolds(m: Mem, dir: int, base: nat, pa: Word, n: nat, perm: int)
    requires WellFormed(m) && IsFrame(dir) && 0 <= perm < 8 && 0 < n
    requires base * 1024 + n <= 0x10_0000 && base < 1024 && pa + n * 0x1000 <= 0x1_0000_0000
    requires MapPages(m, dir, base * 0x40_0000, pa, n - 1, perm).Ok?
    ensures MapPages(m, dir, base * 0x40_0000, pa, n, perm) ==
      MapPage(MapPages(m, dir, base * 0x40_0000, pa, n - 1, perm).value, dir, PageVa(base, n - 1),
              pa + (n - 1) * 0x1000, perm)
  {
    hide MapPage;
    assert Wrap(base * 0x40_0000 + (n - 1) * 0x1000) == PageVa(base, n - 1);
    assert Wrap(pa + (n - 1) * 0x1000) == pa + (n - 1) * 0x1000;
  }

  /** Mapping n pages of an empty stretch of the directory uses exactly one page per 1024 pages. */
  lemma {:induction false} MapPagesBuilds(m: Mem, free: seq<int>, dir: int, base: nat, pa: Word, n: nat, perm: int)
    requires IsFreeList(m, free) && IsSpace(m.ram, dir) && Separate(m.ram, dir, free)
    requires base * 1024 + n <= 0x10_0000 && pa + n * 0x1000 <= 0x1_0000_0000 && base < 1024
    requires pa % 0x1000 == 0 && perm in {2, 6}
    requires TablesFor(n) <= |free|
    requires forall j :: base <= j < base + TablesFor(n) && j < 1024 ==> !Present(m.ram[dir][j])
    ensures MapPages(m, dir, base * 0x40_0000, pa, n, perm).Ok?
    ensures Mapped(m, MapPages(m, dir, base * 0x40_0000, pa, n, perm).value, free, dir, base, pa, n, perm)
  {
    hide MapPage;
    if n == 0 {
      SameFreeList(m, free, free[0..]);
    } else {
      TablesForStep(n);
      MapPagesBuilds(m, free, dir, base, pa, n - 1, perm);
      var m1 := MapPages(m, dir, base * 0x40_0000, pa, n - 1, perm).value;
      MapPagesUnfolds(m, dir, base, pa, n, perm);
      MapPagesStep(m, m1, MapPages(m, dir, base * 0x40_0000, pa, n, perm), free, dir, base, pa, n, perm);
    }
  }

  lemma MapPagesStep(m: Mem, m1: Mem, r: Result<Mem>, free: seq<int>, dir: int, base: nat, pa: Word, n: nat, perm: int)
    requires IsFreeList(m, free) && IsSpace(m.ram, dir)
    requires 0 < n && base * 1024 + n <= 0x10_0000 && pa + n * 0x1000 <= 0x1_0000_0000
    requires pa % 0x1000 == 0 && perm in {2, 6}
    requires TablesFor(n - 1) <= TablesFor(n) <= |free|
    requires forall j :: base <= j < base + TablesFor(n) && j < 1024 ==> !Present(m.ram[dir][j])
    requires Mapped(m, m1, free, dir, base, pa, n - 1, perm)
    requires r == MapPage(m1, dir, PageVa(base, n - 1), pa + (n - 1) * 0x1000, perm)
    ensures r.Ok? && Mapped(m, r.value, free, dir, base, pa, n, perm)
  {
    hide MapPage;
    TableMissingIff(m, m1, free, dir, base, pa, n, perm);
    MapPagePointwise(m1, free[TablesFor(n - 1)..], dir, PageVa(base, n - 1), pa + (n - 1) * 0x1000, perm);
    MapOneMore(m, m1, r.value, free, dir, base, pa, n, perm);
  }

  lemma MapOneMore(m: Mem, m1: Mem, m': Mem, free: seq<int>, dir: int, base: nat, pa: Word, n: nat, perm: int)
    requires IsFreeList(m, free) && IsSpace(m.ram, dir)
    requires 0 < n && base * 1024 + n <= 0x10_0000 && pa + n * 0x1000 <= 0x1_0000_0000 && pa % 0x1000 == 0
    requires TablesFor(n - 1) <= TablesFor(n) <= |free|
    requires Mapped(m, m1, free, dir, base, pa, n - 1, perm)
    requires Present(m1.ram[dir][PdeIndex(PageVa(base, n - 1))]) <==> TablesFor(n) == TablesFor(n - 1)
    requires PageMapped(m1, m', free[TablesFor(n - 1)..], dir, PageVa(base, n - 1), pa + (n - 1) * 0x1000, perm)
    ensures Mapped(m, m', free, dir, base, pa, n, perm)
  {
    var va := PageVa(base, n - 1);
    var i := PdeIndex(va);
    TablesForStep(n);
    var t0, t := TablesFor(n - 1), TablesFor(n);
    assert FreeAfterMap(m1.ram, dir, va, free[t0..]) == free[t..];
    InstallOneMore(m.ram, m1.ram, m'.ram, free, dir, base, t0, t, i);
    PagesOneMore(m.ram, m1.ram, m'.ram, dir, base, pa, n, perm);
    WritesOneMore(m.ram, m1.ram, m'.ram, free, dir, base, t0, t, i);
  }

  /** The address of page k of the region that starts with directory entry `base`. */
  function PageVa(base: nat, k: nat): (va: Word)
    requires base * 1024 + k < 0x10_0000
    ensures va / 0x1000 == base * 1024 + k && PdeIndex(va) == base + k / 1024
  {
    base * 0x40_0000 + k * 0x1000
  }

  /** The page after the first n - 1 pages finds its table missing exactly when it is the first of a table. */
  lemma TableMissingIff(m: Mem, m1: Mem, free: seq<int>, dir: int, base: nat, pa: Word, n: nat, perm: int)
    requires IsFreeList(m, free) && IsSpace(m.ram, dir)
    requires 0 < n && base * 1024 + n <= 0x10_0000
    requires TablesFor(n - 1) <= TablesFor(n) <= |free|
    requires forall j :: base <= j < base + TablesFor(n) && j < 1024 ==> !Present(m.ram[dir][j])
    requires Mapped(m, m1, free, dir, base, pa, n - 1, perm)
    ensures Present(m1.ram[dir][PdeIndex(PageVa(base, n - 1))]) <==> TablesFor(n) == TablesFor(n - 1)
  {
    TablesForStep(n);
    var k := (n - 1) / 1024;
    if (n - 1) % 1024 != 0 {
      assert m1.ram[dir][base + k] == TableEntry(free[k]);
    }
  }

  lemma InstallOneMore(ram: seq<Frame>, ram1: seq<Frame>, ram': seq<Frame>, free: seq<int>, dir: int, base: nat,
                       t0: nat, t: nat, i: int)
    requires |ram| == |ram1| == |ram'| == RAM_FRAMES && IsFrame(dir) && t0 <= t <= |free|
    requires forall k :: 0 <= k < |free| ==> IsFrame(free[k])
    requires 0 <= i < 1024 && (t == t0 || (t == t0 + 1 && i == base + t0))
    requires TablesInstalled(ram, ram1, free, dir, base, t0)
    requires TouchesEntry(ram1, ram', dir, i)
    requires ram'[dir][i] == if t == t0 then ram1[dir][i] else TableEntry(free[t0])
    ensures TablesInstalled(ram, ram', free, dir, base, t)
  {}

  lemma PagesOneMore(ram: seq<Frame>, ram1: seq<Frame>, ram': seq<Frame>, dir: int, base: nat, pa: Word, n: nat,
                     perm: int)
    requires IsSpace(ram, dir) && IsSpace(ram1, dir) && 0 < n && base * 1024 + n <= 0x10_0000
    requires pa % 0x1000 == 0
    requires PagesMapped(ram, ram1, dir, base, pa, n - 1, perm)
    requires UpdatesPage(ram1, ram', dir, base * 1024 + n - 1,
                         Some(Mapping((pa + (n - 1) * 0x1000) / 0x1000, perm + P)))
    ensures PagesMapped(ram, ram', dir, base, pa, n, perm)
  {}

  lemma WritesOneMore(ram: seq<Frame>, ram1: seq<Frame>, ram': seq<Frame>, free: seq<int>, dir: int, base: nat,
                      t0: nat, t: nat, i: int)
    requires |ram| == |ram1| == |ram'| == RAM_FRAMES && IsFrame(dir) && t0 <= t <= |free|
    requires forall k :: 0 <= k < |free| ==> IsFrame(free[k])
    requires 0 <= i < 1024 && base <= i < base + t
    requires TablesInstalled(ram, ram', free, dir, base, t)
    requires OnlyWrites(ram, ram1, dir, free[..t0])
    requires TouchesEntry(ram1, ram', dir, i)
    ensures OnlyWrites(ram, ram', dir, free[..t])
  {
    assert TableAt(ram', dir, i) == free[i - base];
    assert free[..t][i - base] == free[i - base];
    forall f | 0 <= f < RAM_FRAMES && f != dir && f !in free[..t] ensures ram'[f] == ram[f] {
      assert forall k :: 0 <= k < t0 ==> free[..t0][k] == free[..t][k];
      assert f !in free[..t0];
    }
  }

  /** ... and fails exactly when there are too few free pages for the tables. */
  lemma {:induction false} MapPagesExhausts(m: Mem, free: seq<int>, dir: int, base: nat, pa: Word, n: nat, perm: int)
    requires IsFreeList(m, free) && IsSpace(m.ram, dir) && Separate(m.ram, dir, free)
    requires base * 1024 + n <= 0x10_0000 && pa + n * 0x1000 <= 0x1_0000_0000 && base < 1024
    requires pa % 0x1000 == 0 && perm in {2, 6}
    requires |free| < TablesFor(n)
    requires forall j :: base <= j < base + TablesFor(n) && j < 1024 ==> !Present(m.ram[dir][j])
    ensures MapPages(m, dir, base * 0x40_0000, pa, n, perm).Panic?
  {
    hide MapPage, PagesMapped, OnlyWrites, UpdatesPage;
    TablesForStep(n);
    if |free| < TablesFor(n - 1) {
      MapPagesExhausts(m, free, dir, base, pa, n - 1, perm);
    } else {
      MapPagesBuilds(m, free, dir, base, pa, n - 1, perm);
      var m1 := MapPages(m, dir, base * 0x40_0000, pa, n - 1, perm).value;
      MapPagesUnfolds(m, dir, base, pa, n, perm);
      assert free[TablesFor(n - 1)..] == [];
      assert !Present(m1.ram[dir][PdeIndex(PageVa(base, n - 1))]) by {
        assert PdeIndex(PageVa(base, n - 1)) == base + TablesFor(n - 1);
      }
      MapPagePointwise(m1, [], dir, PageVa(base, n - 1), pa + (n - 1) * 0x1000, perm);
    }
  }

  // ----- The kernel's address space

  /** The first directory entry of each row of kernel_map, and its number of pages. */
  function RowBase(i: int): nat
    requires 0 <= i < 3
  {
    if i == 0 then 0 else if i == 1 then 768 else 1016
  }

  function RowPages(i: int): nat
    requires 0 <= i < 3
  {
    if i == 0 then 1024 else if i == 1 then 0x3_e000 else 0x2000
  }

  lemma RowsOfKernelMap(m: Mem, dir: int, i: int)
    requires WellFormed(m) && IsFrame(dir) && 0 <= i < 3
    ensures var row := KernelMap(i);
      && row.pa % 0x1000 == 0 && row.pa + RowPages(i) * 0x1000 <= 0x1_0000_0000
      && MapMemory(m, dir, row.va, row.pa, row.size, RW)
        == MapPages(m, dir, RowBase(i) * 0x40_0000, row.pa, RowPages(i), RW)
  {
    hide MapPages;
    var row := KernelMap(i);
    assert row.size + 0xfff < 0x1_0000_0000;
    assert PageCount(row.size) == RowPages(i);
  }

  /** Where the kernel's directory sends a page: the low 4 MB and the devices to themselves, the kernel's
      half to the memory KERN_BASE below it, and everything else nowhere. */
  function KernelMapping(page: int): Option<Mapping>
    requires 0 <= page < 0x10_0000
  {
    if page < 0x400 then Some(Mapping(page, RW + P))
    else if page < 0xc_0000 then None
    else if page < 0xf_e000 then Some(Mapping(page - 0xc_0000, RW + P))
    else Some(Mapping(page, RW + P))
  }

  /** Which of the 257 tables directory entry i of the kernel's space names. */
  function KernelTable(i: int): Option<int>
    requires 0 <= i < 1024
  {
    if i == 0 then Some(0) else if i < 768 then None else Some(i - 767)
  }

  /** The directory has exactly the given 257 tables. */
  ghost predicate HasKernelTables(ram: seq<Frame>, dir: int, tables: seq<int>)
    requires |ram| == RAM_FRAMES && IsFrame(dir)
    requires forall k :: 0 <= k < |tables| ==> IsFrame(tables[k])
  {
    && |tables| == 257
    && forall i :: 0 <= i < 1024 ==>
         match KernelTable(i)
         case None => !Present(ram[dir][i])
         case Some(k) => ram[dir][i] == TableEntry(tables[k])
  }

  ghost predicate MapsKernel(ram: seq<Frame>, dir: int)
    requires IsSpace(ram, dir)
  {
    forall p :: 0 <= p < 0x10_0000 ==> Lookup(ram, dir, p) == KernelMapping(p)
  }

  /** The tables that the first n rows use, and the directory entry behind them. */
  function RowTables(n: int): nat
    requires 0 <= n <= 3
  {
    if n == 0 then 0 else if n == 1 then 1 else if n == 2 then 249 else 257
  }

  function RowEnd(n: int): nat
    requires 0 <= n <= 3
  {
    if n == 0 then 0 else if n == 1 then 768 else if n == 2 then 1016 else 1024
  }

  /** The directory entries below RowEnd(n) are those of the finished kernel space, the others absent. */
  ghost predicate EntriesBuilt(ram: seq<Frame>, dir: int, free: seq<int>, n: int)
    requires |ram| == RAM_FRAMES && IsFrame(dir) && 0 <= n <= 3 && RowTables(n) <= |free|
    requires forall k :: 0 <= k < |free| ==> IsFrame(free[k])
  {
    forall i :: 0 <= i < 1024 ==>
      if i < RowEnd(n) && KernelTable(i).Some? then ram[dir][i] == TableEntry(free[KernelTable(i).value])
      else !Present(ram[dir][i])
  }

  ghost predicate PagesBuilt(ram: seq<Frame>, dir: int, n: int)
    requires IsSpace(ram, dir) && 0 <= n <= 3
  {
    forall p :: 0 <= p < 0x10_0000 ==>
      Lookup(ram, dir, p) == if p < RowEnd(n) * 1024 then KernelMapping(p) else None
  }

  /** m' is m, with an empty directory, after the first n rows of kernel_map. */
  ghost predicate RowsBuilt(m: Mem, m': Mem, free: seq<int>, dir: int, n: int)
    requires WellFormed(m) && IsFrame(dir) && 0 <= n <= 3 && RowTables(n) <= |free|
    requires forall k :: 0 <= k < |free| ==> IsFrame(free[k])
  {
    && IsFreeList(m', free[RowTables(n)..])
    && IsSpace(m'.ram, dir)
    && Separate(m'.ram, dir, free[RowTables(n)..])
    && EntriesBuilt(m'.ram, dir, free, n)
    && PagesBuilt(m'.ram, dir, n)
    && OnlyWrites(m.ram, m'.ram, dir, free[..RowTables(n)])
  }

  lemma EntriesStep(ram1: seq<Frame>, ram': seq<Frame>, dir: int, free: seq<int>, n: int)
    requires |ram1| == |ram'| == RAM_FRAMES && IsFrame(dir) && 0 <= n < 3 && RowTables(n + 1) <= |free|
    requires forall k :: 0 <= k < |free| ==> IsFrame(free[k])
    requires EntriesBuilt(ram1, dir, free, n)
    requires TablesInstalled(ram1, ram', free[RowTables(n)..], dir, RowBase(n), TablesFor(RowPages(n)))
    ensures EntriesBuilt(ram', dir, free, n + 1)
  {}

  lemma PagesStep(ram1: seq<Frame>, ram': seq<Frame>, dir: int, n: int)
    requires IsSpace(ram1, dir) && IsSpace(ram', dir) && 0 <= n < 3
    requires PagesBuilt(ram1, dir, n)
    requires PagesMapped(ram1, ram', dir, RowBase(n), KernelMap(n).pa, RowPages(n), RW)
    ensures PagesBuilt(ram', dir, n + 1)
  {}

  lemma WritesTrans(ram: seq<Frame>, ram1: seq<Frame>, ram': seq<Frame>, dir: int, free: seq<int>, t0: nat, t: nat)
    requires t0 <= t <= |free|
    requires OnlyWrites(ram, ram1, dir, free[..t0]) && OnlyWrites(ram1, ram', dir, free[t0..][..t - t0])
    ensures OnlyWrites(ram, ram', dir, free[..t])
  {}

  /** One more row: it needs its tables and nothing else. */
  lemma RowsStep(m: Mem, m1: Mem, free: seq<int>, dir: int, n: int)
    requires WellFormed(m) && IsFrame(dir) && 0 <= n < 3 && RowTables(n) <= |free|
    requires forall k :: 0 <= k < |free| ==> IsFrame(free[k])
    requires RowsBuilt(m, m1, free, dir, n)
    ensures
      var row := KernelMap(n);
      var r := MapMemory(m1, dir, row.va, row.pa, row.size, RW);
      && (r.Panic? <==> |free| < RowTables(n + 1))
      && (r.Ok? ==> RowsBuilt(m, r.value, free, dir, n + 1))
  {
    hide MapPages, MapMemory;
    var row := KernelMap(n);
    var free1 := free[RowTables(n)..];
    RowsOfKernelMap(m1, dir, n);
    assert TablesFor(RowPages(n)) == RowTables(n + 1) - RowTables(n);
    if |free| < RowTables(n + 1) {
      MapPagesExhausts(m1, free1, dir, RowBase(n), row.pa, RowPages(n), RW);
    } else {
      MapPagesBuilds(m1, free1, dir, RowBase(n), row.pa, RowPages(n), RW);
      RowsCompose(m, m1, MapMemory(m1, dir, row.va, row.pa, row.size, RW).value, free, dir, n);
    }
  }

  lemma RowsCompose(m: Mem, m1: Mem, m': Mem, free: seq<int>, dir: int, n: int)
    requires WellFormed(m) && IsFrame(dir) && 0 <= n < 3 && RowTables(n + 1) <= |free|
    requires forall k :: 0 <= k < |free| ==> IsFrame(free[k])
    requires RowsBuilt(m, m1, free, dir, n)
    requires TablesFor(RowPages(n)) == RowTables(n + 1) - RowTables(n)
    requires Mapped(m1, m', free[RowTables(n)..], dir, RowBase(n), KernelMap(n).pa, RowPages(n), RW)
    ensures RowsBuilt(m, m', free, dir, n + 1)
  {
    var free1 := free[RowTables(n)..];
    assert free1[TablesFor(RowPages(n))..] == free[RowTables(n + 1)..];
    EntriesStep(m1.ram, m'.ram, dir, free, n);
    PagesStep(m1.ram, m'.ram, dir, n);
    WritesTrans(m.ram, m1.ram, m'.ram, dir, free, RowTables(n), RowTables(n + 1));
  }

  lemma {:induction false} MapKernelRowsBuild(m: Mem, free: seq<int>, dir: int, n: int)
    requires IsFreeList(m, free) && IsFrame(dir) && dir !in free && 0 <= n <= 3
    requires forall i :: 0 <= i < 1024 ==> m.ram[dir][i] == 0
    ensures MapKernelRows(m, dir, n).Panic? <==> |free| < RowTables(n)
    ensures MapKernelRows(m, dir, n).Ok? ==> RowsBuilt(m, MapKernelRows(m, dir, n).value, free, dir, n)
  {
    hide MapMemory;
    if n == 0 {
      SameFreeList(m, free, free[0..]);
    } else {
      MapKernelRowsBuild(m, free, dir, n - 1);
      if |free| >= RowTables(n - 1) {
        RowsStep(m, MapKernelRows(m, dir, n - 1).value, free, dir, n - 1);
      }
    }
  }

  /** The number of pages map_kernel takes: a directory and 257 tables. */
  const KERNEL_PAGES := 258

  /** What map_kernel leaves: a directory and 257 tables, the first free pages in order, that translate
      exactly as intended, and no other frame written. */
  ghost predicate KernelBuilt(m: Mem, dir: int, m': Mem, free: seq<int>)
    requires IsFreeList(m, free) && |free| >= KERNEL_PAGES
  {
    && dir == free[0]
    && IsFreeList(m', free[258..])
    && IsSpace(m'.ram, dir)
    && Separate(m'.ram, dir, free[258..])
    && HasKernelTables(m'.ram, dir, free[1..258])
    && MapsKernel(m'.ram, dir)
    && OnlyWrites(m.ram, m'.ram, dir, free[1..258])
  }

  /** map_kernel takes exactly 258 free pages and panics exactly when there are fewer. */
  lemma MapKernelBuilds(m: Mem, free: seq<int>)
    requires IsFreeList(m, free)
    ensures MapKernel(m).Panic? <==> |free| < KERNEL_PAGES
    ensures MapKernel(m).Ok? ==> KernelBuilt(m, MapKernel(m).value.0, MapKernel(m).value.1, free)
  {
    hide MapKernelRows;
    KmallocPops(m, free);
    if free != [] {
      var dir := free[0];
      var m1 := Mem(m.ram[dir := ZeroFrame()], Kmalloc(m).value.1.head);
      FreeListFrame(Kmalloc(m).value.1, free[1..], m1.ram);
      MapKernelRowsBuild(m1, free[1..], dir, KERNEL_ROWS);
      if |free| >= 258 {
        MapKernelDone(m, m1, MapKernelRows(m1, dir, KERNEL_ROWS).value, free);
      }
    }
  }

  lemma MapKernelDone(m: Mem, m1: Mem, m': Mem, free: seq<int>)
    requires IsFreeList(m, free) && |free| >= KERNEL_PAGES && WellFormed(m1)
    requires m1.ram == m.ram[free[0] := ZeroFrame()]
    requires RowsBuilt(m1, m', free[1..], free[0], 3)
    ensures KernelBuilt(m, free[0], m', free)
  {}

  /** The physical address that the paging hardware finds for a virtual address. */
  ghost function Translate(ram: seq<Frame>, dir: int, va: Word): Option<int>
    requires IsSpace(ram, dir)
  {
    match Lookup(ram, dir, va / 0x1000)
    case None => None
    case Some(mapping) => Some(mapping.frame * 0x1000 + va % 0x1000)
  }

  /** Where kernel_map puts an address: memory at its own place below 4 MB and from 3 GB on, devices at theirs, and
      nothing between. */
  function KernelAddress(va: Word): Option<Word> {
    if va < 0x40_0000 then Some(va)
    else if va < KERN_BASE then None
    else if va < MMDEV_BASE then Some(va - KERN_BASE)
    else Some(va)
  }

  /** The kernel's address space translates every one of the 2^32 addresses as intended. */
  lemma KernelTranslation(ram: seq<Frame>, dir: int, va: Word)
    requires IsSpace(ram, dir) && MapsKernel(ram, dir)
    ensures Translate(ram, dir, va) == KernelAddress(va)
  {}

  // ----- Taking a space apart

  /** The tables of the directory entries below n, in order. */
  function TablesBelow(ram: seq<Frame>, dir: int, n: nat): (tables: seq<int>)
    requires |ram| == RAM_FRAMES && IsFrame(dir) && n <= 1024
  {
    if n == 0 then []
    else if Present(ram[dir][n - 1]) then TablesBelow(ram, dir, n - 1) + [TableAt(ram, dir, n - 1)]
    else TablesBelow(ram, dir, n - 1)
  }

  lemma {:induction false} TablesBelowMembers(ram: seq<Frame>, dir: int, n: nat)
    requires IsSpace(ram, dir) && n <= 1024
    ensures forall f :: f in TablesBelow(ram, dir, n) <==>
      exists i :: 0 <= i < n && Present(ram[dir][i]) && TableAt(ram, dir, i) == f
    ensures NoDuplicates(TablesBelow(ram, dir, n))
    ensures forall k :: 0 <= k < |TablesBelow(ram, dir, n)| ==> IsFrame(TablesBelow(ram, dir, n)[k])
  {
    if n > 0 {
      TablesBelowMembers(ram, dir, n - 1);
      var before, now := TablesBelow(ram, dir, n - 1), TablesBelow(ram, dir, n);
      if Present(ram[dir][n - 1]) {
        var last := TableAt(ram, dir, n - 1);
        assert last !in before;
        assert now == before + [last];
      }
    }
  }

  /** The tables are determined by the directory's frame. */
  lemma {:induction false} TablesBelowFrame(ram: seq<Frame>, ram': seq<Frame>, dir: int, n: nat)
    requires |ram| == |ram'| == RAM_FRAMES && IsFrame(dir) && n <= 1024 && ram[dir] == ram'[dir]
    ensures TablesBelow(ram', dir, n) == TablesBelow(ram, dir, n)
  {
    if n > 0 { TablesBelowFrame(ram, ram', dir, n - 1); }
  }

  /** Only the given frames were written. */
  ghost predicate WritesOnly(ram: seq<Frame>, ram': seq<Frame>, frames: seq<int>) {
    && |ram| == |ram'| == RAM_FRAMES
    && forall f :: 0 <= f < RAM_FRAMES && f !in frames ==> ram'[f] == ram[f]
  }

  /** The loop of destroy_address_space frees each table once, although kfree overwrites the first word
      of every table it passes. */
  lemma {:induction false} FreeTablesFrees(m: Mem, free: seq<int>, dir: int, n: nat)
    requires IsFreeList(m, free) && IsSpace(m.ram, dir) && Separate(m.ram, dir, free) && n <= 1024
    ensures FreeTables(m, dir, n).Ok?
    ensures
      var m' := FreeTables(m, dir, n).value;
      && IsFreeList(m', Reverse(TablesBelow(m.ram, dir, n)) + free)
      && m'.ram[dir] == m.ram[dir]
      && WritesOnly(m.ram, m'.ram, TablesBelow(m.ram, dir, n))
  {
    hide Kfree;
    if n == 0 {
      SameFreeList(m, free, Reverse(TablesBelow(m.ram, dir, 0)) + free);
    } else {
      FreeTablesFrees(m, free, dir, n - 1);
      if Present(m.ram[dir][n - 1]) {
        FreeTablesStep(m, FreeTables(m, dir, n - 1).value, free, dir, n);
      }
    }
  }

  lemma FreeTablesStep(m: Mem, m1: Mem, free: seq<int>, dir: int, n: nat)
    requires IsFreeList(m, free) && IsSpace(m.ram, dir) && Separate(m.ram, dir, free) && 0 < n <= 1024
    requires Present(m.ram[dir][n - 1])
    requires IsFreeList(m1, Reverse(TablesBelow(m.ram, dir, n - 1)) + free)
    requires m1.ram[dir] == m.ram[dir] && WritesOnly(m.ram, m1.ram, TablesBelow(m.ram, dir, n - 1))
    ensures
      var r := Kfree(m1, VirtualOf(TableAt(m1.ram, dir, n - 1)));
      && r.Ok?
      && IsFreeList(r.value, Reverse(TablesBelow(m.ram, dir, n)) + free)
      && r.value.ram[dir] == m.ram[dir]
      && WritesOnly(m.ram, r.value.ram, TablesBelow(m.ram, dir, n))
  {
    hide Kfree;
    var before := TablesBelow(m.ram, dir, n - 1);
    var table := TableAt(m1.ram, dir, n - 1);
    TablesBelowMembers(m.ram, dir, n - 1);
    assert table !in before;
    assert forall k :: 0 <= k < |before| ==> Reverse(before)[k] == before[|before| - 1 - k];
    KfreePushes(m1, Reverse(before) + free, table);
    ReverseSnoc(before, table);
    SameFreeList(Kfree(m1, VirtualOf(table)).value, [table] + (Reverse(before) + free),
                 Reverse(before + [table]) + free);
  }

  lemma UnmapFirstPage(m: Mem, dir: int)
    requires WellFormed(m) && IsFrame(dir)
    ensures UnmapMemory(m, dir, 0, 0x1000) == UnmapPage(m, dir, 0)
  {
    hide UnmapPage;
    assert PageCount(0x1000) == 1;
    assert UnmapPages(m, dir, 0, 0) == Ok(m);
  }

  /** All frames of an address space with one user page, in the order in which destroy_address_space
      leaves them on the free list. */
  ghost function SpaceFrames(ram: seq<Frame>, dir: int): seq<int>
    requires IsSpace(ram, dir) && Lookup(ram, dir, 0).Some?
  {
    [dir] + Reverse(TablesBelow(ram, dir, PDE_SIZE)) + [Lookup(ram, dir, 0).value.frame]
  }

  /** destroy_address_space gives back the directory, every table and the frame of page 0, each once,
      provided page 0 is mapped to memory that is neither free nor part of the page tables. */
  lemma DestroyFreesAll(m: Mem, free: seq<int>, dir: int)
    requires IsFreeList(m, free) && IsSpace(m.ram, dir) && Separate(m.ram, dir, free)
    requires Lookup(m.ram, dir, 0).Some?
    requires var user := Lookup(m.ram, dir, 0).value.frame;
      IsFrame(user) && user !in free && Outside(m.ram, dir, user)
    ensures DestroyAddressSpace(m, dir).Ok?
    ensures
      var m' := DestroyAddressSpace(m, dir).value;
      && IsFreeList(m', SpaceFrames(m.ram, dir) + free)
      && WritesOnly(m.ram, m'.ram, SpaceFrames(m.ram, dir))
  {
    hide UnmapPage, Kfree, FreeTables;
    UnmapFirstPage(m, dir);
    UnmapPagePointwise(m, free, dir, 0);
    var user := Lookup(m.ram, dir, 0).value.frame;
    var m1 := UnmapPage(m, dir, 0).value;
    TablesBelowFrame(m.ram, m1.ram, dir, PDE_SIZE);
    FreeTablesFrees(m1, [user] + free, dir, PDE_SIZE);
    var tables := TablesBelow(m.ram, dir, PDE_SIZE);
    var m2 := FreeTables(m1, dir, PDE_SIZE).value;
    TablesBelowMembers(m.ram, dir, PDE_SIZE);
    assert forall k :: 0 <= k < |tables| ==> Reverse(tables)[k] == tables[|tables| - 1 - k];
    var free2 := Reverse(tables) + ([user] + free);
    assert dir !in free2;
    KfreePushes(m2, free2, dir);
    SameFreeList(Kfree(m2, VirtualOf(dir)).value, [dir] + free2, SpaceFrames(m.ram, dir) + free);
    DestroyWrites(m.ram, m1.ram, m2.ram, Kfree(m2, VirtualOf(dir)).value.ram, dir);
  }

  lemma DestroyWrites(ram: seq<Frame>, ram1: seq<Frame>, ram2: seq<Frame>, ram3: seq<Frame>, dir: int)
    requires IsSpace(ram, dir) && Lookup(ram, dir, 0).Some? && |ram1| == |ram2| == |ram3| == RAM_FRAMES
    requires forall g :: 0 <= g < RAM_FRAMES && g != Lookup(ram, dir, 0).value.frame && g != TableAt(ram, dir, 0) ==>
      ram1[g] == ram[g]
    requires WritesOnly(ram1, ram2, TablesBelow(ram, dir, PDE_SIZE))
    requires forall g :: 0 <= g < RAM_FRAMES && g != dir ==> ram3[g] == ram2[g]
    ensures WritesOnly(ram, ram3, SpaceFrames(ram, dir))
  {
    var tables := TablesBelow(ram, dir, PDE_SIZE);
    TablesBelowMembers(ram, dir, PDE_SIZE);
    assert Present(ram[dir][0]);
    assert TableAt(ram, dir, 0) in tables;
    ReverseMembers(tables);
    forall g | 0 <= g < RAM_FRAMES && g !in SpaceFrames(ram, dir) ensures ram3[g] == ram[g] {
      assert g !in tables;
    }
  }

  // ----- A program's address space

  /** The permission bits of a user page as its entry shows them. */
  const USER_FLAGS := 7

  /** alloc_map_memory of one page inside page 0 replaces whatever page 0 was mapped to by the first free
      page and panics exactly when none is left. */
  lemma AllocUserPage(m: Mem, free: seq<int>, dir: int, va: Word, size: Word)
    requires IsFreeList(m, free) && IsSpace(m.ram, dir) && Separate(m.ram, dir, free)
    requires Present(m.ram[dir][0]) && va < 0x1000 && 0 < size <= 0x1000
    ensures AllocMapMemory(m, dir, va, size, RW + US).Panic? <==> free == []
    ensures AllocMapMemory(m, dir, va, size, RW + US).Ok? ==>
      var m' := AllocMapMemory(m, dir, va, size, RW + US).value;
      && IsFreeList(m', free[1..])
      && UpdatesPage(m.ram, m'.ram, dir, 0, Some(Mapping(free[0], USER_FLAGS)))
      && Separate(m'.ram, dir, free[1..])
      && m'.ram[dir] == m.ram[dir]
      && (forall f :: 0 <= f < RAM_FRAMES && f != TableAt(m.ram, dir, 0) ==> m'.ram[f] == m.ram[f])
  {
    hide MapPage, Kmalloc;
    assert PageCount(size) == 1;
    assert AllocMapPages(m, dir, va, 0, RW + US) == Ok(m);
    KmallocPops(m, free);
    if free != [] {
      var m1 := Kmalloc(m).value.1;
      assert VirtualOf(free[0]) - KERN_BASE == free[0] * 0x1000;
      assert forall k :: 0 <= k < |free[1..]| ==> free[1..][k] == free[k + 1];
      MapPagePointwise(m1, free[1..], dir, va, free[0] * 0x1000, RW + US);
      assert Wrap(va + 0 * 0x1000) == va;
    }
  }

  /** The address space of a running program: 257 tables, its own frame at page 0, and the kernel's map
      everywhere else. */
  ghost predicate UserSpace(ram: seq<Frame>, dir: int) {
    && IsSpace(ram, dir)
    && |TablesBelow(ram, dir, PDE_SIZE)| == 257
    && Lookup(ram, dir, 0).Some?
    && Lookup(ram, dir, 0).value.flags == USER_FLAGS
    && IsFrame(Lookup(ram, dir, 0).value.frame)
    && Outside(ram, dir, Lookup(ram, dir, 0).value.frame)
    && (forall p :: 0 < p < 0x10_0000 ==> Lookup(ram, dir, p) == KernelMapping(p))
  }

  /** The frame behind page 0. */
  ghost function UserFrame(ram: seq<Frame>, dir: int): int
    requires UserSpace(ram, dir)
  {
    Lookup(ram, dir, 0).value.frame
  }

  function TablesUpTo(n: nat): nat
    requires n <= 1024
  {
    if n == 0 then 0 else if n <= 768 then 1 else n - 767
  }

  lemma {:induction false} KernelTablesBelow(ram: seq<Frame>, dir: int, tables: seq<int>, n: nat)
    requires |ram| == RAM_FRAMES && IsFrame(dir) && n <= 1024
    requires forall k :: 0 <= k < |tables| ==> IsFrame(tables[k])
    requires HasKernelTables(ram, dir, tables)
    ensures TablesBelow(ram, dir, n) == tables[..TablesUpTo(n)]
  {
    if n > 0 {
      KernelTablesBelow(ram, dir, tables, n - 1);
      match KernelTable(n - 1)
      case None =>
      case Some(k) =>
        assert k == TablesUpTo(n - 1);
        assert ram[dir][n - 1] == TableEntry(tables[k]);
        assert tables[..k + 1] == tables[..k] + [tables[k]];
    }
  }

  /** The space of a fresh program built from a free list: the directory, the tables, the user page. */
  ghost predicate SpaceBuilt(m: Mem, dir: int, m': Mem, free: seq<int>)
    requires IsFreeList(m, free) && |free| > KERNEL_PAGES
  {
    && IsFreeList(m', free[259..])
    && UserSpace(m'.ram, dir)
    && SpaceFrames(m'.ram, dir) == [free[0]] + Reverse(free[1..258]) + [free[258]]
    && WritesOnly(m.ram, m'.ram, free[..258])
  }

  lemma SpaceBuilds(m: Mem, m1: Mem, free: seq<int>, dir: int, va: Word, size: Word)
    requires IsFreeList(m, free) && |free| >= KERNEL_PAGES
    requires KernelBuilt(m, dir, m1, free)
    requires va < 0x1000 && 0 < size <= 0x1000
    ensures AllocMapMemory(m1, dir, va, size, RW + US).Panic? <==> |free| == KERNEL_PAGES
    ensures AllocMapMemory(m1, dir, va, size, RW + US).Ok? ==>
      SpaceBuilt(m, dir, AllocMapMemory(m1, dir, va, size, RW + US).value, free)
  {
    hide AllocMapMemory;
    var tables := free[1..258];
    assert KernelTable(0) == Some(0) && m1.ram[dir][0] == TableEntry(tables[0]);
    AllocUserPage(m1, free[258..], dir, va, size);
    if |free| > KERNEL_PAGES {
      var m' := AllocMapMemory(m1, dir, va, size, RW + US).value;
      KernelTablesBelow(m'.ram, dir, tables, PDE_SIZE);
      assert tables[..257] == tables;
      assert free[258..][1..] == free[259..];
      assert Lookup(m'.ram, dir, 0) == Some(Mapping(free[258], USER_FLAGS));
      SpaceIsUserSpace(m1.ram, m'.ram, free, dir);
      SpaceWrites(m.ram, m1.ram, m'.ram, free, dir);
    }
  }

  lemma SpaceIsUserSpace(ram1: seq<Frame>, ram': seq<Frame>, free: seq<int>, dir: int)
    requires |free| > KERNEL_PAGES && NoDuplicates(free) && forall k :: 0 <= k < |free| ==> IsFrame(free[k])
    requires IsSpace(ram1, dir) && MapsKernel(ram1, dir) && dir == free[0]
    requires UpdatesPage(ram1, ram', dir, 0, Some(Mapping(free[258], USER_FLAGS)))
    requires HasKernelTables(ram', dir, free[1..258])
    requires TablesBelow(ram', dir, PDE_SIZE) == free[1..258]
    ensures UserSpace(ram', dir)
  {}

  lemma SpaceWrites(ram: seq<Frame>, ram1: seq<Frame>, ram': seq<Frame>, free: seq<int>, dir: int)
    requires |free| > KERNEL_PAGES && dir == free[0] && |ram'| == RAM_FRAMES && IsFrame(dir)
    requires forall k :: 0 <= k < |free| ==> IsFrame(free[k])
    requires OnlyWrites(ram, ram1, dir, free[1..258]) && HasKernelTables(ram1, dir, free[1..258])
    requires forall f :: 0 <= f < RAM_FRAMES && f != TableAt(ram1, dir, 0) ==> ram'[f] == ram1[f]
    ensures WritesOnly(ram, ram', free[..258])
  {}

  /** Build and destroy: map_kernel, one user page, destroy_address_space. The free pages afterwards are
      exactly those from before, none of them twice; all other frames are as they were. */
  lemma BuildThenDestroy(m: Mem, free: seq<int>, size: Word)
    requires IsFreeList(m, free) && |free| > KERNEL_PAGES && 0 < size <= 0x1000
    ensures MapKernel(m).Ok?
    ensures AllocMapMemory(MapKernel(m).value.1, MapKernel(m).value.0, 0, size, RW + US).Ok?
    ensures
      var (dir, m1) := MapKernel(m).value;
      var r := DestroyAddressSpace(AllocMapMemory(m1, dir, 0, size, RW + US).value, dir);
      && r.Ok?
      && (exists free' :: IsFreeList(r.value, free') && multiset(free') == multiset(free))
      && WritesOnly(m.ram, r.value.ram, free)
  {
    hide MapKernel, AllocMapMemory, DestroyAddressSpace;
    MapKernelBuilds(m, free);
    var (dir, m1) := MapKernel(m).value;
    SpaceBuilds(m, m1, free, dir, 0, size);
    var m2 := AllocMapMemory(m1, dir, 0, size, RW + US).value;
    BuiltThenDestroyed(m, m2, free, dir);
  }

  lemma BuiltThenDestroyed(m: Mem, m2: Mem, free: seq<int>, dir: int)
    requires IsFreeList(m, free) && |free| > KERNEL_PAGES
    requires dir == free[0] && SpaceBuilt(m, dir, m2, free)
    ensures
      var r := DestroyAddressSpace(m2, dir);
      && r.Ok?
      && (exists free' :: IsFreeList(r.value, free') && multiset(free') == multiset(free))
      && WritesOnly(m.ram, r.value.ram, free)
  {
    hide DestroyAddressSpace;
    var frames := SpaceFrames(m2.ram, dir);
    TablesBelowMembers(m2.ram, dir, PDE_SIZE);
    BuiltSpaceSeparate(m2, free, dir);
    DestroyFreesAll(m2, free[259..], dir);
    var m' := DestroyAddressSpace(m2, dir).value;
    TakenFrames(free);
    assert IsFreeList(m', frames + free[259..]) && multiset(frames + free[259..]) == multiset(free);
    forall f | 0 <= f < RAM_FRAMES && f !in free ensures m'.ram[f] == m.ram[f] {
      assert f !in multiset(free);
      assert f !in free[..258];
    }
  }

  lemma TakenFrames(free: seq<int>)
    requires |free| > KERNEL_PAGES
    ensures multiset([free[0]] + Reverse(free[1..258]) + [free[258]]) == multiset(free[..259])
    ensures multiset(free[..259]) + multiset(free[259..]) == multiset(free)
  {
    ReverseMembers(free[1..258]);
    assert free[..259] == [free[0]] + free[1..258] + [free[258]];
    assert free == free[..259] + free[259..];
  }

  lemma BuiltSpaceSeparate(m2: Mem, free: seq<int>, dir: int)
    requires |free| > KERNEL_PAGES && NoDuplicates(free)
    requires UserSpace(m2.ram, dir)
    requires SpaceFrames(m2.ram, dir) == [free[0]] + Reverse(free[1..258]) + [free[258]]
    ensures Separate(m2.ram, dir, free[259..])
    ensures UserFrame(m2.ram, dir) !in free[259..]
  {
    TablesBelowMembers(m2.ram, dir, PDE_SIZE);
    var tables := TablesBelow(m2.ram, dir, PDE_SIZE);
    var frames := SpaceFrames(m2.ram, dir);
    assert |Reverse(tables)| == 257;
    assert dir == frames[0] == free[0];
    assert UserFrame(m2.ram, dir) == frames[258] == free[258];
    assert Reverse(tables) == frames[1..258] == Reverse(free[1..258]);
    ReverseMembers(tables);
    ReverseMembers(free[1..258]);
    forall i | 0 <= i < 1024 && Present(m2.ram[dir][i]) ensures TableAt(m2.ram, dir, i) !in free[259..] {
      assert TableAt(m2.ram, dir, i) in tables;
      assert TableAt(m2.ram, dir, i) in free[1..258];
    }
  }
}
