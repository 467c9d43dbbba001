/** Two-level page tables (section 4.3 of the Intel SDM, Volume 3A) as memory.c builds them. */
module PageTable {
  import opened Machine
  import opened PageAllocator

  /** What the flat map stores for a mapped page: the frame and the low twelve bits of its entry. */
  datatype Mapping = Mapping(frame: int, flags: int)

  /** The number of entries of a directory. */
  const PDE_SIZE := 1024

  predicate Present(entry: Word) {
    entry % 2 == 1
  }

  function PdeIndex(va: Word): (i: int)
    ensures 0 <= i < 1024
  {
    va / 0x40_0000
  }

  function PteIndex(va: Word): (i: int)
    ensures 0 <= i < 1024
  {
    va / 0x1000 % 1024
  }

  /** The frame of the page table that directory entry i names. */
  function TableAt(ram: seq<Frame>, dir: int, i: int): int
    requires |ram| == RAM_FRAMES && IsFrame(dir) && 0 <= i < 1024
  {
    ram[dir][i] / 0x1000
  }

  /** walk_pgdir: the place of the page-table entry, or NULL without a page table. */
  function WalkPgdir(ram: seq<Frame>, dir: int, va: Word): Option<(int, int)>
    requires |ram| == RAM_FRAMES && IsFrame(dir)
  {
    var i := PdeIndex(va);
    if !Present(ram[dir][i]) then None
    else Some((TableAt(ram, dir, i), PteIndex(va)))
  }

  /** The directory entry of a page table: its physical address, present, writable, for users. */
  function TableEntry(table: int): (e: Word)
    requires IsFrame(table)
    ensures Present(e) && e / 0x1000 == table && e % 0x1000 == P + RW + US
  {
    OrAligned(table, 7, 7);
    DivMod(0x1000, table, 7);
    Or(table * 0x1000, P + RW + US)
  }

  function MapPage(m: Mem, dir: int, va: Word, pa: Word, perm: int): (r: Result<Mem>)
    requires WellFormed(m) && IsFrame(dir) && 0 <= perm < 8
    ensures r.Ok? ==> WellFormed(r.value)
  {
    var i := PdeIndex(va);
    var entry := Or(Or(pa, P), perm);
    if !Present(m.ram[dir][i]) then (
      match Kmalloc(m)
      case Panic => Panic
      case Ok((ptr, m1)) =>
        var table := FrameOf(ptr);
        var ram1 := m1.ram[table := ZeroFrame()];
        var ram2 := WriteWord(ram1, dir, i, TableEntry(table));
        Ok(Mem(WriteWord(ram2, table, PteIndex(va), entry), m1.head))
    ) else
      var table := TableAt(m.ram, dir, i);
      if !IsFrame(table) then Panic
      else Ok(Mem(WriteWord(m.ram, table, PteIndex(va), entry), m.head))
  }

  function UnmapPage(m: Mem, dir: int, va: Word): (r: Result<Mem>)
    requires WellFormed(m) && IsFrame(dir)
    ensures r.Ok? ==> WellFormed(r.value)
  {
    var i := PdeIndex(va);
    if !Present(m.ram[dir][i]) then Panic else
    var table := TableAt(m.ram, dir, i);
    if !IsFrame(table) then Panic else
    var entry := m.ram[table][PteIndex(va)];
    if !Present(entry) then Panic else
    var target := entry / 0x1000;
    if !IsFrame(target) then Panic else
    match Kfree(m, VirtualOf(target))
    case Panic => Panic
    case Ok(m1) => Ok(Mem(WriteWord(m1.ram, table, PteIndex(va), 0), m1.head))
  }

  // ----- The flat view

  /** A directory whose tables are real frames, different from each other and from the directory. */
  ghost predicate IsSpace(ram: seq<Frame>, dir: int) {
    && |ram| == RAM_FRAMES
    && IsFrame(dir)
    && (forall i :: 0 <= i < 1024 && Present(ram[dir][i]) ==>
          IsFrame(TableAt(ram, dir, i)) && TableAt(ram, dir, i) != dir)
    && (forall i, j :: 0 <= i < j < 1024 && Present(ram[dir][i]) && Present(ram[dir][j]) ==>
          TableAt(ram, dir, i) != TableAt(ram, dir, j))
  }

  /** Neither the directory nor any of its tables is on the free list. */
  ghost predicate Separate(ram: seq<Frame>, dir: int, free: seq<int>)
    requires |ram| == RAM_FRAMES && IsFrame(dir)
  {
    && dir !in free
    && forall i :: 0 <= i < 1024 && Present(ram[dir][i]) ==> TableAt(ram, dir, i) !in free
  }

  /** The flat map from the 2^20 page numbers that the two levels stand for: what the paging hardware
      finds for a page. */
  ghost function Lookup(ram: seq<Frame>, dir: int, page: int): Option<Mapping>
    requires IsSpace(ram, dir) && 0 <= page < 0x10_0000
  {
    var i := page / 1024;
    if !Present(ram[dir][i]) then None else
    var entry := ram[TableAt(ram, dir, i)][page % 1024];
    if !Present(entry) then None else Some(Mapping(entry / 0x1000, entry % 0x1000))
  }

  /** The flat map of a space is a function of its directory and its tables alone. */
  lemma LookupFrame(ram: seq<Frame>, ram': seq<Frame>, dir: int)
    requires IsSpace(ram, dir) && |ram'| == RAM_FRAMES
    requires ram'[dir] == ram[dir]
    requires forall i :: 0 <= i < 1024 && Present(ram[dir][i]) ==>
      ram'[TableAt(ram, dir, i)] == ram[TableAt(ram, dir, i)]
    ensures IsSpace(ram', dir)
    ensures forall page :: 0 <= page < 0x10_0000 ==> Lookup(ram', dir, page) == Lookup(ram, dir, page)
  {}

  /** An entry as the flat map shows it. */
  function Decode(entry: Word): Option<Mapping> {
    if Present(entry) then Some(Mapping(entry / 0x1000, entry % 0x1000)) else None
  }

  /** The flat map is what walk_pgdir finds: for each of the 2^32 addresses, it shows the entry of its page. */
  lemma WalkIsLookup(ram: seq<Frame>, dir: int, va: Word)
    requires IsSpace(ram, dir)
    ensures
      match WalkPgdir(ram, dir, va)
      case None => Lookup(ram, dir, va / 0x1000) == None
      case Some((table, i)) => IsFrame(table) && 0 <= i < 1024 && Lookup(ram, dir, va / 0x1000) == Decode(ram[table][i])
  {
    assert va / 0x1000 / 1024 == PdeIndex(va) && va / 0x1000 % 1024 == PteIndex(va);
  }

  /** Writing one page-table entry changes the flat map at one page. */
  lemma WriteEntryPointwise(ram: seq<Frame>, dir: int, page: int, entry: Word)
    requires IsSpace(ram, dir) && 0 <= page < 0x10_0000 && Present(ram[dir][page / 1024])
    ensures var ram' := WriteWord(ram, TableAt(ram, dir, page / 1024), page % 1024, entry);
      && IsSpace(ram', dir)
      && ram'[dir] == ram[dir]
      && Lookup(ram', dir, page) == Decode(entry)
      && forall p :: 0 <= p < 0x10_0000 && p != page ==> Lookup(ram', dir, p) == Lookup(ram, dir, p)
  {}

  /** Giving directory entry i a fresh zeroed table leaves the flat map as it was. */
  lemma InstallTableKeepsMap(ram: seq<Frame>, dir: int, i: int, table: int)
    requires IsSpace(ram, dir) && 0 <= i < 1024 && !Present(ram[dir][i])
    requires IsFrame(table) && table != dir
    requires forall j :: 0 <= j < 1024 && Present(ram[dir][j]) ==> TableAt(ram, dir, j) != table
    ensures var ram' := WriteWord(ram[table := ZeroFrame()], dir, i, TableEntry(table));
      && IsSpace(ram', dir)
      && Present(ram'[dir][i]) && TableAt(ram', dir, i) == table
      && (forall j :: 0 <= j < 1024 && j != i ==> ram'[dir][j] == ram[dir][j])
      && forall p :: 0 <= p < 0x10_0000 ==> Lookup(ram', dir, p) == Lookup(ram, dir, p)
  {}

  /** The free pages after map_page: one fewer exactly when the page's table was missing. */
  function FreeAfterMap(ram: seq<Frame>, dir: int, va: Word, free: seq<int>): seq<int>
    requires |ram| == RAM_FRAMES && IsFrame(dir)
  {
    if Present(ram[dir][PdeIndex(va)]) || free == [] then free else free[1..]
  }

  /** The flat map changes at one page only. */
  ghost predicate UpdatesPage(ram: seq<Frame>, ram': seq<Frame>, dir: int, page: int, to: Option<Mapping>)
    requires IsSpace(ram, dir) && 0 <= page < 0x10_0000
  {
    && IsSpace(ram', dir)
    && Lookup(ram', dir, page) == to
    && forall p :: 0 <= p < 0x10_0000 && p != page ==> Lookup(ram', dir, p) == Lookup(ram, dir, p)
  }

  /** Of the directory only entry i may change, of all other frames only the table of entry i. */
  ghost predicate TouchesEntry(ram: seq<Frame>, ram': seq<Frame>, dir: int, i: int)
    requires |ram| == |ram'| == RAM_FRAMES && IsFrame(dir) && 0 <= i < 1024
  {
    && (forall j :: 0 <= j < 1024 && j != i ==> ram'[dir][j] == ram[dir][j])
    && (forall f :: 0 <= f < RAM_FRAMES && f != dir && f != TableAt(ram', dir, i) ==> ram'[f] == ram[f])
  }

  /** What map_page does: it updates the flat map at one page; the free list stays well formed and
      disjoint from the space; other directory entries keep their tables; no frame but the directory and
      the page's table is written; a missing table is the first free page. */
  ghost predicate PageMapped(m: Mem, m': Mem, free: seq<int>, dir: int, va: Word, pa: Word, perm: int)
    requires IsFreeList(m, free) && IsSpace(m.ram, dir)
  {
    var i := PdeIndex(va);
    var free' := FreeAfterMap(m.ram, dir, va, free);
    && IsFreeList(m', free')
    && UpdatesPage(m.ram, m'.ram, dir, va / 0x1000, Some(Mapping(pa / 0x1000, perm + P)))
    && Separate(m'.ram, dir, free')
    && TouchesEntry(m.ram, m'.ram, dir, i)
    && (Present(m.ram[dir][i]) ==> m'.ram[dir][i] == m.ram[dir][i])
    && (!Present(m.ram[dir][i]) ==> free != [] && m'.ram[dir][i] == TableEntry(free[0]))
  }

  /** map_page panics exactly when it needs a page table and no page is free. Otherwise it is a pointwise
      update of the flat map. */
  lemma MapPagePointwise(m: Mem, free: seq<int>, dir: int, va: Word, pa: Word, perm: int)
    requires IsFreeList(m, free) && IsSpace(m.ram, dir) && Separate(m.ram, dir, free)
    requires pa % 0x1000 == 0 && perm in {2, 6}
    ensures MapPage(m, dir, va, pa, perm).Panic? <==> !Present(m.ram[dir][PdeIndex(va)]) && free == []
    ensures MapPage(m, dir, va, pa, perm).Ok? ==>
      PageMapped(m, MapPage(m, dir, va, pa, perm).value, free, dir, va, pa, perm)
  {
    if Present(m.ram[dir][PdeIndex(va)]) {
      MapPageInTable(m, free, dir, va, pa, perm);
    } else {
      KmallocPops(m, free);
      if free != [] {
        MapPageNewTable(m, free, dir, va, pa, perm);
      }
    }
  }

  lemma MapPageInTable(m: Mem, free: seq<int>, dir: int, va: Word, pa: Word, perm: int)
    requires IsFreeList(m, free) && IsSpace(m.ram, dir) && Separate(m.ram, dir, free)
    requires pa % 0x1000 == 0 && perm in {2, 6} && Present(m.ram[dir][PdeIndex(va)])
    ensures
      var r := MapPage(m, dir, va, pa, perm);
      && r.Ok?
      && IsFreeList(r.value, free)
      && UpdatesPage(m.ram, r.value.ram, dir, va / 0x1000, Some(Mapping(pa / 0x1000, perm + P)))
      && Separate(r.value.ram, dir, free)
      && r.value.ram[dir] == m.ram[dir]
      && TouchesEntry(m.ram, r.value.ram, dir, PdeIndex(va))
  {
    var i := PdeIndex(va);
    var page := va / 0x1000;
    assert page / 1024 == i && page % 1024 == PteIndex(va);
    var entry := Or(Or(pa, P), perm);
    EntryDecodes(pa, perm);
    WriteEntryPointwise(m.ram, dir, page, entry);
    WriteKeepsFreeList(m, free, TableAt(m.ram, dir, i), PteIndex(va), entry);
  }

  lemma MapPageNewTable(m: Mem, free: seq<int>, dir: int, va: Word, pa: Word, perm: int)
    requires IsFreeList(m, free) && IsSpace(m.ram, dir) && Separate(m.ram, dir, free) && free != []
    requires pa % 0x1000 == 0 && perm in {2, 6} && !Present(m.ram[dir][PdeIndex(va)])
    ensures
      var r := MapPage(m, dir, va, pa, perm);
      && r.Ok?
      && IsFreeList(r.value, free[1..])
      && UpdatesPage(m.ram, r.value.ram, dir, va / 0x1000, Some(Mapping(pa / 0x1000, perm + P)))
      && Separate(r.value.ram, dir, free[1..])
      && r.value.ram[dir] == m.ram[dir][PdeIndex(va) := TableEntry(free[0])]
      && TouchesEntry(m.ram, r.value.ram, dir, PdeIndex(va))
  {
    var i := PdeIndex(va);
    var page := va / 0x1000;
    assert page / 1024 == i && page % 1024 == PteIndex(va);
    var entry := Or(Or(pa, P), perm);
    EntryDecodes(pa, perm);
    KmallocPops(m, free);
    var table := free[0];
    var ram2 := WriteWord(m.ram[table := ZeroFrame()], dir, i, TableEntry(table));
    InstallTableKeepsMap(m.ram, dir, i, table);
    WriteEntryPointwise(ram2, dir, page, entry);
    assert forall k :: 0 <= k < |free[1..]| ==> free[1..][k] == free[k + 1];
    assert UpdatesPage(m.ram, WriteWord(ram2, table, page % 1024, entry), dir, page, Decode(entry));
    FreeListFrame(Kmalloc(m).value.1, free[1..], WriteWord(ram2, table, page % 1024, entry));
  }

  /** Frames that are not free may change without harm to the free list. */
  lemma FreeListFrame(m: Mem, free: seq<int>, ram': seq<Frame>)
    requires IsFreeList(m, free) && |ram'| == RAM_FRAMES
    requires forall k {:trigger free[k]} :: 0 <= k < |free| ==> ram'[free[k]] == m.ram[free[k]]
    ensures IsFreeList(Mem(ram', m.head), free)
  {}

  lemma EntryDecodes(pa: Word, perm: int)
    requires pa % 0x1000 == 0 && perm in {2, 6}
    ensures Or(Or(pa, P), perm) == pa + perm + P
    ensures Decode(Or(Or(pa, P), perm)) == Some(Mapping(pa / 0x1000, perm + P))
  {
    hide Or;
    var frame := pa / 0x1000;
    assert pa == frame * 0x1000;
    OrAligned(frame, P, perm);
    assert BitOr(P, 2) == 3 && BitOr(P, 6) == 7;
    DivMod(0x1000, frame, perm + 1);
    DivMod(2, frame * 2048 + (if perm == 2 then 1 else 3), 1);
  }

  lemma WriteKeepsFreeList(m: Mem, free: seq<int>, f: int, i: int, w: Word)
    requires IsFreeList(m, free) && IsFrame(f) && f !in free && 0 <= i < 1024
    ensures IsFreeList(Mem(WriteWord(m.ram, f, i, w), m.head), free)
  {}

  /** Two directories share no frame. */
  ghost predicate Disjoint(ram: seq<Frame>, a: int, b: int)
    requires IsSpace(ram, a) && IsSpace(ram, b)
  {
    && a != b
    && (forall i :: 0 <= i < 1024 && Present(ram[a][i]) ==> TableAt(ram, a, i) != b)
    && (forall j :: 0 <= j < 1024 && Present(ram[b][j]) ==> TableAt(ram, b, j) != a)
    && (forall i, j :: 0 <= i < 1024 && Present(ram[a][i]) && 0 <= j < 1024 && Present(ram[b][j]) ==>
          TableAt(ram, a, i) != TableAt(ram, b, j))
  }

  /** map_page in one address space changes no translation of another one. */
  lemma MapPageOtherSpace(m: Mem, free: seq<int>, dir: int, other: int, va: Word, pa: Word, perm: int)
    requires IsFreeList(m, free) && IsSpace(m.ram, dir) && Separate(m.ram, dir, free)
    requires IsSpace(m.ram, other) && Separate(m.ram, other, free) && Disjoint(m.ram, dir, other)
    requires pa % 0x1000 == 0 && perm in {2, 6}
    ensures MapPage(m, dir, va, pa, perm).Ok? ==>
      var ram' := MapPage(m, dir, va, pa, perm).value.ram;
      && IsSpace(ram', other)
      && forall p :: 0 <= p < 0x10_0000 ==> Lookup(ram', other, p) == Lookup(m.ram, other, p)
  {
    MapPagePointwise(m, free, dir, va, pa, perm);
    if MapPage(m, dir, va, pa, perm).Ok? {
      var ram' := MapPage(m, dir, va, pa, perm).value.ram;
      LookupFrame(m.ram, ram', other);
    }
  }

  /** The frame is neither the directory nor one of its tables. */
  ghost predicate Outside(ram: seq<Frame>, dir: int, f: int)
    requires IsSpace(ram, dir)
  {
    && f != dir
    && forall i :: 0 <= i < 1024 && Present(ram[dir][i]) ==> TableAt(ram, dir, i) != f
  }

  /** unmap_page panics exactly on pages that are not mapped to memory. Otherwise it removes one page
      from the flat map and gives the page's frame back, which must not be free and not be part of the
      page tables. */
  lemma UnmapPagePointwise(m: Mem, free: seq<int>, dir: int, va: Word)
    requires IsFreeList(m, free) && IsSpace(m.ram, dir) && Separate(m.ram, dir, free)
    ensures UnmapPage(m, dir, va).Panic? <==>
      Lookup(m.ram, dir, va / 0x1000) == None || !IsFrame(Lookup(m.ram, dir, va / 0x1000).value.frame)
    ensures UnmapPage(m, dir, va).Ok? ==>
      var m' := UnmapPage(m, dir, va).value;
      var f := Lookup(m.ram, dir, va / 0x1000).value.frame;
      f !in free && Outside(m.ram, dir, f) ==>
        && IsFreeList(m', [f] + free)
        && UpdatesPage(m.ram, m'.ram, dir, va / 0x1000, None)
        && Separate(m'.ram, dir, [f] + free)
        && m'.ram[dir] == m.ram[dir]
        && (forall g :: 0 <= g < RAM_FRAMES && g != f && g != TableAt(m.ram, dir, PdeIndex(va)) ==>
          m'.ram[g] == m.ram[g])
  {
    var page := va / 0x1000;
    assert page / 1024 == PdeIndex(va) && page % 1024 == PteIndex(va);
    if Lookup(m.ram, dir, page).Some? && IsFrame(Lookup(m.ram, dir, page).value.frame) {
      var f := Lookup(m.ram, dir, page).value.frame;
      FrameOfVirtual(f);
      if f !in free && Outside(m.ram, dir, f) {
        KfreePushes(m, free, f);
        var m1 := Kfree(m, VirtualOf(f)).value;
        LookupFrame(m.ram, m1.ram, dir);
        assert TableAt(m1.ram, dir, page / 1024) == TableAt(m.ram, dir, page / 1024);
        WriteEntryPointwise(m1.ram, dir, page, 0);
        WriteKeepsFreeList(m1, [f] + free, TableAt(m.ram, dir, page / 1024), page % 1024, 0);
      }
    }
  }
}
