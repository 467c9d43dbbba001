/** memory.c as it runs: one array of page frames and the variable free_pages, updated in place. A method
    that returns false has called panic, and the run ends. */
module PhysicalMemory {
  import opened Machine
  import opened Bytes
  import A = PageAllocator
  import PT = PageTable
  import AS = AddressSpace
  import SC = SpaceCopy

  class Memory {
    const ram: array<Frame>
    var freePages: Word

    ghost predicate Valid() {
      ram.Length == RAM_FRAMES
    }

    /** The contents of memory as a value. */
    ghost function State(): (m: A.Mem)
      reads this, ram
    {
      A.Mem(ram[..], freePages)
    }

    constructor (frames: array<Frame>)
      requires frames.Length == RAM_FRAMES
      ensures Valid() && ram == frames && State() == A.Mem(frames[..], 0)
    {
      ram := frames;
      freePages := 0;
    }

    /** One word of memory. */
    method Poke(f: int, i: int, w: Word)
      requires Valid() && IsFrame(f) && 0 <= i < 1024
      modifies ram
      ensures State() == A.Mem(A.WriteWord(old(State().ram), f, i, w), old(freePages))
    {
      ram[f] := ram[f][i := w];
    }

    method Clear(f: int)
      requires Valid() && IsFrame(f)
      modifies ram
      ensures State() == A.Mem(old(State().ram)[f := ZeroFrame()], old(freePages))
    {
      ram[f] := ZeroFrame();
    }

    method Kfree(ptr: Word) returns (ok: bool)
      requires Valid()
      modifies this, ram
      ensures ok <==> A.Kfree(old(State()), ptr).Ok?
      ensures ok ==> State() == A.Kfree(old(State()), ptr).value
    {
      if !IsKernelPointer(ptr) { return false; }
      Poke(FrameOf(ptr), 0, freePages);
      if ptr % 0x1000 != 0 { return false; }
      freePages := ptr;
      ok := true;
    }

    method Kmalloc() returns (ok: bool, ptr: Word)
      requires Valid()
      modifies this
      ensures ok <==> A.Kmalloc(old(State())).Ok?
      ensures ok ==> (ptr, State()) == A.Kmalloc(old(State())).value && IsKernelPointer(ptr)
    {
      ptr := freePages;
      if ptr == 0 || ptr % 0x1000 != 0 || !IsKernelPointer(ptr) { return false, 0; }
      freePages := ram[FrameOf(freePages)][0];
      ok := true;
    }

    method RegisterFreeMem(start: Word, end: Word) returns (ok: bool)
      requires Valid()
      modifies this, ram
      ensures ok <==> A.RegisterFreeMem(old(State()), start, end).Ok?
      ensures ok ==> State() == A.RegisterFreeMem(old(State()), start, end).value
    {
      hide A.Kfree, A.RoundUp, A.RoundDown;
      var limit := A.RoundDown(end);
      if A.RoundDown(start) >= limit { return false; }
      var now: Word := A.RoundUp(start);
      while now < limit
        invariant now % 0x1000 == 0
        invariant A.KfreeRange(old(State()), A.RoundUp(start), limit) == A.KfreeRange(State(), now, limit)
        decreases limit - now
      {
        ghost var before := State();
        ok := Kfree(now);
        if !ok { return; }
        assert now + 0x1000 <= limit;
        A.KfreeRangeUnfolds(before, now, now + 0x1000, limit);
        now := now + 0x1000;
      }
      ok := true;
    }

    method WalkPgdir(dir: int, va: Word) returns (pte: Option<(int, int)>)
      requires Valid() && IsFrame(dir)
      ensures pte == PT.WalkPgdir(State().ram, dir, va)
    {
      var pde := ram[dir][PT.PdeIndex(va)];
      if !PT.Present(pde) { return None; }
      pte := Some((pde / 0x1000, PT.PteIndex(va)));
    }

    method MapPage(dir: int, va: Word, pa: Word, perm: int) returns (ok: bool)
      requires Valid() && IsFrame(dir) && 0 <= perm < 8
      modifies this, ram
      ensures ok <==> PT.MapPage(old(State()), dir, va, pa, perm).Ok?
      ensures ok ==> State() == PT.MapPage(old(State()), dir, va, pa, perm).value
    {
      hide Or;
      var i := PT.PdeIndex(va);
      var table;
      if !PT.Present(ram[dir][i]) {
        var ptr;
        ok, ptr := Kmalloc();
        if !ok { return; }
        table := FrameOf(ptr);
        Clear(table);
        Poke(dir, i, PT.TableEntry(table));
      } else {
        table := ram[dir][i] / 0x1000;
        if !IsFrame(table) { return false; }
      }
      Poke(table, PT.PteIndex(va), Or(Or(pa, P), perm));
      ok := true;
    }

    method UnmapPage(dir: int, va: Word) returns (ok: bool)
      requires Valid() && IsFrame(dir)
      modifies this, ram
      ensures ok <==> PT.UnmapPage(old(State()), dir, va).Ok?
      ensures ok ==> State() == PT.UnmapPage(old(State()), dir, va).value
    {
      var pde := ram[dir][PT.PdeIndex(va)];
      if !PT.Present(pde) { return false; }
      var table := pde / 0x1000;
      if !IsFrame(table) { return false; }
      var pte := ram[table][PT.PteIndex(va)];
      if !PT.Present(pte) || !IsFrame(pte / 0x1000) { return false; }
      ok := Kfree(VirtualOf(pte / 0x1000));
      if !ok { return; }
      Poke(table, PT.PteIndex(va), 0);
    }

    method MapMemory(dir: int, va: Word, pa: Word, size: Word, perm: int) returns (ok: bool)
      requires Valid() && IsFrame(dir) && 0 <= perm < 8
      modifies this, ram
      ensures ok <==> AS.MapMemory(old(State()), dir, va, pa, size, perm).Ok?
      ensures ok ==> State() == AS.MapMemory(old(State()), dir, va, pa, size, perm).value
    {
      hide PT.MapPage;
      if size == 0 { return false; }
      var pages := A.RoundUp(size) / 0x1000;
      for i := 0 to pages
        invariant AS.MapPages(old(State()), dir, va, pa, i, perm) == Ok(State())
      {
        ok := MapPage(dir, Wrap(va + i * 0x1000), Wrap(pa + i * 0x1000), perm);
        if !ok {
          Exhausted(old(State()), dir, va, pa, i + 1, pages, perm);
          return;
        }
      }
      ok := true;
    }

    /** The loop of map_memory does not recover. */
    static lemma Exhausted(m: A.Mem, dir: int, va: Word, pa: Word, i: nat, n: nat, perm: int)
      requires A.WellFormed(m) && IsFrame(dir) && 0 <= perm < 8 && i <= n
      requires AS.MapPages(m, dir, va, pa, i, perm).Panic?
      ensures AS.MapPages(m, dir, va, pa, n, perm).Panic?
    {
      if i < n { Exhausted(m, dir, va, pa, i, n - 1, perm); }
    }

    method AllocMapMemory(dir: int, va: Word, size: Word, perm: int) returns (ok: bool)
      requires Valid() && IsFrame(dir) && 0 <= perm < 8
      modifies this, ram
      ensures ok <==> AS.AllocMapMemory(old(State()), dir, va, size, perm).Ok?
      ensures ok ==> State() == AS.AllocMapMemory(old(State()), dir, va, size, perm).value
    {
      hide PT.MapPage, A.Kmalloc;
      if size == 0 { return false; }
      var pages := A.RoundUp(size) / 0x1000;
      for i := 0 to pages
        invariant AS.AllocMapPages(old(State()), dir, va, i, perm) == Ok(State())
      {
        var page;
        ok, page := Kmalloc();
        if ok { ok := MapPage(dir, Wrap(va + i * 0x1000), page - KERN_BASE, perm); }
        if !ok {
          AllocExhausted(old(State()), dir, va, i + 1, pages, perm);
          return;
        }
      }
      ok := true;
    }

    static lemma {:induction false} AllocExhausted(m: A.Mem, dir: int, va: Word, i: nat, n: nat, perm: int)
      requires A.WellFormed(m) && IsFrame(dir) && 0 <= perm < 8 && i <= n
      requires AS.AllocMapPages(m, dir, va, i, perm).Panic?
      ensures AS.AllocMapPages(m, dir, va, n, perm).Panic?
    {
      if i < n { AllocExhausted(m, dir, va, i, n - 1, perm); }
    }

    method UnmapMemory(dir: int, va: Word, size: Word) returns (ok: bool)
      requires Valid() && IsFrame(dir)
      modifies this, ram
      ensures ok <==> AS.UnmapMemory(old(State()), dir, va, size).Ok?
      ensures ok ==> State() == AS.UnmapMemory(old(State()), dir, va, size).value
    {
      hide PT.UnmapPage;
      if size == 0 { return false; }
      var pages := A.RoundUp(size) / 0x1000;
      for i := 0 to pages
        invariant AS.UnmapPages(old(State()), dir, va, i) == Ok(State())
      {
        ok := UnmapPage(dir, Wrap(va + i * 0x1000));
        if !ok {
          UnmapExhausted(old(State()), dir, va, i + 1, pages);
          return;
        }
      }
      ok := true;
    }

    static lemma {:induction false} UnmapExhausted(m: A.Mem, dir: int, va: Word, i: nat, n: nat)
      requires A.WellFormed(m) && IsFrame(dir) && i <= n
      requires AS.UnmapPages(m, dir, va, i).Panic?
      ensures AS.UnmapPages(m, dir, va, n).Panic?
    {
      if i < n { UnmapExhausted(m, dir, va, i, n - 1); }
    }

    method MapKernel() returns (ok: bool, dir: int)
      requires Valid()
      modifies this, ram
      ensures ok <==> AS.MapKernel(old(State())).Ok?
      ensures ok ==> (dir, State()) == AS.MapKernel(old(State())).value && IsFrame(dir)
    {
      hide AS.MapMemory, A.Kmalloc;
      var ptr;
      ok, ptr := Kmalloc();
      if !ok { return false, 0; }
      dir := FrameOf(ptr);
      Clear(dir);
      ghost var start := State();
      for i := 0 to AS.KERNEL_ROWS
        invariant AS.MapKernelRows(start, dir, i) == Ok(State())
      {
        var row := AS.KernelMap(i);
        ok := MapMemory(dir, row.va, row.pa, row.size, row.perm);
        if !ok {
          RowsExhausted(start, dir, i + 1, AS.KERNEL_ROWS);
          return;
        }
      }
      ok := true;
    }

    static lemma {:induction false} RowsExhausted(m: A.Mem, dir: int, i: nat, n: nat)
      requires A.WellFormed(m) && IsFrame(dir) && i <= n <= 3
      requires AS.MapKernelRows(m, dir, i).Panic?
      ensures AS.MapKernelRows(m, dir, n).Panic?
    {}

    method DestroyAddressSpace(dir: int) returns (ok: bool)
      requires Valid() && IsFrame(dir)
      modifies this, ram
      ensures ok <==> AS.DestroyAddressSpace(old(State()), dir).Ok?
      ensures ok ==> State() == AS.DestroyAddressSpace(old(State()), dir).value
    {
      hide AS.UnmapMemory, A.Kfree;
      ok := UnmapMemory(dir, 0, 0x1000);
      if !ok { return; }
      ghost var start := State();
      for i := 0 to PT.PDE_SIZE
        invariant AS.FreeTables(start, dir, i) == Ok(State())
      {
        var pde := ram[dir][i];
        if !PT.Present(pde) { continue; }
        ok := IsFrame(pde / 0x1000);
        if ok { ok := Kfree(VirtualOf(pde / 0x1000)); }
        if !ok {
          TablesExhausted(start, dir, i + 1, PT.PDE_SIZE);
          return;
        }
      }
      ok := Kfree(VirtualOf(dir));
    }

    static lemma {:induction false} TablesExhausted(m: A.Mem, dir: int, i: nat, n: nat)
      requires A.WellFormed(m) && IsFrame(dir) && i <= n <= 1024
      requires AS.FreeTables(m, dir, i).Panic?
      ensures AS.FreeTables(m, dir, n).Panic?
    {
      if i < n { TablesExhausted(m, dir, i, n - 1); }
    }

    /** The frame that the entry of an address names. */
    method EntryFrame(dir: int, va: Word) returns (f: Option<int>)
      requires Valid() && IsFrame(dir)
      ensures f == SC.EntryFrame(State().ram, dir, va)
    {
      var pte := WalkPgdir(dir, va);
      if pte == None || !IsFrame(pte.value.0) { return None; }
      var target := ram[pte.value.0][pte.value.1] / 0x1000;
      f := if IsFrame(target) then Some(target) else None;
    }

    /** memcpy to a place in a frame: what does not fit goes on into the next one. */
    method Memcpy(f: int, at: int, bytes: seq<Byte>) returns (ok: bool)
      requires Valid() && IsFrame(f) && 0 <= at < 4096 && |bytes| <= 4096
      modifies ram
      ensures ok <==> SC.CopyToFrame(old(State().ram), f, at, bytes).Ok?
      ensures ok ==> State().ram == SC.CopyToFrame(old(State().ram), f, at, bytes).value
    {
      hide WriteFrame;
      if at + |bytes| <= 4096 {
        ram[f] := WriteFrame(ram[f], at, bytes);
        return true;
      }
      if !IsFrame(f + 1) { return false; }
      ram[f] := WriteFrame(ram[f], at, bytes[..4096 - at]);
      ram[f + 1] := WriteFrame(ram[f + 1], 0, bytes[4096 - at..]);
      ok := true;
    }

    method MemcpyToAnotherSpace(dir: int, dest: Word, src: seq<Byte>) returns (ok: bool)
      requires Valid() && IsFrame(dir)
      modifies ram
      ensures ok <==> SC.CopyToSpace(old(State()), dir, dest, src).Ok?
      ensures ok ==> State() == SC.CopyToSpace(old(State()), dir, dest, src).value
    {
      hide SC.CopyToFrame, SC.EntryFrame, SC.Piece, SC.Pieces;
      var n: int := |src|;
      var pages := if n % 0x1000 == 0 then n / 0x1000 else n / 0x1000 + 1;
      PageTotal(n);
      for i := 0 to pages
        invariant n == |src| - i * 0x1000 && freePages == old(freePages)
        invariant SC.CopyPages(old(State()), dir, dest, src[..SC.Piece(|src|)], i) == Ok(State())
      {
        var f := EntryFrame(dir, Wrap(dest + i * 0x1000));
        var piece := if n % 0x1000 == 0 then 0x1000 else n % 0x1000;
        SamePiece(|src|, i);
        ok := f.Some?;
        if ok { ok := Memcpy(f.value, dest % 0x1000, src[..piece]); }
        if !ok {
          CopyExhausted(old(State()), dir, dest, src[..SC.Piece(|src|)], i + 1, pages);
          return;
        }
        n := n - 0x1000;
      }
      ok := true;
    }

    static lemma PageTotal(n: nat)
      ensures SC.Pieces(n) == if n % 0x1000 == 0 then n / 0x1000 else n / 0x1000 + 1
    {}

    /** Every iteration copies the same bytes. */
    static lemma SamePiece(n: nat, i: nat)
      requires i < SC.Pieces(n)
      ensures
        var left := n - i * 0x1000;
        SC.Piece(n) == if left % 0x1000 == 0 then 0x1000 else left % 0x1000
    {}

    static lemma {:induction false} CopyExhausted(m: A.Mem, dir: int, dest: Word, bytes: seq<Byte>, i: nat, n: nat)
      requires A.WellFormed(m) && IsFrame(dir) && |bytes| <= 4096 && i <= n
      requires SC.CopyPages(m, dir, dest, bytes, i).Panic?
      ensures SC.CopyPages(m, dir, dest, bytes, n).Panic?
    {
      if i < n { CopyExhausted(m, dir, dest, bytes, i, n - 1); }
    }
  }
}
