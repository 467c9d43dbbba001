/** memcpy_to_another_space of memory.c, and load_elf of proc.c, which uses it. */
module SpaceCopy {
  import opened Machine
  import opened Bytes
  import opened PageAllocator
  import opened PageTable
  import opened AddressSpace
  import Elf

  /** The frame behind page 0, through walk_pgdir. */
  function PageZero(ram: seq<Frame>, dir: int): (f: Option<int>)
    requires |ram| == RAM_FRAMES && IsFrame(dir)
    ensures f.Some? ==> IsFrame(f.value)
  {
    EntryFrame(ram, dir, 0)
  }

  /** The frame that the entry of an address names, present or not. */
  function EntryFrame(ram: seq<Frame>, dir: int, va: Word): (f: Option<int>)
    requires |ram| == RAM_FRAMES && IsFrame(dir)
    ensures f.Some? ==> IsFrame(f.value)
  {
    match WalkPgdir(ram, dir, va)
    case None => None
    case Some((table, i)) =>
      if IsFrame(table) && IsFrame(ram[table][i] / 0x1000) then Some(ram[table][i] / 0x1000) else None
  }

  /** memcpy to physical memory: what does not fit into the frame goes on into the next one. */
  function CopyToFrame(ram: seq<Frame>, f: int, at: int, bytes: seq<Byte>): (r: Result<seq<Frame>>)
    requires |ram| == RAM_FRAMES && IsFrame(f) && 0 <= at < 4096 && |bytes| <= 4096
    ensures r.Ok? ==> |r.value| == RAM_FRAMES
  {
    if at + |bytes| <= 4096 then Ok(ram[f := WriteFrame(ram[f], at, bytes)])
    else if !IsFrame(f + 1) then Panic
    else
      var n := 4096 - at;
      var ram1 := ram[f := WriteFrame(ram[f], at, bytes[..n])];
      Ok(ram1[f + 1 := WriteFrame(ram1[f + 1], 0, bytes[n..])])
  }

  /** The first n iterations of the loop, each of which copies the same bytes. */
  function CopyPages(m: Mem, dir: int, dest: Word, bytes: seq<Byte>, n: nat): (r: Result<Mem>)
    requires WellFormed(m) && IsFrame(dir) && |bytes| <= 4096
    ensures r.Ok? ==> WellFormed(r.value)
  {
    if n == 0 then Ok(m) else
    match CopyPages(m, dir, dest, bytes, n - 1)
    case Panic => Panic
    case Ok(m1) =>
      match EntryFrame(m1.ram, dir, Wrap(dest + (n - 1) * 0x1000))
      case None => Panic
      case Some(f) =>
        match CopyToFrame(m1.ram, f, dest % 0x1000, bytes)
        case Panic => Panic
        case Ok(ram) => Ok(Mem(ram, m1.head))
  }

  /** How many bytes each iteration copies. */
  function Piece(n: nat): (r: nat)
    ensures r <= n && r <= 4096
  {
    if n == 0 then 0 else if n % 0x1000 == 0 then 0x1000 else n % 0x1000
  }

  function Pieces(n: nat): nat {
    if n % 0x1000 == 0 then n / 0x1000 else n / 0x1000 + 1
  }

  /** memcpy_to_another_space */
  function CopyToSpace(m: Mem, dir: int, dest: Word, src: seq<Byte>): (r: Result<Mem>)
    requires WellFormed(m) && IsFrame(dir)
    ensures r.Ok? ==> WellFormed(r.value)
  {
    CopyPages(m, dir, dest, src[..Piece(|src|)], Pieces(|src|))
  }

  /** Within page 0 it writes the bytes to their place in its frame. */
  lemma CopyInPageZero(m: Mem, dir: int, dest: Word, src: seq<Byte>)
    requires WellFormed(m) && IsFrame(dir) && PageZero(m.ram, dir).Some? && dest + |src| <= 4096
    ensures
      var f := PageZero(m.ram, dir).value;
      CopyToSpace(m, dir, dest, src) == Ok(Mem(m.ram[f := WriteFrame(m.ram[f], dest, src)], m.head))
  {
    hide WriteFrame;
    var f := PageZero(m.ram, dir).value;
    assert CopyPages(m, dir, dest, src[..Piece(|src|)], 0) == Ok(m);
    if src == [] {
      NothingWritten(m.ram[f], dest);
      assert m.ram[f := m.ram[f]] == m.ram;
    } else {
      assert src[..Piece(|src|)] == src && Pieces(|src|) == 1;
      assert Wrap(dest + 0 * 0x1000) == dest && dest % 0x1000 == dest;
      assert EntryFrame(m.ram, dir, dest) == Some(f);
    }
  }

  lemma NothingWritten(words: Frame, at: int)
    requires 0 <= at <= 4096
    ensures WriteFrame(words, at, []) == words
  {
    assert WriteBytes(Unpack(words), at, []) == Unpack(words);
    PackUnpack(words);
  }

  /** A whole page replaces the frame. */
  lemma WholePage(words: Frame, image: Frame)
    ensures WriteFrame(words, 0, Unpack(image)) == image
  {
    assert WriteBytes(Unpack(words), 0, Unpack(image)) == Unpack(image);
    PackUnpack(image);
  }

  // ----- load_elf

  /** The loop of load_elf from program header i on. */
  function LoadSegments(m: Mem, dir: int, elf: Page, i: int): (r: Result<Mem>)
    requires WellFormed(m) && IsFrame(dir) && Elf.IsProgram(elf) && 0 <= i <= Elf.HeaderCount(elf)
    ensures r.Ok? ==> WellFormed(r.value)
    decreases Elf.HeaderCount(elf) - i
  {
    if i == Elf.HeaderCount(elf) then Ok(m)
    else if !Elf.Loads(elf, i) then LoadSegments(m, dir, elf, i + 1)
    else
      match LoadSegment(m, dir, elf, i)
      case Panic => Panic
      case Ok(m1) => LoadSegments(m1, dir, elf, i + 1)
  }

  /** alloc_map_memory and the copy of one segment. */
  function LoadSegment(m: Mem, dir: int, elf: Page, i: int): (r: Result<Mem>)
    requires WellFormed(m) && IsFrame(dir) && Elf.IsProgram(elf) && 0 <= i < Elf.HeaderCount(elf) && Elf.Loads(elf, i)
    ensures r.Ok? ==> WellFormed(r.value)
  {
    var s := Elf.SegmentAt(elf, i);
    assert i == Elf.FirstLoad(elf, 0);
    match AllocMapMemory(m, dir, s.vaddr, s.memSize, RW + US)
    case Panic => Panic
    case Ok(m1) => CopyToSpace(m1, dir, s.vaddr, elf[s.offset..s.offset + s.fileSize])
  }

  /** load_elf loads the one segment. */
  lemma LoadsOnce(m: Mem, dir: int, elf: Page)
    requires WellFormed(m) && IsFrame(dir) && Elf.IsProgram(elf)
    ensures LoadSegments(m, dir, elf, 0) == LoadSegment(m, dir, elf, Elf.FirstLoad(elf, 0))
  {
    hide LoadSegment, Elf.SegmentAt, Elf.HeaderAt;
    var s := Elf.FirstLoad(elf, 0);
    Skips(m, dir, elf, 0, s);
    match LoadSegment(m, dir, elf, s)
    case Panic =>
    case Ok(m1) => Skips(m1, dir, elf, s + 1, Elf.HeaderCount(elf));
  }

  lemma {:induction false} Skips(m: Mem, dir: int, elf: Page, i: int, j: int)
    requires WellFormed(m) && IsFrame(dir) && Elf.IsProgram(elf) && 0 <= i <= j <= Elf.HeaderCount(elf)
    requires forall k :: i <= k < j ==> !Elf.Loads(elf, k)
    ensures LoadSegments(m, dir, elf, i) == LoadSegments(m, dir, elf, j)
    decreases j - i
  {
    hide Elf.IsProgram, LoadSegment;
    if i < j { Skips(m, dir, elf, i + 1, j); }
  }
}
