/** The headers of a 32-bit ELF file (System V ABI, chapter 4 "Object Files") as load_elf of proc.c reads them. */
module Elf {
  import opened Machine
  import opened Bytes

  function ReadHalf(page: Page, at: int): (h: int)
    requires 0 <= at <= 4094
    ensures 0 <= h < 0x1_0000
  {
    var low: int, high: int := page[at], page[at + 1];
    low + 256 * high
  }

  /** CHECK_ELF */
  predicate IsElf(page: Page) {
    page[0] == 0x7f && page[1] == 0x45 && page[2] == 0x4c && page[3] == 0x46
  }

  /** e_entry */
  function Entry(page: Page): Word {
    ReadWord(page, 24)
  }

  /** e_phnum */
  function HeaderCount(page: Page): (n: int)
    ensures 0 <= n < 0x1_0000
  {
    ReadHalf(page, 44)
  }

  /** ELF_PHDR: e_phoff and e_phentsize lead to header i. */
  function HeaderAt(page: Page, i: int): int {
    ReadWord(page, 28) + i * ReadHalf(page, 42)
  }

  /** The members of a program header that load_elf reads. */
  datatype Segment = Segment(kind: Word, offset: Word, vaddr: Word, fileSize: Word, memSize: Word)

  const PT_LOAD := 1

  /** All program headers lie in the file's page. */
  predicate HeadersFit(page: Page) {
    forall i :: 0 <= i < HeaderCount(page) ==> 0 <= HeaderAt(page, i) <= 4096 - 32
  }

  function SegmentAt(page: Page, i: int): Segment
    requires HeadersFit(page) && 0 <= i < HeaderCount(page)
  {
    var at := HeaderAt(page, i);
    Segment(ReadWord(page, at), ReadWord(page, at + 4), ReadWord(page, at + 8), ReadWord(page, at + 16),
            ReadWord(page, at + 20))
  }

  predicate Loads(page: Page, i: int)
    requires HeadersFit(page) && 0 <= i < HeaderCount(page)
  {
    SegmentAt(page, i).kind == PT_LOAD
  }

  /** A segment that is in page 0 when loaded, and in the file's page before. */
  predicate InPageZero(s: Segment) {
    && 0 < s.memSize && s.vaddr + s.memSize <= 4096
    && s.vaddr + s.fileSize <= 4096
    && s.offset + s.fileSize <= 4096
  }

  /** The first header from i on that asks for loading, or the number of headers. */
  function FirstLoad(page: Page, i: int): (r: int)
    requires HeadersFit(page) && 0 <= i <= HeaderCount(page)
    ensures i <= r <= HeaderCount(page)
    ensures r < HeaderCount(page) ==> Loads(page, r)
    ensures forall j :: i <= j < r ==> !Loads(page, j)
    decreases HeaderCount(page) - i
  {
    if i == HeaderCount(page) || Loads(page, i) then i else FirstLoad(page, i + 1)
  }

  /** The kernel assumes that there is exactly one segment to load, and that it is in page 0. */
  predicate IsProgram(page: Page) {
    && HeadersFit(page)
    && FirstLoad(page, 0) < HeaderCount(page)
    && InPageZero(SegmentAt(page, FirstLoad(page, 0)))
    && FirstLoad(page, FirstLoad(page, 0) + 1) == HeaderCount(page)
  }

  /** That segment ... */
  function Program(page: Page): (s: Segment)
    requires IsProgram(page)
    ensures InPageZero(s)
  {
    SegmentAt(page, FirstLoad(page, 0))
  }

  /** ... and its bytes. */
  function Contents(page: Page): (bytes: seq<Byte>)
    requires IsProgram(page)
    ensures |bytes| == Program(page).fileSize
  {
    var s := Program(page);
    page[s.offset..s.offset + s.fileSize]
  }

  // ----- The headers as they are written

  type Half = x: int | 0 <= x < 0x1_0000

  /** Elf32_Ehdr, member by member. */
  datatype Ehdr = Ehdr(ident: seq<Byte>, kind: Half, machine: Half, version: Word, entry: Word, phoff: Word,
                       shoff: Word, flags: Word, ehsize: Half, phentsize: Half, phnum: Half, shentsize: Half,
                       shnum: Half, shstrndx: Half)

  /** Elf32_Phdr, member by member. */
  datatype Phdr = Phdr(kind: Word, offset: Word, vaddr: Word, paddr: Word, filesz: Word, memsz: Word, flags: Word,
                       align: Word)

  function HalfBytes(h: Half): (b: seq<Byte>)
    ensures |b| == 2
  {
    [h % 256, h / 256]
  }

  /** The members in order. */
  function EhdrBytes(h: Ehdr): (b: seq<Byte>)
    requires |h.ident| == 16
    ensures |b| == 52
  {
    h.ident + HalfBytes(h.kind) + HalfBytes(h.machine) + WordBytes(h.version) + WordBytes(h.entry) + WordBytes(h.phoff)
    + WordBytes(h.shoff) + WordBytes(h.flags) + HalfBytes(h.ehsize) + HalfBytes(h.phentsize) + HalfBytes(h.phnum)
    + HalfBytes(h.shentsize) + HalfBytes(h.shnum) + HalfBytes(h.shstrndx)
  }

  function PhdrBytes(p: Phdr): (b: seq<Byte>)
    ensures |b| == 32
  {
    WordBytes(p.kind) + WordBytes(p.offset) + WordBytes(p.vaddr) + WordBytes(p.paddr) + WordBytes(p.filesz)
    + WordBytes(p.memsz) + WordBytes(p.flags) + WordBytes(p.align)
  }

  /** The page starts with the header h, and its program headers ps are where h says. */
  ghost predicate IsImage(page: Page, h: Ehdr, ps: seq<Phdr>) {
    && |h.ident| == 16 && page[..52] == EhdrBytes(h) && |ps| == h.phnum
    && forall i :: 0 <= i < |ps| ==> PhdrAt(page, h.phoff + i * h.phentsize, ps[i])
  }

  ghost predicate PhdrAt(page: Page, at: int, p: Phdr) {
    0 <= at <= 4096 - 32 && page[at..at + 32] == PhdrBytes(p)
  }

  lemma HalfRoundTrip(page: Page, at: int, h: Half)
    requires 0 <= at <= 4094 && page[at..at + 2] == HalfBytes(h)
    ensures ReadHalf(page, at) == h
  {
    var c := page[at..at + 2];
    assert page[at] == c[0] && page[at + 1] == c[1];
  }

  /** Bytes n to n + k of a text that lies at an address. */
  lemma Part(page: Page, at: int, text: seq<Byte>, n: int, k: int)
    requires 0 <= at && at + |text| <= 4096 && page[at..at + |text|] == text && 0 <= n && 0 <= k && n + k <= |text|
    ensures page[at + n..at + n + k] == text[n..n + k]
  {
    var a, b, c := page[at + n..at + n + k], text[n..n + k], page[at..at + |text|];
    forall i | 0 <= i < k ensures a[i] == b[i] {
      assert c[n + i] == text[n + i];
    }
  }

  /** What the kernel reads of a header is what was written. */
  lemma HeaderRoundTrip(page: Page, h: Ehdr)
    requires |h.ident| == 16 && page[..52] == EhdrBytes(h)
    ensures IsElf(page) <==> h.ident[..4] == [0x7f, 0x45, 0x4c, 0x46]
    ensures Entry(page) == h.entry
    ensures HeaderCount(page) == h.phnum
    ensures forall i :: HeaderAt(page, i) == h.phoff + i * h.phentsize
  {
    hide WordBytes, HalfBytes, ReadWord, ReadHalf;
    var b := EhdrBytes(h);
    assert page[0..0 + 52] == page[..52];
    Part(page, 0, b, 0, 4);
    Part(page, 0, b, 24, 4);
    Part(page, 0, b, 28, 4);
    Part(page, 0, b, 42, 2);
    Part(page, 0, b, 44, 2);
    assert b[..4] == h.ident[..4];
    assert b[24..28] == WordBytes(h.entry) && b[28..32] == WordBytes(h.phoff);
    assert b[42..44] == HalfBytes(h.phentsize) && b[44..46] == HalfBytes(h.phnum);
    WordRoundTrip(page, 24, h.entry);
    WordRoundTrip(page, 28, h.phoff);
    HalfRoundTrip(page, 42, h.phentsize);
    HalfRoundTrip(page, 44, h.phnum);
    Magic(page, h.ident[..4]);
  }

  lemma Magic(page: Page, id: seq<Byte>)
    requires |id| == 4 && page[0..4] == id
    ensures IsElf(page) <==> id == [0x7f, 0x45, 0x4c, 0x46]
  {
    var c := page[0..4];
    assert page[0] == c[0] && page[1] == c[1] && page[2] == c[2] && page[3] == c[3];
  }

  /** ... and of the program headers. */
  lemma SegmentRoundTrip(page: Page, h: Ehdr, ps: seq<Phdr>)
    requires IsImage(page, h, ps)
    ensures HeadersFit(page) && HeaderCount(page) == |ps|
    ensures forall i :: 0 <= i < |ps| ==>
      SegmentAt(page, i) == Segment(ps[i].kind, ps[i].offset, ps[i].vaddr, ps[i].filesz, ps[i].memsz)
  {
    hide HeaderAt, HeaderCount, EhdrBytes, PhdrBytes, ReadWord;
    HeaderRoundTrip(page, h);
    forall i | 0 <= i < HeaderCount(page) ensures 0 <= HeaderAt(page, i) <= 4096 - 32 {
      assert PhdrAt(page, h.phoff + i * h.phentsize, ps[i]);
    }
    forall i | 0 <= i < |ps|
      ensures SegmentAt(page, i) == Segment(ps[i].kind, ps[i].offset, ps[i].vaddr, ps[i].filesz, ps[i].memsz)
    {
      PhdrRead(page, HeaderAt(page, i), ps[i]);
    }
  }

  lemma PhdrRead(page: Page, at: int, p: Phdr)
    requires 0 <= at <= 4096 - 32 && page[at..at + 32] == PhdrBytes(p)
    ensures ReadWord(page, at) == p.kind && ReadWord(page, at + 4) == p.offset && ReadWord(page, at + 8) == p.vaddr
    ensures ReadWord(page, at + 16) == p.filesz && ReadWord(page, at + 20) == p.memsz
  {
    hide WordBytes, ReadWord;
    var b := PhdrBytes(p);
    Part(page, at, b, 0, 4);
    Part(page, at, b, 4, 4);
    Part(page, at, b, 8, 4);
    Part(page, at, b, 16, 4);
    Part(page, at, b, 20, 4);
    assert b[0..4] == WordBytes(p.kind) && b[4..8] == WordBytes(p.offset) && b[8..12] == WordBytes(p.vaddr);
    assert b[16..20] == WordBytes(p.filesz) && b[20..24] == WordBytes(p.memsz);
    WordRoundTrip(page, at, p.kind);
    WordRoundTrip(page, at + 4, p.offset);
    WordRoundTrip(page, at + 8, p.vaddr);
    WordRoundTrip(page, at + 16, p.filesz);
    WordRoundTrip(page, at + 20, p.memsz);
  }

  /** Of these program headers exactly the one at s is to be loaded, into page 0 and from the file's page. */
  predicate LoadsOnly(ps: seq<Phdr>, s: int) {
    && 0 <= s < |ps| && (forall i :: 0 <= i < |ps| ==> (ps[i].kind == 1 <==> i == s))
    && 0 < ps[s].memsz && ps[s].vaddr + ps[s].memsz <= 4096
    && ps[s].vaddr + ps[s].filesz <= 4096 && ps[s].offset + ps[s].filesz <= 4096
  }

  /** A program is a page whose headers load one segment, and its contents are that segment's bytes. */
  lemma ProgramIff(page: Page, h: Ehdr, ps: seq<Phdr>)
    requires IsImage(page, h, ps)
    ensures IsProgram(page) <==> exists s :: LoadsOnly(ps, s)
    ensures forall s :: LoadsOnly(ps, s) ==>
      && IsProgram(page) && Program(page).vaddr == ps[s].vaddr
      && Contents(page) == page[ps[s].offset..ps[s].offset + ps[s].filesz]
  {
    hide HeaderAt, HeaderCount, SegmentAt, HeadersFit;
    SegmentRoundTrip(page, h, ps);
    forall s | LoadsOnly(ps, s)
      ensures IsProgram(page) && Program(page).vaddr == ps[s].vaddr
      ensures Contents(page) == page[ps[s].offset..ps[s].offset + ps[s].filesz]
    {
      OnlyOne(page, ps, s);
    }
    if IsProgram(page) {
      TheOnlyOne(page, ps);
    }
  }

  lemma OnlyOne(page: Page, ps: seq<Phdr>, s: int)
    requires HeadersFit(page) && HeaderCount(page) == |ps| && LoadsOnly(ps, s)
    requires forall i :: 0 <= i < |ps| ==>
      SegmentAt(page, i) == Segment(ps[i].kind, ps[i].offset, ps[i].vaddr, ps[i].filesz, ps[i].memsz)
    ensures FirstLoad(page, 0) == s && IsProgram(page)
  {
    hide HeaderAt, HeaderCount, SegmentAt, HeadersFit;
    assert Loads(page, s);
    assert !Loads(page, FirstLoad(page, 0)) || FirstLoad(page, 0) == s;
    assert FirstLoad(page, s + 1) == |ps|;
  }

  lemma TheOnlyOne(page: Page, ps: seq<Phdr>)
    requires HeadersFit(page) && HeaderCount(page) == |ps| && IsProgram(page)
    requires forall i :: 0 <= i < |ps| ==>
      SegmentAt(page, i) == Segment(ps[i].kind, ps[i].offset, ps[i].vaddr, ps[i].filesz, ps[i].memsz)
    ensures LoadsOnly(ps, FirstLoad(page, 0))
  {
    hide HeaderAt, HeaderCount, SegmentAt, HeadersFit;
    var s := FirstLoad(page, 0);
    forall i | 0 <= i < |ps| ensures ps[i].kind == 1 <==> i == s {
      assert Loads(page, i) <==> ps[i].kind == 1;
      assert i < s ==> !Loads(page, i);
      assert s < i ==> !Loads(page, i);
    }
  }
}
