/** The file table of fs.c and what sys_open, sys_read and sys_write of sys_file.c do to it and to the pages
    that hold the files. */
module FileTable {
  import opened Machine
  import opened Bytes
  import opened PageAllocator
  import D = Directory

  const MAX_FILES := 32

  /** A pointer to a file is its slot; the console comes behind the table. */
  const CONSOLE := 32

  const O_RDONLY := 0
  const O_WRONLY := 1
  const O_RDWR := 2

  /** A file name: at most 15 characters. */
  type Name = s: seq<Byte> | |s| <= 15 witness []

  datatype Kind = Regular | Dir

  /** struct file; `data` is the frame of its page. */
  datatype File = File(name: Name, inUse: bool, kind: Kind, size: Word, pos: Word, data: Option<int>)

  /** A slot of the table after memset. */
  const NO_FILE := File([], false, Regular, 0, 0, None)

  const CONSOLE_NAME: seq<Byte> := [0x63, 0x6f, 0x6e, 0x73, 0x6f, 0x6c, 0x65]
  const ROOT_NAME: seq<Byte> := [0x2f]

  predicate IsTable(files: seq<File>) {
    |files| == MAX_FILES
  }

  /** The first slot from i on with this name, or MAX_FILES. */
  function FindName(files: seq<File>, path: seq<Byte>, i: int): (r: int)
    requires IsTable(files) && 0 <= i <= MAX_FILES
    ensures i <= r <= MAX_FILES
    ensures r < MAX_FILES ==> files[r].name == path
    ensures forall j :: i <= j < r ==> files[j].name != path
    decreases MAX_FILES - i
  {
    if i == MAX_FILES || files[i].name == path then i else FindName(files, path, i + 1)
  }

  /** get_file */
  function GetFile(files: seq<File>, path: seq<Byte>): (r: Option<int>)
    requires IsTable(files)
    ensures r.Some? ==> 0 <= r.value < MAX_FILES && files[r.value].name == path != []
  {
    if path == [] || FindName(files, path, 0) == MAX_FILES then None else Some(FindName(files, path, 0))
  }

  /** The first slot from i on that is not in use, or MAX_FILES. */
  function FindSlot(files: seq<File>, i: int): (r: int)
    requires IsTable(files) && 0 <= i <= MAX_FILES
    ensures i <= r <= MAX_FILES
    ensures r < MAX_FILES ==> !files[r].inUse
    ensures forall j :: i <= j < r ==> files[j].inUse
    decreases MAX_FILES - i
  {
    if i == MAX_FILES || !files[i].inUse then i else FindSlot(files, i + 1)
  }

  /** Can alloc_file give the path a slot? */
  predicate HasRoom(files: seq<File>, path: seq<Byte>)
    requires IsTable(files)
  {
    FindSlot(files, 0) < MAX_FILES && |path| <= 15
  }

  /** alloc_file, when there is room: a slot with the first free page, whose contents stay. */
  function AllocFile(files: seq<File>, m: Mem, path: seq<Byte>): (r: Result<(int, seq<File>, Mem)>)
    requires IsTable(files) && WellFormed(m) && HasRoom(files, path)
    ensures r.Ok? ==> 0 <= r.value.0 < MAX_FILES && IsTable(r.value.1) && WellFormed(r.value.2)
    ensures r.Ok? ==> r.value.1[r.value.0].data.Some? && IsFrame(r.value.1[r.value.0].data.value)
  {
    match Kmalloc(m)
    case Panic => Panic
    case Ok((ptr, m1)) =>
      var i := FindSlot(files, 0);
      Ok((i, files[i := files[i].(name := path, inUse := true, size := 0, data := Some(FrameOf(ptr)))], m1))
  }

  /** The table as list_rootdir sees it. */
  function Entries(files: seq<File>): (es: seq<D.Entry>)
    ensures |es| == |files|
    ensures forall i :: 0 <= i < |files| ==> es[i] == D.Entry(files[i].name, files[i].inUse, files[i].kind.Regular?)
  {
    seq(|files|, i requires 0 <= i < |files| => D.Entry(files[i].name, files[i].inUse, files[i].kind.Regular?))
  }

  function RootListing(files: seq<File>): seq<Byte> {
    D.Listing(D.Names(Entries(files)))
  }

  /** 32 lines of at most 16 bytes fit into a page, so that list_rootdir never returns -1. */
  lemma RootListingFits(files: seq<File>)
    requires IsTable(files)
    ensures |RootListing(files)| <= 16 * MAX_FILES < 4096
  {
    ListingFits(Entries(files));
  }

  lemma {:induction false} ListingFits(es: seq<D.Entry>)
    requires forall i :: 0 <= i < |es| ==> |es[i].name| <= 15
    ensures |D.Listing(D.Names(es))| <= 16 * |es|
  {
    if es != [] {
      var front := es[..|es| - 1];
      ListingFits(front);
      D.ListingNext(es, |es| - 1);
      assert es[..|es|] == es;
    } else {
      D.NothingListed(es);
      assert es[..0] == es;
    }
  }

  /** What sys_open makes of a path: the file it found or made, if any, the table and memory. */
  datatype Opened = Opened(file: Option<int>, files: seq<File>, mem: Mem)

  /** Does sys_open make a new file? */
  predicate MakesFile(files: seq<File>, path: seq<Byte>, flags: int)
    requires IsTable(files)
  {
    && path != CONSOLE_NAME && GetFile(files, path) == None && HasRoom(files, path)
    && (path == ROOT_NAME || flags == O_WRONLY || flags == O_RDWR)
  }

  /** The middle of sys_open: from path and flags to a file. Opening an existing file for writing zeroes the first
      four bytes of its page; a new directory gets its listing. */
  function OpenFile(files: seq<File>, m: Mem, path: seq<Byte>, flags: int): (r: Result<Opened>)
    requires IsTable(files) && WellFormed(m)
    ensures r.Ok? ==> IsTable(r.value.files) && WellFormed(r.value.mem)
    ensures r.Ok? && r.value.file.Some? ==> 0 <= r.value.file.value <= CONSOLE
  {
    if path == CONSOLE_NAME then Ok(Opened(Some(CONSOLE), files, m))
    else if MakesFile(files, path, flags) then
      match AllocFile(files, m, path)
      case Panic => Panic
      case Ok((f, files1, m1)) =>
        if path == ROOT_NAME then Ok(ListInto(f, files1, m1))
        else Ok(Opened(Some(f), files1[f := files1[f].(kind := Regular, pos := 0)], m1))
    else
      match GetFile(files, path)
      case None => Ok(Opened(None, files, m))
      case Some(f) =>
        if flags == O_RDONLY then Ok(Opened(Some(f), files[f := files[f].(pos := 0)], m))
        else if flags != O_WRONLY && flags != O_RDWR then Ok(Opened(None, files, m))
        else
          match files[f].data
          case None => Panic
          case Some(page) =>
            if !IsFrame(page) then Panic else
            Ok(Opened(Some(f), files[f := files[f].(kind := Regular, pos := 0)],
                      Mem(WriteWord(m.ram, page, 0, 0), m.head)))
  }

  /** A directory is listed into its own page. */
  function ListInto(f: int, files: seq<File>, m: Mem): (o: Opened)
    requires IsTable(files) && WellFormed(m) && 0 <= f < MAX_FILES
    requires files[f].data.Some? && IsFrame(files[f].data.value)
    ensures IsTable(o.files) && WellFormed(o.mem) && o.file == Some(f)
  {
    RootListingFits(files[f := files[f].(kind := Dir)]);
    var files1 := files[f := files[f].(kind := Dir)];
    var listing := RootListing(files1);
    var page := files[f].data.value;
    Opened(Some(f), files1[f := files1[f].(size := |listing|, pos := 0)],
           Mem(m.ram[page := WriteFrame(m.ram[page], 0, listing)], m.head))
  }

  /** read_file: how many bytes it copies, always from the start of the page. */
  function BytesRead(file: File, count: nat): (n: nat)
    ensures n <= count
  {
    var left := Wrap(file.size - file.pos);
    if left < count then left else count
  }

  function Moved(file: File, n: nat): File {
    file.(pos := Wrap(file.pos + n))
  }

  // ----- The pages of the files

  /** The page that a slot holds. */
  function OwnPage(file: File): seq<int> {
    if file.inUse && file.data.Some? then [file.data.value] else []
  }

  /** The pages of the files below slot n. */
  function FilePages(files: seq<File>, n: nat): (pages: seq<int>)
    requires n <= |files|
  {
    if n == 0 then [] else FilePages(files, n - 1) + OwnPage(files[n - 1])
  }

  /** Changing names, kinds, sizes and positions moves no page. */
  lemma {:induction false} SameFilePages(files: seq<File>, files': seq<File>, n: nat)
    requires n <= |files| == |files'|
    requires forall i :: 0 <= i < n ==> OwnPage(files'[i]) == OwnPage(files[i])
    ensures FilePages(files', n) == FilePages(files, n)
  {
    if n > 0 { SameFilePages(files, files', n - 1); }
  }

  /** A slot that comes into use adds its page. */
  lemma {:induction false} OneMorePage(files: seq<File>, i: nat, file: File, n: nat)
    requires i < n <= |files| && OwnPage(files[i]) == []
    ensures multiset(FilePages(files[i := file], n)) == multiset(FilePages(files, n)) + multiset(OwnPage(file))
    ensures |FilePages(files[i := file], n)| == |FilePages(files, n)| + |OwnPage(file)|
  {
    hide OwnPage;
    var files' := files[i := file];
    var a, b := FilePages(files, n - 1), OwnPage(files[n - 1]);
    assert FilePages(files, n) == a + b;
    if i == n - 1 {
      SameFilePages(files, files', n - 1);
      assert a + [] == a;
      assert FilePages(files', n) == a + OwnPage(file);
    } else {
      OneMorePage(files, i, file, n - 1);
      assert FilePages(files', n) == FilePages(files', n - 1) + b;
    }
  }

  lemma {:induction false} PageOfFile(files: seq<File>, i: nat, n: nat)
    requires i < n <= |files|
    ensures forall f :: f in OwnPage(files[i]) ==> f in FilePages(files, n)
  {
    hide OwnPage;
    if i < n - 1 { PageOfFile(files, i, n - 1); }
  }

  lemma {:induction false} SharedPage(files: seq<File>, i: nat, j: nat, g: int, n: nat)
    requires i < j < n <= |files| && OwnPage(files[i]) == OwnPage(files[j]) == [g]
    ensures multiset(FilePages(files, n))[g] >= 2
  {
    hide OwnPage;
    if j < n - 1 {
      SharedPage(files, i, j, g, n - 1);
    } else {
      PageOfFile(files, i, n - 1);
      assert g in OwnPage(files[i]);
      assert multiset(FilePages(files, n)) == multiset(FilePages(files, n - 1)) + multiset([g]);
    }
  }

  lemma {:induction false} FileOfPage(files: seq<File>, g: int, n: nat) returns (f: nat)
    requires n <= |files| && g in FilePages(files, n)
    ensures f < n && files[f].inUse && files[f].data == Some(g)
  {
    if g in OwnPage(files[n - 1]) { f := n - 1; } else { f := FileOfPage(files, g, n - 1); }
  }
}
