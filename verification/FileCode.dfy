/** The file table as fs.c and sys_open update it in place. A method that returns false has called panic. */
module FileCode {
  import opened Machine
  import opened Bytes
  import opened PhysicalMemory
  import A = PageAllocator
  import D = Directory
  import F = FileTable

  class FileSystem {
    const memory: Memory
    const filesystem: array<F.File>

    ghost predicate Valid() {
      memory.Valid() && filesystem.Length == F.MAX_FILES
    }

    constructor (m: Memory, table: array<F.File>)
      requires m.Valid() && table.Length == F.MAX_FILES
      ensures Valid() && memory == m && filesystem == table
    {
      memory, filesystem := m, table;
    }

    method GetFile(path: seq<Byte>) returns (f: Option<int>)
      requires Valid()
      ensures f == F.GetFile(filesystem[..], path)
    {
      if path == [] { return None; }
      for i := 0 to F.MAX_FILES
        invariant F.FindName(filesystem[..], path, 0) == F.FindName(filesystem[..], path, i)
      {
        if filesystem[i].name == path { return Some(i); }
      }
      f := None;
    }

    /** alloc_file, in the first slot that is not in use; None if there is none or the name is too long. */
    method AllocFile(path: seq<Byte>) returns (ok: bool, f: Option<int>)
      requires Valid()
      modifies filesystem, memory
      ensures !F.HasRoom(old(filesystem[..]), path) ==>
        ok && f == None && filesystem[..] == old(filesystem[..]) && memory.State() == old(memory.State())
      ensures F.HasRoom(old(filesystem[..]), path) ==>
        (ok <==> F.AllocFile(old(filesystem[..]), old(memory.State()), path).Ok?)
      ensures F.HasRoom(old(filesystem[..]), path) && ok ==>
        f.Some? && F.AllocFile(old(filesystem[..]), old(memory.State()), path)
          == Ok((f.value, filesystem[..], memory.State()))
    {
      hide A.Kmalloc;
      var i := 0;
      while i < F.MAX_FILES && filesystem[i].inUse
        invariant 0 <= i <= F.MAX_FILES
        invariant F.FindSlot(filesystem[..], 0) == F.FindSlot(filesystem[..], i)
      {
        i := i + 1;
      }
      if i == F.MAX_FILES || |path| > 15 { return true, None; }
      filesystem[i] := filesystem[i].(name := path);
      var ptr;
      ok, ptr := memory.Kmalloc();
      if !ok { return false, None; }
      filesystem[i] := filesystem[i].(data := Some(FrameOf(ptr)));
      filesystem[i] := filesystem[i].(inUse := true, size := 0);
      f := Some(i);
      assert filesystem[..] == old(filesystem[..])[i := filesystem[i]];
    }

    /** list_rootdir into the page of file f. */
    method ListInto(f: int)
      requires Valid() && 0 <= f < F.MAX_FILES && filesystem[f].data.Some? && IsFrame(filesystem[f].data.value)
      modifies filesystem, memory.ram
      ensures F.ListInto(f, old(filesystem[..]), old(memory.State()))
        == F.Opened(Some(f), filesystem[..], memory.State())
    {
      hide Pack, Unpack, F.RootListing;
      filesystem[f] := filesystem[f].(kind := F.Dir);
      assert filesystem[..] == old(filesystem[..])[f := filesystem[f]];
      var page := filesystem[f].data.value;
      var len := ListPage(page);
      filesystem[f] := filesystem[f].(size := len);
      filesystem[f] := filesystem[f].(pos := 0);
      assert filesystem[..] == old(filesystem[..])[f := filesystem[f]];
    }

    /** list_rootdir, on the bytes of a page. */
    method ListPage(page: int) returns (len: Word)
      requires Valid() && IsFrame(page)
      modifies memory.ram
      ensures len == |F.RootListing(filesystem[..])| <= 4096
      ensures memory.ram[..]
        == old(memory.ram[..])[page := WriteFrame(old(memory.ram[page]), 0, F.RootListing(filesystem[..]))]
    {
      hide Pack, Unpack, D.Listing, D.Names;
      var words := Unpack(memory.ram[page]);
      var buf := new Byte[4096](i requires 0 <= i < 4096 => words[i]);
      assert buf[..] == words;
      F.RootListingFits(filesystem[..]);
      len := D.ListRootdir(F.Entries(filesystem[..]), buf);
      assert buf[..] == WriteBytes(words, 0, F.RootListing(filesystem[..])) by {
        assert buf[..] == buf[..len] + buf[len..];
        assert forall k :: len <= k < 4096 ==> buf[k] == words[k];
      }
      memory.ram[page] := Pack(buf[..]);
    }

    /** sys_open from a path and flags to a file. */
    method OpenFile(path: seq<Byte>, flags: int) returns (ok: bool, file: Option<int>)
      requires Valid()
      modifies filesystem, memory, memory.ram
      ensures ok <==> F.OpenFile(old(filesystem[..]), old(memory.State()), path, flags).Ok?
      ensures ok ==>
        F.OpenFile(old(filesystem[..]), old(memory.State()), path, flags)
          == Ok(F.Opened(file, filesystem[..], memory.State()))
    {
      hide A.Kmalloc, F.ListInto, F.FindSlot, F.FindName;
      if path == F.CONSOLE_NAME { return true, Some(F.CONSOLE); }
      var f := GetFile(path);
      if path == F.ROOT_NAME && f == None {
        ok, f := AllocFile(path);
        if ok && f.Some? { ListInto(f.value); }
        return ok, f;
      }
      if flags == F.O_RDONLY {
        if f == None { return true, None; }
        filesystem[f.value] := filesystem[f.value].(pos := 0);
        assert filesystem[..] == old(filesystem[..])[f.value := filesystem[f.value]];
        return true, f;
      }
      if flags != F.O_WRONLY && flags != F.O_RDWR { return true, None; }
      if f.Some? {
        var data := filesystem[f.value].data;
        if data == None || !IsFrame(data.value) { return false, None; }
        memory.Poke(data.value, 0, 0);
      } else {
        ok, f := AllocFile(path);
        if !ok || f == None { return ok, None; }
      }
      ghost var before := filesystem[..];
      filesystem[f.value] := filesystem[f.value].(kind := F.Regular);
      filesystem[f.value] := filesystem[f.value].(pos := 0);
      ok, file := true, f;
      assert filesystem[..] == before[f.value := filesystem[f.value]];
    }
  }
}
