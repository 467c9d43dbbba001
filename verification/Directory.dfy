/** list_rootdir of fs.c: the names of all regular files, one to a line, in one page. */
module Directory {
  import opened Machine

  const NEWLINE := 10
  const MAX_FILE_SIZE := 4096

  /** A slot of the file table, as far as a listing looks at it. */
  datatype Entry = Entry(name: seq<Byte>, inUse: bool, regular: bool)

  predicate IsListed(e: Entry) {
    e.inUse && e.regular && e.name != []
  }

  /** The names to list, in table order. */
  function Names(files: seq<Entry>): seq<seq<Byte>> {
    if files == [] then []
    else Names(files[..|files| - 1]) + (if IsListed(files[|files| - 1]) then [files[|files| - 1].name] else [])
  }

  /** The slots below i that are listed: in use, regular, and with a name. */
  function ListedBelow(files: seq<Entry>, i: nat): set<int>
    requires i <= |files|
  {
    set j | 0 <= j < i && files[j].inUse && files[j].regular && |files[j].name| > 0
  }

  /** Each of them is there once, in the order of the table. */
  lemma {:induction false} NamesAt(files: seq<Entry>)
    ensures |Names(files)| == |ListedBelow(files, |files|)|
    ensures forall i :: 0 <= i < |files| && i in ListedBelow(files, |files|) ==>
      |ListedBelow(files, i)| < |Names(files)| && Names(files)[|ListedBelow(files, i)|] == files[i].name
  {
    hide ListedBelow, IsListed;
    if files == [] {
      NothingBelow(files);
    } else {
      var n, front := |files| - 1, files[..|files| - 1];
      NamesAt(front);
      ListedFront(files, n);
      assert ListedBelow(front, n) == ListedBelow(files, n);
      forall i | 0 <= i < |files| && i in ListedBelow(files, |files|)
        ensures |ListedBelow(files, i)| < |Names(files)| && Names(files)[|ListedBelow(files, i)|] == files[i].name
      {
        if i < n { assert ListedBelow(front, i) == ListedBelow(files, i); }
      }
    }
  }

  lemma NothingBelow(files: seq<Entry>)
    ensures |ListedBelow(files, 0)| == 0
  {}

  lemma ListedFront(files: seq<Entry>, n: nat)
    requires n + 1 == |files|
    ensures forall i :: 0 <= i <= n ==> ListedBelow(files[..n], i) == ListedBelow(files, i)
    ensures IsListed(files[n]) ==> |ListedBelow(files, n + 1)| == |ListedBelow(files, n)| + 1
    ensures !IsListed(files[n]) ==> |ListedBelow(files, n + 1)| == |ListedBelow(files, n)|
    ensures n !in ListedBelow(files, n)
    ensures forall i :: i in ListedBelow(files, n + 1) <==> i in ListedBelow(files, n) || (i == n && IsListed(files[n]))
  {
    forall i | 0 <= i <= n ensures ListedBelow(files[..n], i) == ListedBelow(files, i) {}
    if IsListed(files[n]) {
      assert ListedBelow(files, n + 1) == ListedBelow(files, n) + {n};
    } else {
      assert ListedBelow(files, n + 1) == ListedBelow(files, n);
    }
  }

  function Listing(names: seq<seq<Byte>>): seq<Byte> {
    if names == [] then [] else names[0] + [NEWLINE] + Listing(names[1..])
  }

  /** The length of the first line of a text. */
  function LineLength(s: seq<Byte>): (n: nat)
    ensures n <= |s|
  {
    if s == [] || s[0] == NEWLINE then 0 else 1 + LineLength(s[1..])
  }

  /** The lines of a text. */
  function Lines(s: seq<Byte>): seq<seq<Byte>>
    decreases |s|
  {
    if s == [] then [] else
    var n := LineLength(s);
    [s[..n]] + Lines(if n < |s| then s[n + 1..] else [])
  }

  predicate IsName(name: seq<Byte>) {
    forall i :: 0 <= i < |name| ==> name[i] != NEWLINE
  }

  lemma {:induction false} LineLengthOf(name: seq<Byte>, rest: seq<Byte>)
    requires IsName(name)
    ensures LineLength(name + [NEWLINE] + rest) == |name|
    decreases |name|
  {
    var s := name + [NEWLINE] + rest;
    if name != [] {
      assert s[1..] == name[1..] + [NEWLINE] + rest;
      LineLengthOf(name[1..], rest);
    }
  }

  /** The lines of a listing are the names: nothing is lost, merged or reordered. */
  lemma {:induction false} ListingRoundTrip(names: seq<seq<Byte>>)
    requires forall i :: 0 <= i < |names| ==> IsName(names[i])
    ensures Lines(Listing(names)) == names
    decreases |names|
  {
    if names != [] {
      var name, rest := names[0], Listing(names[1..]);
      ListingRoundTrip(names[1..]);
      LineLengthOf(name, rest);
      var s := name + [NEWLINE] + rest;
      assert s[..|name|] == name && s[|name| + 1..] == rest;
      assert names == [name] + names[1..];
    }
  }

  lemma {:induction false} ListingConcat(a: seq<seq<Byte>>, b: seq<seq<Byte>>)
    ensures Listing(a + b) == Listing(a) + Listing(b)
    decreases |a|
  {
    if a == [] {
      assert a + b == b;
    } else {
      assert (a + b)[1..] == a[1..] + b;
      ListingConcat(a[1..], b);
    }
  }

  /** One more slot adds its line, if it has one. */
  lemma ListingNext(files: seq<Entry>, i: nat)
    requires i < |files|
    ensures Listing(Names(files[..i + 1])) ==
      Listing(Names(files[..i])) + (if IsListed(files[i]) then files[i].name + [NEWLINE] else [])
  {
    hide Listing;
    var before := Names(files[..i]);
    assert files[..i + 1][..i] == files[..i];
    if IsListed(files[i]) {
      ListingConcat(before, [files[i].name]);
      OneLine(files[i].name);
    } else {
      assert before + [] == before && Listing(before) + [] == Listing(before);
    }
  }

  lemma OneLine(name: seq<Byte>)
    ensures Listing([name]) == name + [NEWLINE]
  {
    assert [name][1..] == [];
    assert Listing([]) == [];
  }

  lemma {:induction false} ListingGrows(files: seq<Entry>, i: nat)
    requires i <= |files|
    ensures |Listing(Names(files[..i]))| <= |Listing(Names(files))|
    decreases |files| - i
  {
    if i == |files| {
      assert files[..i] == files;
    } else {
      ListingNext(files, i);
      ListingGrows(files, i + 1);
    }
  }

  /** strcpy of a name, whose terminator the newline replaces. */
  method PutLine(buf: array<Byte>, p: nat, name: seq<Byte>) returns (next: nat)
    requires p + |name| < buf.Length
    modifies buf
    ensures next == p + |name| + 1
    ensures buf[..next] == old(buf[..p]) + (name + [NEWLINE])
    ensures forall k :: next <= k < buf.Length ==> buf[k] == old(buf[k])
  {
    for i := 0 to |name|
      invariant forall k :: 0 <= k < buf.Length ==> buf[k] == if p <= k < p + i then name[k - p] else old(buf[k])
    {
      buf[p + i] := name[i];
    }
    buf[p + |name|] := 0;
    buf[p + |name|] := NEWLINE;
    next := p + |name| + 1;
  }

  /** list_rootdir returns -1 if and only if the listing does not fit into a page; otherwise its length, the
      listing being at the start of the buffer and the rest of the buffer untouched. */
  method ListRootdir(files: seq<Entry>, buf: array<Byte>) returns (len: int)
    requires buf.Length >= MAX_FILE_SIZE
    modifies buf
    ensures len == -1 <==> |Listing(Names(files))| > MAX_FILE_SIZE
    ensures len != -1 ==> len == |Listing(Names(files))| && buf[..len] == Listing(Names(files))
    ensures len != -1 ==> forall k :: len <= k < buf.Length ==> buf[k] == old(buf[k])
  {
    hide Listing, Names;
    var p := 0;
    NothingListed(files);
    for i := 0 to |files|
      invariant 0 <= p <= MAX_FILE_SIZE
      invariant buf[..p] == Listing(Names(files[..i]))
      invariant forall k :: p <= k < buf.Length ==> buf[k] == old(buf[k])
    {
      ListingNext(files, i);
      if !(files[i].inUse && files[i].regular) { continue; }
      var n := |files[i].name|;
      if n == 0 { continue; }
      if p + n + 1 > MAX_FILE_SIZE {
        ListingGrows(files, i + 1);
        return -1;
      }
      p := PutLine(buf, p, files[i].name);
    }
    assert files[..|files|] == files;
    len := p;
  }

  lemma NothingListed(files: seq<Entry>)
    ensures Listing(Names(files[..0])) == []
  {}
}
