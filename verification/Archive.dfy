/** init_fs of fs.c: the boot archive, in GNU ar layout, becomes the table of files. */
module Archive {
  import opened Machine
  import opened Decimal

  const SPACE := 32
  const SLASH := 47
  const MAX_FILES := 32

  /** A file of the file system: name, size, and its page of data. */
  datatype File = File(name: seq<Byte>, size: int, data: seq<Byte>)

  /** How init_fs ends. Outside says that it reads past the archive or past its buffer, where the model knows
      nothing. */
  datatype Outcome = Done(files: seq<File>) | Panicked | Outside

  // ----- Reading

  function NullOut(s: seq<Byte>, c: Byte): (r: seq<Byte>)
    ensures |r| == |s| && forall i :: 0 <= i < |s| ==> r[i] == if s[i] == c then 0 else s[i]
  {
    seq(|s|, i requires 0 <= i < |s| => if s[i] == c then 0 else s[i])
  }

  /** The first NUL from i on. */
  function FirstNul(s: seq<Byte>, i: nat): (j: nat)
    requires i <= |s|
    ensures i <= j <= |s|
    ensures j < |s| ==> s[j] == 0
    ensures forall k :: i <= k < j ==> s[k] != 0
    decreases |s| - i
  {
    if i == |s| || s[i] == 0 then i else FirstNul(s, i + 1)
  }

  /** The buffer tmp after the name has been read, and after the size has been read over it. */
  function NameBuffer(h: seq<Byte>): (tmp: seq<Byte>)
    requires |h| == 60
    ensures |tmp| == 16
  {
    NullOut(NullOut(h[..16], SPACE), SLASH)
  }

  function SizeBuffer(h: seq<Byte>): (tmp: seq<Byte>)
    requires |h| == 60
    ensures |tmp| == 16
  {
    NullOut(h[48..58], SPACE) + NameBuffer(h)[10..]
  }

  /** Name and size of a header, or None if they are not terminated inside tmp. */
  function ParseHeader(h: seq<Byte>): Option<(seq<Byte>, int)>
    requires |h| == 60
  {
    var nameEnd, sizeEnd := FirstNul(NameBuffer(h), 0), FirstNul(SizeBuffer(h), 1);
    if nameEnd == 16 || sizeEnd == 16 then None
    else Some((NameBuffer(h)[..nameEnd], Parsed(SizeBuffer(h)[..sizeEnd])))
  }

  /** The page of a file: its bytes, then zeros. */
  function Padded(data: seq<Byte>): (page: seq<Byte>)
    requires |data| <= 4096
    ensures |page| == 4096
  {
    data + seq(4096 - |data|, _ => 0)
  }

  /** The loop of init_fs from position p on. */
  function Walk(ar: seq<Byte>, p: nat, files: seq<File>): Outcome
    decreases |ar| - p
  {
    if p >= |ar| then Done(files)
    else if p + 60 > |ar| then Outside
    else
      match ParseHeader(ar[p..p + 60])
      case None => Outside
      case Some((name, size)) =>
        if size > 4096 then Panicked
        else if size < 0 || p + 60 + size > |ar| then Outside
        else if |files| + 1 >= MAX_FILES then Panicked
        else Walk(ar, p + 60 + size + size % 2, files + [File(name, size, Padded(ar[p + 60..p + 60 + size]))])
  }

  // ----- Writing

  /** A member of an archive. `meta` are the header's fields that init_fs does not read. */
  datatype Member = Member(name: seq<Byte>, data: seq<Byte>, meta: seq<Byte>, pad: Byte)

  predicate IsMember(m: Member) {
    && 1 <= |m.name| <= 15
    && (forall i :: 0 <= i < |m.name| ==> m.name[i] != SPACE && m.name[i] != SLASH && m.name[i] != 0)
    && |m.data| < 1_000_000_000
    && |m.meta| == 32
  }

  function Blanks(n: nat): (s: seq<Byte>)
    ensures |s| == n && forall i :: 0 <= i < n ==> s[i] == SPACE
  {
    seq(n, _ => SPACE)
  }

  /** The 60 bytes in front of a member's data: the name ends with a slash, the size is decimal, both are filled
      up with spaces. */
  function Header(m: Member): (h: seq<Byte>)
    requires IsMember(m)
    ensures |h| == 60
  {
    AtMostNine(|m.data|);
    var digits := Digits(|m.data|);
    m.name + [SLASH] + Blanks(15 - |m.name|) + m.meta + digits + Blanks(10 - |digits|) + [0x60, 0x0a]
  }

  lemma AtMostNine(n: nat)
    requires n < 1_000_000_000
    ensures |Digits(n)| <= 9
  {
    hide Digits, Power;
    PowerBelow(n);
    if |Digits(n)| > 9 {
      PowerMonotone(9, |Digits(n)| - 1);
      PowerNine();
      ZeroHasOneDigit();
    }
  }

  lemma PowerNine()
    ensures Power(9) == 1_000_000_000
  {}

  lemma ZeroHasOneDigit()
    ensures |Digits(0)| == 1
  {}

  /** Members start at even positions. */
  function Encode(m: Member): (s: seq<Byte>)
    requires IsMember(m)
    ensures |s| == 60 + |m.data| + |m.data| % 2
  {
    Header(m) + m.data + (if |m.data| % 2 == 1 then [m.pad] else [])
  }

  predicate AreMembers(ms: seq<Member>) {
    forall i :: 0 <= i < |ms| ==> IsMember(ms[i])
  }

  function EncodeAll(ms: seq<Member>): seq<Byte>
    requires AreMembers(ms)
  {
    if ms == [] then [] else Encode(ms[0]) + EncodeAll(ms[1..])
  }

  /** The member as a file. */
  function FileOf(m: Member): File
    requires |m.data| <= 4096
  {
    File(m.name, |m.data|, Padded(m.data))
  }

  function Files(ms: seq<Member>): (fs: seq<File>)
    requires AllSmall(ms)
    ensures |fs| == |ms|
    ensures forall i :: 0 <= i < |ms| ==> fs[i] == FileOf(ms[i])
  {
    if ms == [] then [] else [FileOf(ms[0])] + Files(ms[1..])
  }

  predicate AllSmall(ms: seq<Member>) {
    forall i :: 0 <= i < |ms| ==> |ms[i].data| <= 4096
  }

  // ----- Round trip

  lemma {:induction false} FirstNulIs(s: seq<Byte>, i: nat, j: nat)
    requires i <= j < |s| && s[j] == 0 && forall k :: i <= k < j ==> s[k] != 0
    ensures FirstNul(s, i) == j
    decreases j - i
  {}

  /** The name and the size that init_fs reads from a header are those that were written. */
  lemma HeaderRoundTrip(m: Member)
    requires IsMember(m)
    ensures ParseHeader(Header(m)) == Some((m.name, |m.data|))
  {
    hide Digits, Parsed, Header, NameBuffer, SizeBuffer;
    HeaderName(m);
    HeaderSize(m);
    AtoiInvertsPrintnum(|m.data|);
  }

  lemma HeaderParts(m: Member)
    requires IsMember(m)
    ensures Header(m)[..16] == m.name + [SLASH] + Blanks(15 - |m.name|)
    ensures |Digits(|m.data|)| <= 9
    ensures Header(m)[48..58] == Digits(|m.data|) + Blanks(10 - |Digits(|m.data|)|)
  {
    hide Digits;
    AtMostNine(|m.data|);
    var digits := Digits(|m.data|);
    var name, size := m.name + [SLASH] + Blanks(15 - |m.name|), digits + Blanks(10 - |digits|);
    assert Header(m) == name + m.meta + size + [0x60, 0x0a];
  }

  lemma HeaderName(m: Member)
    requires IsMember(m)
    ensures FirstNul(NameBuffer(Header(m)), 0) == |m.name| < 16
    ensures NameBuffer(Header(m))[..|m.name|] == m.name
  {
    hide Header;
    HeaderParts(m);
    FirstNulIs(NameBuffer(Header(m)), 0, |m.name|);
  }

  lemma HeaderSize(m: Member)
    requires IsMember(m)
    ensures FirstNul(SizeBuffer(Header(m)), 1) == |Digits(|m.data|)| < 16
    ensures SizeBuffer(Header(m))[..|Digits(|m.data|)|] == Digits(|m.data|)
  {
    hide Header, NameBuffer, Digits;
    HeaderParts(m);
    var digits := Digits(|m.data|);
    var field, tmp := Header(m)[48..58], SizeBuffer(Header(m));
    forall k | 0 <= k < |digits| ensures tmp[k] == digits[k] && tmp[k] != 0 {
      assert field[k] == digits[k];
    }
    assert field[|digits|] == SPACE;
    FirstNulIs(tmp, 1, |digits|);
  }

  /** What init_fs makes of members when n files are there already. */
  lemma {:induction false} WalkEncoded(prefix: seq<Byte>, ms: seq<Member>, files: seq<File>)
    requires AreMembers(ms) && |files| < MAX_FILES
    ensures Walk(prefix + EncodeAll(ms), |prefix|, files) ==
      if AllSmall(ms) && |files| + |ms| < MAX_FILES then Done(files + Files(ms)) else Panicked
    decreases |ms|
  {
    hide Encode, FileOf, Walk, IsMember, Files;
    if ms == [] {
      WalkEnd(prefix, files);
    } else {
      var m, rest := ms[0], ms[1..];
      WalkOne(prefix, m, EncodeAll(rest), files);
      assert prefix + (Encode(m) + EncodeAll(rest)) == (prefix + Encode(m)) + EncodeAll(rest);
      if |m.data| <= 4096 && |files| + 1 < MAX_FILES {
        WalkEncoded(prefix + Encode(m), rest, files + [FileOf(m)]);
        if AllSmall(ms) { FilesFrom(ms, files); }
      }
    }
  }

  lemma WalkEnd(prefix: seq<Byte>, files: seq<File>)
    ensures Walk(prefix + EncodeAll([]), |prefix|, files) == Done(files + Files([]))
  {}

  lemma FilesFrom(ms: seq<Member>, files: seq<File>)
    requires ms != [] && AllSmall(ms)
    ensures AllSmall(ms[1..])
    ensures (files + [FileOf(ms[0])]) + Files(ms[1..]) == files + Files(ms)
  {
    hide FileOf;
    Associative(files, [FileOf(ms[0])], Files(ms[1..]));
  }

  lemma Associative<X>(a: seq<X>, b: seq<X>, c: seq<X>)
    ensures (a + b) + c == a + (b + c)
  {}

  lemma EmptyFront<X>(s: seq<X>)
    ensures [] + s == s
  {}

  /** One member of the archive. */
  lemma WalkOne(prefix: seq<Byte>, m: Member, rest: seq<Byte>, files: seq<File>)
    requires IsMember(m)
    ensures var ar := prefix + (Encode(m) + rest);
      Walk(ar, |prefix|, files) ==
        if |m.data| > 4096 || |files| + 1 >= MAX_FILES then Panicked
        else Walk(ar, |prefix + Encode(m)|, files + [FileOf(m)])
  {
    hide ParseHeader, Padded, Encode, Header, IsMember;
    var ar, p, n := prefix + (Encode(m) + rest), |prefix|, |m.data|;
    HeaderRoundTrip(m);
    MemberAt(prefix, m, rest);
    assert |ar| >= p + 60 + n + n % 2;
    assert p + 60 + n + n % 2 == |prefix + Encode(m)|;
  }

  lemma MemberAt(prefix: seq<Byte>, m: Member, rest: seq<Byte>)
    requires IsMember(m)
    ensures var ar, p := prefix + (Encode(m) + rest), |prefix|;
      ar[p..p + 60] == Header(m) && ar[p + 60..p + 60 + |m.data|] == m.data
  {}

  /** The magic string in front of every archive: !<arch> and a newline. */
  const MAGIC: seq<Byte> := [0x21, 0x3c, 0x61, 0x72, 0x63, 0x68, 0x3e, 0x0a]

  /** Archive round trip: of up to 31 members of up to 4096 bytes each, init_fs finds exactly the names, sizes
      and zero-padded contents, in order; with more or larger members it panics. */
  lemma ArchiveRoundTrip(ms: seq<Member>)
    requires AreMembers(ms)
    ensures Walk(MAGIC + EncodeAll(ms), |MAGIC|, []) ==
      if AllSmall(ms) && |ms| <= 31 then Done(Files(ms)) else Panicked
  {
    hide Walk, Files, EncodeAll, IsMember;
    WalkEncoded(MAGIC, ms, []);
    if AllSmall(ms) { EmptyFront(Files(ms)); }
  }

  // ----- The code

  /** null_out_space, and the loop that cuts a name at its slash. */
  method NullOutInPlace(str: array<Byte>, n: nat, c: Byte)
    requires n <= str.Length
    modifies str
    ensures str[..] == NullOut(old(str[..])[..n], c) + old(str[..])[n..]
  {
    for i := 0 to n
      invariant forall k :: 0 <= k < str.Length ==> str[k] == if k < i && old(str[k]) == c then 0 else old(str[k])
    {
      if str[i] == c {
        str[i] := 0;
      }
    }
  }

  /** memcpy between buffers. */
  method Memcpy(dest: array<Byte>, src: array<Byte>, at: nat, n: nat)
    requires n <= dest.Length && at + n <= src.Length && dest != src
    modifies dest
    ensures dest[..] == src[at..at + n] + old(dest[..])[n..]
  {
    for i := 0 to n
      invariant forall k :: 0 <= k < dest.Length ==> dest[k] == if k < i then src[at + k] else old(dest[k])
    {
      dest[i] := src[at + i];
    }
  }

  method Strlen(s: array<Byte>) returns (n: nat)
    requires FirstNul(s[..], 0) < s.Length
    ensures n == FirstNul(s[..], 0)
  {
    n := 0;
    while s[n] != 0
      invariant n <= FirstNul(s[..], 0)
      decreases s.Length - n
    {
      n := n + 1;
    }
    FirstNulIs(s[..], 0, n);
  }

  /** Where init_fs finds a panic it returns false. */
  method InitFs(ar: array<Byte>, filesystem: array<File>) returns (ok: bool, count: nat)
    requires filesystem.Length == MAX_FILES && Walk(ar[..], 8, []) != Outside
    modifies filesystem
    ensures ok ==> count < MAX_FILES && Walk(ar[..], 8, []) == Done(filesystem[..count])
    ensures !ok ==> Walk(ar[..], 8, []) == Panicked
  {
    hide ParseHeader, Walk, Padded;
    count := 0;
    var p := 8;
    var tmp := new Byte[16](_ => 0);
    while p < ar.Length
      invariant p % 2 == 0 && count < MAX_FILES && fresh(tmp)
      invariant Walk(ar[..], 8, []) == Walk(ar[..], p, filesystem[..count])
      decreases ar.Length - p
    {
      ghost var files := filesystem[..count];
      WalkStep(ar[..], p, files);
      var name, size := ReadHeader(ar, p, tmp);
      if size > 4096 { return false, 0; }
      var data := ReadData(ar, p + 60, size);
      filesystem[count] := File(name, size, data[..]);
      count := count + 1;
      if count >= MAX_FILES { return false, 0; }
      assert filesystem[..count] == files + [File(name, size, data[..])];
      p := p + 60 + size;
      if size % 2 == 1 { p := p + 1; }
    }
    WalkDone(ar[..], p, filesystem[..count]);
    ok := true;
  }

  lemma WalkDone(ar: seq<Byte>, p: nat, files: seq<File>)
    requires p >= |ar|
    ensures Walk(ar, p, files) == Done(files)
  {}

  /** One round of the loop, when it stays inside the archive. */
  lemma WalkStep(ar: seq<Byte>, p: nat, files: seq<File>)
    requires p < |ar| && Walk(ar, p, files) != Outside
    ensures p + 60 <= |ar| && ParseHeader(ar[p..p + 60]).Some?
    ensures
      var (name, size) := ParseHeader(ar[p..p + 60]).value;
      && (size > 4096 ==> Walk(ar, p, files) == Panicked)
      && (size <= 4096 ==> 0 <= size <= |ar| - p - 60)
      && (size <= 4096 && |files| + 1 >= MAX_FILES ==> Walk(ar, p, files) == Panicked)
      && (size <= 4096 && |files| + 1 < MAX_FILES ==>
            Walk(ar, p, files) == Walk(ar, p + 60 + size + size % 2,
                                       files + [File(name, size, Padded(ar[p + 60..p + 60 + size]))]))
  {}

  /** A zeroed page and memcpy. */
  method ReadData(ar: array<Byte>, at: nat, size: nat) returns (data: array<Byte>)
    requires at + size <= ar.Length && size <= 4096
    ensures fresh(data) && data[..] == Padded(ar[..][at..at + size])
  {
    data := new Byte[4096](_ => 0);
    Memcpy(data, ar, at, size);
    assert data[..] == Padded(ar[..][at..at + size]);
  }

  /** Name and size of the header at p, both read through the same buffer. */
  method ReadHeader(ar: array<Byte>, p: nat, tmp: array<Byte>) returns (name: seq<Byte>, size: int)
    requires tmp.Length == 16 && tmp != ar && p + 60 <= ar.Length
    requires ParseHeader(ar[..][p..p + 60]).Some?
    modifies tmp
    ensures ParseHeader(ar[..][p..p + 60]) == Some((name, size))
  {
    hide Parsed, NullOut;
    ghost var h := ar[..][p..p + 60];
    Memcpy(tmp, ar, p, 16);
    assert ar[p..p + 16] == h[..16];
    assert tmp[..] == h[..16];
    NullOutInPlace(tmp, 16, SPACE);
    assert tmp[..] == NullOut(h[..16], SPACE);
    NullOutInPlace(tmp, 16, SLASH);
    assert tmp[..] == NameBuffer(h);
    var n := Strlen(tmp);
    name := tmp[..n];
    Memcpy(tmp, ar, p + 48, 10);
    assert ar[p + 48..p + 58] == h[48..58];
    assert tmp[..10] == h[48..58];
    NullOutInPlace(tmp, 10, SPACE);
    assert tmp[..] == SizeBuffer(h);
    size := Atoi(tmp, FirstNul(SizeBuffer(h), 1));
  }
}
