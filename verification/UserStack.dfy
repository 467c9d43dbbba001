/** prepare_ustack of sys_proc.c: the arguments of a new program, marshalled byte by byte into its page 0. */
module UserStack {
  import opened Machine
  import opened Bytes

  const MAX_ARGC := 8
  const MAX_LEN := 170     // (PGSIZE / 3) / MAX_ARGC
  const STACK_TOP := 4088  // PGSIZE - 8, the stack pointer prepare_ustack starts from

  /** A C string has no NUL inside. */
  predicate IsText(s: seq<Byte>) {
    forall i :: 0 <= i < |s| ==> s[i] != 0
  }

  type CString = s: seq<Byte> | IsText(s) witness []

  /** What reading the caller's argv[i] gives: a fault, a null pointer, or a string. */
  datatype Arg = Fault | End | Text(s: CString)

  /** read_user_mem of argv[i]: memory ends where the model of it ends. */
  function ReadArg(args: seq<Arg>, i: nat): Arg {
    if i < |args| then args[i] else Fault
  }

  /** What the first loop takes before it ends, and whether it ends at a pointer it cannot read. */
  datatype Collected = Collected(strings: seq<seq<Byte>>, fault: bool)

  function Collect(args: seq<Arg>, i: nat): (r: Collected)
    requires i <= MAX_ARGC
    ensures |r.strings| <= MAX_ARGC - i
    ensures forall k :: 0 <= k < |r.strings| ==> IsText(r.strings[k]) && |r.strings[k]| <= MAX_LEN
    decreases MAX_ARGC - i
  {
    if i == MAX_ARGC then Collected([], false) else
    match ReadArg(args, i)
    case Fault => Collected([], true)
    case End => Collected([], false)
    case Text(s) =>
      if |s| > MAX_LEN then Collected([], false) else
      var rest := Collect(args, i + 1);
      Collected([s] + rest.strings, rest.fault)
  }

  /** All of the first n arguments are strings that fit. */
  predicate Fits(args: seq<Arg>, n: nat) {
    n <= MAX_ARGC && n <= |args| && forall i :: 0 <= i < n ==> args[i].Text? && |args[i].s| <= MAX_LEN
  }

  lemma {:induction false} CollectFrom(args: seq<Arg>, i: nat, n: nat)
    requires i <= n && Fits(args, n)
    requires n == MAX_ARGC || !Fits(args, n + 1)
    ensures Collect(args, i).fault <==> n < MAX_ARGC && ReadArg(args, n) == Fault
    ensures |Collect(args, i).strings| == n - i
    ensures forall k :: 0 <= k < n - i ==> Collect(args, i).strings[k] == args[i + k].s
    decreases n - i
  {
    if i < n { CollectFrom(args, i + 1, n); }
  }

  /** Exactly the longest prefix of at most 8 strings of at most 170 bytes is taken; a pointer that cannot be
      read right behind it is the only failure. */
  lemma CollectsLongestPrefix(args: seq<Arg>, n: nat)
    requires Fits(args, n) && (n == MAX_ARGC || !Fits(args, n + 1))
    ensures Collect(args, 0).fault <==> n < MAX_ARGC && ReadArg(args, n) == Fault
    ensures |Collect(args, 0).strings| == n
    ensures forall k :: 0 <= k < n ==> Collect(args, 0).strings[k] == args[k].s
  {
    CollectFrom(args, 0, n);
  }

  // ----- Strings in the page

  /** The C string at an address of page 0, or None without a NUL. */
  function ReadString(page: Page, at: int): Option<seq<Byte>>
    requires 0 <= at <= 4096
    decreases 4096 - at
  {
    if at == 4096 then None
    else if page[at] == 0 then Some([])
    else match ReadString(page, at + 1)
         case None => None
         case Some(rest) => Some([page[at]] + rest)
  }

  lemma {:induction false} StringRoundTrip(page: Page, at: int, s: seq<Byte>)
    requires IsText(s) && 0 <= at && at + |s| < 4096
    requires page[at..at + |s|] == s && page[at + |s|] == 0
    ensures ReadString(page, at) == Some(s)
    decreases |s|
  {
    if s != [] {
      assert page[at] == page[at..at + |s|][0] == s[0];
      assert page[at + 1..at + 1 + |s[1..]|] == page[at..at + |s|][1..] == s[1..];
      StringRoundTrip(page, at + 1, s[1..]);
      assert [s[0]] + s[1..] == s;
    }
  }

  // ----- Building the stack

  datatype Pushed = Pushed(page: Page, esp: int, ptrs: seq<int>)

  predicate AreArguments(ss: seq<seq<Byte>>) {
    |ss| <= MAX_ARGC && forall i :: 0 <= i < |ss| ==> IsText(ss[i]) && |ss[i]| <= MAX_LEN
  }

  /** The first loop: each string below the one before. */
  function PushStrings(page: Page, ss: seq<seq<Byte>>): (r: Pushed)
    requires AreArguments(ss)
    ensures STACK_TOP - 171 * |ss| <= r.esp <= STACK_TOP && |r.ptrs| == |ss|
    ensures forall i :: 0 <= i < |r.ptrs| ==> r.esp <= r.ptrs[i] < STACK_TOP
  {
    if ss == [] then Pushed(page, STACK_TOP, [])
    else PushOne(PushStrings(page, ss[..|ss| - 1]), ss[|ss| - 1])
  }

  function PushOne(p: Pushed, s: seq<Byte>): (r: Pushed)
    requires |s| < p.esp <= STACK_TOP
    ensures r.esp == p.esp - (|s| + 1) && r.ptrs == p.ptrs + [r.esp]
  {
    var esp := p.esp - (|s| + 1);
    Pushed(WriteBytes(p.page, esp, s + [0]), esp, p.ptrs + [esp])
  }

  /** The second loop: the pointers from the last to the first, downwards from esp. */
  function PushPointers(page: Page, esp: int, ptrs: seq<int>): (r: Page)
    requires |ptrs| <= MAX_ARGC && 4 * MAX_ARGC <= esp <= 4092
    requires forall i :: 0 <= i < |ptrs| ==> 0 <= ptrs[i] < 4096
  {
    PushPointersFrom(page, esp, ptrs, |ptrs|)
  }

  /** ... of which the first n are still to be pushed. */
  function PushPointersFrom(page: Page, esp: int, ptrs: seq<int>, n: nat): (r: Page)
    requires n <= |ptrs| <= MAX_ARGC && 4 * n <= esp <= 4092
    requires forall i :: 0 <= i < |ptrs| ==> 0 <= ptrs[i] < 4096
    decreases n
  {
    if n == 0 then page
    else PushPointersFrom(WriteBytes(page, esp, WordBytes(ptrs[n - 1])), esp - 4, ptrs, n - 1)
  }

  /** The new page 0 and the new stack pointer. */
  function BuildStack(page: Page, ss: seq<seq<Byte>>): (r: (Page, int))
    requires AreArguments(ss)
    ensures 2000 < r.1 < STACK_TOP
  {
    var p := PushStrings(page, ss);
    PushVector(p.page, AlignDown(p.esp - 4), p.ptrs)
  }

  /** What prepare_ustack makes of page 0, and the new stack pointer, if it does not fail. */
  function PrepareStack(page: Page, argv: Option<seq<Arg>>): (r: (Page, Option<int>))
    ensures r.1.Some? ==> 2000 < r.1.value < STACK_TOP
  {
    match argv
    case None => (WriteBytes(page, STACK_TOP, WordBytes(0)), Some(STACK_TOP - 4))
    case Some(args) =>
      var c := Collect(args, 0);
      if c.fault then (PushStrings(page, c.strings).page, None)
      else
        var (page', esp) := BuildStack(page, c.strings);
        (page', Some(esp))
  }

  /** The new stack pointer is a multiple of 4. */
  lemma StackAligned(page: Page, ss: seq<seq<Byte>>)
    requires AreArguments(ss)
    ensures BuildStack(page, ss).1 % 4 == 0
  {
    hide PushStrings, PushVector;
    var top := AlignDown(PushStrings(page, ss).esp - 4);
    assert top - 4 * |ss| - 8 == 4 * (top / 4 - |ss| - 2);
  }

  /** Round down to a multiple of 4. */
  function AlignDown(esp: int): (r: int)
    ensures r % 4 == 0 && r <= esp < r + 4
  {
    esp / 4 * 4
  }

  /** The pointers, the address of the first one, and their number. */
  function PushVector(page: Page, top: int, ptrs: seq<int>): (r: (Page, int))
    requires |ptrs| <= MAX_ARGC && 2048 <= top <= 4092
    requires forall i :: 0 <= i < |ptrs| ==> 0 <= ptrs[i] < 4096
    ensures r.1 == top - 4 * |ptrs| - 8
  {
    var argv := top - 4 * |ptrs| + 4;
    var page1 := PushPointers(page, top, ptrs);
    var page2 := WriteBytes(page1, argv - 4, WordBytes(argv));
    (WriteBytes(page2, argv - 8, WordBytes(|ptrs|)), argv - 12)
  }

  /** A string and its NUL lie at an address. */
  ghost predicate StringAt(page: Page, at: int, s: seq<Byte>) {
    0 <= at && at + |s| < 4096 && page[at..at + |s|] == s && page[at + |s|] == 0
  }

  /** A write below a string leaves it alone. */
  lemma StringKept(page: Page, page': Page, at: int, s: seq<Byte>, limit: int)
    requires StringAt(page, at, s) && 0 <= limit <= at
    requires forall i :: limit <= i < 4096 ==> page'[i] == page[i]
    ensures StringAt(page', at, s)
  {}

  /** No later string damages an earlier one, and nothing outside of [esp, STACK_TOP) is written. */
  lemma {:induction false} StringsPushed(page: Page, ss: seq<seq<Byte>>)
    requires AreArguments(ss)
    ensures var p := PushStrings(page, ss);
      && (forall i :: 0 <= i < |ss| ==> StringAt(p.page, p.ptrs[i], ss[i]))
      && (forall i :: 0 <= i < 4096 && !(p.esp <= i < STACK_TOP) ==> p.page[i] == page[i])
  {
    hide PushOne, StringAt;
    if ss != [] {
      var front, s := ss[..|ss| - 1], ss[|ss| - 1];
      StringsPushed(page, front);
      var p := PushStrings(page, front);
      OnePushed(p, s);
      var p' := PushOne(p, s);
      assert PushStrings(page, ss) == p';
      forall i | 0 <= i < |ss| ensures StringAt(p'.page, p'.ptrs[i], ss[i]) {
        if i < |front| {
          assert p'.ptrs[i] == p.ptrs[i] && ss[i] == front[i];
          StringKept(p.page, p'.page, p.ptrs[i], front[i], p.esp);
        }
      }
    }
  }

  lemma OnePushed(p: Pushed, s: seq<Byte>)
    requires |s| < p.esp <= STACK_TOP
    ensures var p' := PushOne(p, s);
      && StringAt(p'.page, p'.esp, s)
      && forall i :: 0 <= i < 4096 && !(p'.esp <= i < p.esp) ==> p'.page[i] == p.page[i]
  {}

  /** No later pointer damages an earlier one, and nothing but their n words is written. */
  lemma {:induction false} PointersPushed(page: Page, esp: int, ptrs: seq<int>, n: nat)
    requires n <= |ptrs| <= MAX_ARGC && 4 * n <= esp <= 4092
    requires forall i :: 0 <= i < |ptrs| ==> 0 <= ptrs[i] < 4096
    decreases n
    ensures var r := PushPointersFrom(page, esp, ptrs, n);
      && (forall i :: 0 <= i < n ==> ReadWord(r, esp - 4 * (n - 1 - i)) == ptrs[i])
      && (forall i :: 0 <= i < 4096 && !(esp - 4 * n + 4 <= i < esp + 4) ==> r[i] == page[i])
  {
    hide WriteBytes, WordBytes, ReadWord;
    if n > 0 {
      var page1 := WriteBytes(page, esp, WordBytes(ptrs[n - 1]));
      PointersPushed(page1, esp - 4, ptrs, n - 1);
      var r := PushPointersFrom(page1, esp - 4, ptrs, n - 1);
      assert r[esp..esp + 4] == WordBytes(ptrs[n - 1]);
      WordRoundTrip(r, esp, ptrs[n - 1]);
      forall i | 0 <= i < n ensures ReadWord(r, esp - 4 * (n - 1 - i)) == ptrs[i] {
        if i < n - 1 { assert esp - 4 * (n - 1 - i) == (esp - 4) - 4 * ((n - 1) - 1 - i); }
      }
    }
  }

  // ----- What the new program reads

  /** argc, and the strings of argv, as main finds them. */
  function Argc(page: Page, esp: int): Word
    requires 0 <= esp <= 4084
  {
    ReadWord(page, esp + 4)
  }

  function Argv(page: Page, esp: int, i: nat): Option<seq<Byte>>
    requires 0 <= esp <= 4080
  {
    var argv := ReadWord(page, esp + 8);
    if argv + 4 * i > 4092 then None else
    var p := ReadWord(page, argv + 4 * i);
    if p >= 4096 then None else ReadString(page, p)
  }

  /** The marshalling round trip: a program that reads argc at esp+4 and argv at esp+8 gets back exactly the
      strings its caller passed. Only bytes between the new stack pointer and the old one are written. */
  lemma MarshallingRoundTrip(page: Page, ss: seq<seq<Byte>>)
    requires AreArguments(ss)
    ensures
      var (page', esp) := BuildStack(page, ss);
      && Argc(page', esp) == |ss|
      && (forall i :: 0 <= i < |ss| ==> Argv(page', esp, i) == Some(ss[i]))
      && (forall i :: 0 <= i < 4096 && !(esp + 4 <= i < STACK_TOP) ==> page'[i] == page[i])
  {
    hide PushStrings, PushVector, ReadWord, ReadString, StringAt;
    var p, n := PushStrings(page, ss), |ss|;
    var top := AlignDown(p.esp - 4);
    var (page', esp) := BuildStack(page, ss);
    StringsPushed(page, ss);
    VectorPushed(p.page, top, p.ptrs);
    forall i | 0 <= i < n ensures Argv(page', esp, i) == Some(ss[i]) {
      StringKept(p.page, page', p.ptrs[i], ss[i], p.esp);
      StringFound(page', p.ptrs[i], ss[i]);
    }
  }

  lemma StringFound(page: Page, at: int, s: seq<Byte>)
    requires IsText(s) && StringAt(page, at, s)
    ensures 0 <= at < 4096 && ReadString(page, at) == Some(s)
  {
    StringRoundTrip(page, at, s);
  }

  lemma VectorPushed(page: Page, top: int, ptrs: seq<int>)
    requires |ptrs| <= MAX_ARGC && 2048 <= top <= 4084
    requires forall i :: 0 <= i < |ptrs| ==> 0 <= ptrs[i] < 4096
    ensures
      var (page', esp) := PushVector(page, top, ptrs);
      && ReadWord(page', esp + 4) == |ptrs|
      && ReadWord(page', esp + 8) == esp + 12
      && (forall i :: 0 <= i < |ptrs| ==> ReadWord(page', esp + 12 + 4 * i) == ptrs[i])
      && (forall i :: 0 <= i < 4096 && !(esp + 4 <= i < top + 4) ==> page'[i] == page[i])
  {
    hide PushPointersFrom, WriteBytes, ReadWord, WordBytes;
    var n := |ptrs|;
    PointersPushed(page, top, ptrs, n);
    var argv := top - 4 * n + 4;
    var page1 := PushPointers(page, top, ptrs);
    var page2 := WriteBytes(page1, argv - 4, WordBytes(argv));
    var page' := WriteBytes(page2, argv - 8, WordBytes(n));
    assert page'[argv - 8..argv - 4] == WordBytes(n);
    WordRoundTrip(page', argv - 8, n);
    assert page'[argv - 4..argv] == WordBytes(argv);
    WordRoundTrip(page', argv - 4, argv);
    forall i | 0 <= i < n ensures ReadWord(page', argv + 4 * i) == ptrs[i] {
      SameWord(page1, page', argv + 4 * i);
      assert argv + 4 * i == top - 4 * (n - 1 - i);
    }
  }

  /** Without an argv, argc is 0. */
  lemma NoArguments(page: Page)
    ensures var page' := WriteBytes(page, STACK_TOP, WordBytes(0)); Argc(page', STACK_TOP - 4) == 0
  {}

  /** The argument vector can be read as far as prepare_ustack reads it. */
  predicate Readable(argv: Option<seq<Arg>>) {
    argv == None || !Collect(argv.value, 0).fault
  }

  /** The program reads from its stack the strings that were collected, or an argc of 0 without a vector. */
  ghost predicate ReadsArguments(page: Page, esp: int, argv: Option<seq<Arg>>)
    requires Readable(argv)
  {
    match argv
    case None => 0 <= esp <= 4084 && Argc(page, esp) == 0
    case Some(args) =>
      var ss := Collect(args, 0).strings;
      0 <= esp <= 4080 && Argc(page, esp) == |ss| && forall i :: 0 <= i < |ss| ==> Argv(page, esp, i) == Some(ss[i])
  }

  /** prepare_ustack as a whole. */
  lemma PreparedStack(page: Page, argv: Option<seq<Arg>>)
    requires Readable(argv)
    ensures
      var (page', esp) := PrepareStack(page, argv);
      && esp.Some? && ReadsArguments(page', esp.value, argv)
      && forall i :: 0 <= i < 4096 && !(esp.value + 4 <= i < STACK_TOP + 4) ==> page'[i] == page[i]
  {
    hide Collect, ReadString, PushStrings;
    match argv
    case None => NoArguments(page);
    case Some(args) => MarshallingRoundTrip(page, Collect(args, 0).strings);
  }

  lemma SameWord(page: Page, page': Page, at: int)
    requires 0 <= at <= 4092 && forall i :: at <= i < at + 4 ==> page'[i] == page[i]
    ensures ReadWord(page', at) == ReadWord(page, at)
  {}

  // ----- Whether argv ends with a null pointer

  /** The strings with their NULs as they lie in memory: the last one lowest. */
  function Packed(ss: seq<seq<Byte>>): seq<Byte> {
    if ss == [] then [] else ss[|ss| - 1] + [0] + Packed(ss[..|ss| - 1])
  }

  /** Where they begin, and where the word behind the last pointer is: at most three bytes lie in between. */
  function StringsStart(ss: seq<seq<Byte>>): int {
    STACK_TOP - |Packed(ss)|
  }

  function BehindPointers(ss: seq<seq<Byte>>): int {
    AlignDown(StringsStart(ss) - 4) + 4
  }

  /** The first loop writes exactly these bytes. */
  lemma {:induction false} StringBytes(page: Page, ss: seq<seq<Byte>>)
    requires AreArguments(ss)
    ensures var p := PushStrings(page, ss);
      && p.esp == StringsStart(ss)
      && p.page[p.esp..STACK_TOP] == Packed(ss)
      && forall i :: 0 <= i < 4096 && !(p.esp <= i < STACK_TOP) ==> p.page[i] == page[i]
  {
    hide WriteBytes;
    if ss != [] {
      var front, s := ss[..|ss| - 1], ss[|ss| - 1];
      StringBytes(page, front);
      var q, p := PushStrings(page, front), PushStrings(page, ss);
      assert p.page[p.esp..q.esp] == s + [0];
      assert p.page[q.esp..STACK_TOP] == q.page[q.esp..STACK_TOP];
      assert p.page[p.esp..STACK_TOP] == p.page[p.esp..q.esp] + p.page[q.esp..STACK_TOP];
    }
  }

  /** The old bytes between the pointers and the strings, and the bytes of the strings that share the word behind
      the last pointer with them, are all zero. Without arguments the word lies above the stack. */
  predicate ZeroBehind(page: Page, ss: seq<seq<Byte>>)
    requires AreArguments(ss)
  {
    StringBytes(page, ss);
    if ss == [] then page[STACK_TOP..STACK_TOP + 4] == [0, 0, 0, 0]
    else
      && (forall i :: BehindPointers(ss) <= i < StringsStart(ss) ==> page[i] == 0)
      && (forall i :: 0 <= i < BehindPointers(ss) + 4 - StringsStart(ss) ==> Packed(ss)[i] == 0)
  }

  /** For every page and all arguments: the array of pointers that the program gets is followed by a null pointer
      if and only if these bytes happen to be zero. No one writes a null pointer there. */
  lemma ArgvTerminatedIff(page: Page, ss: seq<seq<Byte>>)
    requires AreArguments(ss)
    ensures
      var (page', esp) := BuildStack(page, ss);
      var behind := ReadWord(page', esp + 8) + 4 * |ss|;
      behind == BehindPointers(ss) <= 4092 && (ReadWord(page', behind) == 0 <==> ZeroBehind(page, ss))
  {
    hide PushStrings, PushVector, ReadWord, Packed;
    var p := PushStrings(page, ss);
    var top := AlignDown(p.esp - 4);
    var (page', esp) := BuildStack(page, ss);
    StringBytes(page, ss);
    VectorPushed(p.page, top, p.ptrs);
    WordIsZero(page', top + 4);
    if ss == [] {
      NothingPacked(ss);
      assert page'[STACK_TOP..STACK_TOP + 4] == page[STACK_TOP..STACK_TOP + 4];
    } else {
      SomethingPacked(ss);
      BehindBytes(page, p.page, page', ss, top + 4);
    }
  }

  lemma WordIsZero(page: Page, at: int)
    requires 0 <= at <= 4092
    ensures ReadWord(page, at) == 0 <==> forall i :: at <= i < at + 4 ==> page[i] == 0
  {
    if ReadWord(page, at) == 0 {
      assert page[at] == 0 && page[at + 1] == 0 && page[at + 2] == 0 && page[at + 3] == 0;
    }
  }

  lemma NothingPacked(ss: seq<seq<Byte>>)
    requires ss == []
    ensures Packed(ss) == []
  {}

  lemma SomethingPacked(ss: seq<seq<Byte>>)
    requires ss != []
    ensures Packed(ss) != [] && BehindPointers(ss) + 4 <= STACK_TOP
    ensures ss[|ss| - 1] != [] ==> Packed(ss)[0] == ss[|ss| - 1][0]
  {
    AlignBelow(StringsStart(ss) - 4);
  }

  lemma AlignBelow(esp: int)
    requires esp < STACK_TOP - 4
    ensures AlignDown(esp) <= STACK_TOP - 8
  {}

  lemma BehindBytes(page: Page, page1: Page, page': Page, ss: seq<seq<Byte>>, at: int)
    requires AreArguments(ss) && ss != [] && at == BehindPointers(ss) && 0 <= at && at + 4 <= STACK_TOP
    requires 0 <= StringsStart(ss) && page1[StringsStart(ss)..STACK_TOP] == Packed(ss)
    requires forall i :: 0 <= i < StringsStart(ss) ==> page1[i] == page[i]
    requires forall i :: at <= i < at + 4 ==> page'[i] == page1[i]
    ensures (forall i :: at <= i < at + 4 ==> page'[i] == 0) <==> ZeroBehind(page, ss)
  {
    var e, packed := StringsStart(ss), Packed(ss);
    hide Packed;
    assert forall i :: e <= i < STACK_TOP ==> page1[i] == packed[i - e];
    if forall i :: at <= i < at + 4 ==> page'[i] == 0 {
      forall i | 0 <= i < at + 4 - e ensures packed[i] == 0 { assert page'[e + i] == 0; }
    }
  }

  /** In particular never when the last argument is not empty. */
  lemma ArgvNotTerminated(page: Page, ss: seq<seq<Byte>>)
    requires AreArguments(ss) && ss != [] && ss[|ss| - 1] != []
    ensures
      var (page', esp) := BuildStack(page, ss);
      var behind := ReadWord(page', esp + 8) + 4 * |ss|;
      behind <= 4092 && ReadWord(page', behind) != 0
  {
    hide BuildStack, ReadWord;
    ArgvTerminatedIff(page, ss);
    SomethingPacked(ss);
  }

  /** For example with the single argument "a". */
  lemma OneArgumentNotTerminated(page: Page)
    ensures
      var (page', esp) := BuildStack(page, [[97]]);
      var behind := ReadWord(page', esp + 8) + 4;
      behind <= 4092 && ReadWord(page', behind) != 0
  {
    hide BuildStack, ReadWord;
    ArgvNotTerminated(page, [[97]]);
  }

  // ----- The code

  method CopyToPage(page: array<Byte>, at: int, bytes: seq<Byte>)
    requires page.Length == 4096 && 0 <= at && at + |bytes| <= 4096
    modifies page
    ensures page[..] == WriteBytes(old(page[..]), at, bytes)
  {
    for i := 0 to |bytes|
      invariant page[..] == WriteBytes(old(page[..]), at, bytes[..i])
    {
      page[at + i] := bytes[i];
    }
    assert bytes[..|bytes|] == bytes;
  }

  /** prepare_ustack, on the frame behind page 0 of the new address space. */
  method PrepareUstack(page: array<Byte>, argv: Option<seq<Arg>>) returns (newEsp: Option<int>)
    requires page.Length == 4096
    modifies page
    ensures (page[..], newEsp) == PrepareStack(old(page[..]), argv)
  {
    hide WriteBytes, WordBytes, PushStrings, PushVector, Collect;
    var esp := STACK_TOP;
    if argv == None {
      CopyToPage(page, esp, WordBytes(0));
      return Some(esp - 4);
    }
    ghost var start: Page := page[..];
    var ok, ptrs;
    ghost var taken;
    ok, esp, ptrs, taken := PushArguments(page, argv.value);
    if !ok { return None; }
    esp := esp - 4;
    esp := AlignDown(esp);
    esp := PushArgv(page, esp, ptrs);
    assert (page[..], esp) == BuildStack(start, taken);
    newEsp := Some(esp);
  }

  /** The first loop. */
  method PushArguments(page: array<Byte>, args: seq<Arg>)
      returns (ok: bool, esp: int, ptrs: seq<int>, ghost taken: seq<seq<Byte>>)
    requires page.Length == 4096
    modifies page
    ensures Collect(args, 0) == Collected(taken, !ok) && AreArguments(taken)
    ensures PushStrings(old(page[..]), taken) == Pushed(page[..], esp, ptrs)
  {
    hide WriteBytes, PushStrings, AreArguments;
    esp, ptrs, taken := STACK_TOP, [], [];
    ghost var start: Page := page[..];
    NoneTaken(start, args);
    var argc := 0;
    ok := true;
    while argc < MAX_ARGC
      invariant argc == |taken| <= MAX_ARGC && AreArguments(taken)
      invariant PushStrings(start, taken) == Pushed(page[..], esp, ptrs)
      invariant Collect(args, 0) == After(taken, Collect(args, argc))
    {
      var arg := ReadArg(args, argc);
      if arg == Fault {
        ok := false;
        break;
      }
      if arg == End || |arg.s| > MAX_LEN { break; }
      CollectOne(args, taken, argc, arg.s);
      PushedOne(start, taken, arg.s);
      esp := esp - (|arg.s| + 1);
      CopyToPage(page, esp, arg.s + [0]);
      ptrs := ptrs + [esp];
      taken := taken + [arg.s];
      argc := argc + 1;
    }
    assert taken + [] == taken;
  }

  /** The second loop, and the two words below the pointers. */
  method PushArgv(page: array<Byte>, top: int, ptrs: seq<int>) returns (newEsp: int)
    requires page.Length == 4096 && |ptrs| <= MAX_ARGC && 2048 <= top <= 4092
    requires forall i :: 0 <= i < |ptrs| ==> 0 <= ptrs[i] < 4096
    modifies page
    ensures (page[..], newEsp) == PushVector(old(page[..]), top, ptrs)
  {
    hide WriteBytes, WordBytes;
    var esp, argc := top, |ptrs|;
    var i := argc - 1;
    while i >= 0
      invariant -1 <= i < argc && esp == top - 4 * (argc - 1 - i)
      invariant PushPointers(old(page[..]), top, ptrs) == PushPointersFrom(page[..], esp, ptrs, i + 1)
    {
      CopyToPage(page, esp, WordBytes(ptrs[i]));
      esp := esp - 4;
      i := i - 1;
    }
    CopyToPage(page, esp, WordBytes(esp + 4));
    esp := esp - 4;
    CopyToPage(page, esp, WordBytes(argc));
    newEsp := esp - 4;
  }

  function After(taken: seq<seq<Byte>>, rest: Collected): Collected {
    Collected(taken + rest.strings, rest.fault)
  }

  lemma NoneTaken(page: Page, args: seq<Arg>)
    ensures AreArguments([]) && PushStrings(page, []) == Pushed(page, STACK_TOP, [])
    ensures Collect(args, 0) == After([], Collect(args, 0))
  {
    assert [] + Collect(args, 0).strings == Collect(args, 0).strings;
  }

  /** One round of the first loop. */
  lemma CollectOne(args: seq<Arg>, taken: seq<seq<Byte>>, i: nat, s: CString)
    requires i == |taken| < MAX_ARGC
    requires ReadArg(args, i) == Text(s) && |s| <= MAX_LEN
    requires Collect(args, 0) == After(taken, Collect(args, i))
    ensures Collect(args, 0) == After(taken + [s], Collect(args, i + 1))
  {
    var rest := Collect(args, i + 1).strings;
    assert taken + ([s] + rest) == (taken + [s]) + rest;
  }

  lemma PushedOne(page: Page, taken: seq<seq<Byte>>, s: seq<Byte>)
    requires |taken| < MAX_ARGC && AreArguments(taken) && IsText(s) && |s| <= MAX_LEN
    ensures AreArguments(taken + [s])
    ensures
      var p := PushStrings(page, taken);
      var esp := p.esp - (|s| + 1);
      PushStrings(page, taken + [s]) == Pushed(WriteBytes(p.page, esp, s + [0]), esp, p.ptrs + [esp])
  {
    hide WriteBytes;
    assert (taken + [s])[..|taken|] == taken;
  }
}
