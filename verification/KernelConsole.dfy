/** The console over runs of the whole kernel: whatever tasks read from it, one after the other, is what has been
    typed, edited line by line. */
module KernelConsole {
  import opened Machine
  import opened Bytes
  import opened SpaceCopy
  import opened Accounts
  import opened Kernel
  import opened KernelInv
  import opened KernelEffects
  import opened KernelFiles
  import opened KernelSteps
  import opened KernelRuns
  import opened KernelIo
  import opened KernelCalls
  import C = Console
  import F = FileTable
  import P = SystemCalls
  import T = Tasks

  /** What comes from the line in these events. */
  function Typed(es: seq<KEvent>): seq<int> {
    if es == [] then [] else (if es[0].Serial? then [es[0].ch] else []) + Typed(es[1..])
  }

  /** Does this event read the console? */
  predicate ReadsTerminal(k: Kernel, e: KEvent)
    requires IsKernel(k) && KEnabled(k, e)
  {
    e.Read? && FileOf(k, e.fd) == Some(F.CONSOLE)
  }

  /** What it takes from there. */
  function TakenBy(k: Kernel, e: KEvent): seq<int>
    requires IsKernel(k) && KEnabled(k, e)
  {
    if !ReadsTerminal(k, e) then [] else
    var unread := C.Unread(k.console);
    unread[..C.Consumed(unread, e.count)]
  }

  /** What all reads of a run take. */
  ghost function Taken(k: Kernel, es: seq<KEvent>): seq<int>
    requires IsKernel(k)
    decreases |es|
  {
    if es == [] || !KEnabled(k, es[0]) || KStep(k, es[0]).Panic? then []
    else TakenBy(k, es[0]) + Taken(KStep(k, es[0]).value, es[1..])
  }

  /** No DEL of the run arrives while no line is begun and finished ones are unread. */
  ghost predicate KeepsLines(k: Kernel, es: seq<KEvent>)
    requires IsKernel(k)
    decreases |es|
  {
    if es == [] || !KEnabled(k, es[0]) || KStep(k, es[0]).Panic? then true
    else
      && (es[0].Serial? ==> !C.DelEatsUnread(k.console, es[0].ch))
      && KeepsLines(KStep(k, es[0]).value, es[1..])
  }

  /** What the ring holds after these bytes have been typed and those have been taken. */
  ghost predicate Holds(ring: C.Ring, typed: seq<int>, taken: seq<int>, unread: seq<int>) {
    var edited := C.LineEdit(typed);
    C.Represents(ring, unread, edited.line) && taken + unread == edited.lines
  }

  /** In any run of the kernel, whatever the tasks do meanwhile and whichever of them read: all that has been taken
      from the console, followed by what is unread, is the input up to its last newline, as edited; and behind that
      the ring has the line that is being typed. */
  lemma {:induction false} TypedIsRead(k: Kernel, es: seq<KEvent>, k': Kernel, typed: seq<int>, taken: seq<int>,
                                       unread: seq<int>)
      returns (unread': seq<int>)
    requires KReaches(k, es, k') && KeepsLines(k, es) && Holds(k.console, typed, taken, unread)
    ensures Holds(k'.console, typed + Typed(es), taken + Taken(k, es), unread')
    decreases |es|
  {
    hide KEnabled, KStep, Holds, TakenBy, C.DelEatsUnread;
    if es == [] {
      unread' := unread;
      assert typed + Typed(es) == typed && taken + Taken(k, es) == taken;
    } else {
      var k1 := KStep(k, es[0]).value;
      var unread1 := StepHolds(k, es[0], typed, taken, unread);
      var typed1 := typed + if es[0].Serial? then [es[0].ch] else [];
      unread' := TypedIsRead(k1, es[1..], k', typed1, taken + TakenBy(k, es[0]), unread1);
      assert typed1 + Typed(es[1..]) == typed + Typed(es);
      assert taken + TakenBy(k, es[0]) + Taken(k1, es[1..]) == taken + Taken(k, es);
    }
  }

  lemma StepHolds(k: Kernel, e: KEvent, typed: seq<int>, taken: seq<int>, unread: seq<int>)
      returns (unread': seq<int>)
    requires IsKernel(k) && KEnabled(k, e) && KStep(k, e).Ok? && Holds(k.console, typed, taken, unread)
    requires e.Serial? ==> !C.DelEatsUnread(k.console, e.ch)
    ensures Holds(KStep(k, e).value.console, typed + if e.Serial? then [e.ch] else [], taken + TakenBy(k, e), unread')
  {
    hide KEnabled, KStep, Holds, C.DelEatsUnread, C.WriteByte, C.Represents;
    if e.Serial? {
      TablesKept(k, e);
      unread' := ByteHolds(k.console, typed, taken, unread, e.ch);
      assert taken + TakenBy(k, e) == taken;
    } else {
      assert typed + [] == typed;
      ConsoleStep(k, e);
      if ReadsTerminal(k, e) {
        unread' := ReadHolds(k.console, typed, taken, unread, e.count);
      } else {
        unread' := unread;
        assert taken + TakenBy(k, e) == taken;
      }
    }
  }

  lemma ByteHolds(c: C.Ring, typed: seq<int>, taken: seq<int>, unread: seq<int>, ch: C.Char)
      returns (unread': seq<int>)
    requires Holds(c, typed, taken, unread) && C.WellFormed(c) && !C.DelEatsUnread(c, ch) && C.WriteByte(c, ch).Ok?
    ensures Holds(C.WriteByte(c, ch).value, typed + [ch], taken, unread')
  {
    hide C.Represents, C.WriteByte, C.DelEatsUnread;
    var edited := C.LineEdit(typed);
    C.WriteRefinesIff(c, unread, edited.line, ch);
    unread' := if ch == C.NEWLINE then unread + edited.line + [ch] else unread;
    assert (typed + [ch])[..|typed|] == typed;
    assert taken + (unread + edited.line + [ch]) == (taken + unread) + edited.line + [ch];
  }

  lemma ReadHolds(c: C.Ring, typed: seq<int>, taken: seq<int>, unread: seq<int>, count: nat)
      returns (unread': seq<int>)
    requires Holds(c, typed, taken, unread) && C.WellFormed(c)
    ensures
      var all := C.Unread(c);
      Holds(C.ReadMany(c, count).1, typed, taken + all[..C.Consumed(all, count)], unread')
  {
    hide C.Represents, C.ReadMany, C.Consumed;
    var edited := C.LineEdit(typed);
    C.UnreadIs(c, unread, edited.line);
    C.ReadManyRefines(c, unread, edited.line, count);
    var n := C.Consumed(unread, count);
    unread' := unread[n..];
    assert taken + unread[..n] + unread[n..] == taken + unread;
  }

  /** Events other than a byte from the line change the console at most by reading it. */
  lemma ConsoleStep(k: Kernel, e: KEvent)
    requires IsKernel(k) && KEnabled(k, e) && KStep(k, e).Ok? && !e.Serial?
    ensures e.Read? ==> 0 <= e.count
    ensures KStep(k, e).value.console == if ReadsTerminal(k, e) then C.ReadMany(k.console, e.count).1 else k.console
  {
    hide KStep, ForkMemory, ExecMemory, WritePageZero, C.WriteByte, C.ReadMany, ToUser, Unpack, Find, F.OpenFile,
         F.BytesRead, PageZero;
    StepIs(k, e);
  }

  /** What a read of the console takes it delivers to its caller's buffer, byte by byte, except for a -1 at the end. */
  lemma TakenIsDelivered(k: Kernel, e: KEvent, line: seq<int>, own: seq<int>, registered: set<int>, a: Account)
      returns (n: nat)
    requires KInv(k, own, registered, a) && KEnabled(k, e) && e.Read? && Curr(k).openFiles[e.fd] == Some(32)
    requires C.Represents(k.console, C.Unread(k.console), line)
    ensures KStep(k, e).Ok? && TaskOk(k.mem.ram, Curr(k))
    ensures
      var k', taken := KStep(k, e).value, TakenBy(k, e);
      && n <= |taken| <= n + 1 && (|taken| == n + 1 ==> taken[n] < 0) && e.at + n <= 4096
      && TaskOk(k'.mem.ram, Curr(k'))
      && forall i :: 0 <= i < 4096 ==>
           UserPage(k')[i] == if e.at <= i < e.at + n then taken[i - e.at] % 256 else UserPage(k)[i]
  {
    hide KInv, KStep, UserPage, C.Represents, FilePagesKept, P.OthersAfter, TaskOk, Effect;
    ReadRange(k, e, own, registered, a);
    var unread := C.Unread(k.console);
    n := ReadsConsole(k, e, unread, line, own, registered, a);
    UpToNegative(unread, e.count);
    OneStop(unread, e.count, n, C.Deliverable(unread, e.count));
  }

  lemma OneStop(unread: seq<int>, count: int, n: int, m: int)
    requires 0 <= n <= count && n <= |unread| && (forall i :: 0 <= i < n ==> 0 <= unread[i])
    requires n == count || n == |unread| || unread[n] < 0
    requires 0 <= m <= count && m <= |unread| && (forall i :: 0 <= i < m ==> 0 <= unread[i])
    requires m == count || m == |unread| || unread[m] < 0
    ensures n == m
  {}
}
