/** The line discipline of io.c: a ring buffer with four unsigned indices, in which the line being edited
    follows the bytes that are committed but not yet read. */
module Console {
  import opened Machine

  const MAX_BUF := 4096
  const DEL := 0x7f
  const NEWLINE := 10

  /** What handle_uartintr passes on: a byte, or -1 when the line had none ready. */
  type Char = x: int | -1 <= x < 256

  /** circular_buf and its five variables, unsigned 32-bit numbers all. */
  datatype Ring = Ring(buf: seq<int>, bufLen: Word, editLen: Word, editI: Word, writeI: Word, readI: Word)

  predicate WellFormed(c: Ring) {
    |c.buf| == MAX_BUF && c.editI < MAX_BUF && c.writeI < MAX_BUF && c.readI < MAX_BUF
  }

  /** All variables are zero at boot. */
  function EmptyRing(): (c: Ring)
    ensures WellFormed(c)
  {
    Ring(seq(4096, _ => 0), 0, 0, 0, 0, 0)
  }

  /** write_circular_buf */
  function WriteByte(c: Ring, ch: Char): (r: Result<Ring>)
    requires WellFormed(c)
    ensures r.Ok? ==> WellFormed(r.value)
  {
    if ch == DEL then
      if c.editLen > 0 then Ok(c.(editI := Wrap(c.editI - 1) % 4096, editLen := c.editLen - 1)) else Ok(c)
    else if c.editLen == MAX_BUF then Panic
    else
      var i := (c.editI + 1) % 4096;
      var len := Wrap(c.editLen + 1);
      var c1 := c.(buf := c.buf[c.editI := ch], editI := i, editLen := len);
      Ok(if ch == NEWLINE then c1.(writeI := i, bufLen := len) else c1)
  }

  /** read_circular_buf: -1 when nothing is committed. */
  function ReadByte(c: Ring): (r: (int, Ring))
    requires WellFormed(c)
    ensures WellFormed(r.1)
  {
    if c.bufLen == 0 then (-1, c)
    else (c.buf[c.readI], c.(readI := (c.readI + 1) % 4096, bufLen := c.bufLen - 1, editLen := Wrap(c.editLen - 1)))
  }

  /** read_console: at most count values, up to the first that is negative, which is consumed as well. */
  function ReadMany(c: Ring, count: nat): (r: (seq<int>, Ring))
    requires WellFormed(c)
    ensures WellFormed(r.1) && |r.0| <= count && forall k :: 0 <= k < |r.0| ==> 0 <= r.0[k]
    decreases count
  {
    if count == 0 then ([], c) else
    var (x, c1) := ReadByte(c);
    if x < 0 then ([], c1) else
    var (rest, c2) := ReadMany(c1, count - 1);
    ([x] + rest, c2)
  }

  // ----- Runs

  datatype Event = Byte(ch: Char) | Read

  /** The ring after the events, and all that was read. */
  function Run(es: seq<Event>): (r: Result<(Ring, seq<int>)>)
    ensures r.Ok? ==> WellFormed(r.value.0)
  {
    if es == [] then Ok((EmptyRing(), [])) else
    match Run(es[..|es| - 1])
    case Panic => Panic
    case Ok((c, out)) => Handle(c, out, es[|es| - 1])
  }

  function Handle(c: Ring, out: seq<int>, e: Event): (r: Result<(Ring, seq<int>)>)
    requires WellFormed(c)
    ensures r.Ok? ==> WellFormed(r.value.0)
  {
    match e
    case Byte(ch) =>
      (match WriteByte(c, ch) case Panic => Panic case Ok(c1) => Ok((c1, out)))
    case Read =>
      var (x, c1) := ReadByte(c);
      Ok((c1, if c.bufLen == 0 then out else out + [x]))
  }

  function Inputs(es: seq<Event>): seq<int> {
    if es == [] then []
    else Inputs(es[..|es| - 1]) + (if es[|es| - 1].Byte? then [es[|es| - 1].ch] else [])
  }

  /** What a user means by typing: lines are final, and DEL takes back the last byte of the unfinished one. */
  datatype Edited = Edited(lines: seq<int>, line: seq<int>)

  function LineEdit(bytes: seq<int>): Edited {
    if bytes == [] then Edited([], []) else EditByte(LineEdit(bytes[..|bytes| - 1]), bytes[|bytes| - 1])
  }

  function EditByte(e: Edited, ch: int): Edited {
    if ch == DEL then Edited(e.lines, if e.line == [] then [] else e.line[..|e.line| - 1])
    else if ch == NEWLINE then Edited(e.lines + e.line + [ch], [])
    else Edited(e.lines, e.line + [ch])
  }

  // ----- Index arithmetic

  /** In every run whatsoever, also when edit_i steps back from 0 and when the lengths wrap, the indices are
      read_i plus the lengths modulo the size of the ring: 4096 divides 2^32. */
  lemma {:induction false} IndexCongruence(es: seq<Event>)
    requires Run(es).Ok?
    ensures Congruent(Run(es).value.0)
  {
    if es != [] {
      IndexCongruence(es[..|es| - 1]);
      var c := Run(es[..|es| - 1]).value.0;
      if es[|es| - 1].Byte? {
        WriteCongruent(c, es[|es| - 1].ch);
      } else {
        ReadCongruent(c);
      }
    }
  }

  predicate Congruent(c: Ring) {
    && c.editI == (c.readI + c.editLen) % 4096
    && c.writeI == (c.readI + c.bufLen) % 4096
  }

  /** Wrapping at 2^32 does not disturb arithmetic modulo 4096. */
  lemma WrapCongruent(x: int)
    ensures Wrap(x) % 4096 == x % 4096
  {}

  lemma AddCongruent(x: int, y: int, d: int)
    requires x % 4096 == y % 4096
    ensures (x + d) % 4096 == (y + d) % 4096
  {}

  lemma WriteCongruent(c: Ring, ch: Char)
    requires WellFormed(c) && Congruent(c) && WriteByte(c, ch).Ok?
    ensures Congruent(WriteByte(c, ch).value)
  {
    if ch == DEL {
      StepBack(c.editI, c.editLen, c.readI);
    } else {
      StepAhead(c.editI, c.editLen, c.readI);
    }
  }

  lemma StepBack(i: Word, len: Word, read: Word)
    requires i == (read + len) % 4096
    ensures Wrap(i - 1) % 4096 == (read + len - 1) % 4096
  {
    hide Wrap;
    WrapCongruent(i - 1);
    AddCongruent(i, read + len, -1);
  }

  lemma StepAhead(i: Word, len: Word, read: Word)
    requires i == (read + len) % 4096
    ensures (i + 1) % 4096 == (read + Wrap(len + 1)) % 4096
  {
    hide Wrap;
    WrapCongruent(len + 1);
    AddCongruent(i, read + len, 1);
    AddCongruent(Wrap(len + 1), len + 1, read);
  }

  lemma ReadCongruent(c: Ring)
    requires WellFormed(c) && Congruent(c)
    ensures Congruent(ReadByte(c).1)
  {}

  // ----- Refinement

  /** Where byte k from the read index on is. */
  function At(c: Ring, k: nat): (i: int)
    ensures 0 <= i < 4096
  {
    (c.readI + k) % 4096
  }

  /** The bytes that are committed and not yet read. */
  function Unread(c: Ring): (s: seq<int>)
    requires WellFormed(c)
  {
    seq(c.bufLen, k requires 0 <= k < c.bufLen => c.buf[At(c, k)])
  }

  /** The ring holds the unread bytes and behind them the line being edited. */
  ghost predicate Represents(c: Ring, unread: seq<int>, line: seq<int>) {
    && WellFormed(c) && Congruent(c)
    && c.bufLen == |unread|
    && c.editLen == |unread| + |line| <= MAX_BUF
    && forall k {:trigger At(c, k)} :: 0 <= k < c.editLen ==> c.buf[At(c, k)] == (unread + line)[k]
  }

  /** DEL while no line is begun and committed bytes are unread. */
  predicate DelEatsUnread(c: Ring, ch: Char) {
    ch == DEL && c.editLen == c.bufLen && c.bufLen > 0
  }

  lemma AtDistinct(c: Ring, j: nat, k: nat)
    requires c.readI < MAX_BUF && j < k < 4096
    ensures At(c, j) != At(c, k)
  {}

  lemma AtNext(c: Ring, c': Ring, k: nat)
    requires c.readI < MAX_BUF && c'.readI == (c.readI + 1) % 4096
    ensures At(c', k) == At(c, k + 1) && At(c, 0) == c.readI
  {
    AddCongruent((c.readI + 1) % 4096, c.readI + 1, k);
  }

  /** One byte: the ring follows the editor if and only if it is not a DEL that eats an unread byte; it panics
      exactly when the ring is full. */
  lemma WriteRefinesIff(c: Ring, unread: seq<int>, line: seq<int>, ch: Char)
    requires Represents(c, unread, line)
    ensures WriteByte(c, ch).Panic? <==> ch != DEL && |unread| + |line| == MAX_BUF
    ensures WriteByte(c, ch).Ok? ==>
      (Represents(WriteByte(c, ch).value,
                  if ch == NEWLINE then unread + line + [ch] else unread,
                  if ch == DEL then (if line == [] then [] else line[..|line| - 1])
                  else if ch == NEWLINE then [] else line + [ch])
       <==> !DelEatsUnread(c, ch))
  {
    if ch == DEL {
      if line != [] { DelRefines(c, unread, line); }
    } else if |unread| + |line| < MAX_BUF {
      KeyRefines(c, unread, line, ch);
    }
  }

  lemma DelRefines(c: Ring, unread: seq<int>, line: seq<int>)
    requires Represents(c, unread, line) && line != []
    ensures WriteByte(c, DEL).Ok? && Represents(WriteByte(c, DEL).value, unread, line[..|line| - 1])
  {
    var c' := WriteByte(c, DEL).value;
    WriteCongruent(c, DEL);
    forall k {:trigger At(c', k)} | 0 <= k < c'.editLen ensures c'.buf[At(c', k)] == (unread + line[..|line| - 1])[k] {
      assert At(c', k) == At(c, k);
    }
  }

  lemma AtSame(c: Ring, c': Ring, k: nat)
    requires Congruent(c) && c'.readI == c.readI
    ensures At(c', k) == At(c, k) && c.editI == At(c, c.editLen)
  {}

  lemma KeyRefines(c: Ring, unread: seq<int>, line: seq<int>, ch: Char)
    requires Represents(c, unread, line) && ch != DEL && |unread| + |line| < MAX_BUF
    ensures WriteByte(c, ch).Ok?
    ensures Represents(WriteByte(c, ch).value,
                       if ch == NEWLINE then unread + line + [ch] else unread,
                       if ch == NEWLINE then [] else line + [ch])
  {
    hide Congruent, At, Wrap;
    var c' := WriteByte(c, ch).value;
    WriteCongruent(c, ch);
    AtSame(c, c', c.editLen);
    forall k {:trigger At(c', k)} | 0 <= k < c'.editLen ensures c'.buf[At(c', k)] == (unread + line + [ch])[k] {
      AtSame(c, c', k);
      if k < c.editLen { AtDistinct(c, k, c.editLen); }
    }
    assert unread + (line + [ch]) == unread + line + [ch] == (unread + line + [ch]) + [];
  }

  /** One read delivers the oldest unread byte. */
  lemma ReadRefines(c: Ring, unread: seq<int>, line: seq<int>)
    requires Represents(c, unread, line)
    ensures unread == [] <==> c.bufLen == 0
    ensures unread == [] ==> ReadByte(c) == (-1, c)
    ensures unread != [] ==> ReadByte(c).0 == unread[0] && Represents(ReadByte(c).1, unread[1..], line)
  {
    hide Congruent, At;
    if unread != [] {
      var c' := ReadByte(c).1;
      ReadCongruent(c);
      AtNext(c, c', 0);
      forall k {:trigger At(c', k)} | 0 <= k < c'.editLen ensures c'.buf[At(c', k)] == (unread[1..] + line)[k] {
        AtNext(c, c', k);
        assert (unread[1..] + line)[k] == (unread + line)[k + 1];
      }
    }
  }

  /** How many unread values a read of `count` delivers: all up to the first negative one. */
  function Deliverable(unread: seq<int>, count: nat): (n: nat)
    ensures n <= count && n <= |unread|
    decreases count
  {
    if count == 0 || unread == [] || unread[0] < 0 then 0 else 1 + Deliverable(unread[1..], count - 1)
  }

  /** ... and how many it consumes: a negative value that stops it is lost. */
  function Consumed(unread: seq<int>, count: nat): (n: nat)
    ensures n <= |unread|
  {
    var n := Deliverable(unread, count);
    if n < count && n < |unread| then n + 1 else n
  }

  /** read_console delivers the oldest unread bytes, as many as there are and as were asked for, unless a -1 from
      the line is among them: it ends the read, and is gone. */
  lemma {:induction false} ReadManyRefines(c: Ring, unread: seq<int>, line: seq<int>, count: nat)
    requires Represents(c, unread, line)
    ensures ReadMany(c, count).0 == unread[..Deliverable(unread, count)]
    ensures Represents(ReadMany(c, count).1, unread[Consumed(unread, count)..], line)
    decreases count
  {
    hide Represents, ReadByte;
    Represented(c, unread, line);
    assert unread[0..] == unread;
    if count > 0 {
      ReadRefines(c, unread, line);
      if unread != [] && unread[0] >= 0 {
        ReadManyRefines(ReadByte(c).1, unread[1..], line, count - 1);
        NextRead(unread, count);
      }
    }
  }

  lemma Represented(c: Ring, unread: seq<int>, line: seq<int>)
    requires Represents(c, unread, line)
    ensures WellFormed(c)
  {}

  lemma NextRead(unread: seq<int>, count: nat)
    requires count > 0 && unread != [] && unread[0] >= 0
    ensures unread[..Deliverable(unread, count)] == [unread[0]] + unread[1..][..Deliverable(unread[1..], count - 1)]
    ensures unread[Consumed(unread, count)..] == unread[1..][Consumed(unread[1..], count - 1)..]
  {}

  /** No DEL of the run eats an unread byte. */
  ghost predicate KeepsUnread(es: seq<Event>) {
    es == [] ||
    (KeepsUnread(es[..|es| - 1]) &&
     (es[|es| - 1].Byte? && Run(es[..|es| - 1]).Ok? ==> !DelEatsUnread(Run(es[..|es| - 1]).value.0, es[|es| - 1].ch)))
  }

  /** Every such run follows the editor. */
  lemma {:induction false} RunRefines(es: seq<Event>) returns (unread: seq<int>)
    requires Run(es).Ok? && KeepsUnread(es)
    ensures
      var (c, out) := Run(es).value;
      var typed := LineEdit(Inputs(es));
      Represents(c, unread, typed.line) && out + unread == typed.lines
  {
    hide Represents, Handle, EditByte, WriteByte, ReadByte;
    if es == [] {
      unread := [];
      EmptyRepresents();
    } else {
      var before, e := es[..|es| - 1], es[|es| - 1];
      unread := RunRefines(before);
      var (c, out) := Run(before).value;
      var typed := LineEdit(Inputs(before));
      if e.Byte? {
        assert Inputs(es)[..|Inputs(es)| - 1] == Inputs(before);
        unread := ByteRefines(c, out, unread, typed, e.ch);
      } else {
        assert Inputs(es) == Inputs(before);
        unread := OneReadRefines(c, out, unread, typed);
      }
    }
  }

  lemma EmptyRepresents()
    ensures Represents(EmptyRing(), [], [])
  {}

  lemma ByteRefines(c: Ring, out: seq<int>, unread: seq<int>, typed: Edited, ch: Char) returns (unread': seq<int>)
    requires Represents(c, unread, typed.line) && out + unread == typed.lines
    requires Handle(c, out, Byte(ch)).Ok? && !DelEatsUnread(c, ch)
    ensures var typed' := EditByte(typed, ch);
      Represents(Handle(c, out, Byte(ch)).value.0, unread', typed'.line)
      && Handle(c, out, Byte(ch)).value.1 + unread' == typed'.lines
  {
    hide Represents, WriteByte, DelEatsUnread;
    WriteRefinesIff(c, unread, typed.line, ch);
    unread' := if ch == NEWLINE then unread + typed.line + [ch] else unread;
    assert out + (unread + typed.line + [ch]) == (out + unread) + typed.line + [ch];
  }

  lemma OneReadRefines(c: Ring, out: seq<int>, unread: seq<int>, typed: Edited) returns (unread': seq<int>)
    requires Represents(c, unread, typed.line) && out + unread == typed.lines
    ensures Handle(c, out, Read).Ok?
    ensures
      var (c', out') := Handle(c, out, Read).value;
      Represents(c', unread', typed.line) && out' + unread' == typed.lines
  {
    hide Represents, ReadByte;
    ReadRefines(c, unread, typed.line);
    unread' := unread;
    if unread != [] {
      unread' := unread[1..];
      assert out + unread == (out + [unread[0]]) + unread[1..];
    }
  }

  /** Any interleaving of typing and reading: what was delivered, followed by what is committed but unread, is
      the line-edited input up to its last newline; the next byte panics exactly when committed and edited
      bytes fill the ring. */
  lemma ConsoleRefinesEditor(es: seq<Event>)
    requires Run(es).Ok? && KeepsUnread(es)
    ensures Run(es).value.1 + Unread(Run(es).value.0) == LineEdit(Inputs(es)).lines
    ensures forall ch: Char ::
      WriteByte(Run(es).value.0, ch).Panic? <==>
        ch != DEL && |LineEdit(Inputs(es)).lines| - |Run(es).value.1| + |LineEdit(Inputs(es)).line| == MAX_BUF
  {
    var unread := RunRefines(es);
    UnreadIs(Run(es).value.0, unread, LineEdit(Inputs(es)).line);
  }

  lemma UnreadIs(c: Ring, unread: seq<int>, line: seq<int>)
    requires Represents(c, unread, line)
    ensures Unread(c) == unread
  {
    forall k | 0 <= k < |unread| ensures Unread(c)[k] == unread[k] {
      assert Unread(c)[k] == c.buf[At(c, k)] == (unread + line)[k];
    }
  }

  /** After the events the ring holds what the editor says: what is left to read of the finished lines, and
      the unfinished one. */
  ghost predicate Follows(es: seq<Event>) {
    Run(es).Ok? ==> exists unread ::
      && Represents(Run(es).value.0, unread, LineEdit(Inputs(es)).line)
      && Run(es).value.1 + unread == LineEdit(Inputs(es)).lines
  }

  /** The console follows the editor all through a run if and only if no DEL of the run arrives with edit_len
      equal to buf_len and positive. */
  lemma {:induction false} FollowsIff(es: seq<Event>)
    ensures KeepsUnread(es) <==> forall n :: 0 <= n <= |es| ==> Follows(es[..n])
  {
    hide Represents, Run, LineEdit, Inputs;
    if es == [] {
      RunNothing();
      EmptyRepresents();
      assert es[..0] == [];
    } else {
      var before := es[..|es| - 1];
      FollowsIff(before);
      assert forall n :: 0 <= n <= |before| ==> before[..n] == es[..n];
      assert es[..|es|] == es;
      if KeepsUnread(es) {
        if Run(es).Ok? { var unread := RunRefines(es); }
      } else if KeepsUnread(before) {
        BadDelDeparts(before, es[|es| - 1].ch);
        assert es == before + [es[|es| - 1]];
      }
    }
  }

  lemma BadDelDeparts(es: seq<Event>, ch: Char)
    requires KeepsUnread(es) && Run(es).Ok? && DelEatsUnread(Run(es).value.0, ch)
    ensures !Follows(es + [Byte(ch)])
  {}

  lemma RunThen(es: seq<Event>, e: Event)
    ensures Run(es + [e]) == match Run(es) case Panic => Panic case Ok((c, out)) => Handle(c, out, e)
    ensures LineEdit(Inputs(es + [e])) == if e.Byte? then EditByte(LineEdit(Inputs(es)), e.ch) else LineEdit(Inputs(es))
  {
    assert (es + [e])[..|es|] == es;
    if e.Byte? {
      assert Inputs(es + [e])[..|Inputs(es)|] == Inputs(es);
    } else {
      assert Inputs(es + [e]) == Inputs(es);
    }
  }

  /** The guard `edit_len > 0` is not enough: a committed line, a DEL and one more key, and the reader gets a line
      that nobody finished. */
  lemma DelDamagesCommittedLine()
    ensures var es := [Byte(97), Byte(NEWLINE), Byte(DEL), Byte(98), Read, Read];
      Run(es).Ok? && Run(es).value.1 == [97, 98] && LineEdit(Inputs(es)) == Edited([97, NEWLINE], [98])
  {
    hide Run, Inputs, LineEdit, WriteByte, ReadByte, EmptyRing;
    var zero := EmptyRing().buf;
    var es0 := [];
    RunNothing();
    RunThen(es0, Byte(97));
    Key(Ring(zero, 0, 0, 0, 0, 0), 97);
    var es1 := es0 + [Byte(97)];
    RunThen(es1, Byte(NEWLINE));
    Key(Ring(zero[0 := 97], 0, 1, 1, 0, 0), NEWLINE);
    var es2 := es1 + [Byte(NEWLINE)];
    RunThen(es2, Byte(DEL));
    var two := zero[0 := 97][1 := NEWLINE];
    Del(Ring(two, 2, 2, 2, 2, 0));
    var es3 := es2 + [Byte(DEL)];
    RunThen(es3, Byte(98));
    Key(Ring(two, 2, 1, 1, 2, 0), 98);
    var es4 := es3 + [Byte(98)];
    RunThen(es4, Read);
    Get(Ring(two[1 := 98], 2, 2, 2, 2, 0));
    var es5 := es4 + [Read];
    RunThen(es5, Read);
    Get(Ring(two[1 := 98], 1, 1, 2, 2, 1));
    assert es5 + [Read] == [Byte(97), Byte(NEWLINE), Byte(DEL), Byte(98), Read, Read];
  }

  /** What a key that is no DEL does near the start of the ring. */
  lemma Key(c: Ring, ch: Char)
    requires WellFormed(c) && c.editI < 2 && c.editLen < 2 && ch != DEL
    ensures WriteByte(c, ch) == Ok(Ring(c.buf[c.editI := ch],
                                        if ch == NEWLINE then c.editLen + 1 else c.bufLen,
                                        c.editLen + 1,
                                        c.editI + 1, if ch == NEWLINE then c.editI + 1 else c.writeI, c.readI))
  {}

  lemma Del(c: Ring)
    requires WellFormed(c) && 0 < c.editI && 0 < c.editLen
    ensures WriteByte(c, DEL) == Ok(c.(editI := c.editI - 1, editLen := c.editLen - 1))
  {}

  lemma Get(c: Ring)
    requires WellFormed(c) && 0 < c.bufLen && 0 < c.editLen && c.readI < 2
    ensures ReadByte(c) == (c.buf[c.readI], c.(readI := c.readI + 1, bufLen := c.bufLen - 1, editLen := c.editLen - 1))
  {}

  lemma RunNothing()
    ensures EmptyRing() == Ring(EmptyRing().buf, 0, 0, 0, 0, 0)
    ensures Run([]) == Ok((EmptyRing(), [])) && LineEdit(Inputs([])) == Edited([], [])
  {}

  // ----- The code

  /** The global variables of io.c. */
  class Terminal {
    const circularBuf: array<int>
    var bufLen: Word
    var editLen: Word
    var editI: Word
    var writeI: Word
    var readI: Word

    ghost predicate Valid()
      reads this, circularBuf
    {
      WellFormed(State())
    }

    ghost function State(): Ring
      reads this, circularBuf
    {
      Ring(circularBuf[..], bufLen, editLen, editI, writeI, readI)
    }

    constructor ()
      ensures Valid() && fresh(circularBuf) && State() == EmptyRing()
    {
      circularBuf := new int[4096](_ => 0);
      bufLen, editLen, editI, writeI, readI := 0, 0, 0, 0, 0;
    }

    method WriteCircularBuf(ch: Char) returns (ok: bool)
      requires Valid()
      modifies this, circularBuf
      ensures Valid()
      ensures ok <==> WriteByte(old(State()), ch).Ok?
      ensures ok ==> State() == WriteByte(old(State()), ch).value
    {
      if ch == DEL {
        if editLen > 0 {
          editI := Wrap(editI - 1) % 4096;
          editLen := editLen - 1;
        }
        return true;
      }
      if editLen == MAX_BUF { return false; }
      circularBuf[editI] := ch;
      editI := (editI + 1) % 4096;
      editLen := Wrap(editLen + 1);
      if ch == NEWLINE {
        writeI := editI;
        bufLen := editLen;
      }
      ok := true;
    }

    method ReadCircularBuf() returns (ch: int)
      requires Valid()
      modifies this
      ensures Valid() && (ch, State()) == ReadByte(old(State()))
    {
      if bufLen == 0 { return -1; }
      ch := circularBuf[readI];
      readI := (readI + 1) % 4096;
      bufLen := bufLen - 1;
      editLen := Wrap(editLen - 1);
    }

    /** read_console */
    method ReadConsole(buf: array<int>, count: nat) returns (i: nat)
      requires Valid() && count <= buf.Length && buf != circularBuf
      modifies this, buf
      ensures Valid() && i <= count && (buf[..i], State()) == ReadMany(old(State()), count)
      ensures forall k :: i <= k < buf.Length ==> buf[k] == old(buf[k])
    {
      hide ReadByte, ReadMany;
      i := 0;
      var left := count;
      FromHere([], State(), left);
      while left > 0
        invariant Valid() && i + left == count
        invariant ReadMany(old(State()), count) == Continued(buf[..i], State(), left)
        invariant forall k :: i <= k < buf.Length ==> buf[k] == old(buf[k])
      {
        left := left - 1;
        OneMore(buf[..i], State(), left + 1);
        var ch := ReadCircularBuf();
        if ch < 0 { return; }
        ghost var done := buf[..i];
        buf[i] := ch;
        i := i + 1;
        assert buf[..i] == done + [ch];
      }
      FromHere(buf[..i], State(), 0);
    }
  }

  /** A read that has delivered some values and goes on from here. */
  function Continued(done: seq<int>, c: Ring, left: nat): (seq<int>, Ring)
    requires WellFormed(c)
  {
    (done + ReadMany(c, left).0, ReadMany(c, left).1)
  }

  lemma FromHere(done: seq<int>, c: Ring, left: nat)
    requires WellFormed(c) && (done == [] || left == 0)
    ensures Continued(done, c, left) == if left == 0 then (done, c) else ReadMany(c, left)
  {
    assert done + [] == done;
    assert done == [] ==> done + ReadMany(c, left).0 == ReadMany(c, left).0;
  }

  lemma OneMore(done: seq<int>, c: Ring, left: nat)
    requires WellFormed(c) && left > 0
    ensures
      var (x, c1) := ReadByte(c);
      Continued(done, c, left) == if x < 0 then (done, c1) else Continued(done + [x], c1, left - 1)
  {
    var (x, c1) := ReadByte(c);
    assert done + [] == done;
    if x >= 0 {
      var rest := ReadMany(c1, left - 1).0;
      assert done + ([x] + rest) == (done + [x]) + rest;
    }
  }
}
