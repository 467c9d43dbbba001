/** tokenize of user/sh.c: a command line is cut into its words in place. */
module Shell {
  import opened Machine

  const SPACE := 32
  const MAX_ARG := 8

  // ----- Splitting on spaces

  /** The longest prefix without a space. */
  function FirstRun(s: seq<Byte>): (w: seq<Byte>)
    ensures w <= s && (forall i :: 0 <= i < |w| ==> w[i] != SPACE)
    ensures |w| < |s| ==> s[|w|] == SPACE
  {
    if s == [] || s[0] == SPACE then [] else [s[0]] + FirstRun(s[1..])
  }

  /** The maximal runs without spaces, in order. */
  function Split(s: seq<Byte>): (ws: seq<seq<Byte>>)
    ensures forall i :: 0 <= i < |ws| ==> IsWord(ws[i])
    decreases |s|
  {
    if s == [] then []
    else if s[0] == SPACE then Split(s[1..])
    else [FirstRun(s)] + Split(s[|FirstRun(s)|..])
  }

  predicate IsWord(w: seq<Byte>) {
    w != [] && forall i :: 0 <= i < |w| ==> w[i] != SPACE
  }

  predicate IsGap(s: seq<Byte>) {
    forall i :: 0 <= i < |s| ==> s[i] == SPACE
  }

  lemma {:induction false} FirstRunOf(w: seq<Byte>, rest: seq<Byte>)
    requires (forall i :: 0 <= i < |w| ==> w[i] != SPACE) && (rest == [] || rest[0] == SPACE)
    ensures FirstRun(w + rest) == w
    decreases |w|
  {
    if w != [] {
      assert (w + rest)[1..] == w[1..] + rest;
      FirstRunOf(w[1..], rest);
    } else {
      assert w + rest == rest;
    }
  }

  /** A word in front is split off. */
  lemma SplitWord(w: seq<Byte>, rest: seq<Byte>)
    requires IsWord(w) && (rest == [] || rest[0] == SPACE)
    ensures Split(w + rest) == [w] + Split(rest)
  {
    FirstRunOf(w, rest);
    assert (w + rest)[|w|..] == rest;
  }

  /** Spaces in front are skipped. */
  lemma {:induction false} SplitGap(gap: seq<Byte>, rest: seq<Byte>)
    requires IsGap(gap)
    ensures Split(gap + rest) == Split(rest)
    decreases |gap|
  {
    if gap == [] {
      assert gap + rest == rest;
    } else {
      assert (gap + rest)[1..] == gap[1..] + rest;
      SplitGap(gap[1..], rest);
    }
  }

  /** Words with spaces between them, and any spaces around. */
  function Join(ws: seq<seq<Byte>>, gaps: seq<seq<Byte>>): (s: seq<Byte>)
    requires |gaps| == |ws| + 1
  {
    if ws == [] then gaps[0] else gaps[0] + (ws[0] + Join(ws[1..], gaps[1..]))
  }

  /** Splitting recovers words from any line in which they stand apart. */
  lemma {:induction false} SplitJoin(ws: seq<seq<Byte>>, gaps: seq<seq<Byte>>)
    requires |gaps| == |ws| + 1
    requires forall i :: 0 <= i < |ws| ==> IsWord(ws[i])
    requires forall i :: 0 <= i < |gaps| ==> IsGap(gaps[i])
    requires forall i :: 0 < i < |ws| ==> gaps[i] != []
    ensures Split(Join(ws, gaps)) == ws
    decreases |ws|
  {
    if ws == [] {
      SplitGap(gaps[0], []);
      assert gaps[0] + [] == gaps[0];
    } else {
      var rest := Join(ws[1..], gaps[1..]);
      assert forall i :: 0 < i < |ws[1..]| ==> gaps[1..][i] == gaps[i + 1];
      SplitJoin(ws[1..], gaps[1..]);
      assert rest == [] || rest[0] == SPACE;
      SplitGap(gaps[0], ws[0] + rest);
      SplitWord(ws[0], rest);
      assert [ws[0]] + ws[1..] == ws;
    }
  }

  // ----- The code

  /** A NUL-terminated copy of the word stands at p. */
  ghost predicate TokenAt(buf: seq<Byte>, p: Option<int>, w: seq<Byte>) {
    && p.Some? && 0 <= p.value && p.value + |w| < |buf|
    && buf[p.value..p.value + |w|] == w && buf[p.value + |w|] == 0
  }

  /** The buffer holds the line, terminated, and behind the terminator at `stop` a byte that is no space. */
  ghost predicate HoldsLine(buf: seq<Byte>, len: int, stop: int) {
    && 0 <= len < stop < |buf|
    && buf[len] == 0 && buf[stop] != SPACE
    && forall i :: 0 <= i < len ==> buf[i] != 0
  }

  method Strlen(buf: array<Byte>, ghost len: int, ghost stop: int) returns (n: int)
    requires HoldsLine(buf[..], len, stop)
    ensures n == len
  {
    n := 0;
    while buf[n] != 0
      invariant 0 <= n <= len
      decreases len - n
    {
      n := n + 1;
    }
  }

  /** The words so far, and the line from lp on. */
  ghost predicate Progressed(before: seq<Byte>, now: seq<Byte>, tokens: seq<Option<int>>, len: int, lp: int,
                             num: int, ws: seq<seq<Byte>>) {
    && 0 <= lp && 0 <= len < |before| == |now| && |ws| == num <= |tokens|
    && Split(before[..len]) == ws + (if lp <= len then Split(before[lp..len]) else [])
    && (forall i :: lp <= i < |before| ==> now[i] == before[i])
    && (forall i :: 0 <= i < |before| ==> now[i] == before[i] || (now[i] == 0 && before[i] == SPACE))
    && (forall i :: 0 <= i < num ==> TokenAt(now, tokens[i], ws[i]) && tokens[i].value + |ws[i]| < lp)
  }

  /** One word: it ends at a space or at the terminator, where the NUL goes. */
  lemma CutWord(before: seq<Byte>, now: seq<Byte>, tokens: seq<Option<int>>, len: int, lp: int, rp: int, num: int,
                ws: seq<seq<Byte>>)
    requires Progressed(before, now, tokens, len, lp, num, ws) && num < |tokens|
    requires lp < rp <= len && (forall i :: lp <= i < rp ==> before[i] != SPACE)
    requires before[len] == 0 && (rp == len || before[rp] == SPACE)
    ensures Progressed(before, now[rp := 0], tokens[num := Some(lp)], len, rp + 1, num + 1, ws + [before[lp..rp]])
  {
    hide TokenAt, Split;
    CutLine(before, len, lp, rp);
    var w := before[lp..rp];
    var rest := if rp + 1 <= len then Split(before[rp + 1..len]) else [];
    assert (ws + [w]) + rest == ws + ([w] + rest);
    var now', tokens', ws' := now[rp := 0], tokens[num := Some(lp)], ws + [w];
    forall i | 0 <= i < num + 1
      ensures tokens'[i].Some? && TokenAt(now', tokens'[i], ws'[i]) && tokens'[i].value + |ws'[i]| < rp + 1
    {
      if i < num {
        assert tokens[i].Some? by { TokenIsSome(now, tokens[i], ws[i]); }
        TokenKept(now, tokens[i], ws[i], rp);
      } else {
        NewToken(now, lp, rp);
        assert now[lp..rp] == w;
      }
    }
  }

  lemma CutLine(line: seq<Byte>, len: int, lp: int, rp: int)
    requires 0 <= lp < rp <= len < |line| && (forall i :: lp <= i < rp ==> line[i] != SPACE)
    requires rp == len || line[rp] == SPACE
    ensures Split(line[lp..len]) == [line[lp..rp]] + (if rp + 1 <= len then Split(line[rp + 1..len]) else [])
  {
    var w, rest := line[lp..rp], line[rp..len];
    assert line[lp..len] == w + rest;
    SplitWord(w, rest);
    if rp < len {
      assert rest == [SPACE] + line[rp + 1..len];
      SplitGap([SPACE], line[rp + 1..len]);
    }
  }

  lemma TokenIsSome(now: seq<Byte>, p: Option<int>, w: seq<Byte>)
    requires TokenAt(now, p, w)
    ensures p.Some?
  {}

  lemma TokenKept(now: seq<Byte>, p: Option<int>, w: seq<Byte>, rp: int)
    requires TokenAt(now, p, w) && p.value + |w| < rp < |now|
    ensures TokenAt(now[rp := 0], p, w)
  {}

  lemma NewToken(now: seq<Byte>, lp: int, rp: int)
    requires 0 <= lp <= rp < |now|
    ensures TokenAt(now[rp := 0], Some(lp), now[lp..rp])
  {}

  lemma SkipSpaces(before: seq<Byte>, now: seq<Byte>, tokens: seq<Option<int>>, len: int, lp: int, rp: int, num: int,
                   ws: seq<seq<Byte>>)
    requires Progressed(before, now, tokens, len, lp, num, ws)
    requires lp <= rp && (lp <= len ==> rp <= len) && (forall i :: lp <= i < rp && i < |before| ==> before[i] == SPACE)
    ensures Progressed(before, now, tokens, len, rp, num, ws)
  {
    if lp <= len {
      assert before[lp..len] == before[lp..rp] + before[rp..len];
      SplitGap(before[lp..rp], before[rp..len]);
    }
  }

  /** tokenize. With fewer than 8 words it returns their number, with more it returns 0; in either case the first 8
      tokens are NUL-terminated copies of the words, and nothing but spaces has been overwritten. */
  method Tokenize(buf: array<Byte>, tokens: array<Option<int>>, ghost len: int, ghost stop: int) returns (num: int)
    requires tokens.Length == MAX_ARG && HoldsLine(buf[..], len, stop)
    modifies buf, tokens
    ensures var ws := Split(old(buf[..])[..len]);
      && num == (if |ws| < MAX_ARG then |ws| else 0)
      && (forall i :: 0 <= i < |ws| && i < MAX_ARG ==> TokenAt(buf[..], tokens[i], ws[i]))
      && (ws == [] ==> tokens[0] == None)
    ensures forall i :: 0 <= i < buf.Length ==> buf[i] == old(buf[i]) || (buf[i] == 0 && old(buf[i]) == SPACE)
  {
    hide Progressed, TokenAt, Split;
    ghost var before := buf[..];
    ghost var ws: seq<seq<Byte>> := [];
    num := 0;
    var n := Strlen(buf, len, stop);
    tokens[0] := None;
    Begin(before, tokens[..], len);
    var lp := 0;
    while buf[lp] == SPACE
      invariant 0 <= lp <= len && forall i :: 0 <= i < lp ==> before[i] == SPACE
      decreases len - lp
    {
      lp := lp + 1;
    }
    SkipSpaces(before, buf[..], tokens[..], len, 0, lp, 0, ws);
    var rp := lp;
    while n > rp
      invariant lp == rp && 0 <= rp <= stop && num == |ws| < MAX_ARG
      invariant Progressed(before, buf[..], tokens[..], len, lp, num, ws)
      invariant rp < len ==> before[rp] != SPACE
      invariant ws == [] ==> tokens[0] == None
      decreases len - rp
    {
      Behind(before, buf[..], tokens[..], len, lp, num, ws);
      while buf[rp] != SPACE && buf[rp] != 0
        invariant lp <= rp <= len && forall i :: lp <= i < rp ==> before[i] != SPACE
        invariant lp < rp || before[rp] != SPACE
        decreases len - rp
      {
        rp := rp + 1;
      }
      CutWord(before, buf[..], tokens[..], len, lp, rp, num, ws);
      ws := ws + [before[lp..rp]];
      buf[rp] := 0;
      rp := rp + 1;
      tokens[num] := Some(lp);
      num := num + 1;
      Behind(before, buf[..], tokens[..], len, rp, num, ws);
      if num == MAX_ARG {
        Taken(before, buf[..], tokens[..], len, rp, num, ws);
        return 0;
      }
      ghost var end := rp;
      while buf[rp] == SPACE
        invariant end <= rp <= stop && (end <= len ==> rp <= len) && forall i :: end <= i < rp ==> before[i] == SPACE
        decreases stop - rp
      {
        rp := rp + 1;
      }
      SkipSpaces(before, buf[..], tokens[..], len, end, rp, num, ws);
      lp := rp;
    }
    Done(before, buf[..], tokens[..], len, lp, num, ws);
  }

  lemma Begin(before: seq<Byte>, tokens: seq<Option<int>>, len: int)
    requires 0 <= len < |before|
    ensures Progressed(before, before, tokens, len, 0, 0, [])
  {}

  lemma Behind(before: seq<Byte>, now: seq<Byte>, tokens: seq<Option<int>>, len: int, lp: int, num: int,
               ws: seq<seq<Byte>>)
    requires Progressed(before, now, tokens, len, lp, num, ws)
    ensures |now| == |before| && 0 <= lp && forall i :: lp <= i < |before| ==> now[i] == before[i]
  {}

  lemma Taken(before: seq<Byte>, now: seq<Byte>, tokens: seq<Option<int>>, len: int, lp: int, num: int,
              ws: seq<seq<Byte>>)
    requires Progressed(before, now, tokens, len, lp, num, ws)
    ensures |ws| == num <= |Split(before[..len])|
    ensures forall i :: 0 <= i < num ==> TokenAt(now, tokens[i], Split(before[..len])[i])
    ensures forall i :: 0 <= i < |before| ==> now[i] == before[i] || (now[i] == 0 && before[i] == SPACE)
  {}

  lemma Done(before: seq<Byte>, now: seq<Byte>, tokens: seq<Option<int>>, len: int, lp: int, num: int,
             ws: seq<seq<Byte>>)
    requires Progressed(before, now, tokens, len, lp, num, ws) && lp >= len
    ensures Split(before[..len]) == ws
    ensures forall i :: 0 <= i < num ==> TokenAt(now, tokens[i], ws[i])
    ensures |ws| == num && forall i :: 0 <= i < |before| ==> now[i] == before[i] || (now[i] == 0 && before[i] == SPACE)
  {}
}
