/** Decimal numbers: printnum of io.c writes them, atoi of util.c reads them. */
module Decimal {
  import opened Machine

  const ZERO := 48
  const MINUS := 45
  const INT_END := 0x8000_0000

  /** The decimal digits of n, most significant first. */
  function Digits(n: nat): (s: seq<Byte>)
    ensures s != [] && forall i :: 0 <= i < |s| ==> ZERO <= s[i] < ZERO + 10
  {
    (if n < 10 then [] else Digits(n / 10)) + [ZERO + n % 10]
  }

  /** The value that positional notation gives a text. */
  function Value(s: seq<Byte>): int {
    if s == [] then 0 else 10 * Value(s[..|s| - 1]) + (s[|s| - 1] - ZERO)
  }

  function Power(k: nat): (r: int)
    ensures r >= 1
  {
    if k == 0 then 1 else 10 * Power(k - 1)
  }

  /** What atoi makes of a text that is not empty: only a leading minus sign is special. */
  function Parsed(s: seq<Byte>): int
    requires s != []
  {
    if s[0] == MINUS then -Value(s[1..]) else Value(s)
  }

  lemma {:induction false} ValueOfDigits(n: nat)
    ensures Value(Digits(n)) == n
  {
    if n >= 10 {
      ValueOfDigits(n / 10);
      assert Digits(n)[..|Digits(n)| - 1] == Digits(n / 10);
    } else {
      assert Digits(n)[..0] == [];
    }
  }

  /** atoi inverts printnum on every number that is not negative. */
  lemma AtoiInvertsPrintnum(n: nat)
    ensures Parsed(Digits(n)) == n
  {
    ValueOfDigits(n);
  }

  lemma {:induction false} ValueSplits(a: seq<Byte>, b: seq<Byte>)
    ensures Value(a + b) == Value(a) * Power(|b|) + Value(b)
  {
    if b == [] {
      assert a + b == a;
    } else {
      var front, last := b[..|b| - 1], b[|b| - 1];
      ValueSplits(a, front);
      assert (a + b)[..|a + b| - 1] == a + front;
      assert Value(b) == 10 * Value(front) + (last - ZERO);
      Scale(Value(a), Power(|front|));
    }
  }

  lemma Scale(a: int, w: int)
    ensures a * (10 * w) == 10 * (a * w)
  {}

  lemma {:induction false} ValueOfDigitsOnly(s: seq<Byte>)
    requires forall i :: 0 <= i < |s| ==> ZERO <= s[i] < ZERO + 10
    ensures 0 <= Value(s) < Power(|s|)
  {
    if s != [] { ValueOfDigitsOnly(s[..|s| - 1]); }
  }

  lemma {:induction false} PowerBelow(n: nat)
    ensures n > 0 ==> Power(|Digits(n)| - 1) <= n
  {
    if n >= 10 { PowerBelow(n / 10); }
  }

  /** While atoi reads the digits of an int, from the last to the first, neither the sum nor the weight of the
      next digit leaves the range of an int. */
  lemma AtoiStaysInRange(n: nat, k: nat)
    requires n < INT_END && k < |Digits(n)|
    ensures 0 <= Value(Digits(n)[k + 1..]) <= n < INT_END
    ensures 1 <= Power(|Digits(n)| - 1 - k) < INT_END
  {
    hide Value, Power, Digits;
    var s := Digits(n);
    var a, b := s[..k + 1], s[k + 1..];
    assert s == a + b;
    ValueSplits(a, b);
    ValueOfDigitsOnly(a);
    ValueOfDigitsOnly(b);
    ValueOfDigits(n);
    Positive(Value(a), Power(|b|));
    PowerBelow(n);
    PowerMonotone(|s| - 1 - k, |s| - 1);
    if n == 0 { PowerOfZero(); }
  }

  lemma PowerOfZero()
    ensures Power(|Digits(0)| - 1) == 1
  {}

  lemma Positive(a: int, b: int)
    requires a >= 0 && b >= 1
    ensures a * b >= a
  {}

  lemma {:induction false} PowerMonotone(a: nat, b: nat)
    requires a <= b
    ensures Power(a) <= Power(b)
  {
    if a < b { PowerMonotone(a, b - 1); }
  }

  // ----- The code

  /** atoi: find the end, then read the digits backwards. The text has at least one character. */
  method Atoi(s: array<Byte>, ghost len: nat) returns (ret: int)
    requires 1 <= len < s.Length && s[len] == 0 && forall i :: 1 <= i < len ==> s[i] != 0
    ensures ret == Parsed(s[..len])
  {
    var p := 0;
    while s[p + 1] != 0
      invariant 0 <= p < len
      decreases len - p
    {
      p := p + 1;
    }
    ret := 0;
    var base := 1;
    hide Value, Power;
    ghost var text: seq<Byte> := s[..len];
    assert text[p + 1..] == [];
    NoDigits();
    while p != 0
      invariant 0 <= p < len && base == Power(len - 1 - p)
      invariant ret == Value(text[p + 1..])
    {
      assert text[p..] == [text[p]] + text[p + 1..];
      FirstDigit(text[p], text[p + 1..]);
      ret := ret + base * (s[p] - ZERO);
      base := base * 10;
      p := p - 1;
    }
    if s[p] == MINUS {
      ret := ret * -1;
    } else {
      assert text == [text[0]] + text[1..];
      FirstDigit(text[0], text[1..]);
      ret := ret + base * (s[p] - ZERO);
    }
  }

  lemma NoDigits()
    ensures Value([]) == 0 && Power(0) == 1
  {}

  lemma FirstDigit(c: Byte, rest: seq<Byte>)
    ensures Value([c] + rest) == Value(rest) + Power(|rest|) * (c - ZERO)
    ensures Power(|rest| + 1) == Power(|rest|) * 10
  {
    hide Power, Value;
    ValueSplits([c], rest);
    OneDigit(c);
    PowerStep(|rest|);
    Commute(c - ZERO, Power(|rest|));
  }

  lemma OneDigit(c: Byte)
    ensures Value([c]) == c - ZERO
  {}

  lemma Commute(a: int, b: int)
    ensures a * b == b * a
  {}

  /** printnum: the digits are found from the last to the first, and a negative number has none. */
  method Printnum(x: int) returns (out: seq<Byte>)
    requires -INT_END <= x < INT_END
    ensures out == if x < 0 then [] else Digits(x)
  {
    hide Digits, Power;
    if x == 0 { DigitsStep(0, []); return [ZERO]; }
    var numDigits := 0;
    var tmp := new Byte[11](_ => 0);
    var y := x;
    ghost var rest: seq<Byte> := [];
    NoDigits();
    while y > 0
      invariant numDigits == |rest| <= 10
      invariant x > 0 ==> y >= 0 && y * Power(numDigits) <= x && DigitsLeft(y) + rest == Digits(x)
      invariant x < 0 ==> y == x && numDigits == 0
      invariant forall i :: 0 <= i < numDigits ==> tmp[i] == rest[numDigits - 1 - i]
    {
      AtMostTen(y, numDigits, x);
      DigitsStep(y, rest);
      var t := y % 10;
      tmp[numDigits] := ZERO + t;
      rest := [ZERO + t] + rest;
      numDigits := numDigits + 1;
      y := y / 10;
    }
    out := [];
    var i := numDigits - 1;
    while i >= 0
      invariant -1 <= i < numDigits || i == -1
      invariant out == rest[..numDigits - 1 - i]
    {
      out := out + [tmp[i]];
      i := i - 1;
    }
    assert rest[..numDigits] == rest;
  }

  /** The digits that the first loop of printnum has still to find. */
  function DigitsLeft(y: nat): seq<Byte> {
    if y == 0 then [] else Digits(y)
  }

  lemma DigitsStep(y: nat, rest: seq<Byte>)
    ensures Digits(y) + rest == DigitsLeft(y / 10) + ([ZERO + y % 10] + rest)
    ensures y == 0 ==> Digits(y) == [ZERO]
  {}

  lemma AtMostTen(y: int, k: nat, x: int)
    requires 0 < y && y * Power(k) <= x < INT_END && k <= 10
    ensures k < 10 && (y / 10) * Power(k + 1) <= x
  {}

  lemma PowerStep(k: nat)
    ensures Power(k + 1) == 10 * Power(k)
  {}

}
