/** The 32-bit machine the kernel runs on: words, page frames and the constants of memory.h. */
module Machine {

  // A page has 0x1000 bytes, that is 1024 words; a directory or a table has 1024 entries. Page sizes
  // and word sizes are written out, so that every division in the model is by a literal.

  const KERN_BASE := 0xc000_0000
  const KERN_TOP := 0xc800_0000
  const MMDEV_BASE := 0xfe00_0000

  /** Physical frames that are backed by memory: [KERN_BASE, KERN_TOP) maps [0, RAM_FRAMES * 0x1000). */
  const RAM_FRAMES := 0x8000

  const P := 1
  const RW := 2
  const US := 4

  /** A 32-bit unsigned machine word. */
  type Word = x: int | 0 <= x < 0x1_0000_0000

  type Byte = x: int | 0 <= x < 256

  /** The 1024 words of one page frame. */
  type Frame = s: seq<Word> | |s| == 1024 witness seq(1024, _ => 0)

  /** memset(page, 0, 0x1000) */
  function ZeroFrame(): (r: Frame)
    ensures forall i :: 0 <= i < 1024 ==> r[i] == 0
  {
    seq(1024, _ => 0)
  }

  /** A kernel computation either finishes or halts the machine in panic(). A kernel access outside
      of memory faults, and the fault handler panics as well. */
  datatype Result<+T> = Ok(value: T) | Panic {
    predicate IsFailure() { Panic? }
    function PropagateFailure<U>(): Result<U> requires Panic? { Panic }
    function Extract(): T requires Ok? { value }
  }

  datatype Option<+T> = None | Some(value: T)

  predicate IsFrame(f: int) {
    0 <= f < RAM_FRAMES
  }

  /** The address at which the kernel sees frame f (PHYS_TO_VIRT of its physical address). */
  function VirtualOf(f: int): (a: Word)
    requires IsFrame(f)
    ensures a != 0 && a % 0x1000 == 0
  {
    KERN_BASE + f * 0x1000
  }

  predicate IsKernelPointer(a: Word) {
    KERN_BASE <= a < KERN_TOP
  }

  /** The frame that a kernel pointer points into. */
  function FrameOf(a: Word): (f: int)
    requires IsKernelPointer(a)
    ensures IsFrame(f)
  {
    (a - KERN_BASE) / 0x1000
  }

  lemma FrameOfVirtual(f: int)
    requires IsFrame(f)
    ensures IsKernelPointer(VirtualOf(f)) && FrameOf(VirtualOf(f)) == f
  {}

  /** Unsigned 32-bit arithmetic wraps around. */
  function Wrap(x: int): (w: Word)
    ensures 0 <= x < 0x1_0000_0000 ==> w == x
  {
    x % 0x1_0000_0000
  }

  /** Bitwise or. */
  function BitOr(a: nat, b: nat): nat
    decreases b
  {
    if b == 0 then a
    else (if a % 2 == 1 || b % 2 == 1 then 1 else 0) + 2 * BitOr(a / 2, b / 2)
  }

  lemma OrUnfolds(a: nat, b: nat)
    ensures BitOr(a, b) == if b == 0 then a else (if a % 2 == 1 || b % 2 == 1 then 1 else 0) + 2 * BitOr(a / 2, b / 2)
  {}

  /** It works on the low three bits if the right operand has no others. */
  lemma OrLow(q: nat, a: nat, b: nat)
    requires a < 8 && b < 8
    ensures BitOr(8 * q + a, b) == 8 * q + BitOr(a, b) && BitOr(a, b) < 8
  {
    hide BitOr;
    OrUnfolds(a, b);
    OrUnfolds(8 * q + a, b);
    assert (8 * q + a) / 2 == 4 * q + a / 2 && (8 * q + a) % 2 == a % 2;
    OrLowTwo(q, a / 2, b / 2);
  }

  lemma OrLowTwo(q: nat, a: nat, b: nat)
    requires a < 4 && b < 4
    ensures BitOr(4 * q + a, b) == 4 * q + BitOr(a, b) && BitOr(a, b) < 4
  {
    hide BitOr;
    OrUnfolds(a, b);
    OrUnfolds(4 * q + a, b);
    assert (4 * q + a) / 2 == 2 * q + a / 2 && (4 * q + a) % 2 == a % 2;
    OrLowOne(q, a / 2, b / 2);
  }

  lemma OrLowOne(q: nat, a: nat, b: nat)
    requires a < 2 && b < 2
    ensures BitOr(2 * q + a, b) == 2 * q + BitOr(a, b) && BitOr(a, b) < 2
  {}

  lemma OrInRange(x: Word, flags: int)
    requires 0 <= flags < 8
    ensures 0 <= BitOr(x, flags) < 0x1_0000_0000
  {
    hide BitOr;
    var q, a := x / 8, x % 8;
    OrLow(q, a, flags);
    assert x == 8 * q + a && q < 0x2000_0000;
  }

  /** x | flags, for the flags that a page-table entry uses (bits 0 to 2). */
  function Or(x: Word, flags: int): (r: Word)
    requires 0 <= flags < 8
  {
    OrInRange(x, flags);
    BitOr(x, flags)
  }

  lemma DivMod(d: int, q: int, r: int)
    requires d in {2, 8, 0x1000} && 0 <= r < d
    ensures (d * q + r) / d == q && (d * q + r) % d == r
  {}

  /** In a page-aligned address, or sets the flags one after the other. */
  lemma OrAligned(frame: int, a: int, b: int)
    requires 0 <= frame < 0x10_0000 && 0 <= a < 8 && 0 <= b < 8
    ensures Or(frame * 0x1000, a) == frame * 0x1000 + a
    ensures Or(frame * 0x1000 + a, b) == frame * 0x1000 + BitOr(a, b)
  {
    hide BitOr;
    OrLow(frame * 512, 0, a);
    OrLow(frame * 512, a, b);
    OrZero(a);
  }

  lemma OrZero(b: nat)
    ensures BitOr(0, b) == b
  {}

  predicate NoDuplicates<T(==)>(s: seq<T>) {
    forall i, j :: 0 <= i < j < |s| ==> s[i] != s[j]
  }

  function Reverse<T>(s: seq<T>): (r: seq<T>)
    ensures |r| == |s|
    ensures forall i :: 0 <= i < |s| ==> r[i] == s[|s| - 1 - i]
  {
    if s == [] then [] else Reverse(s[1..]) + [s[0]]
  }

  lemma {:induction false} ReverseSnoc<T>(s: seq<T>, x: T)
    ensures Reverse(s + [x]) == [x] + Reverse(s)
  {
    if s != [] {
      ReverseSnoc(s[1..], x);
      assert (s + [x])[1..] == s[1..] + [x];
    }
  }

  lemma {:induction false} ReverseMembers<T>(s: seq<T>)
    ensures forall x :: x in Reverse(s) <==> x in s
    ensures multiset(Reverse(s)) == multiset(s)
  {
    if s != [] {
      ReverseMembers(s[1..]);
      assert s == [s[0]] + s[1..];
    }
  }
}
