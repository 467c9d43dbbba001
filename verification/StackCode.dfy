/** Kernel stacks as the assembly works on them: word by word, the stack pointer moving in place. */
module StackCode {
  import opened Machine
  import opened Context

  /** The processor while it runs on one kernel stack, in frame `frame`. */
  class KernelStack {
    const words: array<Word>
    const frame: int
    var sp: int

    ghost predicate Valid()
      reads this
    {
      words.Length == 1024 && 0 <= sp <= 1024 && IsFrame(frame)
    }

    ghost function State(): (st: Stack)
      requires Valid()
      reads this, words
    {
      Stack(words[..], sp)
    }

    constructor (page: array<Word>, f: int, top: int)
      requires page.Length == 1024 && IsFrame(f) && 0 <= top <= 1024
      ensures Valid() && words == page && frame == f && sp == top
    {
      words, frame, sp := page, f, top;
    }

    /** push of word n of those that are pushed from `start` on. */
    method Push(w: Word, ghost start: Stack, ghost all: seq<Word>, ghost n: nat)
      requires Valid() && 0 < sp
      requires n < |all| <= start.sp <= 1024 && w == all[n] && State() == PushSeq(start, all[..n])
      modifies this`sp, words
      ensures Valid() && sp == old(sp) - 1
      ensures State() == PushSeq(start, all[..n + 1])
    {
      assert all[..n + 1][..n] == all[..n];
      sp := sp - 1;
      words[sp] := w;
    }

    method Pop() returns (w: Word)
      requires Valid() && sp < 1024
      modifies this`sp
      ensures Valid() && w == Top(old(State())) && State() == Drop(old(State()), 1)
    {
      w := words[sp];
      sp := sp + 1;
    }

    /** pushad */
    method PushAd(r: Regs)
      requires Valid() && 8 <= sp
      modifies this`sp, words
      ensures Valid() && sp == old(sp) - 8
      ensures State() == PushAll(old(State()), frame, r)
    {
      hide PushSeq;
      ghost var st := State();
      var top := Wrap(VirtualOf(frame) + 4 * sp);
      ghost var all := [r.eax, r.ecx, r.edx, r.ebx, top, r.ebp, r.esi, r.edi];
      PushNothing(st, all);
      PushFour(r.eax, r.ecx, r.edx, r.ebx, st, all, 0);
      PushFour(top, r.ebp, r.esi, r.edi, st, all, 4);
      assert all[..8] == all;
    }

    method PushFour(a: Word, b: Word, c: Word, d: Word, ghost start: Stack, ghost all: seq<Word>, ghost n: nat)
      requires Valid() && 4 <= sp
      requires n + 4 <= |all| <= start.sp <= 1024 && State() == PushSeq(start, all[..n])
      requires all[n] == a && all[n + 1] == b && all[n + 2] == c && all[n + 3] == d
      modifies this`sp, words
      ensures Valid() && sp == old(sp) - 4
      ensures State() == PushSeq(start, all[..n + 4])
    {
      hide PushSeq;
      Push(a, start, all, n);
      Push(b, start, all, n + 1);
      Push(c, start, all, n + 2);
      Push(d, start, all, n + 3);
    }

    static lemma PushNothing(st: Stack, all: seq<Word>)
      requires IsStack(st)
      ensures PushSeq(st, all[..0]) == st
    {}

    /** popad */
    method PopAd() returns (r: Regs)
      requires Valid() && sp <= 1016
      modifies this`sp
      ensures Valid() && (r, State()) == PopAll(old(State()))
    {
      var edi := Pop();
      var esi := Pop();
      var ebp := Pop();
      var skipped := Pop();
      var ebx := Pop();
      var edx := Pop();
      var ecx := Pop();
      var eax := Pop();
      r := Regs(edi, esi, ebp, ebx, edx, ecx, eax);
    }

    /** A trap from user mode: the processor, the vector stub, int_common. */
    method Trap(u: User, vector: Word, error: Word)
      requires Valid()
      modifies this`sp, words
      ensures Valid()
      ensures State() == TrapEntry(old(words[..]), frame, u, vector, error)
    {
      hide PushSeq, PushAll, SavedState;
      sp := KSTACK_TOP;
      ghost var st := State();
      PushNothing(st, SavedState(u, vector, error));
      PushProcessorState(u, vector, error, st);
      PushVector(u, vector, error, st);
      PushSegments(u, vector, error, st);
      assert SavedState(u, vector, error)[..11] == SavedState(u, vector, error);
      PushAd(u.regs);
    }

    method PushProcessorState(u: User, ghost vector: Word, ghost error: Word, ghost st: Stack)
      requires Valid() && sp == st.sp == KSTACK_TOP && State() == PushSeq(st, SavedState(u, vector, error)[..0])
      modifies this`sp, words
      ensures Valid() && sp == KSTACK_TOP - 5 && State() == PushSeq(st, SavedState(u, vector, error)[..5])
    {
      hide PushSeq;
      ghost var all := SavedState(u, vector, error);
      Push(u.ss, st, all, 0);
      Push(u.esp, st, all, 1);
      Push(u.eflags, st, all, 2);
      Push(u.cs, st, all, 3);
      Push(u.eip, st, all, 4);
    }

    method PushVector(ghost u: User, vector: Word, error: Word, ghost st: Stack)
      requires Valid() && sp == KSTACK_TOP - 5 && st.sp == KSTACK_TOP &&
        State() == PushSeq(st, SavedState(u, vector, error)[..5])
      modifies this`sp, words
      ensures Valid() && sp == KSTACK_TOP - 7 && State() == PushSeq(st, SavedState(u, vector, error)[..7])
    {
      hide PushSeq;
      ghost var all := SavedState(u, vector, error);
      Push(error, st, all, 5);
      Push(vector, st, all, 6);
    }

    method PushSegments(u: User, ghost vector: Word, ghost error: Word, ghost st: Stack)
      requires Valid() && sp == KSTACK_TOP - 7 && st.sp == KSTACK_TOP &&
        State() == PushSeq(st, SavedState(u, vector, error)[..7])
      modifies this`sp, words
      ensures Valid() && sp == KSTACK_TOP - 11 && State() == PushSeq(st, SavedState(u, vector, error)[..11])
    {
      hide PushSeq;
      ghost var all := SavedState(u, vector, error);
      Push(u.ds, st, all, 7);
      Push(u.es, st, all, 8);
      Push(u.fs, st, all, 9);
      Push(u.gs, st, all, 10);
    }

    /** ret_to_int_site */
    method ReturnToUser() returns (u: User)
      requires Valid() && sp <= 1024 - 19
      modifies this`sp
      ensures Valid() && (u, State()) == TrapReturn(old(State()))
    {
      var regs := PopAd();
      var gs := Pop();
      var fs := Pop();
      var es := Pop();
      var ds := Pop();
      sp := sp + 2;
      var eip := Pop();
      var cs := Pop();
      var eflags := Pop();
      var esp := Pop();
      var ss := Pop();
      u := User(regs, Low16(gs), Low16(fs), Low16(es), Low16(ds), eip, Low16(cs), eflags, esp, Low16(ss));
    }

    /** context_switch up to the change of stacks; the result is the context of the task that leaves. */
    method LeaveStack(regs: Regs, next: Word, nextContext: Word) returns (context: int)
      requires Valid() && 8 <= sp < 1024
      modifies this`sp, words
      ensures Valid() && context == sp
      ensures State() == Context.SwitchOut(old(words[..]), frame, regs, old(sp), next, nextContext)
    {
      hide PushAll;
      PushAd(regs.(edx := next, eax := nextContext));
      context := sp;
    }

    /** context_switch from the change of stacks on. */
    method EnterStack(context: int) returns (cpu: Cpu)
      requires Valid() && 0 <= context <= 1015
      modifies this`sp
      ensures Valid() && cpu == Context.SwitchIn(words[..], context) && sp == cpu.sp
    {
      sp := context;
      var regs := PopAd();
      var eip := Pop();
      cpu := Cpu(regs, sp, eip);
    }
  }

  /** build_int_frame: clear the frame, then fill in its members. */
  method BuildIntFrame(words: array<Word>, at: int, entry: Word)
    requires words.Length == 1024 && 0 <= at <= 1024 - 19
    modifies words
    ensures words[..] == old(words[..])[..at] + IntFrame(entry) + old(words[..])[at + 19..]
  {
    for i := 0 to 19
      invariant forall j :: 0 <= j < 1024 ==> words[j] == if at <= j < at + i then 0 else old(words[j])
    {
      words[at + i] := 0;
    }
    words[at + 11] := USER_DATA;
    words[at + 10] := USER_DATA;
    words[at + 14] := entry;
    words[at + 15] := USER_CODE;
    words[at + 16] := FL_IF;
    words[at + 17] := 0x1000 - 8;
    words[at + 18] := USER_DATA;
  }

  /** build_context */
  method BuildContext(words: array<Word>, at: int, retSite: Word)
    requires words.Length == 1024 && 0 <= at <= 1024 - 9
    modifies words
    ensures words[..] == old(words[..])[..at] + NewContext(retSite) + old(words[..])[at + 9..]
  {
    for i := 0 to 9
      invariant forall j :: 0 <= j < 1024 ==> words[j] == if at <= j < at + i then 0 else old(words[j])
    {
      words[at + i] := 0;
    }
    words[at + 8] := retSite;
  }

  /** The part of sys_fork that fabricates the child's kernel stack from its parent's. */
  method ForkStack(child: array<Word>, parent: array<Word>, retSite: Word)
    requires child.Length == parent.Length == 1024 && child != parent
    modifies child
    ensures child[..] == ChildStack(old(child[..]), parent[..], retSite)
  {
    BuildIntFrame(child, TRAP_FRAME, parent[TRAP_FRAME + 14]);
    BuildContext(child, CONTEXT, retSite);
    ghost var built := child[..];
    for i := 0 to 8
      invariant forall j :: 0 <= j < 1024 ==>
        child[j] == if TRAP_FRAME <= j < TRAP_FRAME + i then parent[j] else built[j]
    {
      child[TRAP_FRAME + i] := parent[TRAP_FRAME + i];
    }
    child[TRAP_FRAME + 17] := parent[TRAP_FRAME + 17];
    child[TRAP_FRAME + 7] := 0;
    ForkStackWords(child[..], built, old(child[..]), parent[..], retSite);
  }

  lemma ForkStackWords(words: Frame, built: Frame, before: Frame, parent: Frame, retSite: Word)
    requires var entry := parent[TRAP_FRAME + 14];
      built == before[..CONTEXT] + NewContext(retSite) + IntFrame(entry) + before[TRAP_FRAME + 19..]
    requires forall j :: 0 <= j < 1024 ==>
      words[j] == (if j == TRAP_FRAME + 7 then 0
                   else if j == TRAP_FRAME + 17 || TRAP_FRAME <= j < TRAP_FRAME + 8 then parent[j]
                   else built[j])
    ensures words == ChildStack(before, parent, retSite)
  {}

  /** register_task's kernel stack. */
  method FirstStack(words: array<Word>, entry: Word, retSite: Word)
    requires words.Length == 1024
    modifies words
    ensures words[..] == InitStack(old(words[..]), entry, retSite)
  {
    BuildIntFrame(words, TRAP_FRAME, entry);
    BuildContext(words, CONTEXT, retSite);
  }
}
