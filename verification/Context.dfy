/** Machine state on a kernel stack: the trap frame of int_common.asm, the context of
    context_switch.asm, and the frame and context that sys_fork fabricates. A kernel stack is one page
    frame; a stack pointer into it is the index of a word, 1024 being the end of the page. */
module Context {
  import opened Machine

  /** The general registers that pushad saves, without the stack pointer. */
  datatype Regs = Regs(edi: Word, esi: Word, ebp: Word, ebx: Word, edx: Word, ecx: Word, eax: Word)

  type Selector = x: int | 0 <= x < 0x1_0000

  /** Everything a user program can see of the processor. */
  datatype User = User(regs: Regs, gs: Selector, fs: Selector, es: Selector, ds: Selector,
                       eip: Word, cs: Selector, eflags: Word, esp: Word, ss: Selector)

  /** A kernel stack and its stack pointer. */
  datatype Stack = Stack(words: Frame, sp: int)

  predicate IsStack(st: Stack) {
    0 <= st.sp <= 1024
  }

  function Push(st: Stack, w: Word): (st': Stack)
    requires 0 < st.sp <= 1024
    ensures st'.sp == st.sp - 1 && IsStack(st')
  {
    Stack(st.words[st.sp - 1 := w], st.sp - 1)
  }

  function Top(st: Stack): Word
    requires 0 <= st.sp < 1024
  {
    st.words[st.sp]
  }

  function Drop(st: Stack, n: nat): (st': Stack)
    requires 0 <= st.sp && st.sp + n <= 1024
    ensures IsStack(st')
  {
    Stack(st.words, st.sp + n)
  }

  /** Push the words in order. */
  function PushSeq(st: Stack, ws: seq<Word>): (st': Stack)
    requires |ws| <= st.sp <= 1024
    ensures st'.sp == st.sp - |ws| && IsStack(st')
  {
    if ws == [] then st else Push(PushSeq(st, ws[..|ws| - 1]), ws[|ws| - 1])
  }

  lemma {:induction false} PushSeqWords(st: Stack, ws: seq<Word>)
    requires |ws| <= st.sp <= 1024
    ensures forall i :: 0 <= i < |ws| ==> PushSeq(st, ws).words[st.sp - 1 - i] == ws[i]
    ensures forall i :: 0 <= i < 1024 && !(st.sp - |ws| <= i < st.sp) ==> PushSeq(st, ws).words[i] == st.words[i]
  {
    if ws != [] { PushSeqWords(st, ws[..|ws| - 1]); }
  }

  /** pushad, on the kernel stack in frame k: eax first, edi last, with the old stack pointer between ebx
      and ebp. */
  function PushAll(st: Stack, k: int, r: Regs): (st': Stack)
    requires 8 <= st.sp <= 1024 && IsFrame(k)
    ensures st'.sp == st.sp - 8 && IsStack(st')
  {
    PushSeq(st, [r.eax, r.ecx, r.edx, r.ebx, Wrap(VirtualOf(k) + 4 * st.sp), r.ebp, r.esi, r.edi])
  }

  /** popad: the saved stack pointer is skipped. */
  function PopAll(st: Stack): (Regs, Stack)
    requires 0 <= st.sp <= 1016
  {
    var w := st.words;
    (Regs(w[st.sp], w[st.sp + 1], w[st.sp + 2], w[st.sp + 4], w[st.sp + 5], w[st.sp + 6], w[st.sp + 7]), Drop(st, 8))
  }

  lemma PushAllWords(st: Stack, k: int, r: Regs)
    requires 8 <= st.sp <= 1024 && IsFrame(k)
    ensures
      var w := PushAll(st, k, r).words;
      var sp := st.sp - 8;
      && w[sp] == r.edi && w[sp + 1] == r.esi && w[sp + 2] == r.ebp && w[sp + 4] == r.ebx
      && w[sp + 5] == r.edx && w[sp + 6] == r.ecx && w[sp + 7] == r.eax
      && forall i :: 0 <= i < 1024 && !(sp <= i < st.sp) ==> w[i] == st.words[i]
  {
    var ws := [r.eax, r.ecx, r.edx, r.ebx, Wrap(VirtualOf(k) + 4 * st.sp), r.ebp, r.esi, r.edi];
    hide PushSeq;
    PushSeqWords(st, ws);
    var w := PushSeq(st, ws).words;
    assert w[st.sp - 1 - 0] == ws[0] && w[st.sp - 1 - 1] == ws[1] && w[st.sp - 1 - 2] == ws[2] &&
      w[st.sp - 1 - 3] == ws[3];
    assert w[st.sp - 1 - 5] == ws[5] && w[st.sp - 1 - 6] == ws[6] && w[st.sp - 1 - 7] == ws[7];
  }

  // ----- Traps

  /** KSTACK_TOP: the stack pointer the processor loads from the task state segment on a trap. */
  const KSTACK_TOP := 1023

  /** The trap frame, struct int_regs, lies directly below it: 19 words. */
  const TRAP_FRAME := 1004

  /** A trap from user mode: the processor pushes ss, esp, eflags, cs and eip, the vector stub an error
      code and the vector number, int_common the data segments and all registers. */
  function TrapEntry(words: Frame, k: int, u: User, vector: Word, error: Word): (st: Stack)
    requires IsFrame(k)
    ensures st.sp == TRAP_FRAME
  {
    PushAll(PushSeq(Stack(words, KSTACK_TOP), SavedState(u, vector, error)), k, u.regs)
  }

  function SavedState(u: User, vector: Word, error: Word): (ws: seq<Word>)
    ensures |ws| == 11
  {
    [u.ss, u.esp, u.eflags, u.cs, u.eip, error, vector, u.ds, u.es, u.fs, u.gs]
  }

  /** struct int_regs, word by word. */
  lemma TrapFrameWords(words: Frame, k: int, u: User, vector: Word, error: Word)
    requires IsFrame(k)
    ensures
      var w := TrapEntry(words, k, u, vector, error).words;
      var f := TRAP_FRAME;
      && w[f] == u.regs.edi && w[f + 1] == u.regs.esi && w[f + 2] == u.regs.ebp && w[f + 4] == u.regs.ebx
      && w[f + 5] == u.regs.edx && w[f + 6] == u.regs.ecx && w[f + 7] == u.regs.eax
      && w[f + 8] == u.gs && w[f + 9] == u.fs && w[f + 10] == u.es && w[f + 11] == u.ds
      && w[f + 12] == vector && w[f + 13] == error
      && w[f + 14] == u.eip && w[f + 15] == u.cs && w[f + 16] == u.eflags && w[f + 17] == u.esp && w[f + 18] == u.ss
  {
    hide PushSeq, PushAll;
    var ws := SavedState(u, vector, error);
    var st := PushSeq(Stack(words, KSTACK_TOP), ws);
    PushSeqWords(Stack(words, KSTACK_TOP), ws);
    PushAllWords(st, k, u.regs);
    var w := TrapEntry(words, k, u, vector, error).words;
    forall i | 0 <= i < 11 ensures w[1022 - i] == ws[i] {
      assert st.words[KSTACK_TOP - 1 - i] == ws[i];
    }
    assert w[1022 - 10] == ws[10] && w[1022 - 9] == ws[9] && w[1022 - 8] == ws[8] && w[1022 - 7] == ws[7];
    assert w[1022 - 6] == ws[6] && w[1022 - 5] == ws[5] && w[1022 - 4] == ws[4] && w[1022 - 3] == ws[3];
    assert w[1022 - 2] == ws[2] && w[1022 - 1] == ws[1] && w[1022 - 0] == ws[0];
  }

  function Low16(w: Word): Selector {
    w % 0x1_0000
  }

  /** ret_to_int_site: pop everything again, skip vector and error code, and iret to user mode. */
  function TrapReturn(st: Stack): (User, Stack)
    requires 0 <= st.sp <= 1024 - 19
  {
    var (regs, st1) := PopAll(st);
    var w, sp := st1.words, st1.sp;
    (User(regs, Low16(w[sp]), Low16(w[sp + 1]), Low16(w[sp + 2]), Low16(w[sp + 3]),
          w[sp + 6], Low16(w[sp + 7]), w[sp + 8], w[sp + 9], Low16(w[sp + 10])),
     Drop(st1, 11))
  }

  /** regs->saved_regs.eax = ret */
  function SetResult(words: Frame, ret: Word): Frame {
    words[TRAP_FRAME + 7 := ret]
  }

  /** A system call changes nothing in user mode but eax, and leaves the kernel stack empty. */
  lemma TrapRoundTrip(words: Frame, k: int, u: User, vector: Word, error: Word, ret: Word)
    requires IsFrame(k)
    ensures
      var st := TrapEntry(words, k, u, vector, error);
      var (u', st') := TrapReturn(Stack(SetResult(st.words, ret), st.sp));
      u' == u.(regs := u.regs.(eax := ret)) && st'.sp == KSTACK_TOP
  {
    hide PushSeq, PushAll, TrapEntry;
    TrapFrameWords(words, k, u, vector, error);
  }

  // ----- The fabricated stack of a new task

  const USER_DATA := 0x1b   // (USER_DATA_SEG << 3) | DPL_USER
  const USER_CODE := 0x23   // (USER_CODE_SEG << 3) | DPL_USER
  const FL_IF := 0x200
  const CONTEXT := 995      // TRAP_FRAME - 9, the size of struct context

  /** build_int_frame on the stack top: 19 words. */
  function IntFrame(eip: Word): (f: seq<Word>)
    ensures |f| == 19
  {
    [0, 0, 0, 0, 0, 0, 0, 0, 0, 0, USER_DATA, USER_DATA, 0, 0, eip, USER_CODE, FL_IF, 0x1000 - 8, USER_DATA]
  }

  /** build_context: nine words, the last of which is the address of ret_to_int_site. */
  function NewContext(retToIntSite: Word): (f: seq<Word>)
    ensures |f| == 9
  {
    [0, 0, 0, 0, 0, 0, 0, 0, retToIntSite]
  }

  /** The child's kernel stack as sys_fork leaves it: a new context below a trap frame with the parent's
      registers, eip and esp, except that eax is 0. */
  function ChildStack(child: Frame, parent: Frame, retToIntSite: Word): (words: Frame)
  {
    var f := TRAP_FRAME;
    var built := IntFrame(parent[f + 14]);
    child[..CONTEXT] + NewContext(retToIntSite)
      + parent[f..f + 7] + [0] + built[8..17] + [parent[f + 17], built[18]] + child[f + 19..]
  }

  /** The kernel stack of init as register_task leaves it. */
  function InitStack(words: Frame, entry: Word, retToIntSite: Word): (r: Frame) {
    words[..CONTEXT] + NewContext(retToIntSite) + IntFrame(entry) + words[TRAP_FRAME + 19..]
  }

  // ----- Switching

  /** A task inside the kernel: its registers, and a stack on top of which lies the address to return to
      from the call of context_switch. */
  datatype Cpu = Cpu(regs: Regs, sp: int, eip: Word)

  /** context_switch up to the change of stacks: edx and eax are loaded with the next task and its context,
      then everything is pushed. The saved context is the new stack pointer. */
  function SwitchOut(words: Frame, k: int, regs: Regs, sp: int, next: Word, nextContext: Word): (st: Stack)
    requires 8 <= sp < 1024 && IsFrame(k)
    ensures st.sp == sp - 8
  {
    PushAll(Stack(words, sp), k, regs.(edx := next, eax := nextContext))
  }

  /** context_switch from the change of stacks on: pop everything and return. */
  function SwitchIn(words: Frame, context: int): (cpu: Cpu)
    requires 0 <= context <= 1015
    ensures cpu.sp == context + 9
  {
    var (regs, st) := PopAll(Stack(words, context));
    Cpu(regs, st.sp + 1, Top(st))
  }

  /** A task that is switched out and in again with its stack untouched finds all callee-saved registers,
      its stack pointer and its return address as they were; nothing above the saved context changes. */
  lemma SwitchRoundTrip(words: Frame, k: int, regs: Regs, sp: int, next: Word, nextContext: Word)
    requires 8 <= sp < 1024 && IsFrame(k)
    ensures
      var st := SwitchOut(words, k, regs, sp, next, nextContext);
      SwitchIn(st.words, st.sp) == Cpu(regs.(edx := next, eax := nextContext), sp + 1, words[sp])
      && forall i :: sp <= i < 1024 ==> st.words[i] == words[i]
  {
    hide PushAll;
    PushAllWords(Stack(words, sp), k, regs.(edx := next, eax := nextContext));
  }

  /** The first dispatch of a forked task: its context returns to ret_to_int_site with the stack pointer at
      the trap frame; that frame is consumed exactly; and the child is in user mode where its parent was,
      with the parent's registers and stack, eax being 0. */
  lemma ChildReturnsFromFork(child: Frame, words: Frame, k: int, u: User, vector: Word, error: Word, retToIntSite: Word)
    requires IsFrame(k)
    ensures
      var parent := TrapEntry(words, k, u, vector, error).words;
      var stack := ChildStack(child, parent, retToIntSite);
      var cpu := SwitchIn(stack, CONTEXT);
      var (u', st') := TrapReturn(Stack(stack, cpu.sp));
      && cpu.eip == retToIntSite && cpu.sp == TRAP_FRAME
      && st'.sp == KSTACK_TOP
      && u' == User(u.regs.(eax := 0), 0, 0, USER_DATA, USER_DATA, u.eip, USER_CODE, FL_IF, u.esp, USER_DATA)
  {
    hide PushSeq, PushAll, TrapEntry, ChildStack;
    TrapFrameWords(words, k, u, vector, error);
    ChildStackWords(child, TrapEntry(words, k, u, vector, error).words, retToIntSite);
  }

  /** ... and of init: it starts at its entry point, with all registers zero and the user stack at the end of
      page 0. */
  lemma InitStarts(words: Frame, entry: Word, retToIntSite: Word)
    ensures
      var stack := InitStack(words, entry, retToIntSite);
      var cpu := SwitchIn(stack, CONTEXT);
      var (u', st') := TrapReturn(Stack(stack, cpu.sp));
      && cpu.eip == retToIntSite && cpu.sp == TRAP_FRAME
      && st'.sp == KSTACK_TOP
      && u' == User(Regs(0, 0, 0, 0, 0, 0, 0), 0, 0, USER_DATA, USER_DATA, entry, USER_CODE, FL_IF, 0x1000 - 8,
                    USER_DATA)
  {}

  lemma ChildStackWords(child: Frame, parent: Frame, retToIntSite: Word)
    ensures
      var w := ChildStack(child, parent, retToIntSite);
      var f := TRAP_FRAME;
      && w[CONTEXT + 8] == retToIntSite
      && w[f] == parent[f] && w[f + 1] == parent[f + 1] && w[f + 2] == parent[f + 2] && w[f + 4] == parent[f + 4]
      && w[f + 5] == parent[f + 5] && w[f + 6] == parent[f + 6] && w[f + 7] == 0
      && w[f + 8] == 0 && w[f + 9] == 0 && w[f + 10] == USER_DATA && w[f + 11] == USER_DATA
      && w[f + 14] == parent[f + 14] && w[f + 15] == USER_CODE && w[f + 16] == FL_IF
      && w[f + 17] == parent[f + 17] && w[f + 18] == USER_DATA
  {}
}
