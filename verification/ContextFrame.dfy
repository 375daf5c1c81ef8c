/**
 What a context switch leaves on a task's stack and what the restore path makes of it, for both
 stack layouts of the port. The hardware half follows the ARMv7-M Architecture Reference Manual,
 sections B1.5.6 (exception entry) and B1.5.8 (exception return), with CCR.STKALIGN set.
 Stack sizes and offsets are in words.
 */
module ContextFrame {
  import opened Division
  import opened Words

  /** The build switches that select between the paths of the port. */
  datatype Build = Build(fpu: bool, stackMonitor: bool)

  /** S0-S15, S16-S31 and FPSCR. */
  datatype FpContext = FpContext(low: seq<Word>, high: seq<Word>, fpscr: Word)

  /** All a task can see of the core: R0-R3, R4-R7, R8-R11, R12, LR, PC, xPSR, its stack pointer and,
      while it uses the FPU (CONTROL.FPCA set), the FPU registers. */
  datatype Context = Context(args: seq<Word>, low: seq<Word>, high: seq<Word>, r12: Word, lr: Word, pc: Word,
                             xpsr: Word, psp: Word, fp: Option<FpContext>)

  const EXC_RETURN_BASIC: Word := 0xFFFFFFFD
  const EXC_RETURN_EXTENDED: Word := 0xFFFFFFED

  const INITIAL_XPSR: Word := 0x01000000
  const INITIAL_EXC_RETURN: Word := 0xFFFFFFFD

  /** Bit 4 of a word: set in an EXC_RETURN that announces a frame without FPU state. */
  predicate Bit4(w: Word) {
    w / 16 % 2 == 1
  }

  /** Bit 9 of a word: reserved in the running xPSR; the stacked copy records the alignment there. */
  predicate Bit9(w: Word) {
    w / 512 % 2 == 1
  }

  /** Bit 24 of a status word, the T bit: without it the first instruction of the resumed task would fault. */
  predicate Thumb(w: Word) {
    w / 0x100_0000 % 2 == 1
  }

  /** An EXC_RETURN that exception return takes for a return to thread mode on the process stack (section B1.5.8). */
  predicate ReturnsToTask(b: Build, excReturn: Word) {
    excReturn == 0xFFFF_FFFD || (b.fpu && excReturn == 0xFFFF_FFED)
  }

  predicate ValidContext(b: Build, c: Context) {
    && |c.args| == |c.low| == |c.high| == 4
    && !Bit9(c.xpsr) && Thumb(c.xpsr)
    && (c.fp.Some? ==> b.fpu && |c.fp.value.low| == |c.fp.value.high| == 16)
  }

  function ExcReturn(c: Context): Word {
    if c.fp.Some? then EXC_RETURN_EXTENDED else EXC_RETURN_BASIC
  }

  /** Words the hardware skips so that its frame starts on an 8-byte boundary. */
  function Pad(c: Context): int {
    c.psp % 2
  }

  /** Size of a hardware frame, including the reserved word of an extended one. */
  function HardwareWords(extended: bool): int {
    if extended then 26 else 8
  }

  /** The stack pointer after exception entry. */
  function HardwarePtr(c: Context): Word {
    c.psp - HardwareWords(c.fp.Some?) - Pad(c)
  }

  /** A hardware frame starts on an 8-byte boundary, at most one word below where it would without. */
  lemma FrameAligned(c: Context)
    ensures HardwarePtr(c) % 2 == 0
    ensures HardwarePtr(c) + HardwareWords(c.fp.Some?) <= c.psp <= HardwarePtr(c) + HardwareWords(c.fp.Some?) + 1
  {
  }

  function StackedXpsr(c: Context): Word {
    c.xpsr + 512 * Pad(c)
  }

  function SoftwareWords(b: Build, extended: bool): int {
    8 + (if b.fpu then 1 else 0) + (if extended then 16 else 0)
  }

  /** The saved top of stack of a task switched out in context `c`. */
  function SavedTop(b: Build, c: Context): Word {
    HardwarePtr(c) - SoftwareWords(b, c.fp.Some?)
  }

  /** The words exception entry stacks. */
  predicate HardwareFrameAt(m: Memory, c: Context) {
    var hw := HardwarePtr(c);
    && Load(m, hw, 4) == c.args
    && Read(m, hw + 4) == c.r12 && Read(m, hw + 5) == c.lr && Read(m, hw + 6) == c.pc
    && Read(m, hw + 7) == StackedXpsr(c)
    && (c.fp.Some? ==> Load(m, hw + 8, 16) == c.fp.value.low && Read(m, hw + 24) == c.fp.value.fpscr)
  }

  /** The words PendSV_Handler stacks below them. */
  predicate SoftwareFrameAt(b: Build, m: Memory, c: Context) {
    var top := SavedTop(b, c);
    && Load(m, top, 4) == c.low && Load(m, top + 4, 4) == c.high
    && (b.fpu ==> Read(m, top + 8) == ExcReturn(c))
    && (c.fp.Some? ==> Load(m, top + 9, 16) == c.fp.value.high)
  }

  /** From memory `m`, saving context `c` has produced `m'`: the frame is in place, the control block
      points at it, and no other word has changed. */
  ghost predicate Saved(b: Build, m: Memory, m': Memory, tcb: int, c: Context) {
    && HardwareFrameAt(m', c)
    && SoftwareFrameAt(b, m', c)
    && Read(m', tcb) == SavedTop(b, c)
    && forall x :: x != tcb && !(SavedTop(b, c) <= x < c.psp) ==> Read(m', x) == Read(m, x)
  }

  /** Exception entry only writes where the context is then saved. */
  lemma SavedSinceEntry(b: Build, m: Memory, entered: Memory, m': Memory, tcb: int, c: Context)
    requires forall x :: !(HardwarePtr(c) <= x < c.psp) ==> Read(entered, x) == Read(m, x)
    requires Saved(b, entered, m', tcb, c)
    ensures Saved(b, m, m', tcb, c)
  {
  }

  predicate SavedExtended(b: Build, m: Memory, top: int) {
    b.fpu && !Bit4(Read(m, top + 8))
  }

  function SavedHardwarePtr(b: Build, m: Memory, top: int): Word {
    top + SoftwareWords(b, SavedExtended(b, m, top))
  }

  /** First address past the words that restoring from `top` reads. */
  function SavedEnd(b: Build, m: Memory, top: int): int {
    SavedHardwarePtr(b, m, top) + if SavedExtended(b, m, top) then 25 else 8
  }

  /** Exception return pops a frame and steps over the padding word its stacked xPSR records. */
  function PoppedPsp(hw: Word, extended: bool, stackedXpsr: Word): Word {
    var base := hw + HardwareWords(extended);
    if Bit9(stackedXpsr) && base % 2 == 0 then base + 1 else base
  }

  function PoppedXpsr(stackedXpsr: Word): Word {
    if Bit9(stackedXpsr) then stackedXpsr - 512 else stackedXpsr
  }

  /** The context in which a task whose saved top of stack is `top` resumes. */
  function Resume(b: Build, m: Memory, top: int): Context {
    var extended := SavedExtended(b, m, top);
    var hw := SavedHardwarePtr(b, m, top);
    Context(Load(m, hw, 4), Load(m, top, 4), Load(m, top + 4, 4), Read(m, hw + 4), Read(m, hw + 5), Read(m, hw + 6),
            PoppedXpsr(Read(m, hw + 7)), PoppedPsp(hw, extended, Read(m, hw + 7)),
            if extended then Some(FpContext(Load(m, hw + 8, 16), Load(m, top + 9, 16), Read(m, hw + 24))) else None)
  }

  /** Exception return accepts the frame saved at `top`. */
  predicate Restorable(b: Build, m: Memory, top: int) {
    && (b.fpu ==> ReturnsToTask(b, Read(m, top + 8)))
    && Thumb(Read(m, SavedHardwarePtr(b, m, top) + 7))
  }

  /** Resuming looks at nothing outside the saved frame. */
  lemma ResumeAgrees(b: Build, m: Memory, m': Memory, top: int)
    requires forall x :: top <= x < SavedEnd(b, m, top) ==> Read(m, x) == Read(m', x)
    ensures Resume(b, m', top) == Resume(b, m, top) && SavedEnd(b, m', top) == SavedEnd(b, m, top)
    ensures Restorable(b, m', top) == Restorable(b, m, top)
  {
    assert SavedExtended(b, m, top) == SavedExtended(b, m', top);
    var hw := SavedHardwarePtr(b, m, top);
    hide Bit4, Bit9;
    LoadAgrees(m, m', top, 4);
    LoadAgrees(m, m', top + 4, 4);
    LoadAgrees(m, m', hw, 4);
    if SavedExtended(b, m, top) {
      LoadAgrees(m, m', top + 9, 16);
      LoadAgrees(m, m', hw + 8, 16);
    }
  }

  /** A saved frame holds the interrupted context: restoring is the inverse of saving, in either layout. */
  lemma ResumeSaved(b: Build, m: Memory, c: Context)
    requires ValidContext(b, c) && HardwareFrameAt(m, c) && SoftwareFrameAt(b, m, c)
    ensures Resume(b, m, SavedTop(b, c)) == c && SavedEnd(b, m, SavedTop(b, c)) <= c.psp
    ensures Restorable(b, m, SavedTop(b, c))
  {
    assert Bit4(EXC_RETURN_BASIC) && !Bit4(EXC_RETURN_EXTENDED);
    assert SavedExtended(b, m, SavedTop(b, c)) == c.fp.Some?;
    assert SavedHardwarePtr(b, m, SavedTop(b, c)) == HardwarePtr(c);
    PaddingUndone(c);
    StackedThumb(c.xpsr);
  }

  /** Recording the alignment in a status word leaves its T bit alone. */
  lemma StackedThumb(xpsr: Word)
    requires !Bit9(xpsr) && Thumb(xpsr)
    ensures Thumb(xpsr + 512)
  {
    Nested(xpsr, 512, 32768);
    Nested(xpsr + 512, 512, 32768);
    Divided(xpsr, 512);
    DivMod(xpsr + 512, 512, xpsr / 512 + 1, xpsr % 512);
    EvenStep(xpsr / 512);
  }

  lemma EvenStep(n: int)
    requires n % 2 == 0
    ensures (n + 1) / 32768 == n / 32768
  {
  }

  lemma PaddingUndone(c: Context)
    requires !Bit9(c.xpsr)
    ensures PoppedXpsr(StackedXpsr(c)) == c.xpsr
    ensures PoppedPsp(HardwarePtr(c), c.fp.Some?, StackedXpsr(c)) == c.psp
  {
    assert (c.xpsr + 512) / 512 == c.xpsr / 512 + 1;
  }

  /** The words pxPortInitialiseStack writes for a new task; it leaves the others as they were. */
  function InitialMemory(b: Build, m: Memory, top: int, entry: Word, arg: Word, returnAddress: Word): Memory {
    var basic := m[top - 1 := INITIAL_XPSR][top - 2 := entry - entry % 2][top - 3 := returnAddress][top - 8 := arg];
    if b.fpu then basic[top - 9 := INITIAL_EXC_RETURN] else basic
  }

  function InitialTop(b: Build, top: int): Word {
    top - if b.fpu then 17 else 16
  }

  /** A frame built for a new task is what the restore path and exception return consume: the task starts at its
      entry point with its argument, returns to the exit hook, has no FPU state, and its stack pointer is just above
      the frame, and of its status only the T bit is set. Registers it does not initialise are whatever was there. */
  lemma InitialFrameResumes(b: Build, m: Memory, top: Word, entry: Word, arg: Word, returnAddress: Word)
    ensures var m' := InitialMemory(b, m, top, entry, arg, returnAddress);
            var c := Resume(b, m', InitialTop(b, top));
            && c.pc == entry - entry % 2 && c.args[0] == arg && c.lr == returnAddress
            && c.xpsr == 0x0100_0000 && c.psp == top && c.fp == None
            && ValidContext(b, c) && Restorable(b, m', InitialTop(b, top)) && SavedEnd(b, m', InitialTop(b, top)) == top
  {
    var m' := InitialMemory(b, m, top, entry, arg, returnAddress);
    assert Bit4(INITIAL_EXC_RETURN) && !Bit9(INITIAL_XPSR);
    assert b.fpu ==> Read(m', InitialTop(b, top) + 8) == INITIAL_EXC_RETURN;
    assert !SavedExtended(b, m', InitialTop(b, top));
  }
}
