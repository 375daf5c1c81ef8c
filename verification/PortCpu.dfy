/**
 The context-switch code of the port, instruction by instruction, on a core whose registers and
 memory it updates in place. Each method is tied to the frames of ContextFrame.
 */
module PortCpu {
  import opened Words
  import opened ContextFrame
  import Tasks = ContextSwitch

  /** The status word that exception return will pop. */
  lemma FrameAccepted(b: Build, m: Memory, top: int)
    requires Restorable(b, m, top)
    ensures b.fpu ==> ReturnsToTask(b, Read(m, top + 8))
    ensures Thumb(Read(m, SavedHardwarePtr(b, m, top) + 7))
  {
  }

  lemma FpuBit()
    ensures Bit4(EXC_RETURN_BASIC) && !Bit4(EXC_RETURN_EXTENDED)
  {
  }

  class Cpu {
    const build: Build
    const maxSyscallPriority: Word
    const returnAddress: Word

    var args: seq<Word>     // R0-R3
    var low: seq<Word>      // R4-R7
    var high: seq<Word>     // R8-R11
    var r12: Word
    var lr: Word
    var pc: Word
    var xpsr: Word
    var psp: Word
    var mask: Word          // BASEPRI, or PRIMASK on cores without it; zero lets PendSV through
    var fpca: bool          // CONTROL.FPCA
    var fpLow: seq<Word>    // S0-S15
    var fpHigh: seq<Word>   // S16-S31
    var fpscr: Word
    var memory: Memory
    var currentTCB: int

    predicate Valid()
      reads this
    {
      |args| == |low| == |high| == 4 && |fpLow| == |fpHigh| == 16 && (fpca ==> build.fpu)
    }

    /** What the interrupted task sees; meaningful in thread mode. */
    function View(): Context
      reads this
    {
      Context(args, low, high, r12, lr, pc, xpsr, psp, if fpca then Some(FpContext(fpLow, fpHigh, fpscr)) else None)
    }

    constructor (b: Build, syscallPriority: Word, exitHook: Word)
      ensures Valid() && build == b && maxSyscallPriority == syscallPriority && returnAddress == exitHook
      ensures memory == map[] && mask == 0 && !fpca
    {
      build, maxSyscallPriority, returnAddress := b, syscallPriority, exitHook;
      args, low, high := [0, 0, 0, 0], [0, 0, 0, 0], [0, 0, 0, 0];
      fpLow, fpHigh := seq(16, _ => 0), seq(16, _ => 0);
      r12, lr, pc, xpsr, psp, mask, fpscr, currentTCB := 0, 0, 0, 0, 0, 0, 0, 0;
      fpca := false;
      memory := map[];
    }

    /** Store-multiple: the words `ws` at ascending addresses from `base`. */
    method StoreMultiple(base: Word, ws: seq<Word>)
      modifies this`memory
      ensures Load(memory, base, |ws|) == ws
      ensures forall x :: !(base <= x < base + |ws|) ==> Read(memory, x) == Read(old(memory), x)
      ensures forall a, n: nat {:trigger Load(memory, a, n)} ::
                a + n <= base || base + |ws| <= a ==> Load(memory, a, n) == Load(old(memory), a, n)
    {
      ghost var m := memory;
      memory := Store(memory, base, ws);
      LoadStored(m, base, ws);
      forall x | !(base <= x < base + |ws|)
        ensures Read(memory, x) == Read(m, x)
      {
        ReadStored(m, base, ws, x);
      }
      forall a, n: nat | a + n <= base || base + |ws| <= a
        ensures Load(memory, a, n) == Load(m, a, n)
      {
        LoadAgrees(memory, m, a, n);
      }
    }

    /** Store one word. */
    method StoreWord(a: int, w: Word)
      modifies this`memory
      ensures Read(memory, a) == w
      ensures forall x :: x != a ==> Read(memory, x) == Read(old(memory), x)
      ensures forall b, n: nat {:trigger Load(memory, b, n)} ::
                !(b <= a < b + n) ==> Load(memory, b, n) == Load(old(memory), b, n)
    {
      memory := memory[a := w];
      forall b, n: nat | !(b <= a < b + n)
        ensures Load(memory, b, n) == Load(old(memory), b, n)
      {
        LoadAgrees(memory, old(memory), b, n);
      }
    }

    /** Hardware: stack the caller-saved registers and put EXC_RETURN in LR. */
    method ExceptionEntry()
      requires Valid()
      modifies this`psp, this`lr, this`memory
      ensures psp == HardwarePtr(old(View())) && lr == ExcReturn(old(View()))
      ensures HardwareFrameAt(memory, old(View()))
      ensures forall x :: !(psp <= x < old(psp)) ==> Read(memory, x) == Read(old(memory), x)
    {
      hide Read, Load, StackedXpsr;
      var c := View();
      psp := HardwarePtr(c);
      StoreMultiple(psp, args);
      StoreWord(psp + 4, r12);
      StoreWord(psp + 5, lr);
      StoreWord(psp + 6, pc);
      StoreWord(psp + 7, StackedXpsr(c));
      if fpca {
        StoreMultiple(psp + 8, fpLow);
        StoreWord(psp + 24, fpscr);
      }
      lr := ExcReturn(c);
    }

    /** The handler has been entered from context `c`, and its control block is not where the frame goes. */
    ghost predicate Entered(c: Context)
      reads this
    {
      && Valid() && ValidContext(build, c)
      && HardwareFrameAt(memory, c) && psp == HardwarePtr(c) && lr == ExcReturn(c)
      && low == c.low && high == c.high && (c.fp.Some? ==> fpHigh == c.fp.value.high)
      && !(SavedTop(build, c) <= currentTCB < c.psp)
    }

    /** PendSV_Handler up to the point where stack preservation is complete. */
    method PreserveContext(ghost c: Context)
      requires Entered(c)
      modifies this`low, this`psp, this`memory
      ensures Valid() && psp == if build.stackMonitor then SavedTop(build, c) else old(psp)
      ensures Saved(build, old(memory), memory, currentTCB, c)
    {
      if build.fpu {
        PreserveWithFpu(c);
      } else {
        PreserveWithoutFpu(c);
      }
    }

    method PreserveWithFpu(ghost c: Context)
      requires build.fpu
      requires Entered(c)
      modifies this`low, this`psp, this`memory
      ensures Valid() && psp == if build.stackMonitor then SavedTop(build, c) else old(psp)
      ensures Saved(build, old(memory), memory, currentTCB, c)
    {
      hide Read, Load, Bit4, Bit9, StackedXpsr;
      var r1: int := currentTCB;
      var r2: Word := psp;
      FpuBit();
      if !Bit4(lr) {
        r2 := r2 - 16;
        StoreMultiple(r2, fpHigh);
      }
      r2 := r2 - 9;
      StoreMultiple(r2, low);
      StoreMultiple(r2 + 4, high);
      StoreWord(r2 + 8, lr);
      StoreWord(r1, r2);
      if build.stackMonitor {
        psp := r2;
      }
    }

    method PreserveWithoutFpu(ghost c: Context)
      requires !build.fpu
      requires Entered(c)
      modifies this`low, this`psp, this`memory
      ensures Valid() && psp == if build.stackMonitor then SavedTop(build, c) else old(psp)
      ensures Saved(build, old(memory), memory, currentTCB, c)
    {
      hide Read, Load, Bit4, Bit9, StackedXpsr;
      var r1: int := currentTCB;
      var r2: Word := psp;
      r2 := r2 - 8;
      StoreWord(r1, r2);
      if build.stackMonitor {
        psp := r2;
      }
      StoreMultiple(r2, low);
      r2 := r2 + 4;
      low := high;
      StoreMultiple(r2, low);
      r2 := r2 + 4;
    }

    /** vTaskSwitchContext: called with kernel interrupts masked, the scheduler picks the next task and may
        write its own data; the call may clobber R0-R3 and R12. */
    method TaskSwitchContext(next: int, writes: Memory, scratch: seq<Word>)
      requires Valid() && |scratch| == 5 && mask == maxSyscallPriority
      modifies this`currentTCB, this`memory, this`args, this`r12
      ensures Valid() && currentTCB == next && memory == old(memory) + writes
    {
      currentTCB := next;
      memory := memory + writes;
      args, r12 := scratch[..4], scratch[4];
    }

    /** rm_freertos_port_restore_task_stackless and the exception return it ends with. */
    method RestoreTask()
      requires Valid() && Restorable(build, memory, Read(memory, currentTCB))
      modifies this`args, this`low, this`high, this`r12, this`lr, this`pc, this`xpsr, this`psp
      modifies this`fpca, this`fpLow, this`fpHigh, this`fpscr
      ensures Valid() && View() == Resume(build, memory, Read(memory, currentTCB))
    {
      hide Bit4, Bit9, Read, Load, PoppedPsp, PoppedXpsr, SavedExtended, SavedHardwarePtr;
      ghost var top := Read(memory, currentTCB);
      FrameAccepted(build, memory, top);
      var excReturn := LoadRegisters();
      ExceptionReturn(excReturn);
    }

    /** The loads of the restore path, up to the branch to EXC_RETURN. */
    method LoadRegisters() returns (excReturn: Word)
      requires Valid() && (build.fpu ==> ReturnsToTask(build, Read(memory, Read(memory, currentTCB) + 8)))
      modifies this`low, this`high, this`lr, this`psp, this`fpHigh
      ensures Valid()
      ensures var top := Read(memory, currentTCB);
              var extended := SavedExtended(build, memory, top);
              && low == Load(memory, top, 4) && high == Load(memory, top + 4, 4)
              && psp == SavedHardwarePtr(build, memory, top)
              && extended == (build.fpu && !Bit4(excReturn))
              && ReturnsToTask(build, excReturn)
              && (extended ==> fpHigh == Load(memory, top + 9, 16))
    {
      hide Bit4, Read, Load;
      var r1: int := currentTCB;
      var r2: Word := Read(memory, r1);
      if build.fpu {
        low, high, lr := Load(memory, r2, 4), Load(memory, r2 + 4, 4), Read(memory, r2 + 8);
        r2 := r2 + 9;
        if !Bit4(lr) {
          fpHigh := Load(memory, r2, 16);
          r2 := r2 + 16;
        }
        psp := r2;
        excReturn := lr;
      } else {
        r2 := r2 + 4;
        low := Load(memory, r2, 4);
        r2 := r2 + 4;
        high := low;
        psp := r2;
        r2 := r2 - 8;
        low := Load(memory, r2, 4);
        r2 := r2 + 4;
        excReturn := EXC_RETURN_BASIC;
      }
    }

    /** Hardware: pop the frame that EXC_RETURN describes. It demands a return to a task and the T bit of the popped
        status word; anything else would fault. */
    method ExceptionReturn(excReturn: Word)
      requires Valid() && ReturnsToTask(build, excReturn) && Thumb(Read(memory, psp + 7))
      modifies this`args, this`r12, this`lr, this`pc, this`xpsr, this`psp, this`fpca, this`fpLow, this`fpscr
      ensures Valid() && fpca == (build.fpu && !Bit4(excReturn))
      ensures var hw := old(psp);
              && args == Load(memory, hw, 4) && r12 == Read(memory, hw + 4) && lr == Read(memory, hw + 5)
              && pc == Read(memory, hw + 6) && xpsr == PoppedXpsr(Read(memory, hw + 7))
              && psp == PoppedPsp(hw, fpca, Read(memory, hw + 7))
              && (fpca ==> fpLow == Load(memory, hw + 8, 16) && fpscr == Read(memory, hw + 24))
    {
      hide Bit4, Bit9, Read, Load, PoppedPsp, PoppedXpsr;
      PopFpState(excReturn);
      var hw := psp;
      args, r12 := Load(memory, hw, 4), Read(memory, hw + 4);
      lr, pc := Read(memory, hw + 5), Read(memory, hw + 6);
      xpsr, psp := PoppedXpsr(Read(memory, hw + 7)), PoppedPsp(hw, fpca, Read(memory, hw + 7));
    }

    /** Hardware: the FPU part of an extended frame. */
    method PopFpState(excReturn: Word)
      requires Valid()
      modifies this`fpca, this`fpLow, this`fpscr
      ensures Valid() && fpca == (build.fpu && !Bit4(excReturn))
      ensures fpca ==> fpLow == Load(memory, psp + 8, 16) && fpscr == Read(memory, psp + 24)
    {
      hide Bit4, Read, Load;
      fpca := build.fpu && !Bit4(excReturn);
      if fpca {
        fpLow, fpscr := Load(memory, psp + 8, 16), Read(memory, psp + 24);
      }
    }

    /** PendSV_Handler, from the exception that enters it to the return into the next task: the outgoing
        context is saved, the incoming one resumed, and interrupts are left unmasked. */
    method PendSVHandler(next: int, writes: Memory, scratch: seq<Word>) returns (ghost saved: Memory)
      requires Valid() && ValidContext(build, View()) && |scratch| == 5
      requires !(SavedTop(build, View()) <= currentTCB < psp)
      requires forall saved: Memory :: Saved(build, memory, saved, currentTCB, View()) ==>
                                         Restorable(build, saved + writes, Read(saved + writes, next))
      modifies this
      ensures Valid() && currentTCB == next && mask == 0
      ensures Saved(build, old(memory), saved, old(currentTCB), old(View()))
      ensures memory == saved + writes
      ensures View() == Resume(build, memory, Read(memory, next))
    {
      ghost var c := View();
      hide Resume, Read, HardwareFrameAt, SavedTop, Saved, HardwarePtr, ExcReturn, Bit9;
      ExceptionEntry();
      ghost var entered := memory;
      PreserveContext(c);
      SavedSinceEntry(build, old(memory), entered, memory, currentTCB, c);
      saved := memory;
      mask := maxSyscallPriority;
      TaskSwitchContext(next, writes, scratch);
      mask := 0;
      RestoreTask();
    }

    /** The handler performs exactly a switch step of the interleaving model. */
    method SwitchTask(ghost sys: Tasks.System, ghost from: nat, ghost to: nat,
                      next: int, writes: Memory, scratch: seq<Word>)
      requires Valid() && |scratch| == 5 && Tasks.WellFormed(sys) && sys.build == build
      requires from < |sys.tasks| && currentTCB == sys.tasks[from].tcb
      requires to < |sys.tasks| && next == sys.tasks[to].tcb
      requires Tasks.HasRoom(sys, Tasks.State(View(), memory, from))
      requires to == from || Tasks.FrameOnStack(sys, memory, to)
      requires forall t, x :: 0 <= t < |sys.tasks| && x in writes ==> !Tasks.Owned(sys, t, x)
      modifies this
      ensures Valid() && currentTCB == sys.tasks[to].tcb && mask == 0
      ensures Tasks.Next(sys, Tasks.State(old(View()), old(memory), from), Tasks.Switch(to),
                         Tasks.State(View(), memory, to))
    {
      ghost var s := Tasks.State(View(), memory, from);
      forall saved: Memory | Saved(build, memory, saved, currentTCB, View())
        ensures Restorable(build, saved + writes, Read(saved + writes, next))
      {
        assert Tasks.KeepsAll(sys, saved, saved + writes);
        Tasks.ReadyAfterSaving(sys, s, saved, saved + writes, to);
        assert Tasks.Owned(sys, to, next);
      }
      ghost var saved := PendSVHandler(next, writes, scratch);
      assert Tasks.KeepsAll(sys, saved, memory);
    }

    /** Initialising a task's stack and recording its top of stack is a create step of that model. */
    method CreateTask(ghost sys: Tasks.System, ghost self: nat, ghost t: nat,
                      tcb: int, topOfStack: Word, code: Word, parameters: Word)
      requires Valid() && sys.build == build && sys.returnAddress == returnAddress
      requires self < |sys.tasks| && t < |sys.tasks| && t != self && tcb == sys.tasks[t].tcb
      requires sys.tasks[t].lo <= InitialTop(build, topOfStack) && topOfStack <= sys.tasks[t].hi
      modifies this`memory
      ensures Tasks.Next(sys, Tasks.State(old(View()), old(memory), self),
                         Tasks.Create(t, topOfStack, code, parameters), Tasks.State(View(), memory, self))
    {
      var top := InitialiseStack(topOfStack, code, parameters);
      memory := memory[tcb := top];
    }

    /** pxPortInitialiseStack: simulate the frame of an interrupted task; returns its top of stack. */
    method InitialiseStack(topOfStack: Word, code: Word, parameters: Word) returns (top: Word)
      modifies this`memory
      ensures top == InitialTop(build, topOfStack)
      ensures memory == InitialMemory(build, old(memory), topOfStack, code, parameters, returnAddress)
    {
      top := topOfStack - 1;
      memory := memory[top := INITIAL_XPSR];
      top := top - 1;
      memory := memory[top := code - code % 2];
      top := top - 1;
      memory := memory[top := returnAddress];
      top := top - 5;
      memory := memory[top := parameters];
      if build.fpu {
        top := top - 1;
        memory := memory[top := INITIAL_EXC_RETURN];
      }
      top := top - 8;
    }
  }
}
