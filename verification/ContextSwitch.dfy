/**
 Every interleaving of running, creating and switching tasks whose stacks are disjoint. The running
 task may compute and write anything that is not another task's stack or saved stack pointer, and so
 may the kernel inside vTaskSwitchContext; which task comes next is the scheduler's free choice.
 */
module ContextSwitch {
  import opened Words
  import opened ContextFrame

  /** A task's control block, whose first word is its saved top of stack, and its stack [lo, hi). */
  datatype Task = Task(tcb: int, lo: int, hi: int)

  datatype System = System(build: Build, tasks: seq<Task>, returnAddress: Word)

  /** The running task, what it sees of the core, and memory. */
  datatype State = State(context: Context, memory: Memory, current: nat)

  datatype Step =
    | Run
    | Create(task: nat, top: Word, entry: Word, arg: Word)
    | Switch(next: nat)

  ghost predicate WellFormed(sys: System) {
    && (forall i :: 0 <= i < |sys.tasks| ==> 0 <= sys.tasks[i].lo <= sys.tasks[i].hi < ADDRESS_LIMIT)
    && (forall i, j :: 0 <= i < |sys.tasks| && 0 <= j < |sys.tasks| ==>
          !(sys.tasks[j].lo <= sys.tasks[i].tcb < sys.tasks[j].hi))
    && (forall i, j :: 0 <= i < j < |sys.tasks| ==>
          && sys.tasks[i].tcb != sys.tasks[j].tcb
          && (sys.tasks[i].hi <= sys.tasks[j].lo || sys.tasks[j].hi <= sys.tasks[i].lo))
  }

  /** Address `x` belongs to task `t`: its saved stack pointer or a word of its stack. */
  predicate Owned(sys: System, t: nat, x: int)
    requires t < |sys.tasks|
  {
    x == sys.tasks[t].tcb || sys.tasks[t].lo <= x < sys.tasks[t].hi
  }

  /** From `m` to `m'`, the words of task `t` have kept their values. */
  ghost predicate Keeps(sys: System, t: nat, m: Memory, m': Memory)
    requires t < |sys.tasks|
  {
    forall x :: Owned(sys, t, x) ==> Read(m', x) == Read(m, x)
  }

  ghost predicate KeepsAllBut(sys: System, self: nat, m: Memory, m': Memory) {
    forall t :: 0 <= t < |sys.tasks| && t != self ==> Keeps(sys, t, m, m')
  }

  ghost predicate KeepsAll(sys: System, m: Memory, m': Memory) {
    forall t :: 0 <= t < |sys.tasks| ==> Keeps(sys, t, m, m')
  }

  /** The running task has room left on its own stack to be switched out. */
  predicate HasRoom(sys: System, s: State) {
    && s.current < |sys.tasks|
    && ValidContext(sys.build, s.context)
    && sys.tasks[s.current].lo <= SavedTop(sys.build, s.context)
    && s.context.psp <= sys.tasks[s.current].hi
  }

  ghost predicate Next(sys: System, s: State, step: Step, s': State) {
    s.current < |sys.tasks| &&
    match step
    case Run =>
      s'.current == s.current && KeepsAllBut(sys, s.current, s.memory, s'.memory)
    case Create(t, top, entry, arg) =>
      && t < |sys.tasks| && t != s.current
      && sys.tasks[t].lo <= InitialTop(sys.build, top) && top <= sys.tasks[t].hi
      && var m := InitialMemory(sys.build, s.memory, top, entry, arg, sys.returnAddress);
         s' == State(s.context, m[sys.tasks[t].tcb := InitialTop(sys.build, top)], s.current)
    case Switch(next) =>
      && next < |sys.tasks| && HasRoom(sys, s) && s'.current == next
      && (exists saved: Memory ::
            && Saved(sys.build, s.memory, saved, sys.tasks[s.current].tcb, s.context)
            && KeepsAll(sys, saved, s'.memory))
      && s'.context == Resume(sys.build, s'.memory, Read(s'.memory, sys.tasks[next].tcb))
  }

  /** A run of the system: each state leads to the next by the step between them. */
  ghost predicate Behaviour(sys: System, ss: seq<State>, steps: seq<Step>) {
    && |ss| == |steps| + 1
    && forall i :: 0 <= i < |steps| ==> Next(sys, ss[i], steps[i], ss[i + 1])
  }

  /** From state `i` to state `j` of a run, task `t` neither runs nor is created afresh. */
  ghost predicate Asleep(ss: seq<State>, steps: seq<Step>, t: nat, i: nat, j: nat)
    requires |ss| == |steps| + 1 && i <= j < |ss|
  {
    && (forall k :: i <= k <= j ==> ss[k].current != t)
    && (forall k :: i <= k < j ==> !(steps[k].Create? && steps[k].task == t))
  }

  /** What task `t` would resume with if it were switched in now. */
  function Pending(sys: System, m: Memory, t: nat): Context
    requires t < |sys.tasks|
  {
    Resume(sys.build, m, Read(m, sys.tasks[t].tcb))
  }

  /** The saved frame of task `t` lies on its own stack, and exception return accepts it. */
  predicate FrameOnStack(sys: System, m: Memory, t: nat)
    requires t < |sys.tasks|
  {
    var top := Read(m, sys.tasks[t].tcb);
    sys.tasks[t].lo <= top && SavedEnd(sys.build, m, top) <= sys.tasks[t].hi && Restorable(sys.build, m, top)
  }

  lemma KeptWordsResumeAlike(sys: System, m: Memory, m': Memory, t: nat)
    requires t < |sys.tasks| && FrameOnStack(sys, m, t) && Keeps(sys, t, m, m')
    ensures FrameOnStack(sys, m', t) && Pending(sys, m', t) == Pending(sys, m, t)
  {
    assert Owned(sys, t, sys.tasks[t].tcb);
    var top := Read(m, sys.tasks[t].tcb);
    forall x | top <= x < SavedEnd(sys.build, m, top)
      ensures Read(m, x) == Read(m', x)
    {
      assert Owned(sys, t, x);
    }
    ResumeAgrees(sys.build, m, m', top);
  }

  lemma Disjoint(sys: System, t: nat, u: nat, x: int)
    requires WellFormed(sys) && t < |sys.tasks| && u < |sys.tasks| && t != u && Owned(sys, t, x)
    ensures !Owned(sys, u, x)
  {
    var lesser, greater := if t < u then t else u, if t < u then u else t;
    assert sys.tasks[lesser].hi <= sys.tasks[greater].lo || sys.tasks[greater].hi <= sys.tasks[lesser].lo;
  }

  /** A step leaves alone the words of every task but the running one and one it creates. */
  lemma StepKeepsOthers(sys: System, s: State, step: Step, s': State, t: nat)
    requires WellFormed(sys) && Next(sys, s, step, s')
    requires t < |sys.tasks| && t != s.current && !(step.Create? && step.task == t)
    ensures Keeps(sys, t, s.memory, s'.memory)
  {
    match step
    case Run =>
    case Create(u, top, _, _) =>
      forall x | Owned(sys, t, x)
        ensures Read(s'.memory, x) == Read(s.memory, x)
      {
        Disjoint(sys, t, u, x);
      }
    case Switch(_) =>
      var saved :| Saved(sys.build, s.memory, saved, sys.tasks[s.current].tcb, s.context)
                   && KeepsAll(sys, saved, s'.memory);
      SavingKeepsOthers(sys, s, saved, t);
      assert Keeps(sys, t, saved, s'.memory);
  }

  /** A task's context is saved on its own stack and nowhere else. */
  lemma SavingKeepsOthers(sys: System, s: State, saved: Memory, t: nat)
    requires WellFormed(sys) && HasRoom(sys, s) && t < |sys.tasks| && t != s.current
    requires Saved(sys.build, s.memory, saved, sys.tasks[s.current].tcb, s.context)
    ensures Keeps(sys, t, s.memory, saved)
  {
    forall x | Owned(sys, t, x)
      ensures Read(saved, x) == Read(s.memory, x)
    {
      Disjoint(sys, t, s.current, x);
    }
  }

  /** While a task sleeps, whatever the others do, what it will resume with does not change. */
  lemma {:induction false} SleepingContextKept(sys: System, ss: seq<State>, steps: seq<Step>, t: nat, i: nat, j: nat)
    requires WellFormed(sys) && Behaviour(sys, ss, steps)
    requires t < |sys.tasks| && i <= j < |ss| && Asleep(ss, steps, t, i, j)
    requires FrameOnStack(sys, ss[i].memory, t)
    ensures Pending(sys, ss[j].memory, t) == Pending(sys, ss[i].memory, t)
    ensures FrameOnStack(sys, ss[j].memory, t)
    decreases j - i
  {
    if i < j {
      StepKeepsOthers(sys, ss[i], steps[i], ss[i + 1], t);
      KeptWordsResumeAlike(sys, ss[i].memory, ss[i + 1].memory, t);
      SleepingContextKept(sys, ss, steps, t, i + 1, j);
    }
  }

  /** A task that is to be switched in still has an acceptable frame when the running one has been saved. */
  lemma ReadyAfterSaving(sys: System, s: State, saved: Memory, m: Memory, t: nat)
    requires WellFormed(sys) && HasRoom(sys, s) && t < |sys.tasks|
    requires Saved(sys.build, s.memory, saved, sys.tasks[s.current].tcb, s.context) && KeepsAll(sys, saved, m)
    requires t == s.current || FrameOnStack(sys, s.memory, t)
    ensures FrameOnStack(sys, m, t)
  {
    if t == s.current {
      ResumeSaved(sys.build, saved, s.context);
    } else {
      SavingKeepsOthers(sys, s, saved, t);
      KeptWordsResumeAlike(sys, s.memory, saved, t);
    }
    KeptWordsResumeAlike(sys, saved, m, t);
  }

  /** Switching a task out leaves its whole context pending. */
  lemma SwitchSaves(sys: System, s: State, out: Step, s': State)
    requires WellFormed(sys) && out.Switch? && Next(sys, s, out, s')
    ensures Pending(sys, s'.memory, s.current) == s.context && FrameOnStack(sys, s'.memory, s.current)
  {
    var t, c := s.current, s.context;
    var saved :| Saved(sys.build, s.memory, saved, sys.tasks[t].tcb, c) && KeepsAll(sys, saved, s'.memory);
    ResumeSaved(sys.build, saved, c);
    KeptWordsResumeAlike(sys, saved, s'.memory, t);
  }

  /** Switching in a task that has slept since state `i` gives the context it had pending then. */
  lemma ResumesPending(sys: System, ss: seq<State>, steps: seq<Step>, t: nat, i: nat, j: nat)
    requires WellFormed(sys) && Behaviour(sys, ss, steps)
    requires t < |sys.tasks| && i <= j < |steps| && Asleep(ss, steps, t, i, j)
    requires FrameOnStack(sys, ss[i].memory, t)
    requires steps[j] == Switch(t)
    ensures ss[j + 1].context == Pending(sys, ss[i].memory, t) && FrameOnStack(sys, ss[j + 1].memory, t)
  {
    SleepingContextKept(sys, ss, steps, t, i, j);
    StepKeepsOthers(sys, ss[j], steps[j], ss[j + 1], t);
    KeptWordsResumeAlike(sys, ss[j].memory, ss[j + 1].memory, t);
  }

  /** Pre-emption is transparent. In any run, of any number of tasks, switch a task out at step `i`, let the others
      run, switch and create tasks in any order, and switch it in again at step `j`: its frame is accepted, and it
      sees every register, its stack pointer, its program counter and status and, if it was using it, the FPU
      exactly as before. */
  lemma PreemptionIsTransparent(sys: System, ss: seq<State>, steps: seq<Step>, i: nat, j: nat)
    requires WellFormed(sys) && Behaviour(sys, ss, steps)
    requires i < j < |steps| && steps[i].Switch?
    requires Asleep(ss, steps, ss[i].current, i + 1, j)
    requires steps[j] == Switch(ss[i].current)
    ensures ss[j + 1].context == ss[i].context && FrameOnStack(sys, ss[j + 1].memory, ss[i].current)
  {
    SwitchSaves(sys, ss[i], steps[i], ss[i + 1]);
    assert Next(sys, ss[i], steps[i], ss[i + 1]);
    ResumesPending(sys, ss, steps, ss[i].current, i + 1, j);
  }

  /** A scheduler that picks the running task again disturbs nothing either. */
  lemma SwitchToSelf(sys: System, s: State, s': State)
    requires WellFormed(sys) && Next(sys, s, Switch(s.current), s')
    ensures s'.context == s.context
  {
    SwitchSaves(sys, s, Switch(s.current), s');
  }

  /** However long a new task waits for its first turn, it starts at its entry point, with its
      argument in R0, the exit hook in LR, no FPU state and an empty stack. */
  lemma NewTaskStarts(sys: System, ss: seq<State>, steps: seq<Step>, i: nat, j: nat)
    requires WellFormed(sys) && Behaviour(sys, ss, steps)
    requires i < j < |steps| && steps[i].Create?
    requires Asleep(ss, steps, steps[i].task, i + 1, j)
    requires steps[j] == Switch(steps[i].task)
    ensures var c, create := ss[j + 1].context, steps[i];
            && c.pc == create.entry - create.entry % 2 && c.args[0] == create.arg
            && c.lr == sys.returnAddress && c.xpsr == 0x0100_0000
            && c.psp == create.top && c.fp == None
            && FrameOnStack(sys, ss[j + 1].memory, create.task)
  {
    var Create(t, top, entry, arg) := steps[i];
    assert Next(sys, ss[i], steps[i], ss[i + 1]);
    var m := InitialMemory(sys.build, ss[i].memory, top, entry, arg, sys.returnAddress);
    InitialFrameResumes(sys.build, ss[i].memory, top, entry, arg, sys.returnAddress);
    assert Owned(sys, t, sys.tasks[t].tcb);
    ResumeAgrees(sys.build, m, ss[i + 1].memory, InitialTop(sys.build, top));
    ResumesPending(sys, ss, steps, t, i + 1, j);
  }
}
