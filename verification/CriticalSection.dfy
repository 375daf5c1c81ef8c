/**
 One nesting counter and one saved mask, shared by all tasks. vPortEnterCritical and vPortExitCritical
 are split into their loads and stores, and the scheduler may switch between any two of them whenever
 the interrupt mask lets PendSV through. A switch leaves the mask at zero.
 */
module CriticalSection {

  const COUNTER_LIMIT := 0x1_0000_0000

  /** configMAX_SYSCALL_INTERRUPT_PRIORITY, or 1 for PRIMASK; the port refuses to build with zero. */
  type MaskLevel = m: int | 0 < m witness 1

  /** uxCriticalNesting, g_mask_level_before_disable and the core's mask register. */
  datatype Globals = Globals(mask: nat, nesting: nat, saved: nat)

  class Port {
    const level: MaskLevel
    var mask: nat
    var criticalNesting: nat
    var maskBeforeDisable: nat

    constructor (maxSyscallPriority: MaskLevel)
      ensures level == maxSyscallPriority && View() == Globals(0, 0, 0)
    {
      level := maxSyscallPriority;
      mask, criticalNesting, maskBeforeDisable := 0, 0, 0;
    }

    function View(): Globals
      reads this
    {
      Globals(mask, criticalNesting, maskBeforeDisable)
    }

    /** vPortEnterCritical. */
    method EnterCritical()
      modifies this
      ensures View() == Enter(old(View()), level)
    {
      var oldMask := mask;
      mask := level;
      criticalNesting := (criticalNesting + 1) % COUNTER_LIMIT;
      if criticalNesting == 1 {
        maskBeforeDisable := oldMask;
      }
    }

    /** vPortExitCritical; its assertion refuses an exit without an enter. */
    method ExitCritical()
      requires criticalNesting != 0
      modifies this
      ensures View() == Exit(old(View()))
    {
      criticalNesting := criticalNesting - 1;
      if criticalNesting == 0 {
        mask := maskBeforeDisable;
      }
    }
  }

  /** What a whole call of vPortEnterCritical does to the globals. */
  function Enter(g: Globals, level: MaskLevel): Globals {
    var n := (g.nesting + 1) % COUNTER_LIMIT;
    Globals(level, n, if n == 1 then g.mask else g.saved)
  }

  /** What a whole call of vPortExitCritical does to them. */
  function Exit(g: Globals): Globals
    requires g.nesting != 0
  {
    Globals(if g.nesting == 1 then g.saved else g.mask, g.nesting - 1, g.saved)
  }

  /** How far a task is through a call, with the values it holds in registers. */
  datatype Progress =
    | Outside
    | MaskRead(oldMask: nat)
    | MaskRaised(oldMask: nat)
    | CountLoaded(oldMask: nat, count: nat)
    | CountRaised(oldMask: nat)
    | SaveDue(oldMask: nat)
    | ExitLoaded(count: nat)
    | CountLowered
    | RestoreDue
    | SavedLoaded(value: nat)

  /** `depth` counts the task's completed enters less its completed exits; `before` is the mask it held
      when it last called enter at depth zero. */
  datatype Task = Task(at: Progress, depth: nat, before: nat)

  datatype State = State(g: Globals, tasks: seq<Task>, current: nat)

  datatype Step =
    | Advance                 // the running task's next load or store inside a call
    | CallEnter
    | CallExit
    | SetMask(value: nat)     // the running task changes its own mask outside any critical section
    | Switch(next: nat)

  predicate WellFormed(s: State) {
    s.current < |s.tasks|
  }

  function Running(s: State): Task
    requires WellFormed(s)
  {
    s.tasks[s.current]
  }

  predicate Enabled(s: State, step: Step) {
    WellFormed(s) &&
    match step
    case Advance => !Running(s).at.Outside?
    case CallEnter => Running(s).at.Outside? && Running(s).depth + 1 < COUNTER_LIMIT
    case CallExit => Running(s).at.Outside? && s.g.nesting != 0
    case SetMask(_) => Running(s).at.Outside? && Running(s).depth == 0
    case Switch(next) => s.g.mask == 0 && next < |s.tasks|
  }

  function Apply(s: State, step: Step, level: MaskLevel): (s': State)
    requires Enabled(s, step)
    ensures |s'.tasks| == |s.tasks|
  {
    match step
    case Advance => AdvanceCall(s, level)
    case CallEnter =>
      var t := Running(s);
      Update(s, s.g, Task(MaskRead(s.g.mask), t.depth, if t.depth == 0 then s.g.mask else t.before))
    case CallExit => Update(s, s.g, Running(s).(at := ExitLoaded(s.g.nesting)))
    case SetMask(v) => State(s.g.(mask := v), s.tasks, s.current)
    case Switch(next) => State(s.g.(mask := 0), s.tasks, next)
  }

  function Update(s: State, g: Globals, t: Task): (s': State)
    requires WellFormed(s)
    ensures |s'.tasks| == |s.tasks|
  {
    State(g, s.tasks[s.current := t], s.current)
  }

  /** The next load, store or test of the call the running task is in. */
  function AdvanceCall(s: State, level: MaskLevel): (s': State)
    requires WellFormed(s) && !Running(s).at.Outside?
    ensures |s'.tasks| == |s.tasks|
  {
    var t, g := Running(s), s.g;
    var returned := t.(at := Outside);
    match t.at
    case MaskRead(was) => Update(s, g.(mask := level), t.(at := MaskRaised(was)))
    case MaskRaised(was) => Update(s, g, t.(at := CountLoaded(was, g.nesting)))
    case CountLoaded(was, n) => Update(s, g.(nesting := (n + 1) % COUNTER_LIMIT), t.(at := CountRaised(was)))
    case CountRaised(was) =>
      if g.nesting == 1 then Update(s, g, t.(at := SaveDue(was)))
      else Update(s, g, returned.(depth := t.depth + 1))
    case SaveDue(was) => Update(s, g.(saved := was), returned.(depth := t.depth + 1))
    case ExitLoaded(n) => Update(s, g.(nesting := if n == 0 then COUNTER_LIMIT - 1 else n - 1), t.(at := CountLowered))
    case CountLowered =>
      if g.nesting == 0 then Update(s, g, t.(at := RestoreDue))
      else Update(s, g, returned.(depth := if t.depth == 0 then 0 else t.depth - 1))
    case RestoreDue => Update(s, g, t.(at := SavedLoaded(g.saved)))
    case SavedLoaded(v) => Update(s, g.(mask := v), returned.(depth := if t.depth == 0 then 0 else t.depth - 1))
  }

  predicate Initial(s: State) {
    && WellFormed(s)
    && s.g.mask == 0 && s.g.nesting == 0
    && forall t :: 0 <= t < |s.tasks| ==> s.tasks[t].at.Outside? && s.tasks[t].depth == 0
  }

  predicate Behaviour(ss: seq<State>, steps: seq<Step>, level: MaskLevel) {
    && |ss| == |steps| + 1
    && Initial(ss[0])
    && forall i :: 0 <= i < |steps| ==> Enabled(ss[i], steps[i]) && ss[i + 1] == Apply(ss[i], steps[i], level)
  }

  /** A task that is not running is outside any critical section; at most it has just read an open mask. */
  predicate Parked(t: Task) {
    t.depth == 0 && (t.at == Outside || (t.at == MaskRead(0) && t.before == 0))
  }

  /** What the globals hold at each point of the running task's progress. */
  predicate Consistent(g: Globals, t: Task, level: MaskLevel) {
    && t.depth < COUNTER_LIMIT
    && (t.depth > 0 && !t.at.SavedLoaded? ==> g.mask == level && g.saved == t.before)
    && match t.at
       case Outside => g.nesting == t.depth
       case MaskRead(was) => g.nesting == t.depth && was == g.mask && Entering(t, was)
       case MaskRaised(was) => g.mask == level && g.nesting == t.depth && Entering(t, was)
       case CountLoaded(was, n) => g.mask == level && g.nesting == n == t.depth && Entering(t, was)
       case CountRaised(was) => g.mask == level && g.nesting == t.depth + 1 && Entering(t, was)
       case SaveDue(was) => g.mask == level && g.nesting == 1 && t.depth == 0 && Entering(t, was)
       case ExitLoaded(n) => g.nesting == n == t.depth > 0
       case CountLowered => t.depth > 0 && g.nesting == t.depth - 1
       case RestoreDue => t.depth == 1 && g.nesting == 0
       case SavedLoaded(v) => t.depth == 1 && g.nesting == 0 && g.mask == level && v == t.before
  }

  predicate Entering(t: Task, oldMask: nat) {
    t.depth + 1 < COUNTER_LIMIT && (t.depth == 0 ==> oldMask == t.before)
  }

  predicate Inv(s: State, level: MaskLevel) {
    && WellFormed(s)
    && Consistent(s.g, Running(s), level)
    && forall t :: 0 <= t < |s.tasks| && t != s.current ==> Parked(s.tasks[t])
  }

  lemma StepKeepsInv(s: State, step: Step, level: MaskLevel)
    requires Inv(s, level) && Enabled(s, step)
    ensures Inv(Apply(s, step, level), level)
  {
    var s' := Apply(s, step, level);
    if step.Switch? {
      assert Parked(Running(s));
      forall t | 0 <= t < |s'.tasks| && t != s'.current
        ensures Parked(s'.tasks[t])
      {
      }
    }
  }

  lemma {:induction false} InvHolds(ss: seq<State>, steps: seq<Step>, level: MaskLevel, i: nat)
    requires Behaviour(ss, steps, level) && i < |ss|
    ensures Inv(ss[i], level)
  {
    if i > 0 {
      InvHolds(ss, steps, level, i - 1);
      StepKeepsInv(ss[i - 1], steps[i - 1], level);
    }
  }

  /** In every reachable state the one counter serves all tasks: no task but the running one is inside a
      critical section; between calls the counter is exactly the running task's nesting depth, and
      interrupts are masked whenever that depth is not zero. */
  lemma CounterIsSound(ss: seq<State>, steps: seq<Step>, level: MaskLevel, i: nat)
    requires Behaviour(ss, steps, level) && i < |ss|
    ensures var s := ss[i];
            && WellFormed(s)
            && (forall t :: 0 <= t < |s.tasks| && t != s.current ==> s.tasks[t].depth == 0)
            && (Running(s).at.Outside? ==> s.g.nesting == Running(s).depth)
            && (Running(s).depth > 0 ==> s.g.mask == level)
  {
    InvHolds(ss, steps, level, i);
  }

  /** A critical section is never interrupted by another task: while a task's depth stays above zero,
      every step of the run is its own. */
  lemma CriticalSectionIsAtomic(ss: seq<State>, steps: seq<Step>, level: MaskLevel, t: nat, i: nat, j: nat)
    requires Behaviour(ss, steps, level) && i <= j < |ss|
    requires forall k :: i <= k <= j ==> t < |ss[k].tasks| && ss[k].tasks[t].depth > 0
    ensures forall k :: i <= k <= j ==> ss[k].current == t
    ensures forall k :: i <= k < j ==> !steps[k].Switch?
  {
    forall k | i <= k <= j
      ensures ss[k].current == t
      ensures k < j ==> !steps[k].Switch?
    {
      InvHolds(ss, steps, level, k);
      assert k < j ==> Enabled(ss[k], steps[k]);
    }
  }

  /** Task `t` is somewhere between calling its outermost enter and returning from the matching exit. */
  predicate Bracketed(s: State, t: nat) {
    t < |s.tasks| && (s.tasks[t].depth > 0 || !s.tasks[t].at.Outside?)
  }

  /** While a task is bracketed, the mask it entered with is remembered. */
  lemma {:induction false} EntryMaskRemembered(
    ss: seq<State>, steps: seq<Step>, level: MaskLevel, t: nat, i: nat, j: nat)
    requires Behaviour(ss, steps, level) && i <= j < |ss|
    requires forall k :: i <= k <= j ==> Bracketed(ss[k], t)
    ensures Bracketed(ss[i], t) && Bracketed(ss[j], t)
    ensures ss[j].tasks[t].before == ss[i].tasks[t].before
    decreases j - i
  {
    if i < j {
      EntryMaskRemembered(ss, steps, level, t, i, j - 1);
      InvHolds(ss, steps, level, j - 1);
      StepRemembers(ss[j - 1], steps[j - 1], level, t);
    }
  }

  lemma StepRemembers(s: State, step: Step, level: MaskLevel, t: nat)
    requires Inv(s, level) && Enabled(s, step) && Bracketed(s, t)
    ensures Apply(s, step, level).tasks[t].before == s.tasks[t].before
  {
  }

  /** The outermost exit restores the mask held before the outermost enter, whatever nested sections,
      and whatever other tasks before the mask went up, came in between. */
  lemma OutermostExitRestoresMask(
    ss: seq<State>, steps: seq<Step>, level: MaskLevel, t: nat, i: nat, j: nat)
    requires Behaviour(ss, steps, level) && i < j < |steps|
    requires ss[i].current == t && steps[i].CallEnter? && ss[i].tasks[t].depth == 0
    requires forall k :: i < k <= j ==> Bracketed(ss[k], t)
    requires !Bracketed(ss[j + 1], t)
    ensures ss[j + 1].current == t && ss[j + 1].g.mask == ss[i].g.mask && ss[j + 1].g.nesting == 0
  {
    assert Enabled(ss[i], steps[i]) && ss[i + 1] == Apply(ss[i], steps[i], level);
    assert ss[i + 1].tasks[t].before == ss[i].g.mask;
    EntryMaskRemembered(ss, steps, level, t, i + 1, j);
    InvHolds(ss, steps, level, j);
    assert Bracketed(ss[j], t);
    assert Enabled(ss[j], steps[j]) && ss[j + 1] == Apply(ss[j], steps[j], level);
    assert ss[j].current == t;
  }

  /** Run the call the running task is in to its end, with no switch in between. */
  function Finish(s: State, level: MaskLevel, fuel: nat): (s': State)
    requires WellFormed(s)
    ensures |s'.tasks| == |s.tasks|
    decreases fuel
  {
    if fuel == 0 || Running(s).at.Outside? then s else Finish(AdvanceCall(s, level), level, fuel - 1)
  }

  /** The loads and stores of an enter, taken together, have the effect of the whole call. */
  lemma EnterIsWhole(s: State, level: MaskLevel)
    requires Inv(s, level) && Enabled(s, CallEnter)
    ensures var s' := Finish(Apply(s, CallEnter, level), level, 5);
            s'.g == Enter(s.g, level) && Running(s') == Task(Outside, Running(s).depth + 1, Running(s').before)
  {
    var s1 := AdvanceCall(Apply(s, CallEnter, level), level);
    var s3 := AdvanceCall(AdvanceCall(s1, level), level);
    assert Finish(s1, level, 4) == Finish(s3, level, 2);
  }

  /** Likewise the loads and stores of an exit. */
  lemma ExitIsWhole(s: State, level: MaskLevel)
    requires Inv(s, level) && Enabled(s, CallExit)
    ensures var s' := Finish(Apply(s, CallExit, level), level, 4);
            s'.g == Exit(s.g) && Running(s') == Running(s).(depth := Running(s).depth - 1)
  {
    var s2 := AdvanceCall(AdvanceCall(Apply(s, CallExit, level), level), level);
    assert Finish(Apply(s, CallExit, level), level, 4) == Finish(s2, level, 2);
  }
}
