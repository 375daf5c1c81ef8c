/**
 Tickless idle: SysTick is reloaded to skip several tick interrupts, and the ticks that were skipped are
 added to the kernel's time on waking, either early or when SysTick expires. All C arithmetic is modulo 2^32.
 */
module TicklessIdle {
  import opened Division

  const U32_LIMIT := 0x1_0000_0000
  const MAX_24_BIT: U32 := 0xffffff

  type U32 = n: int | 0 <= n < U32_LIMIT

  function Sub32(a: int, b: int): U32 {
    (a - b) % U32_LIMIT
  }

  function Add32(a: int, b: int): U32 {
    (a + b) % U32_LIMIT
  }

  function Mul32(a: int, b: int): U32 {
    (a * b) % U32_LIMIT
  }

  /** The number of ticks a sleep may actually suppress. */
  function Suppressed(expected: U32, maxSuppressed: U32): U32 {
    if expected > maxSuppressed then maxSuppressed else expected
  }

  /** SysTick counts from the start of a sleep to its expiry, as an integer. */
  function SleepLength(period: int, suppressed: int, phase: int): int {
    period * (suppressed - 1) + phase
  }

  /** Tick boundaries passed by the time `d` counts have elapsed, had the timer kept its period: the
      counts at which a timer with `phase` counts to go reaches zero. */
  ghost function BoundariesPassed(period: int, phase: int, d: nat): nat
    requires 0 <= phase < period
  {
    if d == 0 then 0
    else BoundariesPassed(period, phase, d - 1) + if (d - phase) % period == 0 then 1 else 0
  }

  /** The SysTick counter: LOAD, VAL, COUNTFLAG and the pending bit of its interrupt (section B3.3 of the ARMv7-M
      Architecture Reference Manual). */
  datatype Counter = Counter(load: int, val: int, countFlag: bool, pending: bool)

  /** One clock: the counter reloads from zero, and reaching zero sets the flag and pends the interrupt. */
  function Clock(c: Counter): Counter {
    if c.val == 0 then c.(val := c.load)
    else if c.val == 1 then c.(val := 0, countFlag := true, pending := true)
    else c.(val := c.val - 1)
  }

  function Clocked(c: Counter, n: nat): Counter {
    if n == 0 then c else Clock(Clocked(c, n - 1))
  }

  /** LOAD and then VAL are written, which reloads the counter and clears COUNTFLAG; LOAD is left at `load`. */
  function Reloaded(c: Counter, val: int, load: int): Counter {
    Counter(load, val, false, c.pending)
  }

  /** The counter, g_reset_systick and the kernel's tick count. */
  datatype Account = Account(counter: Counter, reset: int, ticks: int)

  /** What rm_freertos_port_reset_systick leaves behind. */
  function Settled(a: Account, period: int, fraction: int, completed: int): Account {
    Account(Reloaded(a.counter, fraction, period - 1), 0, a.ticks + completed)
  }

  /** SysTick_Handler, on entry to which the interrupt is no longer pending. */
  function Handled(a: Account, period: int): Account
    requires period > 0
  {
    if a.reset == 0 then a.(ticks := a.ticks + 1)
    else Settled(a, period, Sub32(a.reset, a.counter.val), Sub32(a.reset / period, 1) + 1)
  }

  /** Interrupts are open: the handler runs if SysTick is pending. */
  function Served(a: Account, period: int): Account
    requires period > 0
  {
    if a.counter.pending then Handled(a.(counter := a.counter.(pending := false)), period) else a
  }

  /** The test after the sleep; reading CTRL clears COUNTFLAG. */
  function Tested(a: Account, period: int, reload: int): Account
    requires period > 0
  {
    var decrements := Sub32(reload, a.counter.val);
    if a.counter.countFlag then a.(counter := a.counter.(countFlag := false))
    else Settled(a, period, decrements % period, decrements / period)
  }

  function Ran(a: Account, n: nat): Account {
    a.(counter := Clocked(a.counter, n))
  }

  /** The timing of one call, in counts: from the restart of the counter to the moment interrupts are opened and a
      pending handler reads the counter, unless the sleep is aborted and they are not; then to the test. */
  datatype Course = Course(opens: bool, asleep: nat, awake: nat)

  /** A whole call, from the restart of the counter with `reload` to the interrupts opened at its end. */
  function Slept(a: Account, period: int, reload: int, course: Course): Account
    requires period > 0
  {
    var restarted := Account(Reloaded(a.counter, reload, reload), reload, a.ticks);
    var woken := Ran(restarted, course.asleep);
    var served := if course.opens then Served(woken, period) else woken;
    Served(Tested(Ran(served, course.awake), period, reload), period)
  }

  class Timer {
    var load: U32            // SysTick->LOAD
    var val: U32             // SysTick->VAL
    var countFlag: bool      // SysTick->CTRL, COUNTFLAG
    var pending: bool        // the SysTick interrupt is pending
    var resetSystick: U32    // g_reset_systick
    const countsPerTick: U32   // ulTimerCountsForOneTick, set once
    const maxSuppressed: U32   // xMaximumPossibleSuppressedTicks, set once
    var ticks: int           // the kernel's tick count

    function View(): Account
      reads this
    {
      Account(Counter(load, val, countFlag, pending), resetSystick, ticks)
    }

    /** At least two ticks fit in the counter. */
    ghost predicate Ticking() {
      countsPerTick > 0 && maxSuppressed == MAX_24_BIT / countsPerTick && maxSuppressed >= 2
    }

    /** vPortSetupTimerInterrupt, with SysTick clocked at the core frequency. SysTick_Config sets the period and
        restarts the counter, unless the period does not fit it. */
    constructor (clockHz: U32, tickRateHz: U32, loadBefore: U32, valBefore: U32)
      requires 0 < tickRateHz <= clockHz
      ensures countsPerTick == clockHz / tickRateHz && maxSuppressed == MAX_24_BIT / countsPerTick
      ensures var fits := countsPerTick - 1 <= MAX_24_BIT;
              View() == Account(Counter(if fits then countsPerTick - 1 else loadBefore,
                                        if fits then 0 else valBefore, false, false), 0, 0)
      ensures Ticking() <==> clockHz / tickRateHz <= MAX_24_BIT / 2
    {
      var counts := clockHz / tickRateHz;
      QuotientPositive(clockHz, tickRateHz);
      countsPerTick := counts;
      maxSuppressed := MAX_24_BIT / counts;
      load, val := loadBefore, valBefore;
      if counts - 1 <= MAX_24_BIT {
        load, val := counts - 1, 0;
      }
      countFlag, pending := false, false;
      resetSystick := 0;
      ticks := 0;
      new;
      TwoTicksFit(counts);
    }

    /** rm_freertos_port_reset_systick: reload, then restore the period and account for the ticks. */
    method ResetSystick(fraction: U32, completedTicks: U32)
      requires countsPerTick > 0
      modifies this
      ensures View() == Settled(old(View()), countsPerTick, fraction, completedTicks)
    {
      load := fraction;
      WriteVal();
      load := Sub32(countsPerTick, 1);
      ticks := ticks + completedTicks;    // vTaskStepTick
      resetSystick := 0;
    }

    /** Hardware: writing VAL reloads the counter and clears COUNTFLAG, without pending the interrupt. */
    method WriteVal()
      modifies this`val, this`countFlag
      ensures val == load && !countFlag
    {
      val, countFlag := load, false;
    }

    /** vPortSuppressTicksAndSleep up to the point where the core sleeps. The reload value heeds the
        expected idle time, it fits the 24-bit counter, and none of the unsigned arithmetic wraps. */
    method BeginSleep(expectedIdleTime: U32) returns (reload: U32)
      requires Ticking() && expectedIdleTime >= 2 && val < countsPerTick
      modifies this
      ensures reload == SleepLength(countsPerTick, Suppressed(expectedIdleTime, maxSuppressed), old(val))
      ensures HeedsExpected(countsPerTick, expectedIdleTime, old(val), reload)
      ensures countsPerTick <= reload <= 0xff_ffff
      ensures View() == Account(Reloaded(old(View().counter), reload, reload), reload, old(ticks))
    {
      var expected := expectedIdleTime;
      if expected > maxSuppressed {
        expected := maxSuppressed;
      }
      NothingWraps(countsPerTick, expected, val);
      ExpectedHeeded(countsPerTick, expectedIdleTime, val);
      hide Mul32, Add32, Sub32, SleepLength;
      reload := Mul32(countsPerTick, Sub32(expected, 1));
      reload := Add32(reload, val);
      load := reload;
      WriteVal();
      resetSystick := reload;
    }

    /** The counter runs for `n` clocks. */
    method Run(n: nat)
      modifies this`val, this`countFlag, this`pending
      ensures View() == Ran(old(View()), n)
    {
      var i := 0;
      while i < n
        invariant 0 <= i <= n
        invariant View() == Ran(old(View()), i)
      {
        if val == 0 {
          val := load;
        } else {
          val := val - 1;
          if val == 0 {
            countFlag, pending := true, true;
          }
        }
        i := i + 1;
      }
    }

    /** The part of vPortSuppressTicksAndSleep under the test, for a counter that has run `d` counts of its sleep: the
        ticks recorded are never ahead of the boundaries passed and at most one behind, and exact unless
        the sleep ended past the phase of its last period. */
    method WakeEarly(reload: U32, ghost phase: U32, ghost suppressed: U32, ghost d: nat)
      requires Ticking() && phase < countsPerTick && 2 <= suppressed <= maxSuppressed
      requires reload == SleepLength(countsPerTick, suppressed, phase) && val == reload - d
      modifies this
      ensures View() == Settled(old(View()), countsPerTick, d % countsPerTick, d / countsPerTick)
      ensures d / countsPerTick <= suppressed - 1
      ensures var passed := BoundariesPassed(countsPerTick, phase, d);
              var recorded := ticks - old(ticks);
              && passed - 1 <= recorded <= passed
              && (recorded == passed <==> phase == 0 || d % countsPerTick < phase)
    {
      RecordedTicks(countsPerTick, suppressed, phase, d);
      hide SleepLength, BoundariesPassed;
      CompleteTicks(reload);
    }

    /** The same statements for any counter value. */
    method CompleteTicks(reload: U32)
      requires countsPerTick > 0
      modifies this
      ensures var decrements := Sub32(reload, old(val));
              View() == Settled(old(View()), countsPerTick, decrements % countsPerTick, decrements / countsPerTick)
    {
      var decrements := Sub32(reload, val);
      QuotientFits(decrements, countsPerTick);
      ResetSystick(decrements % countsPerTick, decrements / countsPerTick);
    }

    /** SysTick_Handler. After a long sleep it records the suppressed ticks but one, and the increment of
        every tick interrupt adds the last. */
    method SysTickHandler()
      requires countsPerTick > 0
      modifies this
      ensures View() == Handled(old(View()), countsPerTick)
    {
      if resetSystick != 0 {
        QuotientFits(resetSystick, countsPerTick);
        var completed := Sub32(resetSystick / countsPerTick, 1);
        ResetSystick(Sub32(resetSystick, val), completed);
      }
      ticks := ticks + 1;                 // xTaskIncrementTick
    }

    /** Interrupts are opened. */
    method Serve()
      requires countsPerTick > 0
      modifies this
      ensures View() == Served(old(View()), countsPerTick)
    {
      if pending {
        pending := false;
        SysTickHandler();
      }
    }

    /** vPortSuppressTicksAndSleep, for every timing of the interrupts it opens for. For a prompt call the recorded
        ticks are given in closed form. When no tick was pending they lack at most one that has passed, and they
        include none that has not if and only if the timing is one of `SoundCourse`. */
    method SuppressTicksAndSleep(expectedIdleTime: U32, course: Course)
      requires Ticking() && expectedIdleTime >= 2 && val < countsPerTick
      modifies this
      ensures var reload := SleepLength(countsPerTick, Suppressed(expectedIdleTime, maxSuppressed), old(val));
              && View() == Slept(old(View()), countsPerTick, reload, course)
              && HeedsExpected(countsPerTick, expectedIdleTime, old(val), reload)
      ensures var suppressed := Suppressed(expectedIdleTime, maxSuppressed);
              var passed := BoundariesPassed(countsPerTick, old(val), course.asleep + course.awake);
              Prompt(countsPerTick, SleepLength(countsPerTick, suppressed, old(val)), course) ==>
                && ticks - old(ticks) ==
                   (if old(pending) then RecordedPending(countsPerTick, suppressed, old(val), course)
                    else Recorded(countsPerTick, suppressed, old(val), course))
                && (!old(pending) ==>
                      && passed - 1 <= ticks - old(ticks)
                      && (ticks - old(ticks) <= passed <==> SoundCourse(countsPerTick, suppressed, old(val), course)))
    {
      ghost var start, suppressed := View(), Suppressed(expectedIdleTime, maxSuppressed);
      ExpectedHeeded(countsPerTick, expectedIdleTime, val);
      hide Slept, BoundariesPassed, SoundCourse, Prompt, Recorded, RecordedPending, HeedsExpected;
      if Prompt(countsPerTick, SleepLength(countsPerTick, suppressed, val), course) {
        SleptRecords(start, countsPerTick, suppressed, course);
        if !pending {
          WholeSleepIff(start, countsPerTick, suppressed, course);
        }
      }
      Sleep(expectedIdleTime, course);
    }

    /** The statements of vPortSuppressTicksAndSleep. */
    method Sleep(expectedIdleTime: U32, course: Course)
      requires Ticking() && expectedIdleTime >= 2 && val < countsPerTick
      modifies this
      ensures var reload := SleepLength(countsPerTick, Suppressed(expectedIdleTime, maxSuppressed), old(val));
              View() == Slept(old(View()), countsPerTick, reload, course)
    {
      var reload := BeginSleep(expectedIdleTime);
      hide Clocked, Handled, Settled, SleepLength;
      Run(course.asleep);
      if course.opens {
        Serve();
      }
      Run(course.awake);
      if !countFlag {
        CompleteTicks(reload);
      } else {
        countFlag := false;
      }
      Serve();
    }
  }

  /** The sleep never outlasts the expected idle time, in counts and in tick boundaries. It is exactly that long, from
      the tick under way, if so many periods fit the 24-bit counter, and otherwise one more period would not. */
  ghost predicate HeedsExpected(period: int, expected: int, phase: int, reload: int)
    requires 0 <= phase < period
  {
    && 0 <= reload <= period * (expected - 1) + phase
    && BoundariesPassed(period, phase, reload) <= expected
    && (expected <= 0xff_ffff / period ==> reload == period * (expected - 1) + phase)
    && (expected > 0xff_ffff / period ==> reload - phase + period + period > 0xff_ffff)
  }

  lemma ExpectedHeeded(period: U32, expected: U32, phase: U32)
    requires 0 < period && phase < period && 2 <= expected && 2 <= MAX_24_BIT / period
    ensures HeedsExpected(period, expected, phase,
                          SleepLength(period, Suppressed(expected, MAX_24_BIT / period), phase))
  {
    hide BoundariesPassed;
    var most := MAX_24_BIT / period;
    var suppressed := Suppressed(expected, most);
    ReloadFits(period, suppressed, phase);
    BoundariesAfterExpiry(period, suppressed, phase, 0);
    OneMorePeriod(period, expected, most);
  }

  lemma OneMorePeriod(period: int, expected: int, most: int)
    requires 0 < period && most == MAX_24_BIT / period
    ensures expected > most ==>
              period * (most - 1) <= period * (expected - 1) && period * (most - 1) + period + period > MAX_24_BIT
  {
    Divided(MAX_24_BIT, period);
    if expected > most {
      Times(period, most - 1, expected - 1);
    }
    assert period * most == period * (most - 1) + period;
  }

  lemma TwoTicksFit(counts: int)
    requires 0 < counts
    ensures MAX_24_BIT / counts >= 2 <==> counts <= MAX_24_BIT / 2
  {
    Divided(MAX_24_BIT, counts);
    if MAX_24_BIT / counts < 2 {
      Times(counts, MAX_24_BIT / counts, 1);
    } else {
      Times(counts, 2, MAX_24_BIT / counts);
    }
  }

  /** The reload value of a sleep fits the counter, as do its intermediate products. */
  lemma ReloadFits(period: U32, suppressed: U32, phase: U32)
    requires 0 < period && phase < period && 2 <= suppressed <= MAX_24_BIT / period
    ensures 0 <= period * (suppressed - 1) && period <= SleepLength(period, suppressed, phase) <= MAX_24_BIT
  {
    Divided(MAX_24_BIT, period);
    Times(period, suppressed, MAX_24_BIT / period);
    Times(period, 1, suppressed - 1);
    assert period * suppressed == period * (suppressed - 1) + period;
  }

  /** The unsigned arithmetic of a reload value, term by term, does not wrap. */
  lemma NothingWraps(period: U32, suppressed: U32, phase: U32)
    requires 0 < period && phase < period && 2 <= suppressed <= MAX_24_BIT / period
    ensures Add32(Mul32(period, Sub32(suppressed, 1)), phase) == SleepLength(period, suppressed, phase)
    ensures period <= SleepLength(period, suppressed, phase) <= MAX_24_BIT
  {
    ReloadFits(period, suppressed, phase);
    Small(suppressed - 1);
    Small(period * (suppressed - 1));
    Small(period * (suppressed - 1) + phase);
  }

  lemma Small(n: int)
    requires 0 <= n < U32_LIMIT
    ensures n % U32_LIMIT == n
  {
  }

  lemma QuotientFits(a: U32, b: U32)
    requires b > 0
    ensures 0 <= a / b <= a && 0 <= a % b < b
  {
    Divided(a, b);
    if 0 < b <= a {
      QuotientPositive(a, b);
    } else {
      DivMod(a, b, 0, a);
    }
  }

  lemma FullSleepQuotient(period: U32, suppressed: U32, phase: U32)
    requires 0 < period && phase < period && 2 <= suppressed <= MAX_24_BIT / period
    ensures SleepLength(period, suppressed, phase) / period == suppressed - 1
    ensures SleepLength(period, suppressed, phase) % period == phase
  {
    DivMod(SleepLength(period, suppressed, phase), period, suppressed - 1, phase);
  }

  lemma ElapsedTicksBounded(period: U32, suppressed: U32, phase: U32, d: nat)
    requires 0 < period && phase < period && 2 <= suppressed <= MAX_24_BIT / period
    requires d <= SleepLength(period, suppressed, phase)
    ensures d / period <= suppressed - 1
  {
    Divided(d, period);
    assert period * suppressed == period * (suppressed - 1) + period;
    if d / period >= suppressed {
      Times(period, suppressed, d / period);
    }
  }

  /** The whole periods elapsed, against the boundaries passed. */
  lemma RecordedTicks(period: U32, suppressed: U32, phase: U32, d: nat)
    requires 0 < period && phase < period && 2 <= suppressed <= MAX_24_BIT / period
    requires d <= SleepLength(period, suppressed, phase)
    ensures var passed, recorded := BoundariesPassed(period, phase, d), d / period;
            && 0 <= recorded <= suppressed - 1 && passed - 1 <= recorded <= passed
            && (recorded == passed <==> phase == 0 || d % period < phase)
  {
    Divided(d, period);
    if d / period < 0 {
      Times(period, d / period, -1);
    }
    BoundariesCounted(period, phase, d);
    ElapsedTicksBounded(period, suppressed, phase, d);
  }

  /** Counting the boundaries one by one gives the whole periods elapsed, and one more once the
      elapsed part of the last period has reached a phase other than zero. */
  lemma {:induction false} BoundariesCounted(period: int, phase: int, d: nat)
    requires 0 <= phase < period
    ensures BoundariesPassed(period, phase, d) == d / period + if phase > 0 && d % period >= phase then 1 else 0
  {
    if d == 0 {
      DivMod(0, period, 0, 0);
    } else {
      BoundariesCounted(period, phase, d - 1);
      OneCountLess(period, d);
      AtBoundary(period, phase, d);
    }
  }

  lemma OneCountLess(period: int, d: int)
    requires period > 0
    ensures if d % period == 0 then (d - 1) / period == d / period - 1 && (d - 1) % period == period - 1
            else (d - 1) / period == d / period && (d - 1) % period == d % period - 1
  {
    Divided(d, period);
    var q, r := d / period, d % period;
    if r == 0 {
      assert period * q == period * (q - 1) + period;
      DivMod(d - 1, period, q - 1, period - 1);
    } else {
      DivMod(d - 1, period, q, r - 1);
    }
  }

  lemma AtBoundary(period: int, phase: int, d: int)
    requires 0 <= phase < period
    ensures (d - phase) % period == 0 <==> d % period == phase
  {
    Divided(d, period);
    var q, r := d / period, d % period;
    if r >= phase {
      DivMod(d - phase, period, q, r - phase);
    } else {
      assert period * q == period * (q - 1) + period;
      DivMod(d - phase, period, q - 1, period + r - phase);
    }
  }

  /** The handler's subtraction is sound exactly when at least two ticks were suppressed: with one, the
      quotient of a sleep that starts within the period is zero and the step wraps to 2^32 - 1. */
  lemma HandlerNeedsTwoTicks(period: U32, suppressed: U32, phase: U32)
    requires 0 < period && phase < period && 1 <= suppressed <= MAX_24_BIT / period
    ensures var length := SleepLength(period, suppressed, phase);
            && 0 <= length < U32_LIMIT
            && (Sub32(length / period, 1) <= suppressed - 1 <==> suppressed >= 2)
  {
    Divided(MAX_24_BIT, period);
    Times(period, suppressed, MAX_24_BIT / period);
    Times(period, 0, suppressed - 1);
    assert period * suppressed == period * (suppressed - 1) + period;
    DivMod(SleepLength(period, suppressed, phase), period, suppressed - 1, phase);
  }

  /** The counter after `n` clocks that do not take it to zero twice. */
  lemma {:induction false} ClockedIs(c: Counter, n: nat)
    requires 0 <= c.val && 0 <= c.load && n <= c.val + c.load
    ensures var expired := 0 < c.val <= n;
            Clocked(c, n) == Counter(c.load, if n <= c.val then c.val - n else c.load - (n - c.val - 1),
                                     c.countFlag || expired, c.pending || expired)
  {
    if n > 0 {
      ClockedIs(c, n - 1);
    }
  }

  /** At the expiry of a long sleep the handler records the suppressed ticks less one: no more than the boundaries
      passed, and as many if and only if the sleep began on a boundary. */
  lemma HandlerRecords(a: Account, period: U32, suppressed: U32, phase: U32)
    requires 0 < period && phase < period && 2 <= suppressed <= MAX_24_BIT / period
    requires a.reset == SleepLength(period, suppressed, phase)
    ensures var recorded, passed := Handled(a, period).ticks - a.ticks, BoundariesPassed(period, phase, a.reset);
            && recorded == suppressed - 1 && passed - 1 <= recorded <= passed
            && (recorded == passed <==> phase == 0)
  {
    ReloadFits(period, suppressed, phase);
    FullSleepQuotient(period, suppressed, phase);
    BoundariesCounted(period, phase, a.reset);
    hide SleepLength, BoundariesPassed;
    Small(suppressed - 2);
  }

  /** The account at the start of a sleep, once its counter is restarted. */
  function Restarted(reload: int, ticks: int): Account {
    Account(Counter(reload, reload, false, false), reload, ticks)
  }

  /** The counter reading at the test when the handler has run `late` counts after the expiry and the counter has not
      reached zero again: what is left of the handler's fraction, or of a period if that fraction was zero. */
  function Recount(period: int, late: int, awake: int): int {
    if late > 1 then late - 1 - awake else if awake == 0 then 0 else period - awake
  }

  /** The counter expires a second time between the handler and the test. */
  predicate ExpiresAgain(late: int, awake: int) {
    0 < late - 1 <= awake
  }

  /** The ticks one call records, when it ends within a period of the expiry. */
  function Recorded(period: int, suppressed: int, phase: int, course: Course): int
    requires period > 0
  {
    var reload := SleepLength(period, suppressed, phase);
    var late := course.asleep - reload;
    if course.asleep + course.awake < reload then (course.asleep + course.awake) / period
    else if !course.opens || late <= 0 then suppressed - 1
    else if ExpiresAgain(late, course.awake) then suppressed
    else suppressed - 1 + (reload - Recount(period, late, course.awake)) / period
  }

  /** The same for a call that begins with a tick pending. If interrupts open before the expiry, the handler takes that
      tick for the end of the sleep; the fraction it reloads is what has passed of it. */
  function RecordedPending(period: int, suppressed: int, phase: int, course: Course): int
    requires period > 0
  {
    var reload := SleepLength(period, suppressed, phase);
    var late := course.asleep - reload;
    if !course.opens then
      if course.awake + late < 0 then (course.asleep + course.awake) / period + 1 else suppressed - 1
    else if late >= 0 then Recorded(period, suppressed, phase, course)
    else if ExpiresAgain(course.asleep + 1, course.awake) || FullPeriod(period, course) then suppressed
    else suppressed - 1 + (reload - LeftOver(period, course)) / period
  }

  /** The handler's fraction was zero, and the counter then runs through a period of its own before the test. */
  predicate FullPeriod(period: int, course: Course) {
    course.asleep == 0 && 1 < period <= course.awake
  }

  /** The counter reading at the test when the handler ran before the expiry. */
  function LeftOver(period: int, course: Course): int {
    if period == 1 && course.asleep == 0 then 0 else Recount(period, course.asleep + 1, course.awake)
  }

  /** The call ends within a period of the expiry, so that no tick interrupt is lost to another. */
  predicate Prompt(period: int, reload: int, course: Course) {
    course.asleep + course.awake < reload + period
  }

  lemma SleptEarly(period: U32, reload: U32, ticks: int, course: Course)
    requires 0 < period <= reload && course.asleep + course.awake < reload
    ensures Slept(Restarted(reload, ticks), period, reload, course).ticks
         == ticks + (course.asleep + course.awake) / period
  {
    var c := Restarted(reload, ticks).counter;
    ClockedIs(c, course.asleep);
    ClockedIs(Clocked(c, course.asleep), course.awake);
    Small(course.asleep + course.awake);
  }

  lemma SleptUnserved(period: U32, suppressed: U32, reload: U32, ticks: int, course: Course)
    requires 0 < period <= reload && reload / period == suppressed - 1 >= 1
    requires Prompt(period, reload, course) && reload <= course.asleep + course.awake
    requires !course.opens || course.asleep < reload
    ensures Slept(Restarted(reload, ticks), period, reload, course).ticks == ticks + suppressed - 1
  {
    var c := Restarted(reload, ticks).counter;
    ClockedIs(c, course.asleep);
    ClockedIs(Clocked(c, course.asleep), course.awake);
    Small(suppressed - 2);
  }

  /** The account after the handler has run in the window, `late` counts after the expiry. */
  lemma ServedLate(period: U32, suppressed: U32, reload: U32, ticks: int, late: nat)
    requires 0 < period <= reload && reload / period == suppressed - 1 >= 1 && late < period
    ensures Served(Ran(Restarted(reload, ticks), reload + late), period)
         == Account(Counter(period - 1, if late == 0 then reload else late - 1, false, false), 0,
                    ticks + suppressed - 1)
  {
    ClockedIs(Restarted(reload, ticks).counter, reload + late);
    Small(suppressed - 2);
    Small(if late == 0 then reload else late - 1);
  }

  lemma SleptServed(period: U32, suppressed: U32, reload: U32, ticks: int, course: Course)
    requires 0 < period <= reload && reload / period == suppressed - 1 >= 1
    requires Prompt(period, reload, course) && course.opens && reload <= course.asleep
    ensures var late := course.asleep - reload;
            Slept(Restarted(reload, ticks), period, reload, course).ticks - ticks ==
            if late == 0 then suppressed - 1 + course.awake / period
            else if ExpiresAgain(late, course.awake) then suppressed
            else suppressed - 1 + (reload - Recount(period, late, course.awake)) / period
  {
    var late := course.asleep - reload;
    ServedLate(period, suppressed, reload, ticks, late);
    ClockedIs(Counter(period - 1, if late == 0 then reload else late - 1, false, false), course.awake);
    hide Clocked;
    if late == 0 {
      Small(course.awake);
    } else if !ExpiresAgain(late, course.awake) {
      Small(reload - Recount(period, late, course.awake));
    }
  }

  lemma SleptFresh(period: U32, suppressed: U32, phase: U32, ticks: int, course: Course)
    requires 0 < period && phase < period && 2 <= suppressed <= MAX_24_BIT / period
    requires Prompt(period, SleepLength(period, suppressed, phase), course)
    ensures var reload := SleepLength(period, suppressed, phase);
            var after := Slept(Restarted(reload, ticks), period, reload, course);
            after.ticks == ticks + Recorded(period, suppressed, phase, course)
  {
    var reload := SleepLength(period, suppressed, phase);
    ReloadFits(period, suppressed, phase);
    FullSleepQuotient(period, suppressed, phase);
    hide Slept, SleepLength;
    if course.asleep + course.awake < reload {
      SleptEarly(period, reload, ticks, course);
    } else if !course.opens || course.asleep < reload {
      SleptUnserved(period, suppressed, reload, ticks, course);
    } else {
      SleptServed(period, suppressed, reload, ticks, course);
      if course.asleep == reload {
        DivMod(course.awake, period, 0, course.awake);
      }
    }
  }

  /** The account at the start of a sleep that begins with a tick pending. */
  function RestartedPending(reload: int, ticks: int): Account {
    Account(Counter(reload, reload, false, true), reload, ticks)
  }

  lemma PendingUnserved(period: U32, suppressed: U32, reload: U32, ticks: int, course: Course)
    requires 0 < period <= reload && reload / period == suppressed - 1 >= 1
    requires Prompt(period, reload, course) && !course.opens
    ensures var d := course.asleep + course.awake;
            Slept(RestartedPending(reload, ticks), period, reload, course).ticks - ticks
            == if d < reload then d / period + 1 else suppressed - 1
  {
    var c := RestartedPending(reload, ticks).counter;
    ClockedIs(c, course.asleep);
    ClockedIs(Clocked(c, course.asleep), course.awake);
    Small(suppressed - 2);
    if course.asleep + course.awake < reload {
      Small(course.asleep + course.awake);
    }
  }

  /** Once the counter has expired, a tick that was already pending makes no difference. */
  lemma PendingMerges(period: U32, reload: U32, ticks: int, course: Course)
    requires 0 < period <= reload && Prompt(period, reload, course) && course.opens && reload <= course.asleep
    ensures Slept(RestartedPending(reload, ticks), period, reload, course)
         == Slept(Restarted(reload, ticks), period, reload, course)
  {
    ClockedIs(RestartedPending(reload, ticks).counter, course.asleep);
    ClockedIs(Restarted(reload, ticks).counter, course.asleep);
    hide Clocked;
  }

  /** The account when the pending tick is served before the expiry. */
  lemma ServedSoon(period: U32, suppressed: U32, reload: U32, ticks: int, asleep: nat)
    requires 0 < period <= reload && reload / period == suppressed - 1 >= 1 && asleep < reload
    ensures Served(Ran(RestartedPending(reload, ticks), asleep), period)
         == Account(Counter(period - 1, asleep, false, false), 0, ticks + suppressed - 1)
  {
    ClockedIs(RestartedPending(reload, ticks).counter, asleep);
    Small(suppressed - 2);
    Small(asleep);
  }

  lemma SleptSoon(period: U32, suppressed: U32, reload: U32, ticks: int, course: Course)
    requires 0 < period <= reload && reload / period == suppressed - 1 >= 1
    requires course.opens && course.asleep < reload
    ensures Slept(RestartedPending(reload, ticks), period, reload, course).ticks - ticks ==
            if ExpiresAgain(course.asleep + 1, course.awake) || FullPeriod(period, course) then suppressed
            else suppressed - 1 + (reload - LeftOver(period, course)) / period
  {
    ServedSoon(period, suppressed, reload, ticks, course.asleep);
    var c := Counter(period - 1, course.asleep, false, false);
    if ExpiresAgain(course.asleep + 1, course.awake) || FullPeriod(period, course) {
      SecondExpiry(c, period, course);
    } else {
      LeftOverRead(c, period, course);
      Small(reload - LeftOver(period, course));
    }
    hide Clocked;
  }

  lemma SecondExpiry(c: Counter, period: U32, course: Course)
    requires c == Counter(period - 1, course.asleep, false, false) && period > 0
    requires ExpiresAgain(course.asleep + 1, course.awake) || FullPeriod(period, course)
    ensures Clocked(c, course.awake).countFlag && Clocked(c, course.awake).pending
  {
    var first := if course.asleep > 0 then course.asleep else period;
    ClockedIs(c, if course.asleep > 0 then course.asleep else period - 1);
    assert Clocked(c, first).countFlag && Clocked(c, first).pending;
    ClockedKeeps(c, first, course.awake);
  }

  lemma LeftOverRead(c: Counter, period: U32, course: Course)
    requires c == Counter(period - 1, course.asleep, false, false) && period > 0
    requires !(ExpiresAgain(course.asleep + 1, course.awake) || FullPeriod(period, course))
    ensures Clocked(c, course.awake) == c.(val := LeftOver(period, course)) && LeftOver(period, course) >= 0
    ensures LeftOver(period, course) <= course.asleep || LeftOver(period, course) < period
  {
    if period == 1 && course.asleep == 0 {
      Halted(c, course.awake);
    } else {
      ClockedIs(c, course.awake);
    }
  }

  /** A counter that would reload zero stays there. */
  lemma {:induction false} Halted(c: Counter, n: nat)
    requires c.val == 0 && c.load == 0
    ensures Clocked(c, n) == c
  {
    if n > 0 {
      Halted(c, n - 1);
    }
  }

  /** The count flag and the pending bit stay set while the counter runs, and come together. */
  lemma {:induction false} ClockedKeeps(c: Counter, m: nat, n: nat)
    requires m <= n
    ensures Clocked(c, m).countFlag ==> Clocked(c, n).countFlag
    ensures Clocked(c, m).pending ==> Clocked(c, n).pending
    decreases n
  {
    if m < n {
      ClockedKeeps(c, m, n - 1);
    }
  }

  /** The ticks recorded by a prompt call, in closed form, whether or not a tick was pending when it began. */
  lemma SleptRecords(a: Account, period: U32, suppressed: U32, course: Course)
    requires 0 <= a.counter.val < period && 2 <= suppressed <= MAX_24_BIT / period
    requires Prompt(period, SleepLength(period, suppressed, a.counter.val), course)
    ensures var phase := a.counter.val;
            Slept(a, period, SleepLength(period, suppressed, phase), course).ticks - a.ticks ==
            if a.counter.pending then RecordedPending(period, suppressed, phase, course)
            else Recorded(period, suppressed, phase, course)
  {
    var phase: U32 := a.counter.val;
    var reload := SleepLength(period, suppressed, phase);
    ReloadFits(period, suppressed, phase);
    FullSleepQuotient(period, suppressed, phase);
    SleptFresh(period, suppressed, phase, a.ticks, course);
    SameStart(a, period, reload, course);
    hide Slept, SleepLength, Recorded;
    if a.counter.pending {
      if !course.opens {
        PendingUnserved(period, suppressed, reload, a.ticks, course);
      } else if reload <= course.asleep {
        PendingMerges(period, reload, a.ticks, course);
      } else {
        SleptSoon(period, suppressed, reload, a.ticks, course);
      }
    }
  }

  /** Of the counter before the restart, only the pending bit matters. */
  lemma SameStart(a: Account, period: int, reload: int, course: Course)
    requires period > 0
    ensures Slept(a, period, reload, course)
         == Slept(if a.counter.pending then RestartedPending(reload, a.ticks) else Restarted(reload, a.ticks),
                  period, reload, course)
  {
    hide Clocked;
  }

  /** What the ticks counted a second time come to: the whole sleep again, or one tick less. */
  lemma CountedTwice(period: U32, suppressed: U32, phase: U32, left: int)
    requires 0 < period && phase < period && 2 <= suppressed && 0 <= left < period
    ensures (SleepLength(period, suppressed, phase) - left) / period
         == if left <= phase then suppressed - 1 else suppressed - 2
  {
    var rest := SleepLength(period, suppressed, phase) - left;
    assert period * (suppressed - 1) == period * (suppressed - 2) + period;
    if left <= phase {
      DivMod(rest, period, suppressed - 1, phase - left);
    } else {
      DivMod(rest, period, suppressed - 2, period + phase - left);
    }
  }

  lemma BoundariesAfterExpiry(period: U32, suppressed: U32, phase: U32, more: nat)
    requires 0 < period && phase < period && 2 <= suppressed <= MAX_24_BIT / period && more < period
    ensures BoundariesPassed(period, phase, SleepLength(period, suppressed, phase) + more)
         == suppressed - 1 + if phase > 0 then 1 else 0
  {
    var d := SleepLength(period, suppressed, phase) + more;
    ReloadFits(period, suppressed, phase);
    BoundariesCounted(period, phase, d);
    if phase + more < period {
      DivMod(d, period, suppressed - 1, phase + more);
    } else {
      assert period * suppressed == period * (suppressed - 1) + period;
      DivMod(d, period, suppressed, phase + more - period);
    }
  }

  /** The timings for which the account is right. If the handler ran, later than the count of the expiry itself,
      then either the counter expired again before the test, and the sleep did not begin on a boundary; or the
      test counts the sleep once more, and that comes to no more than the tick still missing. */
  predicate SoundCourse(period: int, suppressed: int, phase: int, course: Course) {
    var reload := SleepLength(period, suppressed, phase);
    var late := course.asleep - reload;
    if !course.opens || late <= 0 then true
    else if ExpiresAgain(late, course.awake) then phase > 0
    else if Recount(period, late, course.awake) <= phase then suppressed == 2 && phase > 0
    else suppressed == 2 || (suppressed == 3 && phase > 0)
  }

  /** A prompt call that begins with no tick pending: kernel time never lacks more than one tick that has passed, and it
      gains none that has not if and only if the timing is one of `SoundCourse`. */
  lemma WholeSleepIff(a: Account, period: U32, suppressed: U32, course: Course)
    requires 0 <= a.counter.val < period && 2 <= suppressed <= MAX_24_BIT / period
    requires !a.counter.pending && Prompt(period, SleepLength(period, suppressed, a.counter.val), course)
    ensures var phase := a.counter.val;
            var recorded := Slept(a, period, SleepLength(period, suppressed, phase), course).ticks - a.ticks;
            var passed := BoundariesPassed(period, phase, course.asleep + course.awake);
            && passed - 1 <= recorded
            && (recorded <= passed <==> SoundCourse(period, suppressed, phase, course))
  {
    var phase: U32 := a.counter.val;
    var reload := SleepLength(period, suppressed, phase);
    var d := course.asleep + course.awake;
    SleptRecords(a, period, suppressed, course);
    ReloadFits(period, suppressed, phase);
    hide Slept, BoundariesPassed, SleepLength;
    if d < reload {
      RecordedTicks(period, suppressed, phase, d);
    } else {
      BoundariesAfterExpiry(period, suppressed, phase, d - reload);
      var late := course.asleep - reload;
      if course.opens && late > 0 && !ExpiresAgain(late, course.awake) {
        CountedTwice(period, suppressed, phase, Recount(period, late, course.awake));
      }
    }
  }

  /** The timings that record no more ticks than the sleep was to suppress, less one: the handler did not run later than
      the count of the expiry, or the second count of a sleep of two ticks comes to nothing. */
  predicate WithinExpected(period: int, suppressed: int, phase: int, course: Course) {
    var late := course.asleep - SleepLength(period, suppressed, phase);
    || !course.opens || late <= 0
    || (suppressed == 2 && !ExpiresAgain(late, course.awake) && Recount(period, late, course.awake) > phase)
  }

  /** A prompt call that begins with no tick pending stays below the expected idle time if and only if the timing is one
      of `WithinExpected`. */
  lemma StaysBelowExpectedIff(a: Account, period: U32, suppressed: U32, course: Course)
    requires 0 <= a.counter.val < period && 2 <= suppressed <= MAX_24_BIT / period
    requires !a.counter.pending && Prompt(period, SleepLength(period, suppressed, a.counter.val), course)
    ensures Slept(a, period, SleepLength(period, suppressed, a.counter.val), course).ticks - a.ticks <= suppressed - 1
            <==> WithinExpected(period, suppressed, a.counter.val, course)
  {
    var phase: U32 := a.counter.val;
    var reload := SleepLength(period, suppressed, phase);
    var late := course.asleep - reload;
    SleptRecords(a, period, suppressed, course);
    ReloadFits(period, suppressed, phase);
    hide Slept, SleepLength;
    if course.asleep + course.awake < reload {
      ElapsedTicksBounded(period, suppressed, phase, course.asleep + course.awake);
    } else if course.opens && late > 0 && !ExpiresAgain(late, course.awake) {
      CountedTwice(period, suppressed, phase, Recount(period, late, course.awake));
    }
  }

  /** The call records no more ticks than the boundaries passed, and the tick that was pending when it began. */
  ghost predicate KeepsTime(a: Account, period: U32, suppressed: U32, course: Course)
    requires 0 <= a.counter.val < period
  {
    var phase := a.counter.val;
    Slept(a, period, SleepLength(period, suppressed, phase), course).ticks - a.ticks
    <= BoundariesPassed(period, phase, course.asleep + course.awake) + if a.counter.pending then 1 else 0
  }

  /** No timing, prompt or not, makes kernel time run ahead if and only if no tick is pending when the counter is
      restarted, exactly two ticks are suppressed, and the counter is not at zero or a tick is a single count. */
  lemma KeepsTimeIff(a: Account, period: U32, suppressed: U32)
    requires 0 <= a.counter.val < period && 2 <= suppressed <= MAX_24_BIT / period
    ensures (forall course :: KeepsTime(a, period, suppressed, course))
            <==> !a.counter.pending && suppressed == 2 && (a.counter.val > 0 || period == 1)
  {
    hide Slept, BoundariesPassed;
    var phase: U32 := a.counter.val;
    var reload := SleepLength(period, suppressed, phase);
    ReloadFits(period, suppressed, phase);
    FullSleepQuotient(period, suppressed, phase);
    if a.counter.pending {
      TickTakenForSleep(a, period, suppressed);
    } else if suppressed == 2 && (phase > 0 || period == 1) {
      forall course
        ensures KeepsTime(a, period, suppressed, course)
      {
        TwoTicksKept(a, period, course);
      }
    } else {
      CountedAgain(a, period, suppressed);
    }
  }

  /** A tick that was pending is taken for the end of the sleep as soon as interrupts open, and the test then counts the
      sleep again: nothing has passed, and twice the suppressed ticks but one are recorded. */
  lemma TickTakenForSleep(a: Account, period: U32, suppressed: U32)
    requires 0 <= a.counter.val < period && 2 <= suppressed <= MAX_24_BIT / period && a.counter.pending
    ensures var reload := SleepLength(period, suppressed, a.counter.val);
            Slept(a, period, reload, Course(true, 0, 0)).ticks - a.ticks == 2 * (suppressed - 1)
    ensures !KeepsTime(a, period, suppressed, Course(true, 0, 0))
  {
    var phase: U32 := a.counter.val;
    var reload := SleepLength(period, suppressed, phase);
    ReloadFits(period, suppressed, phase);
    FullSleepQuotient(period, suppressed, phase);
    SameStart(a, period, reload, Course(true, 0, 0));
    SleptSoon(period, suppressed, reload, a.ticks, Course(true, 0, 0));
    hide Slept, SleepLength;
    assert BoundariesPassed(period, phase, 0) == 0;
  }

  /** A handler that reads the counter one count after the expiry, with the test at once: the sleep is recorded
      twice. */
  lemma CountedAgain(a: Account, period: U32, suppressed: U32)
    requires 0 <= a.counter.val < period && 2 <= suppressed <= MAX_24_BIT / period && !a.counter.pending
    ensures var reload := SleepLength(period, suppressed, a.counter.val);
            Slept(a, period, reload, Course(true, reload + 1, 0)).ticks - a.ticks == 2 * (suppressed - 1)
    ensures var reload := SleepLength(period, suppressed, a.counter.val);
            KeepsTime(a, period, suppressed, Course(true, reload + 1, 0))
            <==> suppressed == 2 && (a.counter.val > 0 || period == 1)
  {
    var phase: U32 := a.counter.val;
    var reload := SleepLength(period, suppressed, phase);
    ReloadFits(period, suppressed, phase);
    FullSleepQuotient(period, suppressed, phase);
    SameStart(a, period, reload, Course(true, reload + 1, 0));
    OneCountLate(period, suppressed, reload, a.ticks);
    BoundariesOneLate(period, suppressed, phase);
    hide Slept, SleepLength, BoundariesPassed;
  }

  lemma OneCountLate(period: U32, suppressed: U32, reload: U32, ticks: int)
    requires 0 < period <= reload && reload / period == suppressed - 1 >= 1
    ensures Slept(Restarted(reload, ticks), period, reload, Course(true, reload + 1, 0)).ticks
         == ticks + 2 * (suppressed - 1)
  {
    ClockedIs(Restarted(reload, ticks).counter, reload + 1);
    Small(suppressed - 2);
    Small(0);
    Small(reload);
  }

  lemma BoundariesOneLate(period: U32, suppressed: U32, phase: U32)
    requires 0 < period && phase < period && 2 <= suppressed <= MAX_24_BIT / period
    ensures BoundariesPassed(period, phase, SleepLength(period, suppressed, phase) + 1)
         == suppressed - 1 + if phase > 0 || period == 1 then 1 else 0
  {
    if period > 1 {
      BoundariesAfterExpiry(period, suppressed, phase, 1);
    } else {
      EveryCount(suppressed);
    }
  }

  /** With a period of one count, every count is a boundary. */
  lemma EveryCount(d: nat)
    ensures BoundariesPassed(1, 0, d) == d
  {
    BoundariesCounted(1, 0, d);
    DivMod(d, 1, d, 0);
  }

  lemma {:induction false} BoundariesGrow(period: int, phase: int, d: nat, d': nat)
    requires 0 <= phase < period && d <= d'
    ensures BoundariesPassed(period, phase, d) <= BoundariesPassed(period, phase, d')
    decreases d'
  {
    if d < d' {
      BoundariesGrow(period, phase, d, d' - 1);
    }
  }

  /** The counter stays within its start and its reload value, and is not pending without its flag. */
  lemma {:induction false} ClockedWithin(c: Counter, n: nat, most: int)
    requires 0 <= c.val <= most && 0 <= c.load <= most && (c.pending ==> c.countFlag)
    ensures var c' := Clocked(c, n);
            && 0 <= c'.val <= most && c'.load == c.load
            && (c'.pending ==> c'.countFlag) && (c'.countFlag ==> c'.pending || c.countFlag)
  {
    if n > 0 {
      ClockedWithin(c, n - 1, most);
    }
  }

  /** A counter that has run at least to zero has its flag and its pending bit set. */
  lemma Expired(c: Counter, n: nat)
    requires 0 < c.val <= n && 0 <= c.load
    ensures Clocked(c, n).countFlag && Clocked(c, n).pending
  {
    ClockedIs(c, c.val);
    ClockedKeeps(c, c.val, n);
  }

  /** However late everything happens, a sleep is recorded at most twice, and once if no handler ran before the test. */
  lemma AtMostTwice(period: U32, suppressed: U32, reload: U32, ticks: int, course: Course)
    requires 0 < period <= reload && reload / period == suppressed - 1 >= 1
    requires reload <= course.asleep + course.awake
    ensures Slept(Restarted(reload, ticks), period, reload, course).ticks - ticks
            <= if course.opens && reload <= course.asleep then 2 * (suppressed - 1) else suppressed - 1
  {
    var c := Restarted(reload, ticks).counter;
    Small(suppressed - 2);
    if course.asleep < reload {
      ClockedIs(c, course.asleep);
      Expired(Clocked(c, course.asleep), course.awake);
    } else {
      Expired(c, course.asleep);
      ClockedWithin(c, course.asleep, reload);
      if course.opens {
        ServedAnytime(period, suppressed, reload, ticks, course);
      } else {
        ClockedKeeps(Clocked(c, course.asleep), 0, course.awake);
      }
    }
    hide Clocked;
  }

  lemma ServedAnytime(period: U32, suppressed: U32, reload: U32, ticks: int, course: Course)
    requires 0 < period <= reload && reload / period == suppressed - 1 >= 1
    requires course.opens && reload <= course.asleep
    ensures Slept(Restarted(reload, ticks), period, reload, course).ticks - ticks <= 2 * (suppressed - 1)
  {
    var c := Restarted(reload, ticks).counter;
    Expired(c, course.asleep);
    ClockedWithin(c, course.asleep, reload);
    var fraction := reload - Clocked(c, course.asleep).val;
    Small(suppressed - 2);
    Small(fraction);
    var reset := Counter(period - 1, fraction, false, false);
    ClockedWithin(reset, course.awake, reload);
    var left := reload - Clocked(reset, course.awake).val;
    Small(left);
    QuotientGrows(left, reload, period);
    hide Clocked;
  }

  lemma QuotientGrows(a: int, b: int, d: int)
    requires 0 <= a <= b && d > 0
    ensures a / d <= b / d
  {
    Divided(a, d);
    Divided(b, d);
    if b / d < a / d {
      Times(d, b / d + 1, a / d);
    }
  }

  /** Two suppressed ticks from a counter that is not at zero are never too many, at whatever time. */
  lemma TwoTicksKept(a: Account, period: U32, course: Course)
    requires 0 <= a.counter.val < period && 2 <= MAX_24_BIT / period && !a.counter.pending
    requires a.counter.val > 0 || period == 1
    ensures KeepsTime(a, period, 2, course)
  {
    var phase: U32 := a.counter.val;
    var reload := SleepLength(period, 2, phase);
    var d := course.asleep + course.awake;
    ReloadFits(period, 2, phase);
    FullSleepQuotient(period, 2, phase);
    SameStart(a, period, reload, course);
    hide Slept, SleepLength, BoundariesPassed;
    if d < reload {
      SleptEarly(period, reload, a.ticks, course);
      RecordedTicks(period, 2, phase, d);
    } else if d == reload {
      SleptFresh(period, 2, phase, a.ticks, course);
      BoundariesAfterExpiry(period, 2, phase, 0);
      OnTime(period, phase, course);
    } else {
      AtMostTwice(period, 2, reload, a.ticks, course);
      BoundariesOneLate(period, 2, phase);
      BoundariesGrow(period, phase, reload + 1, d);
    }
  }

  lemma OnTime(period: U32, phase: U32, course: Course)
    requires 0 < period && course.asleep + course.awake == SleepLength(period, 2, phase)
    ensures Recorded(period, 2, phase, course) == 1
  {
  }

  /** An ordinary sleep of ten ticks from the middle of a period, whose interrupt is taken one count after the
      expiry and whose test follows at once, is recorded as eighteen ticks when ten have passed. */
  lemma TenTicksTwice()
    ensures var reload := SleepLength(1000, 10, 500);
            var course := Course(true, reload + 1, 0);
            && Slept(Restarted(reload, 0), 1000, reload, course).ticks == 18
            && BoundariesPassed(1000, 500, course.asleep + course.awake) == 10
  {
    var reload := SleepLength(1000, 10, 500);
    SleptFresh(1000, 10, 500, 0, Course(true, reload + 1, 0));
    BoundariesAfterExpiry(1000, 10, 500, 1);
    hide Slept, BoundariesPassed;
    assert Recount(1000, 1, 0) == 0;
  }

  /** A sleep of two ticks that meets the condition but for a tick pending: two ticks are recorded before the first has
      passed, and one was owed. */
  lemma PendingTickTwice()
    ensures var a := Account(Counter(999, 997, false, true), 0, 0);
            var reload := SleepLength(1000, 2, 997);
            Slept(a, 1000, reload, Course(true, 10, 5)).ticks == 2 && BoundariesPassed(1000, 997, 15) == 0
  {
    var a := Account(Counter(999, 997, false, true), 0, 0);
    var reload := SleepLength(1000, 2, 997);
    SleptRecords(a, 1000, 2, Course(true, 10, 5));
    BoundariesCounted(1000, 997, 15);
    hide Slept, BoundariesPassed;
  }
}
