/** Polled events with a wrapping millisecond clock. Interrupts may come at every access to shared memory:
    a script says how many ticks and which notifications come before each. */
module EventWait {
  const WRAP := 0x1_0000_0000

  type U32 = n: int | 0 <= n < WRAP

  datatype Event = TransferComplete | SDReady | Unknown

  /** What the interrupts before one access do. */
  datatype Interrupts = Interrupts(ticks: nat, notified: set<Event>)

  type Script = nat -> Interrupts

  /** The ticks before access n. */
  function Ticks(script: Script, n: nat): nat {
    if n == 0 then 0 else Ticks(script, n - 1) + script(n - 1).ticks
  }

  predicate Notified(script: Script, event: Event, n: nat) {
    n > 0 && (event in script(n - 1).notified || Notified(script, event, n - 1))
  }

  /** The milliseconds since the start when the clock is read for the k-th time, and whether the event is set
      when it is checked after that reading. */
  function Elapsed(script: Script, k: nat): nat {
    Ticks(script, 2 * k + 1)
  }

  predicate Seen(script: Script, event: Event, wasSet: bool, k: nat) {
    wasSet || Notified(script, event, 2 * k + 2)
  }

  predicate Stops(script: Script, event: Event, wasSet: bool, timeout: U32, k: nat) {
    Seen(script, event, wasSet, k) || Elapsed(script, k) % WRAP >= timeout
  }

  ghost predicate FirstStop(script: Script, event: Event, wasSet: bool, timeout: U32, k: nat) {
    && Stops(script, event, wasSet, timeout, k)
    && forall j: nat :: j < k ==> !Stops(script, event, wasSet, timeout, j)
  }

  /** The wrapping clock t milliseconds after it showed `start`. */
  function Clock(start: U32, t: nat): U32 {
    (start + t) % WRAP
  }

  /** The unsigned difference of two clock readings. */
  function Since(now: U32, start: U32): U32 {
    (now - start) % WRAP
  }

  lemma Nothing(script: Script, start: U32)
    ensures Clock(start, Ticks(script, 0)) == start && forall e :: !Notified(script, e, 0)
  {
  }

  /** The clock and the notifications after one more access. */
  lemma OneMore(script: Script, start: U32, n: nat)
    ensures Clock(Clock(start, Ticks(script, n)), script(n).ticks) == Clock(start, Ticks(script, n + 1))
    ensures Since(Clock(start, Ticks(script, n + 1)), start) == Ticks(script, n + 1) % WRAP
    ensures forall e :: Notified(script, e, n + 1) == (Notified(script, e, n) || e in script(n).notified)
  {
    Wrapped(start, Ticks(script, n), script(n).ticks);
    Wrapped(start, Ticks(script, n + 1), 0);
  }

  lemma Wrapped(start: U32, a: nat, b: nat)
    ensures Clock(Clock(start, a), b) == Clock(start, a + b)
    ensures Since(Clock(start, a), start) == a % WRAP
  {
    var q := (start + a) / WRAP;
    assert Clock(start, a) == start + a - WRAP * q;
    Shifted(start + a + b, q);
    Shifted(a, q);
  }

  lemma OneTick(start: U32, t: nat)
    ensures (Clock(start, t) + 1) % WRAP == Clock(start, t + 1)
    ensures Clock(start, 0) == start
  {
    Wrapped(start, t, 1);
  }

  lemma Shifted(n: int, q: int)
    ensures (n - WRAP * q) % WRAP == n % WRAP
  {
  }

  lemma Checked(script: Script, event: Event, wasSet: bool, timeout: U32, k: nat)
    ensures Stops(script, event, wasSet, timeout, k)
            <==> wasSet || Notified(script, event, 2 * k + 2) || Ticks(script, 2 * k + 1) % WRAP >= timeout
    ensures Elapsed(script, k) == Ticks(script, 2 * k + 1)
  {
  }

  class Platform {
    var transferComplete: U32
    var sdReady: U32
    var timeMilliseconds: U32
    const script: Script

    constructor (environment: Script)
      ensures script == environment
    {
      script := environment;
      transferComplete, sdReady, timeMilliseconds := 0, 0, 0;
    }

    predicate Set(event: Event)
      reads this
    {
      match event
      case TransferComplete => transferComplete != 0
      case SDReady => sdReady != 0
      case Unknown => false
    }

    /** Store through the pointer that EVENT_GetInstance gives. */
    method Assign(event: Event, value: U32)
      modifies this
      ensures timeMilliseconds == old(timeMilliseconds)
      ensures Set(event) <==> event != Unknown && value != 0
      ensures forall e :: e != event ==> Set(e) == old(Set(e))
    {
      match event
      case TransferComplete => transferComplete := value;
      case SDReady => sdReady := value;
      case Unknown =>
    }

    method Create(event: Event) returns (known: bool)
      modifies this
      ensures known <==> event != Unknown
      ensures !Set(event) && timeMilliseconds == old(timeMilliseconds)
      ensures forall e :: e != event ==> Set(e) == old(Set(e))
    {
      Assign(event, 0);
      known := event != Unknown;
    }

    method Notify(event: Event) returns (known: bool)
      modifies this
      ensures known <==> event != Unknown
      ensures Set(event) == known && timeMilliseconds == old(timeMilliseconds)
      ensures forall e :: e != event ==> Set(e) == old(Set(e))
    {
      Assign(event, 1);
      known := event != Unknown;
    }

    method SysTickHandler()
      modifies this`timeMilliseconds
      ensures timeMilliseconds == (old(timeMilliseconds) + 1) % WRAP
    {
      timeMilliseconds := (timeMilliseconds + 1) % WRAP;
    }

    /** The interrupts before access n run. */
    method Interrupted(n: nat)
      modifies this
      ensures timeMilliseconds == Clock(old(timeMilliseconds), script(n).ticks)
      ensures Set(TransferComplete) == (old(Set(TransferComplete)) || TransferComplete in script(n).notified)
      ensures Set(SDReady) == (old(Set(SDReady)) || SDReady in script(n).notified)
    {
      hide Clock;
      var t := 0;
      OneTick(timeMilliseconds, 0);
      while t < script(n).ticks
        invariant 0 <= t <= script(n).ticks
        invariant timeMilliseconds == Clock(old(timeMilliseconds), t)
        invariant transferComplete == old(transferComplete) && sdReady == old(sdReady)
      {
        OneTick(old(timeMilliseconds), t);
        SysTickHandler();
        t := t + 1;
      }
      if TransferComplete in script(n).notified {
        var _ := Notify(TransferComplete);
      }
      if SDReady in script(n).notified {
        var _ := Notify(SDReady);
      }
    }

    /** EVENT_Wait: it returns after the first check at which the event is set or the time is over, says whether the
        time was not, and clears the event in both cases. */
    method Wait(event: Event, timeout: U32) returns (result: bool, ghost k: nat)
      requires timeout > 0 && event != Unknown ==> exists n: nat :: Stops(script, event, Set(event), timeout, n)
      modifies this
      ensures timeout == 0 || event == Unknown ==> !result && forall e :: Set(e) == old(Set(e))
      ensures timeout > 0 && event != Unknown ==>
                && FirstStop(script, event, old(Set(event)), timeout, k)
                && result == (Elapsed(script, k) % WRAP < timeout)
                && !Set(event)
                && timeMilliseconds == Clock(old(timeMilliseconds), Ticks(script, 2 * k + 3))
                && forall e :: e != event && e != Unknown ==>
                                 Set(e) == (old(Set(e)) || Notified(script, e, 2 * k + 3))
    {
      hide Clock, Since, Ticks, Notified, Stops, Elapsed;
      k := 0;
      if timeout > 0 && event != Unknown {
        var startTime := timeMilliseconds;
        ghost var last: nat :| Stops(script, event, Set(event), timeout, last);
        var n := 0;
        var elapsedTime: U32;
        Nothing(script, startTime);
        while true
          invariant 0 <= n <= last
          invariant timeMilliseconds == Clock(startTime, Ticks(script, 2 * n))
          invariant Set(TransferComplete) == (old(Set(TransferComplete)) || Notified(script, TransferComplete, 2 * n))
          invariant Set(SDReady) == (old(Set(SDReady)) || Notified(script, SDReady, 2 * n))
          invariant forall j: nat :: j < n ==> !Stops(script, event, old(Set(event)), timeout, j)
          decreases last - n
        {
          OneMore(script, startTime, 2 * n);
          Interrupted(2 * n);
          elapsedTime := Since(timeMilliseconds, startTime);
          OneMore(script, startTime, 2 * n + 1);
          Interrupted(2 * n + 1);
          Checked(script, event, old(Set(event)), timeout, n);
          if Set(event) || elapsedTime >= timeout {
            break;
          }
          n := n + 1;
        }
        k := n;
        OneMore(script, startTime, 2 * n + 2);
        Interrupted(2 * n + 2);
        Assign(event, 0);
        result := elapsedTime < timeout;
      } else {
        result := false;
      }
    }
  }

  lemma {:induction false} TicksGrow(script: Script, m: nat, n: nat)
    requires m <= n
    ensures Ticks(script, m) <= Ticks(script, n)
    decreases n
  {
    if m < n {
      TicksGrow(script, m, n - 1);
    }
  }

  /** The answer of a wait that ends at reading k is right: true exactly when the event was seen set at a check whose
      clock reading came before the timeout. */
  ghost predicate Right(script: Script, event: Event, wasSet: bool, timeout: U32, k: nat) {
    Elapsed(script, k) % WRAP < timeout
    <==> exists j: nat :: Seen(script, event, wasSet, j) && Elapsed(script, j) < timeout
  }

  /** The clock moves by no more than `most` up to the first reading and between two readings. */
  ghost predicate Gaps(script: Script, most: int) {
    && Elapsed(script, 0) <= most
    && forall k: nat :: Elapsed(script, k + 1) <= Elapsed(script, k) + most
  }

  lemma RightBeforeWrap(script: Script, event: Event, wasSet: bool, timeout: U32, k: nat)
    requires FirstStop(script, event, wasSet, timeout, k) && Elapsed(script, k) < WRAP
    ensures Right(script, event, wasSet, timeout, k)
  {
    hide Ticks, Notified;
    forall j: nat | Seen(script, event, wasSet, j) && Elapsed(script, j) < timeout
      ensures Elapsed(script, k) <= Elapsed(script, j)
    {
      assert Stops(script, event, wasSet, timeout, j);
      TicksGrow(script, 2 * k + 1, 2 * j + 1);
    }
  }

  /** A wait that has not stopped before reading k has not missed a wrap. */
  lemma Unwrapped(script: Script, event: Event, wasSet: bool, timeout: U32, k: nat)
    requires timeout > 0 && Gaps(script, WRAP - timeout)
    requires forall j: nat :: j < k ==> !Stops(script, event, wasSet, timeout, j)
    ensures Elapsed(script, k) < WRAP
  {
    hide Ticks, Notified;
    if k > 0 {
      StaysUnwrapped(script, event, wasSet, timeout, k - 1);
    }
  }

  lemma {:induction false} StaysUnwrapped(script: Script, event: Event, wasSet: bool, timeout: U32, k: nat)
    requires timeout > 0 && Gaps(script, WRAP - timeout)
    requires forall j: nat :: j <= k ==> !Stops(script, event, wasSet, timeout, j)
    ensures Elapsed(script, k) < timeout && Elapsed(script, k + 1) < WRAP
    decreases k
  {
    hide Ticks, Notified;
    if k > 0 {
      StaysUnwrapped(script, event, wasSet, timeout, k - 1);
    }
    assert !Stops(script, event, wasSet, timeout, k);
  }

  lemma {:induction false} StopWithin(script: Script, event: Event, wasSet: bool, timeout: U32, n: nat) returns (k: nat)
    ensures k <= n && (forall j: nat :: j < k ==> !Stops(script, event, wasSet, timeout, j))
    ensures k < n ==> FirstStop(script, event, wasSet, timeout, k)
  {
    hide Stops;
    if n == 0 {
      k := 0;
    } else {
      k := StopWithin(script, event, wasSet, timeout, n - 1);
      if k == n - 1 && !Stops(script, event, wasSet, timeout, k) {
        k := n;
      }
    }
  }

  /** If the clock goes on until some reading shows the timeout, in gaps no wider than from the timeout to the wrap, the
      wait ends at that reading or before, with the right answer. */
  lemma WaitEnds(script: Script, event: Event, wasSet: bool, timeout: U32, n: nat)
    requires timeout > 0 && Gaps(script, WRAP - timeout) && Elapsed(script, n) >= timeout
    ensures exists k: nat :: k <= n && FirstStop(script, event, wasSet, timeout, k) && Elapsed(script, k) < WRAP
                             && Right(script, event, wasSet, timeout, k)
  {
    hide Ticks, Notified, Right;
    var k := StopWithin(script, event, wasSet, timeout, n + 1);
    if k == n + 1 {
      StaysUnwrapped(script, event, wasSet, timeout, n);
    } else {
      Unwrapped(script, event, wasSet, timeout, k);
      RightBeforeWrap(script, event, wasSet, timeout, k);
    }
  }

  /** Every wait with this timeout, whatever the interrupts, answers rightly if its readings are no more than `most`
      apart. */
  ghost predicate AlwaysRight(timeout: U32, most: int) {
    forall script: Script, event: Event, wasSet: bool, k: nat ::
      Gaps(script, most) && FirstStop(script, event, wasSet, timeout, k) ==> Right(script, event, wasSet, timeout, k)
  }

  /** Waits are answered rightly, whatever the interrupts do between readings at most this far apart, if and only if
      that is no more than from the timeout to the wrap of the clock. */
  lemma AlwaysRightIff(timeout: U32, most: int)
    requires timeout > 0
    ensures AlwaysRight(timeout, most) <==> most <= 0x1_0000_0000 - timeout
  {
    hide Stops, Elapsed, Right;
    if most <= WRAP - timeout {
      forall script: Script, event: Event, wasSet: bool, k: nat
        | Gaps(script, most) && FirstStop(script, event, wasSet, timeout, k)
        ensures Right(script, event, wasSet, timeout, k)
      {
        assert Gaps(script, WRAP - timeout);
        Unwrapped(script, event, wasSet, timeout, k);
        RightBeforeWrap(script, event, wasSet, timeout, k);
      }
    } else {
      LeapMisleads(timeout, most);
    }
  }

  /** The clock ticks once between readings until just before the timeout, and then leaps to the wrap, where the
      event is notified. */
  function Leap(timeout: U32): Script {
    n => if n == 0 || n % 2 == 1 || n > 2 * timeout then Interrupts(0, {})
         else if n < 2 * timeout then Interrupts(1, {})
         else Interrupts(WRAP - timeout + 1, {TransferComplete})
  }

  lemma {:induction false} LeapTicks(timeout: U32, n: nat)
    requires timeout > 0
    ensures var script := Leap(timeout);
            && Ticks(script, 2 * n + 1) == (if n < timeout then n else WRAP)
            && Ticks(script, 2 * n + 2) == Ticks(script, 2 * n + 1)
            && (Notified(script, TransferComplete, 2 * n + 2) <==> n >= timeout)
    decreases n
  {
    var script := Leap(timeout);
    LeapAt(timeout, n);
    if n > 0 {
      LeapTicks(timeout, n - 1);
    }
    TwoAccesses(script, n);
  }

  lemma LeapAt(timeout: U32, n: nat)
    requires timeout > 0
    ensures Leap(timeout)(2 * n + 1) == Interrupts(0, {})
    ensures Leap(timeout)(2 * n) == if n == 0 || n > timeout then Interrupts(0, {})
                                    else if n < timeout then Interrupts(1, {})
                                    else Interrupts(WRAP - timeout + 1, {TransferComplete})
  {
  }

  lemma TwoAccesses(script: Script, n: nat)
    ensures Ticks(script, 2 * n + 1) == Ticks(script, 2 * n) + script(2 * n).ticks
    ensures Ticks(script, 2 * n + 2) == Ticks(script, 2 * n + 1) + script(2 * n + 1).ticks
    ensures Ticks(script, 0) == 0
    ensures forall e :: Notified(script, e, 2 * n + 2)
                        <==> e in script(2 * n).notified || e in script(2 * n + 1).notified
                             || Notified(script, e, 2 * n)
    ensures forall e :: !Notified(script, e, 0)
  {
    var last := 2 * n + 1;
    assert forall e :: Notified(script, e, last + 1) <==> e in script(last).notified || Notified(script, e, last);
  }

  /** The wait over this script ends at the wrap and answers true, although the timeout had passed before the event was
      ever set. */
  lemma LeapMisleads(timeout: U32, most: int)
    requires timeout > 0 && most > WRAP - timeout
    ensures Gaps(Leap(timeout), most)
    ensures FirstStop(Leap(timeout), TransferComplete, false, timeout, timeout)
    ensures !Right(Leap(timeout), TransferComplete, false, timeout, timeout)
  {
    hide Ticks, Notified, Leap;
    var script := Leap(timeout);
    forall n: nat
      ensures Elapsed(script, n) == if n < timeout then n else WRAP
      ensures Seen(script, TransferComplete, false, n) <==> n >= timeout
    {
      LeapTicks(timeout, n);
    }
  }
}
