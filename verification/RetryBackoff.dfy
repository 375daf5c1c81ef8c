/** The two loops that retry the network connection with doubling waits, and the error count behind one of them. */
module RetryBackoff {
  const MAX_CONNECTION_ERRORS := 9
  const FIRST_WAIT := 5000
  const INT32_LIMIT := 0x8000_0000

  /** Whether the n-th connection attempt fails. */
  type Attempts = nat -> bool

  ghost predicate FailFirst(fails: Attempts, n: int) {
    forall i: nat :: i < n ==> fails(i)
  }

  function Doubled(n: nat): (p: nat)
    ensures p >= 1
  {
    if n == 0 then 1 else 2 * Doubled(n - 1)
  }

  /** The waits before these many retries: each twice the one before. */
  function Waits(n: nat): nat {
    if n == 0 then 0 else Waits(n - 1) + FIRST_WAIT * Doubled(n - 1)
  }

  lemma {:induction false} WaitsAddUp(n: nat)
    ensures Waits(n) == FIRST_WAIT * (Doubled(n) - 1)
  {
    if n > 0 {
      WaitsAddUp(n - 1);
    }
  }

  lemma OneMoreWait(n: nat)
    ensures Doubled(n + 1) == 2 * Doubled(n) && Waits(n + 1) == Waits(n) + FIRST_WAIT * Doubled(n)
    ensures Doubled(0) == 1 && Waits(0) == 0
  {
  }

  lemma {:induction false} DoubledGrows(m: nat, n: nat)
    requires m <= n
    ensures Doubled(m) <= Doubled(n)
    decreases n
  {
    if m < n {
      DoubledGrows(m, n - 1);
    }
  }

  /** The wait after n failures fits a 32-bit int if and only if there are at most eighteen. */
  lemma WaitFitsIff(n: nat)
    ensures 5000 * Doubled(n) < 0x8000_0000 <==> n <= 18
    ensures Doubled(9) == 512
  {
    assert Doubled(3) == 8;
    assert Doubled(6) == 8 * Doubled(3);
    assert Doubled(9) == 8 * Doubled(6);
    assert Doubled(12) == 8 * Doubled(9);
    assert Doubled(15) == 8 * Doubled(12);
    assert Doubled(18) == 8 * Doubled(15);
    OneMoreWait(18);
    if n <= 18 {
      DoubledGrows(n, 18);
    } else {
      DoubledGrows(19, n);
    }
  }

  /** The loop of main_application. It reboots exactly if the first nine attempts fail, else it goes on after the first
      that does not; after n failures it has waited 5000 * (2^n - 1) milliseconds for retries. */
  method ConnectNetwork(fails: Attempts) returns (rebooted: bool, failures: nat, waited: nat)
    ensures rebooted <==> FailFirst(fails, 9)
    ensures FailFirst(fails, failures) && failures <= 9
    ensures rebooted <==> failures == 9
    ensures !rebooted ==> !fails(failures)
    ensures waited == 5000 * (Doubled(failures) - 1) && 5000 * Doubled(failures) < 0x8000_0000
    ensures rebooted ==> failures == 9 && waited == 2_555_000
  {
    hide Doubled, Waits;
    OneMoreWait(0);
    var timeoutMs := FIRST_WAIT;
    var retryCounter := 0;
    rebooted, failures, waited := false, 0, 0;
    while fails(failures)
      invariant failures == retryCounter < MAX_CONNECTION_ERRORS && FailFirst(fails, failures)
      invariant timeoutMs == FIRST_WAIT * Doubled(failures) && waited == Waits(failures)
      decreases MAX_CONNECTION_ERRORS - failures
    {
      OneMoreWait(failures);
      WaitFitsIff(failures + 1);
      assert 2 * timeoutMs < INT32_LIMIT;
      waited := waited + timeoutMs;
      timeoutMs := timeoutMs * 2;
      failures := failures + 1;
      retryCounter := retryCounter + 1;
      if retryCounter == MAX_CONNECTION_ERRORS {
        rebooted := true;
        break;
      }
    }
    WaitsAddUp(failures);
    WaitFitsIff(failures);
  }

  datatype Status = Registered | Unregistered | RegistrationUpdated | Sleep | Other

  class Client {
    var errorCount: int
    var paused: bool
    var registered: bool
    var registerCalled: bool

    constructor ()
      ensures errorCount == 0 && !paused && !registered && !registerCalled
    {
      errorCount, paused, registered, registerCalled := 0, false, false, false;
    }

    /** pdmc_status_handler. */
    method StatusHandler(status: Status)
      modifies this
      ensures errorCount == if status in {Registered, RegistrationUpdated} then 0 else old(errorCount)
      ensures paused == if status == Sleep then true else if status == Unregistered then false else old(paused)
      ensures registered == (status == Registered || (old(registered) && status != Unregistered))
      ensures registerCalled == (old(registerCalled) && status != Unregistered)
    {
      match status
      case Registered => registered, errorCount := true, 0;
      case Unregistered => paused, registered, registerCalled := false, false, false;
      case RegistrationUpdated => errorCount := 0;
      case Sleep => paused := true;
      case Other =>
    }

    /** True if the device reboots. */
    method RebootIfThresholdValue(threshold: int) returns (reboot: bool)
      modifies this`errorCount
      ensures errorCount == old(errorCount) + 1 && (reboot <==> errorCount == threshold)
    {
      errorCount := errorCount + 1;
      reboot := errorCount == threshold;
    }

    /** pdmc_resume. With an error count of at most 8 it reboots exactly if the attempts that are missing to nine all
        fail; with a higher one it never reboots. Up to eighteen failures, and so always before such a reboot, every
        wait fits an int. */
    method Resume(fails: Attempts) returns (rebooted: bool, failures: nat, waited: nat)
      requires errorCount < MAX_CONNECTION_ERRORS || exists n: nat :: !fails(n)
      modifies this
      ensures !paused && errorCount == old(errorCount) + failures
      ensures rebooted <==> old(errorCount) < 9 && FailFirst(fails, 9 - old(errorCount))
      ensures rebooted ==> errorCount == 9 && (old(errorCount) == 0 ==> waited == 2_555_000)
      ensures FailFirst(fails, failures) && (!rebooted ==> !fails(failures))
      ensures registered == old(registered) && registerCalled == old(registerCalled)
      ensures failures <= 18 ==>
                waited == 5000 * (Doubled(failures) - 1) && 5000 * Doubled(failures) < 0x8000_0000
      ensures 0 <= old(errorCount) < 9 ==> failures <= 9 - old(errorCount)
    {
      hide Doubled, Waits;
      OneMoreWait(0);
      paused := false;
      var timeoutMs := FIRST_WAIT;
      rebooted, failures, waited := false, 0, 0;
      ghost var last: nat := 0;
      if errorCount >= MAX_CONNECTION_ERRORS {
        last :| !fails(last);
      }
      while fails(failures)
        invariant registered == old(registered) && registerCalled == old(registerCalled)
        invariant FailFirst(fails, failures) && !paused && errorCount == old(errorCount) + failures
        invariant if old(errorCount) < MAX_CONNECTION_ERRORS then errorCount < MAX_CONNECTION_ERRORS
                  else failures <= last
        invariant timeoutMs == FIRST_WAIT * Doubled(failures) && waited == Waits(failures)
        decreases if old(errorCount) < MAX_CONNECTION_ERRORS then MAX_CONNECTION_ERRORS - errorCount
                  else last - failures
      {
        OneMoreWait(failures);
        waited := waited + timeoutMs;
        timeoutMs := timeoutMs * 2;
        failures := failures + 1;
        var reboot := RebootIfThresholdValue(MAX_CONNECTION_ERRORS);
        if reboot {
          rebooted := true;
          break;
        }
      }
      WaitsAddUp(failures);
      WaitFitsIff(failures);
    }
  }
}
