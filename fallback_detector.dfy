/**
 * UDP-to-TCP fallback detection: consecutive UDP failures are counted, a
 * success clears the count, and once the count reaches the threshold (and
 * fallback is enabled) the transport should fall back to TCP.
 *
 * `Instant::now()` is the caller's clock reading `now`, in nanoseconds.
 */
module FallbackDetectors {
  import opened Base

  datatype FallbackConfig = FallbackConfig(
    failureThreshold: u32,
    udpTimeout: nat,
    enableFallback: bool,
    failureWindow: nat)

  /** Three failures, a 5 s UDP timeout, fallback enabled, a 30 s window. */
  const DEFAULT_CONFIG: FallbackConfig :=
    FallbackConfig(3, 5 * NANOS_PER_SEC, true, 30 * NANOS_PER_SEC)

  class FallbackDetector {
    var udpFailures: nat
    var lastUdpSuccess: Option<nat>
    var lastUdpAttempt: Option<nat>
    const config: FallbackConfig

    constructor (config: FallbackConfig)
      ensures udpFailures == 0 && lastUdpSuccess == None && lastUdpAttempt == None
      ensures this.config == config
      ensures ShouldFallback() <==> config.enableFallback && config.failureThreshold == 0
    {
      udpFailures := 0;
      lastUdpSuccess := None;
      lastUdpAttempt := None;
      this.config := config;
    }

    method RecordUdpAttempt(now: nat)
      modifies this
      ensures lastUdpAttempt == Some(now)
      ensures udpFailures == old(udpFailures) && lastUdpSuccess == old(lastUdpSuccess)
    {
      lastUdpAttempt := Some(now);
    }

    /** A response clears the failure count, so fallback is no longer advised. */
    method RecordUdpSuccess(now: nat)
      modifies this
      ensures udpFailures == 0 && lastUdpSuccess == Some(now)
      ensures lastUdpAttempt == old(lastUdpAttempt)
      ensures !ShouldFallback() || config.failureThreshold == 0
    {
      udpFailures := 0;
      lastUdpSuccess := Some(now);
    }

    /** One more consecutive failure; fallback may now be advised. */
    method RecordUdpFailure()
      modifies this
      ensures udpFailures == old(udpFailures) + 1
      ensures lastUdpSuccess == old(lastUdpSuccess) && lastUdpAttempt == old(lastUdpAttempt)
      ensures old(ShouldFallback()) ==> ShouldFallback()
    {
      udpFailures := udpFailures + 1;
    }

    /** Fall back once enabled and the failures have reached the threshold. */
    predicate ShouldFallback()
      reads this
    {
      config.enableFallback && udpFailures >= config.failureThreshold
    }

    /** The last attempt has gone unanswered for longer than the UDP timeout. */
    predicate IsUdpTimeout(now: nat)
      reads this
      ensures lastUdpAttempt.None? ==> !IsUdpTimeout(now)
      ensures IsUdpTimeout(now) ==> now > lastUdpAttempt.value + config.udpTimeout
    {
      match lastUdpAttempt
      case None => false
      case Some(last) => Elapsed(now, last) > config.udpTimeout
    }

    method Reset()
      modifies this
      ensures udpFailures == 0 && lastUdpSuccess == None && lastUdpAttempt == None
      ensures !ShouldFallback() || config.failureThreshold == 0
      ensures forall now :: !IsUdpTimeout(now)
    {
      udpFailures := 0;
      lastUdpSuccess := None;
      lastUdpAttempt := None;
    }

    function FailureCount(): nat
      reads this
    {
      udpFailures
    }

    function TimeSinceLastSuccess(now: nat): (d: Option<nat>)
      reads this
      ensures d.Some? <==> lastUdpSuccess.Some?
      ensures d.Some? && lastUdpSuccess.value <= now ==> lastUdpSuccess.value + d.value == now
    {
      match lastUdpSuccess
      case None => None
      case Some(t) => Some(Elapsed(now, t))
    }
  }

  /** With the defaults, fallback is advised after the third failure and not before. */
  method ThresholdScenario() returns (none: bool, one: bool, two: bool, three: bool)
    ensures !none && !one && !two && three
  {
    var d := new FallbackDetector(DEFAULT_CONFIG);
    none := d.ShouldFallback();
    d.RecordUdpFailure();
    one := d.ShouldFallback();
    d.RecordUdpFailure();
    two := d.ShouldFallback();
    d.RecordUdpFailure();
    three := d.ShouldFallback();
  }

  /** A success after two failures clears the count and the advice. */
  method SuccessResetsScenario(now: nat) returns (before: nat, after: nat, fallback: bool)
    ensures before == 2 && after == 0 && !fallback
  {
    var d := new FallbackDetector(DEFAULT_CONFIG);
    d.RecordUdpFailure();
    d.RecordUdpFailure();
    before := d.FailureCount();
    d.RecordUdpSuccess(now);
    after := d.FailureCount();
    fallback := d.ShouldFallback();
  }

  /** With a 100 ms timeout: none before an attempt, none at once, one 150 ms later. */
  method TimeoutScenario(t: nat) returns (initially: bool, atOnce: bool, later: bool)
    ensures !initially && !atOnce && later
  {
    var d := new FallbackDetector(DEFAULT_CONFIG.(udpTimeout := 100 * NANOS_PER_MILLI));
    initially := d.IsUdpTimeout(t);
    d.RecordUdpAttempt(t);
    atOnce := d.IsUdpTimeout(t);
    later := d.IsUdpTimeout(t + 150 * NANOS_PER_MILLI);
  }

  /** With fallback disabled, three failures advise nothing. */
  method DisabledScenario() returns (fallback: bool)
    ensures !fallback
  {
    var d := new FallbackDetector(DEFAULT_CONFIG.(enableFallback := false));
    d.RecordUdpFailure();
    d.RecordUdpFailure();
    d.RecordUdpFailure();
    fallback := d.ShouldFallback();
  }

  /** `reset` forgets the last success. */
  method ResetScenario(now: nat) returns (count: nat, since: Option<nat>, afterReset: Option<nat>)
    ensures count == 0 && since.Some? && afterReset.None?
  {
    var d := new FallbackDetector(DEFAULT_CONFIG);
    d.RecordUdpFailure();
    d.RecordUdpFailure();
    d.RecordUdpSuccess(now);
    count := d.FailureCount();
    since := d.TimeSinceLastSuccess(now);
    d.Reset();
    afterReset := d.TimeSinceLastSuccess(now);
  }
}
