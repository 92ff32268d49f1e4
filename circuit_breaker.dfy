/**
 * A circuit breaker guarding calls to a peer: Closed lets requests through
 * and counts failures; enough failures trip it Open, which refuses
 * requests until a reset timeout has passed since the last failure; it then
 * lets a trial request through in HalfOpen, where enough successes close it
 * again and any failure reopens it.
 *
 * The state is stored as a raw `u32` (0 Closed, 1 Open, 2 HalfOpen), as in
 * the source; the wall clock (milliseconds since the epoch) is the
 * parameter `nowMs`. The atomics are modelled as plain fields.
 */
module CircuitBreakers {
  import opened Base

  datatype State = Closed | Open | HalfOpen

  const RAW_CLOSED: u32 := 0
  const RAW_OPEN: u32 := 1
  const RAW_HALF_OPEN: u32 := 2

  /** The raw code the breaker stores for each state. */
  function Code(s: State): u32 {
    match s
    case Closed => RAW_CLOSED
    case Open => RAW_OPEN
    case HalfOpen => RAW_HALF_OPEN
  }

  /** `state()`: decodes the raw code; any unknown code reads as Closed. */
  function StateOf(raw: u32): (s: State)
    ensures raw <= 2 ==> Code(s) == raw
    ensures raw > 2 ==> s == Closed
  {
    match raw
    case 0 => Closed
    case 1 => Open
    case 2 => HalfOpen
    case _ => Closed
  }

  /** Decoding inverts encoding. */
  lemma CodeRoundTrip(s: State)
    ensures StateOf(Code(s)) == s
  {
  }

  /** `reset_timeout` is kept in whole milliseconds. */
  datatype Config = Config(failureThreshold: u32, resetTimeoutMs: nat, successThreshold: u32)

  /** Five failures, ten seconds, two successes. */
  const DEFAULT_CONFIG: Config := Config(5, 10_000, 2)

  /** `reset_timeout.as_millis() as u64`: the cast keeps the low 64 bits. */
  function TimeoutMs(c: Config): (t: u64)
    ensures c.resetTimeoutMs < U64_LIMIT ==> t == c.resetTimeoutMs
  {
    c.resetTimeoutMs % U64_LIMIT
  }

  class CircuitBreaker {
    const config: Config
    var state: u32
    var failures: u32
    var successes: u32
    var lastFailureTime: u64

    /**
     * While Closed the failure count stays below the threshold (or is 0),
     * and while HalfOpen so does the success count, so neither `+ 1` of the
     * source can overflow.
     */
    ghost predicate Valid()
      reads this
    {
      (state == RAW_CLOSED ==> failures == 0 || failures < config.failureThreshold)
      && (state == RAW_HALF_OPEN ==> successes == 0 || successes < config.successThreshold)
    }

    constructor (config: Config)
      ensures Valid() && this.config == config
      ensures state == RAW_CLOSED && failures == 0 && successes == 0 && lastFailureTime == 0
      ensures State() == Closed
    {
      this.config := config;
      state := RAW_CLOSED;
      failures := 0;
      successes := 0;
      lastFailureTime := 0;
    }

    function State(): State
      reads this
    {
      StateOf(state)
    }

    /**
     * `allow_request`: Closed and HalfOpen (and unknown codes) allow; Open
     * allows only once the reset timeout has passed since the last failure,
     * and then moves to HalfOpen with the success count reset.
     */
    method AllowRequest(nowMs: u64) returns (allowed: bool)
      requires Valid()
      modifies this
      ensures Valid()
      ensures old(state) != RAW_OPEN ==> allowed && unchanged(this)
      ensures old(state) == RAW_OPEN ==>
        (allowed <==> SaturatingSub(nowMs, old(lastFailureTime)) >= TimeoutMs(config))
      ensures old(state) == RAW_OPEN && allowed ==>
        state == RAW_HALF_OPEN && successes == 0
        && failures == old(failures) && lastFailureTime == old(lastFailureTime)
      ensures old(state) == RAW_OPEN && !allowed ==> unchanged(this)
    {
      match state
      case 0 => return true;
      case 1 =>
        var lastFailure := lastFailureTime;
        if SaturatingSub(nowMs, lastFailure) >= TimeoutMs(config) {
          // compare_exchange(1, 2): the state was just read as 1
          state := RAW_HALF_OPEN;
          successes := 0;
          return true;
        }
        return false;
      case 2 => return true;
      case _ => return true;
    }

    /**
     * `record_success`: in HalfOpen count the success and close once the
     * success threshold is reached, zeroing both counters; in Closed reset
     * the failure count; in Open do nothing.
     */
    method RecordSuccess()
      requires Valid()
      modifies this
      ensures Valid() && lastFailureTime == old(lastFailureTime)
      ensures old(state) == RAW_HALF_OPEN && old(successes) + 1 >= config.successThreshold ==>
        state == RAW_CLOSED && failures == 0 && successes == 0
      ensures old(state) == RAW_HALF_OPEN && old(successes) + 1 < config.successThreshold ==>
        state == RAW_HALF_OPEN && successes == old(successes) + 1 && failures == old(failures)
      ensures old(state) == RAW_CLOSED ==> state == RAW_CLOSED && failures == 0 && successes == old(successes)
      ensures old(state) != RAW_HALF_OPEN && old(state) != RAW_CLOSED ==> unchanged(this)
    {
      var s := state;
      if s == RAW_HALF_OPEN {
        successes := successes + 1;
        var count := successes;
        if count >= config.successThreshold {
          state := RAW_CLOSED;
          failures := 0;
          successes := 0;
        }
      } else if s == RAW_CLOSED {
        failures := 0;
      }
    }

    /**
     * `record_failure`: in Closed count the failure and trip Open at the
     * failure threshold; in HalfOpen trip Open at once; always stamp the
     * failure time.
     */
    method RecordFailure(nowMs: u64)
      requires Valid()
      modifies this
      ensures Valid() && lastFailureTime == nowMs && successes == old(successes)
      ensures old(state) == RAW_CLOSED ==> failures == old(failures) + 1
      ensures old(state) == RAW_CLOSED && old(failures) + 1 >= config.failureThreshold ==> state == RAW_OPEN
      ensures old(state) == RAW_CLOSED && old(failures) + 1 < config.failureThreshold ==> state == RAW_CLOSED
      ensures old(state) == RAW_HALF_OPEN ==> state == RAW_OPEN && failures == old(failures)
      ensures old(state) != RAW_CLOSED && old(state) != RAW_HALF_OPEN ==>
        state == old(state) && failures == old(failures)
    {
      var s := state;
      if s == RAW_CLOSED {
        failures := failures + 1;
        var count := failures;
        if count >= config.failureThreshold {
          TripToOpen();
        }
      } else if s == RAW_HALF_OPEN {
        TripToOpen();
      }
      lastFailureTime := nowMs;
    }

    method TripToOpen()
      modifies this
      ensures state == RAW_OPEN
      ensures failures == old(failures) && successes == old(successes) && lastFailureTime == old(lastFailureTime)
    {
      state := RAW_OPEN;
    }
  }

  /** A new breaker with the default configuration is Closed and allows a request. */
  method InitialScenario() returns (state: State, allowed: bool)
    ensures state == Closed && allowed
  {
    var cb := new CircuitBreaker(DEFAULT_CONFIG);
    state := cb.State();
    allowed := cb.AllowRequest(0);
  }

  /** With a threshold of two, one failure keeps it Closed, the second trips it Open and refuses. */
  method TripScenario(t: u64) returns (afterOne: State, afterTwo: State, allowed: bool)
    ensures afterOne == Closed && afterTwo == Open && !allowed
  {
    var cb := new CircuitBreaker(DEFAULT_CONFIG.(failureThreshold := 2));
    cb.RecordFailure(t);
    afterOne := cb.State();
    cb.RecordFailure(t);
    afterTwo := cb.State();
    allowed := cb.AllowRequest(t);
  }

  /** After the 100 ms timeout a request moves it to HalfOpen; two successes close it. */
  method HalfOpenRecoveryScenario(t: u64) returns (allowed: bool, trial: State, afterOne: State, afterTwo: State)
    requires t + 150 < U64_LIMIT
    ensures allowed && trial == HalfOpen && afterOne == HalfOpen && afterTwo == Closed
  {
    var cb := new CircuitBreaker(Config(1, 100, 2));
    cb.RecordFailure(t);
    allowed := cb.AllowRequest(t + 150);
    trial := cb.State();
    cb.RecordSuccess();
    afterOne := cb.State();
    cb.RecordSuccess();
    afterTwo := cb.State();
  }

  /** A failure during the HalfOpen trial reopens it, and it refuses again. */
  method HalfOpenFailureScenario(t: u64) returns (trial: State, reopened: State, allowed: bool)
    requires t + 150 < U64_LIMIT
    ensures trial == HalfOpen && reopened == Open && !allowed
  {
    var cb := new CircuitBreaker(Config(1, 100, 2));
    cb.RecordFailure(t);
    var first := cb.AllowRequest(t + 150);
    trial := cb.State();
    cb.RecordFailure(t + 150);
    reopened := cb.State();
    allowed := cb.AllowRequest(t + 150);
  }
}
