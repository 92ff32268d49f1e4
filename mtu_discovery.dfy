/**
 * Path MTU discovery: the current MTU estimate starts at a conservative
 * size and is raised by binary-search probes between it and the maximum;
 * a successful probe adopts the probed size, a failure at or below the
 * current size falls back to the last size that worked.
 *
 * `Instant::now()` is the caller's clock reading `now`, in nanoseconds,
 * and `usize` values are unbounded naturals.
 */
module MtuDiscovery {
  import opened Base

  /** The IPv6 minimum MTU, the starting estimate of `new`. */
  const IPV6_MIN_MTU: nat := 1280
  /** The IPv4 minimum MTU, the floor of `new`. */
  const IPV4_MIN_MTU: nat := 576
  /** The Ethernet MTU, the ceiling of `new`. */
  const ETHERNET_MTU: nat := 1500
  /** Bytes set aside for IP, UDP and protocol headers. */
  const HEADER_OVERHEAD: nat := 100
  /** Probes are due every 60 seconds. */
  const DEFAULT_PROBE_INTERVAL: nat := 60 * NANOS_PER_SEC

  /**
   * `next_probe_size`: the midpoint between the current MTU and the
   * maximum, unless the current MTU has reached the maximum or the midpoint
   * no longer lies above it.
   */
  function NextProbe(current: nat, max: nat): (r: Option<nat>)
    ensures r.None? <==> current + 1 >= max
    ensures r.Some? ==> current < r.value <= max && r.value < max
  {
    if current >= max then None
    else
      var mid := (current + max) / 2;
      if mid <= current then None else Some(mid)
  }

  /** The MTU reached when every probe from `current` succeeds. */
  function Climb(current: nat, max: nat): nat
    decreases max - current
  {
    match NextProbe(current, max)
    case None => current
    case Some(size) => Climb(size, max)
  }

  /**
   * Probing that always succeeds converges one byte below the maximum:
   * the midpoint of `max - 1` and `max` is `max - 1` itself, so the
   * maximum is never probed. At or above the maximum nothing is probed.
   */
  lemma {:induction false} ClimbConverges(current: nat, max: nat)
    ensures current < max ==> Climb(current, max) == max - 1
    ensures current >= max ==> Climb(current, max) == current
    decreases max - current
  {
    match NextProbe(current, max)
    case None =>
    case Some(size) =>
      ClimbConverges(size, max);
  }

  /** `MtuStats`: a snapshot of the estimator. */
  datatype MtuStats = MtuStats(
    currentMtu: nat,
    minMtu: nat,
    maxMtu: nat,
    lastSuccessfulMtu: nat,
    recommendedPayload: nat)

  class MtuDiscovery {
    var currentMtu: nat
    const minMtu: nat
    const maxMtu: nat
    var lastSuccessfulMtu: nat
    var lastProbeTime: Option<nat>
    var probeInterval: nat

    /**
     * The estimate is always the last size that worked, and never below
     * the floor.
     */
    ghost predicate Valid()
      reads this
    {
      currentMtu == lastSuccessfulMtu && minMtu <= currentMtu
    }

    /** `MtuDiscovery::new`: 1280 within [576, 1500], no probe yet, a 60 s interval. */
    constructor ()
      ensures Valid()
      ensures currentMtu == IPV6_MIN_MTU && minMtu == IPV4_MIN_MTU && maxMtu == ETHERNET_MTU
      ensures lastProbeTime == None && probeInterval == DEFAULT_PROBE_INTERVAL
    {
      currentMtu := IPV6_MIN_MTU;
      minMtu := IPV4_MIN_MTU;
      maxMtu := ETHERNET_MTU;
      lastSuccessfulMtu := IPV6_MIN_MTU;
      lastProbeTime := None;
      probeInterval := DEFAULT_PROBE_INTERVAL;
    }

    /** `with_range`: the estimate starts at the floor. */
    constructor WithRange(minMtu: nat, maxMtu: nat)
      ensures Valid()
      ensures currentMtu == minMtu && this.minMtu == minMtu && this.maxMtu == maxMtu
      ensures lastProbeTime == None && probeInterval == DEFAULT_PROBE_INTERVAL
    {
      currentMtu := minMtu;
      this.minMtu := minMtu;
      this.maxMtu := maxMtu;
      lastSuccessfulMtu := minMtu;
      lastProbeTime := None;
      probeInterval := DEFAULT_PROBE_INTERVAL;
    }

    function CurrentMtu(): nat
      reads this
    {
      currentMtu
    }

    /** The MTU less the header overhead, or zero for a tiny MTU. */
    function RecommendedPayloadSize(): (p: nat)
      reads this
      ensures p <= currentMtu
      ensures currentMtu >= HEADER_OVERHEAD ==> p + HEADER_OVERHEAD == currentMtu
      ensures currentMtu < HEADER_OVERHEAD ==> p == 0
    {
      SaturatingSub(currentMtu, HEADER_OVERHEAD)
    }

    /** A probe is due when none was made yet or the interval has elapsed since the last. */
    predicate ShouldProbe(now: nat)
      reads this
      ensures lastProbeTime.None? ==> ShouldProbe(now)
      ensures lastProbeTime.Some? && lastProbeTime.value <= now ==>
        (ShouldProbe(now) <==> now >= lastProbeTime.value + probeInterval)
    {
      match lastProbeTime
      case None => true
      case Some(last) => Elapsed(now, last) >= probeInterval
    }

    function NextProbeSize(): (r: Option<nat>)
      reads this
      ensures r.None? <==> currentMtu + 1 >= maxMtu
      ensures r.Some? ==> currentMtu < r.value <= maxMtu
    {
      NextProbe(currentMtu, maxMtu)
    }

    /** `report_success`: a size above the last working one becomes the estimate. */
    method ReportSuccess(size: nat, now: nat)
      requires Valid()
      modifies this
      ensures Valid()
      ensures size > old(lastSuccessfulMtu) ==> currentMtu == size
      ensures size <= old(lastSuccessfulMtu) ==> currentMtu == old(currentMtu)
      ensures old(currentMtu) <= currentMtu
      ensures lastProbeTime == Some(now) && probeInterval == old(probeInterval)
    {
      if size > lastSuccessfulMtu {
        lastSuccessfulMtu := size;
        currentMtu := size;
      }
      lastProbeTime := Some(now);
    }

    /**
     * `report_failure`: a failure at or below the estimate falls back to the
     * last working size. Since the estimate always is that size, no failure
     * changes it.
     */
    method ReportFailure(size: nat, now: nat)
      requires Valid()
      modifies this
      ensures Valid()
      ensures currentMtu == old(currentMtu) && lastSuccessfulMtu == old(lastSuccessfulMtu)
      ensures lastProbeTime == Some(now) && probeInterval == old(probeInterval)
    {
      if size <= currentMtu {
        currentMtu := lastSuccessfulMtu;
      }
      lastProbeTime := Some(now);
    }

    /** `reset`: back to the floor, with a probe due at once. */
    method Reset()
      requires Valid()
      modifies this
      ensures Valid()
      ensures currentMtu == minMtu && lastProbeTime == None && probeInterval == old(probeInterval)
      ensures forall now :: ShouldProbe(now)
    {
      currentMtu := minMtu;
      lastSuccessfulMtu := minMtu;
      lastProbeTime := None;
    }

    method SetProbeInterval(interval: nat)
      modifies this
      ensures probeInterval == interval
      ensures currentMtu == old(currentMtu) && lastSuccessfulMtu == old(lastSuccessfulMtu)
      ensures lastProbeTime == old(lastProbeTime)
    {
      probeInterval := interval;
    }

    function Stats(): (s: MtuStats)
      reads this
      ensures s.currentMtu == currentMtu && s.minMtu == minMtu && s.maxMtu == maxMtu
      ensures s.lastSuccessfulMtu == lastSuccessfulMtu
      ensures s.recommendedPayload <= s.currentMtu
    {
      MtuStats(currentMtu, minMtu, maxMtu, lastSuccessfulMtu, RecommendedPayloadSize())
    }
  }

  /** A new estimator wants a probe, probes 1390, and adopts it on success. */
  method ProbeScenario(now: nat) returns (due: bool, probe: Option<nat>, adopted: nat, payload: nat)
    ensures due && probe == Some(1390) && adopted == 1390
    ensures payload == 1180
  {
    var mtu := new MtuDiscovery();
    payload := mtu.RecommendedPayloadSize();
    due := mtu.ShouldProbe(now);
    probe := mtu.NextProbeSize();
    mtu.ReportSuccess(probe.value, now);
    adopted := mtu.CurrentMtu();
  }

  /** A success at 1400 sticks through a failure at 1500; `reset` returns to 576. */
  method FailureAndResetScenario(now: nat) returns (afterSuccess: nat, afterFailure: nat, afterReset: nat)
    ensures afterSuccess == 1400 && afterFailure == 1400 && afterReset == 576
  {
    var mtu := new MtuDiscovery();
    mtu.ReportSuccess(1400, now);
    afterSuccess := mtu.CurrentMtu();
    mtu.ReportFailure(1500, now);
    afterFailure := mtu.CurrentMtu();
    mtu.Reset();
    afterReset := mtu.CurrentMtu();
  }
}
