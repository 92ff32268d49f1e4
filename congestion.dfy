/**
 * NewReno congestion control: a congestion window `cwnd` (bytes) that grows
 * by the acknowledged bytes in slow start, by roughly one segment per
 * round trip in congestion avoidance, and collapses to the minimum window
 * on loss.
 *
 * `usize` is taken as 64 bits; `usize::MAX` is the initial slow-start
 * threshold. Window growth is unbounded here (see README).
 */
module Congestion {
  import opened Base

  datatype CongestionState = SlowStart | CongestionAvoidance | Recovery

  /**
   * The growth of `cwnd` on an acknowledgement in congestion avoidance:
   * the square of the acknowledged bytes, taken modulo 2^64 as a release
   * build's `usize` product wraps, divided by the window, and at least 1.
   */
  function AvoidanceIncrease(ackedBytes: nat, cwnd: nat): (inc: nat)
    requires cwnd > 0
    ensures inc >= 1
    ensures inc * cwnd <= (ackedBytes * ackedBytes) % U64_LIMIT || inc == 1
    ensures (ackedBytes * ackedBytes) % U64_LIMIT < (inc + 1) * cwnd
    ensures ackedBytes < U32_LIMIT ==>
      (inc * cwnd <= ackedBytes * ackedBytes || inc == 1) && ackedBytes * ackedBytes < (inc + 1) * cwnd
  {
    var square := (ackedBytes * ackedBytes) % U64_LIMIT;
    SquareBelowTwo64(ackedBytes);
    var q := square / cwnd;
    if q >= 1 then q else 1
  }

  /** Below 2^32 acknowledged bytes the square fits in 64 bits and does not wrap. */
  lemma SquareBelowTwo64(ackedBytes: nat)
    ensures ackedBytes < U32_LIMIT ==> (ackedBytes * ackedBytes) % U64_LIMIT == ackedBytes * ackedBytes
  {
    if ackedBytes < U32_LIMIT {
      MulStrictBelow(ackedBytes, U32_LIMIT);
    }
  }

  lemma MulStrictBelow(a: nat, n: nat)
    requires a < n
    ensures a * a < n * n
  {
    assert a * a <= a * n;
  }

  /** At 2^32 acknowledged bytes the square wraps to 0, so the window grows by only 1. */
  lemma AvoidanceIncreaseWraps(cwnd: nat)
    requires cwnd > 0
    ensures AvoidanceIncrease(U32_LIMIT, cwnd) == 1
  {
    assert U32_LIMIT * U32_LIMIT == U64_LIMIT;
  }

  class NewReno {
    var cwnd: nat
    var ssthresh: nat
    var state: CongestionState
    const initialWindow: nat
    const minWindow: nat

    /** The window never drops below the minimum, and neither does the threshold. */
    ghost predicate Valid()
      reads this
    {
      minWindow <= cwnd && minWindow <= ssthresh
    }

    /** `NewReno::new`: ten segments initially (RFC 6928), a floor of two segments. */
    constructor (mss: nat)
      requires 10 * mss <= U64_MAX
      ensures Valid()
      ensures cwnd == 10 * mss && initialWindow == 10 * mss && minWindow == 2 * mss
      ensures ssthresh == U64_MAX && state == SlowStart
    {
      initialWindow := 10 * mss;
      cwnd := 10 * mss;
      ssthresh := U64_MAX;
      state := SlowStart;
      minWindow := 2 * mss;
    }

    /** Sending changes nothing; the caller tracks bytes in flight. */
    method OnPacketSent(sentBytes: nat)
    {
    }

    /** `on_packet_acked`; the round-trip sample is not used. */
    method OnPacketAcked(ackedBytes: nat)
      requires Valid()
      modifies this
      ensures Valid()
      ensures old(state) == SlowStart ==>
        cwnd == old(cwnd) + ackedBytes && ssthresh == old(ssthresh)
        && state == (if cwnd >= ssthresh then CongestionAvoidance else SlowStart)
      ensures old(state) == CongestionAvoidance ==>
        ssthresh == old(ssthresh) && state == CongestionAvoidance
        && cwnd == (if old(cwnd) > 0 then old(cwnd) + AvoidanceIncrease(ackedBytes, old(cwnd)) else old(cwnd))
      ensures old(state) == Recovery ==>
        cwnd == old(ssthresh) && ssthresh == old(ssthresh) && state == CongestionAvoidance
      ensures old(state) != Recovery ==> old(cwnd) <= cwnd && state != Recovery
    {
      match state
      case SlowStart =>
        cwnd := cwnd + ackedBytes;
        if cwnd >= ssthresh {
          state := CongestionAvoidance;
        }
      case CongestionAvoidance =>
        if cwnd > 0 {
          var square := (ackedBytes * ackedBytes) % U64_LIMIT;
          var increase := square / cwnd;
          assert Max(1, increase) == AvoidanceIncrease(ackedBytes, cwnd);
          cwnd := cwnd + Max(1, increase);
        }
      case Recovery =>
        cwnd := ssthresh;
        state := CongestionAvoidance;
    }

    /** `on_packet_lost`: multiplicative decrease, then slow start from the minimum window. */
    method OnPacketLost(lostBytes: nat)
      requires Valid()
      modifies this
      ensures Valid()
      ensures ssthresh == Max(old(cwnd) / 2, minWindow)
      ensures cwnd == minWindow && state == SlowStart
      ensures cwnd <= old(cwnd)
    {
      ssthresh := Max(cwnd / 2, minWindow);
      cwnd := minWindow;
      state := SlowStart;
    }

    function CongestionWindow(): (w: nat)
      reads this
      requires Valid()
      ensures w >= minWindow
    {
      cwnd
    }

    /** More may be sent while the bytes in flight stay below the window. */
    predicate CanSend(inflightBytes: nat)
      reads this
      requires Valid()
      ensures inflightBytes < minWindow ==> CanSend(inflightBytes)
    {
      inflightBytes < cwnd
    }

    function State(): CongestionState
      reads this
    {
      state
    }
  }

  /** One acknowledged segment in slow start grows a 10-segment window to 11 segments. */
  method SlowStartScenario() returns (window: nat, state: CongestionState)
    ensures window == 11000 && state == SlowStart
  {
    var cc := new NewReno(1000);
    cc.OnPacketAcked(1000);
    window := cc.CongestionWindow();
    state := cc.State();
  }

  /** Reaching a threshold of 11 segments moves slow start to congestion avoidance. */
  method AvoidanceTransitionScenario() returns (window: nat, state: CongestionState)
    ensures window == 11000 && state == CongestionAvoidance
  {
    var cc := new NewReno(1000);
    cc.ssthresh := 11000;
    cc.OnPacketAcked(1000);
    window := cc.CongestionWindow();
    state := cc.State();
  }

  /** A loss halves the threshold and drops the window to the two-segment minimum. */
  method LossScenario() returns (window: nat, threshold: nat, state: CongestionState)
    ensures window == 2000 && threshold == 5000 && state == SlowStart
  {
    var cc := new NewReno(1000);
    cc.OnPacketLost(1000);
    window := cc.CongestionWindow();
    threshold := cc.ssthresh;
    state := cc.State();
  }
}
