/**
 * Delivery modes of a message and the retransmission predicates derived
 * from them.
 */
module Delivery {
  import opened Base

  /** `Reliable` is the default mode. */
  datatype DeliveryMode = Reliable | PartiallyReliable(ttlMs: u32) | BestEffort

  const DEFAULT_MODE: DeliveryMode := Reliable

  /** Whether the receiver must acknowledge packets sent in mode `m`. */
  predicate RequiresAck(m: DeliveryMode)
    ensures RequiresAck(m) <==> m != BestEffort
  {
    match m
    case Reliable => true
    case PartiallyReliable(_) => true
    case BestEffort => false
  }

  /** Whether unacknowledged packets sent in mode `m` are sent again. */
  predicate RequiresRetransmit(m: DeliveryMode)
    ensures RequiresRetransmit(m) <==> RequiresAck(m)
  {
    match m
    case Reliable => true
    case PartiallyReliable(_) => true
    case BestEffort => false
  }

  /** The time to live of mode `m`, in nanoseconds. */
  function Ttl(m: DeliveryMode): (r: Option<nat>)
    ensures r.Some? <==> m.PartiallyReliable?
    ensures r.Some? ==> r.value == m.ttlMs * NANOS_PER_MILLI
  {
    match m
    case PartiallyReliable(ttlMs) => Some(ttlMs * NANOS_PER_MILLI)
    case _ => None
  }

  /**
   * Whether a packet sent `elapsed` nanoseconds ago in mode `m` is past its
   * useful life: never for Reliable, always for BestEffort, and once its
   * time to live has run out for PartiallyReliable.
   */
  predicate IsExpired(m: DeliveryMode, elapsed: nat)
    ensures IsExpired(m, elapsed) <==> m.BestEffort? || (Ttl(m).Some? && elapsed >= Ttl(m).value)
  {
    match m
    case PartiallyReliable(ttlMs) => elapsed >= ttlMs * NANOS_PER_MILLI
    case BestEffort => true
    case Reliable => false
  }

  /** Once expired, a packet stays expired as time goes on. */
  lemma ExpiredStaysExpired(m: DeliveryMode, elapsed: nat, later: nat)
    requires IsExpired(m, elapsed) && elapsed <= later
    ensures IsExpired(m, later)
  {
  }

  /** Exactly the modes that are retransmitted can stay alive. */
  lemma RetransmittedModesCanLive(m: DeliveryMode)
    ensures RequiresRetransmit(m) <==> !IsExpired(m, 0) || m == PartiallyReliable(0)
  {
  }
}
