/** Quality-of-service priority levels and their queueing weights. */
module Qos {
  import opened Base

  datatype QosPriority = Bulk | Chat | Media | System

  /** Chat is the default priority. */
  const DEFAULT_PRIORITY: QosPriority := Chat

  datatype Ordering = Less | Equal | Greater

  /** Numeric level, higher meaning more important. */
  function Value(p: QosPriority): (v: u8)
    ensures v <= 3
  {
    match p
    case System => 3
    case Media => 2
    case Chat => 1
    case Bulk => 0
  }

  function FromValue(v: u8): (r: Option<QosPriority>)
    ensures r.Some? <==> v <= 3
    ensures r.Some? ==> Value(r.value) == v
  {
    match v
    case 3 => Some(System)
    case 2 => Some(Media)
    case 1 => Some(Chat)
    case 0 => Some(Bulk)
    case _ => None
  }

  /** Weighted-fair-queueing weight: each level weighs twice the one below. */
  function Weight(p: QosPriority): (w: nat)
    ensures w == Pow2(Value(p))
  {
    match p
    case System => 8
    case Media => 4
    case Chat => 2
    case Bulk => 1
  }

  /** Priorities compare by their numeric level. */
  function Compare(a: QosPriority, b: QosPriority): (r: Ordering)
    ensures r == Equal <==> a == b
    ensures r == Less <==> Value(a) < Value(b)
    ensures r == Greater <==> Value(b) < Value(a)
  {
    if Value(a) < Value(b) then Less
    else if Value(a) == Value(b) then Equal
    else Greater
  }

  /** `from_value` inverts `value`. */
  lemma ValueRoundTrip(p: QosPriority)
    ensures FromValue(Value(p)) == Some(p)
  {
  }

  /** System > Media > Chat > Bulk, and weights grow with the order. */
  lemma OrderAndWeights(a: QosPriority, b: QosPriority)
    ensures Compare(System, Media) == Greater
    ensures Compare(Media, Chat) == Greater
    ensures Compare(Chat, Bulk) == Greater
    ensures Compare(a, b) == Less ==> Weight(a) < Weight(b)
  {
    if Compare(a, b) == Less {
      Pow2Monotone(Value(a) + 1, Value(b));
      assert Pow2(Value(a) + 1) == 2 * Pow2(Value(a));
    }
  }
}
