/**
 * The transport's send queue: one FIFO per QoS level (index = `Value` of
 * the priority) plus a credit counter per level. `dequeue` refills the
 * credits of every non-empty level by its weight and then serves the
 * highest level that has both credit and items.
 *
 * Because every non-empty level receives credit (weight >= 1) just before
 * the scan, the scan always serves the highest non-empty level: the queue
 * is a strict priority queue, FIFO within each level, and the fallback
 * scan of the source is never reached.
 */
module PriorityQueues {
  import opened Base
  import opened Qos

  const LEVELS: nat := 4

  /** Items across all levels. */
  function Total<T>(qs: seq<seq<T>>): nat
    requires |qs| == LEVELS
  {
    |qs[0]| + |qs[1]| + |qs[2]| + |qs[3]|
  }

  /** The highest level holding an item. */
  function Highest<T>(qs: seq<seq<T>>): (h: nat)
    requires |qs| == LEVELS && Total(qs) > 0
    ensures h < LEVELS && qs[h] != []
    ensures forall j :: h < j < LEVELS ==> qs[j] == []
  {
    if qs[3] != [] then 3
    else if qs[2] != [] then 2
    else if qs[1] != [] then 1
    else 0
  }

  /** The levels after serving the front of the highest non-empty level. */
  function Popped<T>(qs: seq<seq<T>>): (r: seq<seq<T>>)
    requires |qs| == LEVELS && Total(qs) > 0
    ensures |r| == LEVELS && Total(r) == Total(qs) - 1
    ensures forall j :: 0 <= j < LEVELS && j != Highest(qs) ==> r[j] == qs[j]
    ensures qs[Highest(qs)] == [qs[Highest(qs)][0]] + r[Highest(qs)]
  {
    var h := Highest(qs);
    qs[h := qs[h][1..]]
  }

  /** The order in which repeated dequeues hand out every queued item. */
  function Drain<T>(qs: seq<seq<T>>): seq<T>
    requires |qs| == LEVELS
    decreases Total(qs)
  {
    if Total(qs) == 0 then [] else [qs[Highest(qs)][0]] + Drain(Popped(qs))
  }

  /** All queued items, highest level first, each level front to back. */
  function Concat<T>(qs: seq<seq<T>>): seq<T>
    requires |qs| == LEVELS
  {
    qs[3] + (qs[2] + (qs[1] + qs[0]))
  }

  /** Serving one item takes the first item of `Concat`. */
  lemma PoppedConcat<T>(qs: seq<seq<T>>)
    requires |qs| == LEVELS && Total(qs) > 0
    ensures Concat(qs) == [qs[Highest(qs)][0]] + Concat(Popped(qs))
  {
    var h := Highest(qs);
    var p := Popped(qs);
    var x := qs[h][0];
    if h == 3 {
      AppendAssoc([x], p[3], p[2] + (p[1] + p[0]));
    } else if h == 2 {
      AppendAssoc([x], p[2], p[1] + p[0]);
      assert Concat(p) == p[2] + (p[1] + p[0]);
      assert Concat(qs) == qs[2] + (qs[1] + qs[0]);
    } else if h == 1 {
      AppendAssoc([x], p[1], p[0]);
      assert Concat(p) == p[1] + p[0];
      assert Concat(qs) == qs[1] + qs[0];
    } else {
      assert Concat(p) == p[0];
      assert Concat(qs) == qs[0];
    }
  }

  /** Draining serves System items first, then Media, Chat, Bulk, each level in arrival order. */
  lemma {:induction false} DrainOrder<T>(qs: seq<seq<T>>)
    requires |qs| == LEVELS
    ensures Drain(qs) == Concat(qs)
    decreases Total(qs)
  {
    if Total(qs) > 0 {
      DrainOrder(Popped(qs));
      PoppedConcat(qs);
    } else {
      assert Concat(qs) == [];
    }
  }

  /** The credit a level earns on a refill: its weight when it holds items. */
  function Earned<T>(qs: seq<seq<T>>, i: nat): (c: nat)
    requires |qs| == LEVELS && i < LEVELS
    ensures qs[i] != [] ==> c >= 1
    ensures qs[i] == [] <==> c == 0
  {
    if qs[i] != [] then Weight(FromValue(i as u8).value) else 0
  }

  /** Enqueueing one item of each priority and dequeueing four times yields System, Media, Chat, Bulk. */
  lemma BasicOrder<T>(bulk: T, chat: T, media: T, system: T)
    ensures Drain([[bulk], [chat], [media], [system]]) == [system, media, chat, bulk]
  {
    DrainOrder([[bulk], [chat], [media], [system]]);
  }

  class PriorityQueue<T> {
    /** One FIFO per level; `queues[Value(p)]` holds the items of priority `p`. */
    const queues: array<seq<T>>
    const credits: array<nat>
    var totalItems: nat

    ghost predicate Valid()
      reads this, queues
    {
      queues.Length == LEVELS && credits.Length == LEVELS
      && totalItems == Total(queues[..])
    }

    constructor ()
      ensures Valid()
      ensures queues[..] == [[], [], [], []] && credits[..] == [0, 0, 0, 0] && totalItems == 0
    {
      queues := new seq<T>[LEVELS](_ => []);
      credits := new nat[LEVELS](_ => 0);
      totalItems := 0;
      new;
      assert queues[..] == [[], [], [], []];
      assert credits[..] == [0, 0, 0, 0];
    }

    /** `enqueue`: append to the back of the item's own level. */
    method Enqueue(item: T, priority: QosPriority)
      requires Valid()
      modifies this, queues
      ensures Valid()
      ensures queues[..] == old(queues[..])[Value(priority) := old(queues[Value(priority)]) + [item]]
      ensures totalItems == old(totalItems) + 1
      ensures LenForPriority(priority) == old(LenForPriority(priority)) + 1
    {
      var index := Value(priority) as nat;
      queues[index] := queues[index] + [item];
      totalItems := totalItems + 1;
    }

    /** `refill_credits`: every non-empty level earns its weight. */
    method RefillCredits()
      requires Valid()
      modifies credits
      ensures Valid()
      ensures forall i :: 0 <= i < LEVELS ==> credits[i] == old(credits[i]) + Earned(queues[..], i)
    {
      for i := 0 to LEVELS
        invariant forall j :: 0 <= j < i ==> credits[j] == old(credits[j]) + Earned(queues[..], j)
        invariant forall j :: i <= j < LEVELS ==> credits[j] == old(credits[j])
      {
        if queues[i] != [] {
          var priority := FromValue(i as u8);
          credits[i] := credits[i] + Weight(priority.value);
        }
      }
    }

    /**
     * `dequeue`: None on an empty queue, with nothing changed; otherwise the
     * front of the highest non-empty level, whose credit pays for it.
     */
    method Dequeue() returns (r: Option<T>)
      requires Valid()
      modifies this, queues, credits
      ensures Valid()
      ensures old(totalItems) == 0 ==>
        r == None && queues[..] == old(queues[..]) && credits[..] == old(credits[..]) && totalItems == 0
      ensures old(totalItems) > 0 ==>
        r == Some(old(queues[..])[Highest(old(queues[..]))][0])
        && queues[..] == Popped(old(queues[..]))
        && totalItems == old(totalItems) - 1
      ensures old(totalItems) > 0 ==>
        forall i :: 0 <= i < LEVELS ==>
          credits[i] == old(credits[i]) + Earned(old(queues[..]), i) - (if i == Highest(old(queues[..])) then 1 else 0)
    {
      if totalItems == 0 {
        return None;
      }
      ghost var qs := queues[..];
      RefillCredits();
      for k := 0 to LEVELS
        invariant queues[..] == qs && totalItems == Total(qs) && totalItems > 0
        invariant forall i :: 0 <= i < LEVELS ==> credits[i] == old(credits[i]) + Earned(qs, i)
        invariant forall j :: LEVELS - k <= j < LEVELS ==> qs[j] == []
      {
        var level := LEVELS - 1 - k;
        if credits[level] > 0 && queues[level] != [] {
          assert level == Highest(qs);
          credits[level] := credits[level] - 1;
          totalItems := totalItems - 1;
          r := Some(queues[level][0]);
          queues[level] := queues[level][1..];
          return;
        }
      }
      assert false;
    }

    function Len(): (n: nat)
      reads this, queues
      requires Valid()
      ensures n == 0 <==> IsEmpty()
      ensures n == |queues[0]| + |queues[1]| + |queues[2]| + |queues[3]|
    {
      totalItems
    }

    predicate IsEmpty()
      reads this, queues
      requires Valid()
      ensures IsEmpty() <==> forall i :: 0 <= i < LEVELS ==> queues[i] == []
    {
      totalItems == 0
    }

    function LenForPriority(priority: QosPriority): nat
      reads this, queues
      requires Valid()
    {
      |queues[Value(priority)]|
    }

    /** `clear`: every level emptied, every credit and the length zeroed. */
    method Clear()
      requires Valid()
      modifies this, queues, credits
      ensures Valid()
      ensures queues[..] == [[], [], [], []] && credits[..] == [0, 0, 0, 0] && totalItems == 0
    {
      for i := 0 to LEVELS
        invariant forall j :: 0 <= j < i ==> queues[j] == []
      {
        queues[i] := [];
      }
      credits[0], credits[1], credits[2], credits[3] := 0, 0, 0, 0;
      totalItems := 0;
      assert queues[..] == [[], [], [], []];
      assert credits[..] == [0, 0, 0, 0];
    }
  }
}
