/**
 * Backend selection for the load balancer: round robin over a shared
 * counter, least connections, weighted round robin over cumulative weight
 * slots, and a hash-based choice keyed by a request key.
 *
 * A backend's connection count is an atomic that selection only reads; it
 * is modelled as a value in the backend. The counters are `AtomicUsize`
 * (64 bits, wrapping on `fetch_add`); each `select` is one atomic step.
 * `DefaultHasher` is not part of this model: the hash of a string is the
 * function parameter `hash`.
 */
module LoadBalancing {
  import opened Base

  datatype Backend = Backend(id: string, address: string, weight: u32, connections: u32)

  /** `Backend::new`: no connections yet. */
  function NewBackend(id: string, address: string, weight: u32): (b: Backend)
    ensures b.id == id && b.address == address && b.weight == weight && b.connections == 0
  {
    Backend(id, address, weight, 0)
  }

  // ---------------------------------------------------------------- round robin

  class RoundRobin {
    var counter: u64

    constructor ()
      ensures counter == 0
    {
      counter := 0;
    }

    /** The backend at the counter modulo the list length; the counter then advances. */
    method Select(backends: seq<Backend>) returns (r: Option<Backend>)
      modifies this
      ensures backends == [] ==> r == None && counter == old(counter)
      ensures backends != [] ==>
        r == Some(backends[old(counter) % |backends|]) && counter == WrappingAdd64(old(counter), 1)
    {
      if backends == [] {
        return None;
      }
      var c := counter;
      counter := WrappingAdd64(counter, 1);
      var index := c % |backends|;
      r := Some(backends[index]);
    }
  }

  /**
   * Successive selections visit the list in order and wrap from the last
   * backend to the first (until the counter itself wraps at 2^64).
   */
  lemma RoundRobinOrder(c: u64, n: nat)
    requires n > 0 && c < U64_MAX
    ensures WrappingAdd64(c, 1) % n == if c % n == n - 1 then 0 else c % n + 1
  {
    var q, r := c / n, c % n;
    assert c == q * n + r;
    assert WrappingAdd64(c, 1) == c + 1;
    if r + 1 < n {
      ModOfMultiplePlus(q, n, r + 1);
    } else {
      assert c + 1 == (q + 1) * n + 0;
      ModOfMultiplePlus(q + 1, n, 0);
    }
  }

  lemma ModAddDivisor(s: nat, t: nat)
    requires t > 0
    ensures (s + t) % t == s % t
  {
    var q, r := s / t, s % t;
    assert s + t == (q + 1) * t + r;
    ModOfMultiplePlus(q + 1, t, r);
  }

  /** Three backends are served 1, 2, 3 and then 1 again. */
  method RoundRobinScenario(b1: Backend, b2: Backend, b3: Backend) returns (s1: Option<Backend>, s2: Option<Backend>, s3: Option<Backend>, s4: Option<Backend>)
    ensures s1 == Some(b1) && s2 == Some(b2) && s3 == Some(b3) && s4 == Some(b1)
  {
    var rr := new RoundRobin();
    var backends := [b1, b2, b3];
    s1 := rr.Select(backends);
    s2 := rr.Select(backends);
    s3 := rr.Select(backends);
    s4 := rr.Select(backends);
  }

  // ---------------------------------------------------------------- minimum by key

  /**
   * `min_by_key`: the index of the first smallest key, scanning from the
   * front and replacing the candidate only on a strictly smaller key.
   */
  function FirstMin(keys: seq<nat>): (m: nat)
    requires keys != []
    ensures m < |keys|
    ensures forall j :: 0 <= j < |keys| ==> keys[m] <= keys[j]
    ensures forall j :: 0 <= j < m ==> keys[m] < keys[j]
  {
    if |keys| == 1 then 0
    else
      var m := FirstMin(keys[..|keys| - 1]);
      if keys[|keys| - 1] < keys[m] then |keys| - 1 else m
  }

  function Connections(backends: seq<Backend>): (c: seq<nat>)
    ensures |c| == |backends| && forall j :: 0 <= j < |c| ==> c[j] == backends[j].connections
  {
    seq(|backends|, j requires 0 <= j < |backends| => backends[j].connections as nat)
  }

  /** Least connections: the first backend with the fewest active connections. */
  function LeastConnections(backends: seq<Backend>): (r: Option<Backend>)
    ensures r.None? <==> backends == []
    ensures r.Some? ==> r.value in backends
    ensures r.Some? ==> forall b :: b in backends ==> r.value.connections <= b.connections
    ensures r.Some? ==>
      exists i :: 0 <= i < |backends| && backends[i] == r.value &&
        forall j :: 0 <= j < i ==> backends[j].connections > r.value.connections
  {
    if backends == [] then None
    else
      var m := FirstMin(Connections(backends));
      assert forall j :: 0 <= j < |backends| ==> backends[m].connections <= backends[j].connections;
      assert forall j :: 0 <= j < m ==> backends[j].connections > backends[m].connections;
      Some(backends[m])
  }

  /** With two connections on the second of three idle backends, the first is chosen. */
  lemma LeastConnectionsScenario(b1: Backend, b2: Backend, b3: Backend)
    requires b1.connections == 0 && b2.connections == 2 && b3.connections == 0
    ensures LeastConnections([b1, b2, b3]) == Some(b1)
  {
    var keys := Connections([b1, b2, b3]);
    assert keys == [0, 2, 0];
    assert keys[..2][..1] == [0];
    assert FirstMin(keys[..2]) == 0;
  }

  // ---------------------------------------------------------------- weighted round robin

  function SumWeights(backends: seq<Backend>): nat
  {
    if backends == [] then 0 else backends[0].weight + SumWeights(backends[1..])
  }

  /**
   * `backends.iter().map(|b| b.weight).sum()` as a `u32`; the sum wraps on
   * overflow (the release-build behaviour).
   */
  function TotalWeight(backends: seq<Backend>): (t: u32)
    ensures SumWeights(backends) < U32_LIMIT ==> t == SumWeights(backends)
    ensures t <= SumWeights(backends)
  {
    SumWeights(backends) % U32_LIMIT
  }

  /**
   * The backend whose slot holds `target` when the slots are laid out in
   * list order, backend `i` owning `weight` consecutive slots.
   */
  function Slot(backends: seq<Backend>, target: nat): (i: nat)
    requires target < SumWeights(backends)
    ensures i < |backends|
  {
    if target < backends[0].weight then 0
    else 1 + Slot(backends[1..], target - backends[0].weight)
  }

  /** The total weight of the backends before index `i`: where backend `i`'s slots begin. */
  function Offset(backends: seq<Backend>, i: nat): nat
    requires i <= |backends|
  {
    SumWeights(backends[..i])
  }

  /** Each backend owns exactly the `weight` slots starting at its offset. */
  lemma {:induction false} SlotInterval(backends: seq<Backend>, target: nat, i: nat)
    requires target < SumWeights(backends) && i < |backends|
    ensures Slot(backends, target) == i <==>
      Offset(backends, i) <= target < Offset(backends, i) + backends[i].weight
  {
    var w := backends[0].weight;
    assert backends[..1][1..] == [];
    assert Offset(backends, 0) == 0;
    assert Offset(backends, 1) == w;
    if i > 0 {
      assert backends[..i + 1][1..] == backends[1..][..i];
      assert backends[..i][1..] == backends[1..][..i - 1];
      assert Offset(backends, i) == w + Offset(backends[1..], i - 1);
      if target >= w {
        SlotInterval(backends[1..], target - w, i - 1);
      } else {
        OffsetMonotone(backends, 1, i);
      }
    }
  }

  lemma {:induction false} OffsetMonotone(backends: seq<Backend>, i: nat, j: nat)
    requires i <= j <= |backends|
    ensures Offset(backends, i) <= Offset(backends, j)
    decreases j - i
  {
    if i < j {
      OffsetStep(backends, j - 1);
      OffsetMonotone(backends, i, j - 1);
    }
  }

  lemma {:induction false} OffsetStep(backends: seq<Backend>, i: nat)
    requires i < |backends|
    ensures Offset(backends, i + 1) == Offset(backends, i) + backends[i].weight
  {
    if i > 0 {
      assert backends[..i + 1][1..] == backends[1..][..i];
      assert backends[..i][1..] == backends[1..][..i - 1];
      OffsetStep(backends[1..], i - 1);
    } else {
      assert backends[..1][1..] == [];
    }
  }

  /** The counter value truncated to `u32` and reduced modulo the total weight. */
  function Target(counter: u64, total: nat): (t: nat)
    requires total > 0
    ensures t < total
  {
    (counter % U32_LIMIT) % total
  }

  class WeightedRoundRobin {
    var counter: u64

    constructor ()
      ensures counter == 0
    {
      counter := 0;
    }

    /**
     * None, with the counter untouched, for an empty list or a zero total
     * weight; otherwise the backend whose slot holds the counter's target,
     * and the counter advances. The source's fallback to the first backend
     * after the scan is never reached.
     */
    method Select(backends: seq<Backend>) returns (r: Option<Backend>)
      modifies this
      ensures backends == [] || TotalWeight(backends) == 0 ==> r == None && counter == old(counter)
      ensures backends != [] && TotalWeight(backends) > 0 ==>
        r == Some(backends[Slot(backends, Target(old(counter), TotalWeight(backends)))])
        && counter == WrappingAdd64(old(counter), 1)
    {
      if backends == [] {
        return None;
      }
      var total := TotalWeight(backends);
      if total == 0 {
        return None;
      }
      var c := counter;
      counter := WrappingAdd64(counter, 1);
      var target: nat := (c % U32_LIMIT) % total;
      ghost var start := target;
      var i := 0;
      while i < |backends|
        invariant 0 <= i <= |backends|
        invariant target < SumWeights(backends[i..])
        invariant Slot(backends, start) == i + Slot(backends[i..], target)
      {
        assert backends[i..][0] == backends[i];
        if target < backends[i].weight {
          return Some(backends[i]);
        }
        assert backends[i..][1..] == backends[i + 1..];
        target := target - backends[i].weight;
        i := i + 1;
      }
      assert false;
    }
  }

  /**
   * The number of the `n` successive targets `s, s + 1, ...` (taken modulo
   * the total weight) that land in backend `i`'s slots.
   */
  function Hits(backends: seq<Backend>, i: nat, s: nat, n: nat): nat
    requires SumWeights(backends) > 0
  {
    if n == 0 then 0
    else Hits(backends, i, s, n - 1) + (if Slot(backends, (s + n - 1) % SumWeights(backends)) == i then 1 else 0)
  }

  lemma {:induction false} HitsFront(backends: seq<Backend>, i: nat, s: nat, n: nat)
    requires SumWeights(backends) > 0
    ensures Hits(backends, i, s, n + 1) ==
      (if Slot(backends, s % SumWeights(backends)) == i then 1 else 0) + Hits(backends, i, s + 1, n)
  {
    if n > 0 {
      HitsFront(backends, i, s, n - 1);
    }
  }

  /** Shifting a full round of targets by one changes no count. */
  lemma HitsRotate(backends: seq<Backend>, i: nat, s: nat)
    requires SumWeights(backends) > 0
    ensures Hits(backends, i, s + 1, SumWeights(backends)) == Hits(backends, i, s, SumWeights(backends))
  {
    var total := SumWeights(backends);
    HitsFront(backends, i, s, total);
    ModAddDivisor(s, total);
  }

  lemma {:induction false} HitsAnyStart(backends: seq<Backend>, i: nat, s: nat)
    requires SumWeights(backends) > 0
    ensures Hits(backends, i, s, SumWeights(backends)) == Hits(backends, i, 0, SumWeights(backends))
  {
    if s > 0 {
      HitsRotate(backends, i, s - 1);
      HitsAnyStart(backends, i, s - 1);
    }
  }

  /** Of the first `n` slots, backend `i` owns those between its offset and the end of its run. */
  lemma {:induction false} HitsFromZero(backends: seq<Backend>, i: nat, n: nat)
    requires i < |backends| && n <= SumWeights(backends)
    ensures SumWeights(backends) > 0 ==>
      Hits(backends, i, 0, n) ==
        if n <= Offset(backends, i) then 0
        else if n >= Offset(backends, i) + backends[i].weight then backends[i].weight
        else n - Offset(backends, i)
  {
    if n > 0 {
      HitsFromZero(backends, i, n - 1);
      ModOfMultiplePlus(0, SumWeights(backends), n - 1);
      SlotInterval(backends, n - 1, i);
    }
  }

  lemma OffsetBound(backends: seq<Backend>, i: nat)
    requires i < |backends|
    ensures Offset(backends, i) + backends[i].weight <= SumWeights(backends)
  {
    OffsetStep(backends, i);
    OffsetMonotone(backends, i + 1, |backends|);
    assert backends[..|backends|] == backends;
  }

  /**
   * Fairness of weighted round robin: over any full round of `total_weight`
   * successive targets, each backend is chosen exactly `weight` times.
   */
  lemma WeightedFairness(backends: seq<Backend>, i: nat, s: nat)
    requires i < |backends| && SumWeights(backends) > 0
    ensures Hits(backends, i, s, SumWeights(backends)) == backends[i].weight
  {
    HitsAnyStart(backends, i, s);
    OffsetBound(backends, i);
    HitsFromZero(backends, i, SumWeights(backends));
  }

  /**
   * Successive counter values give successive targets as long as the
   * truncation to `u32` does not wrap inside the round, and the total
   * weight does not overflow `u32`.
   */
  lemma SuccessiveTargets(backends: seq<Backend>, c: u64, k: nat)
    requires 0 < SumWeights(backends) < U32_LIMIT
    requires c % U32_LIMIT + k < U32_LIMIT
    ensures Target((c + k) % U64_LIMIT, TotalWeight(backends)) == (c % U32_LIMIT + k) % SumWeights(backends)
  {
    var lo := c % U32_LIMIT;
    var hi := c / U32_LIMIT;
    assert c == hi * U32_LIMIT + lo;
    assert U64_LIMIT == U32_LIMIT * U32_LIMIT;
    assert hi < U32_LIMIT;
    MulMonotone(hi + 1, U32_LIMIT, U32_LIMIT);
    assert c + k < U64_LIMIT;
    assert c + k == hi * U32_LIMIT + (lo + k);
    ModOfMultiplePlus(hi, U32_LIMIT, lo + k);
  }

  /** Weights 1, 2, 1: counters 0 to 3 select the first, the second twice, then the third. */
  method WeightedScenario(b1: Backend, b2: Backend, b3: Backend) returns (s: seq<Option<Backend>>)
    requires b1.weight == 1 && b2.weight == 2 && b3.weight == 1
    ensures s == [Some(b1), Some(b2), Some(b2), Some(b3)]
  {
    var wrr := new WeightedRoundRobin();
    var backends := [b1, b2, b3];
    assert SumWeights(backends) == 4 by {
      assert backends[1..][1..][1..] == [];
      assert SumWeights([b3]) == 1;
      assert backends[1..][1..] == [b3];
      assert SumWeights([b2, b3]) == 3;
      assert backends[1..] == [b2, b3];
    }
    var r1 := wrr.Select(backends);
    var r2 := wrr.Select(backends);
    var r3 := wrr.Select(backends);
    var r4 := wrr.Select(backends);
    s := [r1, r2, r3, r4];
  }

  // ---------------------------------------------------------------- consistent hash

  /** `ConsistentHash::default`: 150 virtual nodes. */
  const DEFAULT_VIRTUAL_NODES: nat := 150

  /** The key hashed when the request has none. */
  const DEFAULT_KEY: string := "default"

  /** How far below the key's hash the hash of the backend's virtual node lies, wrapping. */
  function Distance(hash: string -> u64, keyHash: u64, id: string, virtualNodes: nat): u64
    requires virtualNodes > 0
  {
    WrappingSub64(keyHash, hash(id + ":" + DecimalString(keyHash % virtualNodes)))
  }

  function Distances(hash: string -> u64, keyHash: u64, backends: seq<Backend>, virtualNodes: nat): (d: seq<nat>)
    requires virtualNodes > 0
    ensures |d| == |backends|
    ensures forall j :: 0 <= j < |d| ==> d[j] == Distance(hash, keyHash, backends[j].id, virtualNodes)
  {
    seq(|backends|, j requires 0 <= j < |backends| => Distance(hash, keyHash, backends[j].id, virtualNodes) as nat)
  }

  /**
   * `ConsistentHash::select`: the first backend at the least distance
   * from the key (`min_by_key` keeps the earliest of equal distances). The source divides by the number of virtual nodes, so
   * zero virtual nodes is a panic there.
   */
  function ConsistentHashSelect(hash: string -> u64, virtualNodes: nat, backends: seq<Backend>, key: Option<string>): (r: Option<Backend>)
    requires virtualNodes > 0
    ensures r.None? <==> backends == []
    ensures r.Some? ==> r.value in backends
    ensures r.Some? ==>
      var h := hash(if key.Some? then key.value else DEFAULT_KEY);
      forall b :: b in backends ==> Distance(hash, h, r.value.id, virtualNodes) <= Distance(hash, h, b.id, virtualNodes)
    ensures r.Some? ==>
      var h := hash(if key.Some? then key.value else DEFAULT_KEY);
      exists i :: 0 <= i < |backends| && backends[i] == r.value &&
        forall j :: 0 <= j < i ==> Distance(hash, h, backends[j].id, virtualNodes) > Distance(hash, h, r.value.id, virtualNodes)
  {
    if backends == [] then None
    else
      var h := hash(if key.Some? then key.value else DEFAULT_KEY);
      var d := Distances(hash, h, backends, virtualNodes);
      var m := FirstMin(d);
      assert forall j :: 0 <= j < |backends| ==> d[m] <= d[j];
      assert forall j :: 0 <= j < m ==> d[j] > d[m];
      Some(backends[m])
  }

  /**
   * The choice depends on the key and the backend ids only: lists that
   * differ in addresses, weights or loads get the same position chosen.
   */
  lemma ConsistentHashIgnoresLoad(hash: string -> u64, virtualNodes: nat, xs: seq<Backend>, ys: seq<Backend>, key: Option<string>)
    requires virtualNodes > 0 && xs != []
    requires |xs| == |ys| && forall j :: 0 <= j < |xs| ==> xs[j].id == ys[j].id
    ensures ConsistentHashSelect(hash, virtualNodes, ys, key).value.id == ConsistentHashSelect(hash, virtualNodes, xs, key).value.id
  {
    var h := hash(if key.Some? then key.value else DEFAULT_KEY);
    assert Distances(hash, h, xs, virtualNodes) == Distances(hash, h, ys, virtualNodes);
  }
}
