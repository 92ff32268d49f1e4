/**
 * The packet pool: a stack of cleared byte buffers that `acquire` reuses
 * before allocating, and that `release` refills up to a bound, keeping
 * counters of what it did.
 *
 * The pool sits behind a mutex in the source; each operation is one
 * critical section, modelled as one method. Counters are unbounded
 * naturals.
 */
module MemoryPools {
  import opened Base

  /** A `Vec<u8>`: its bytes and its allocated capacity. */
  datatype PacketBuffer = PacketBuffer(data: seq<u8>, capacity: nat)

  /** `PoolMetrics`. */
  datatype PoolMetrics = PoolMetrics(
    totalAcquired: nat,
    totalReleased: nat,
    totalAllocated: nat,
    currentPoolSize: nat)

  class PacketPool {
    var pool: seq<PacketBuffer>
    const maxCapacity: nat
    const maxPacketSize: nat
    var metrics: PoolMetrics

    /**
     * The pool stays within its bound and holds only cleared buffers no
     * larger than a packet; the size counter is the pool's length; and every
     * pooled buffer or acquire served from the pool is paid for by a
     * release, so allocations never exceed acquires.
     */
    ghost predicate Valid()
      reads this
    {
      |pool| <= maxCapacity
      && (forall i :: 0 <= i < |pool| ==> pool[i].data == [] && pool[i].capacity <= maxPacketSize)
      && metrics.currentPoolSize == |pool|
      && metrics.totalAllocated <= metrics.totalAcquired
      && |pool| + (metrics.totalAcquired - metrics.totalAllocated) <= metrics.totalReleased
    }

    constructor (maxCapacity: nat, maxPacketSize: nat)
      ensures Valid()
      ensures pool == [] && this.maxCapacity == maxCapacity && this.maxPacketSize == maxPacketSize
      ensures metrics == PoolMetrics(0, 0, 0, 0)
    {
      pool := [];
      this.maxCapacity := maxCapacity;
      this.maxPacketSize := maxPacketSize;
      metrics := PoolMetrics(0, 0, 0, 0);
    }

    /**
     * `acquire`: the most recently released buffer, cleared, or else a new
     * one of packet size; either way an empty buffer.
     */
    method Acquire() returns (buffer: PacketBuffer)
      requires Valid()
      modifies this
      ensures Valid()
      ensures buffer.data == []
      ensures metrics.totalAcquired == old(metrics.totalAcquired) + 1
      ensures metrics.totalReleased == old(metrics.totalReleased)
      ensures old(pool) != [] ==>
        buffer == old(pool)[|old(pool)| - 1] && pool == old(pool)[..|old(pool)| - 1]
        && metrics.totalAllocated == old(metrics.totalAllocated)
      ensures old(pool) == [] ==>
        buffer == PacketBuffer([], maxPacketSize) && pool == []
        && metrics.totalAllocated == old(metrics.totalAllocated) + 1
    {
      metrics := metrics.(totalAcquired := metrics.totalAcquired + 1);
      if pool != [] {
        var last := pool[|pool| - 1];
        pool := pool[..|pool| - 1];
        buffer := last.(data := []);
        metrics := metrics.(currentPoolSize := |pool|);
      } else {
        metrics := metrics.(totalAllocated := metrics.totalAllocated + 1);
        buffer := PacketBuffer([], maxPacketSize);
      }
    }

    /**
     * `release`: the buffer is cleared and kept when the pool has room and
     * the buffer is no larger than a packet; otherwise it is dropped.
     */
    method Release(buffer: PacketBuffer)
      requires Valid()
      modifies this
      ensures Valid()
      ensures metrics.totalReleased == old(metrics.totalReleased) + 1
      ensures metrics.totalAcquired == old(metrics.totalAcquired)
      ensures metrics.totalAllocated == old(metrics.totalAllocated)
      ensures |old(pool)| < maxCapacity && buffer.capacity <= maxPacketSize ==>
        pool == old(pool) + [PacketBuffer([], buffer.capacity)]
      ensures !(|old(pool)| < maxCapacity && buffer.capacity <= maxPacketSize) ==>
        pool == old(pool)
    {
      metrics := metrics.(totalReleased := metrics.totalReleased + 1);
      if |pool| < maxCapacity && buffer.capacity <= maxPacketSize {
        pool := pool + [buffer.(data := [])];
        metrics := metrics.(currentPoolSize := |pool|);
      }
    }

    function Metrics(): (m: PoolMetrics)
      reads this
      requires Valid()
      ensures m.currentPoolSize == |pool| <= maxCapacity
      ensures m.totalAllocated <= m.totalAcquired
    {
      metrics
    }

    /**
     * The acquires served from the pool, the numerator of `hit_rate`; the
     * subtraction of the source cannot underflow.
     */
    function Hits(): (h: nat)
      reads this
      requires Valid()
      ensures h + metrics.totalAllocated == metrics.totalAcquired
      ensures h + |pool| <= metrics.totalReleased
    {
      metrics.totalAcquired - metrics.totalAllocated
    }
  }

  /** Acquire, fill, release and acquire again: one allocation, the buffer comes back empty. */
  method ReuseScenario() returns (first: PacketBuffer, second: PacketBuffer, m: PoolMetrics)
    ensures first.data == [] && second.data == []
    ensures m == PoolMetrics(2, 1, 1, 0)
  {
    var pool := new PacketPool(10, 1500);
    first := pool.Acquire();
    pool.Release(first.(data := [1, 2, 3, 4, 5]));
    second := pool.Acquire();
    m := pool.Metrics();
  }

  /** With room for two, the third of three released buffers is dropped. */
  method CapacityLimitScenario() returns (size: nat)
    ensures size == 2
  {
    var pool := new PacketPool(2, 1500);
    var b1 := pool.Acquire();
    var b2 := pool.Acquire();
    var b3 := pool.Acquire();
    pool.Release(b1);
    pool.Release(b2);
    pool.Release(b3);
    size := pool.Metrics().currentPoolSize;
  }

  /** A 2000-byte buffer is not kept by a pool of 1000-byte packets. */
  method SizeLimitScenario() returns (size: nat)
    ensures size == 0
  {
    var pool := new PacketPool(10, 1000);
    pool.Release(PacketBuffer(seq(2000, _ => 0), 2000));
    size := pool.Metrics().currentPoolSize;
  }
}
