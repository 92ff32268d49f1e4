/**
 * The multi-hop buffer pool: a stack of cleared `BytesMut` buffers,
 * pre-filled with `capacity` buffers of `buffer_size` bytes, handed out by
 * `acquire` for a requested size and taken back by `release` while the
 * pool is below its capacity.
 *
 * `BytesMut::reserve(additional)` guarantees room for `additional` more
 * bytes past the current length and does nothing when that room is
 * already there; where it does grow a buffer the model grows it exactly
 * that far (the crate may allocate more).
 */
module BufferPools {
  import opened Base

  /** A `BytesMut`: its bytes and its allocated capacity. */
  datatype BytesMut = BytesMut(data: seq<u8>, capacity: nat)

  function Clear(b: BytesMut): (r: BytesMut)
    ensures r.data == [] && r.capacity == b.capacity
  {
    b.(data := [])
  }

  /** `reserve(additional)`: room for `additional` more bytes past the length. */
  function Reserve(b: BytesMut, additional: nat): (r: BytesMut)
    requires |b.data| <= b.capacity
    ensures r.data == b.data && r.capacity >= b.capacity
    ensures r.capacity >= |b.data| + additional
    ensures additional <= b.capacity - |b.data| ==> r == b
  {
    if additional <= b.capacity - |b.data| then b
    else b.(capacity := |b.data| + additional)
  }

  /**
   * The preparation of a pooled buffer as `acquire` writes it: clear, then
   * reserve the shortfall of the capacity below `minSize`. After the clear
   * the whole capacity is free, so the reserve grows the buffer only when
   * the shortfall exceeds the capacity, and then only to the shortfall.
   */
  function PrepareAsWritten(b: BytesMut, minSize: nat): (r: BytesMut)
    ensures r.data == []
    ensures b.capacity >= minSize ==> r.capacity == b.capacity
    ensures b.capacity < minSize ==> r.capacity == Max(b.capacity, minSize - b.capacity)
  {
    var c := Clear(b);
    if c.capacity < minSize then Reserve(c, minSize - c.capacity) else c
  }

  /**
   * Any pooled buffer with some capacity, but less than `minSize`, comes
   * back too small; a 1024-byte buffer acquired for 2048 bytes stays at 1024.
   */
  lemma AsWrittenFallsShort(b: BytesMut, minSize: nat)
    requires 0 < b.capacity < minSize
    ensures PrepareAsWritten(b, minSize).capacity < minSize
    ensures PrepareAsWritten(BytesMut([], 1024), 2048).capacity == 1024
  {
  }

  /** The preparation `acquire` intends: clear, then reserve room for `minSize` bytes. */
  function Prepare(b: BytesMut, minSize: nat): (r: BytesMut)
    ensures r.data == []
    ensures r.capacity >= minSize && r.capacity >= b.capacity
    ensures b.capacity >= minSize ==> r.capacity == b.capacity
  {
    var c := Clear(b);
    if c.capacity < minSize then Reserve(c, minSize) else c
  }

  class BufferPool {
    var pool: seq<BytesMut>
    const capacity: nat
    const bufferSize: nat

    /** The pool never holds more than its capacity, and only cleared buffers. */
    ghost predicate Valid()
      reads this
    {
      |pool| <= capacity && forall i :: 0 <= i < |pool| ==> pool[i].data == []
    }

    /** `BufferPool::new`: `capacity` empty buffers of `bufferSize` bytes. */
    constructor (capacity: nat, bufferSize: nat)
      ensures Valid()
      ensures this.capacity == capacity && this.bufferSize == bufferSize
      ensures pool == seq(capacity, _ => BytesMut([], bufferSize))
    {
      var buffers: seq<BytesMut> := [];
      for i := 0 to capacity
        invariant buffers == seq(i, _ => BytesMut([], bufferSize))
      {
        buffers := buffers + [BytesMut([], bufferSize)];
      }
      pool := buffers;
      this.capacity := capacity;
      this.bufferSize := bufferSize;
    }

    /**
     * `acquire` as the source writes it: the most recently released buffer,
     * prepared by `PrepareAsWritten`, or else a new buffer of at least
     * `minSize` and `bufferSize` bytes. The buffer is empty; it is at least
     * `minSize` bytes large when it is new or was already large enough.
     */
    method Acquire(minSize: nat) returns (buf: BytesMut)
      requires Valid()
      modifies this
      ensures Valid()
      ensures buf.data == []
      ensures old(pool) != [] ==>
        pool == old(pool)[..|old(pool)| - 1] && buf == PrepareAsWritten(old(pool)[|old(pool)| - 1], minSize)
      ensures old(pool) != [] && old(pool)[|old(pool)| - 1].capacity >= minSize ==>
        buf == old(pool)[|old(pool)| - 1]
      ensures old(pool) == [] ==> pool == [] && buf == BytesMut([], Max(minSize, bufferSize))
    {
      if pool != [] {
        var last := pool[|pool| - 1];
        pool := pool[..|pool| - 1];
        buf := PrepareAsWritten(last, minSize);
      } else {
        buf := BytesMut([], Max(minSize, bufferSize));
      }
    }

    /**
     * `acquire` as intended: the pooled buffer is prepared by `Prepare`, so
     * whichever way the buffer is obtained it is empty and at least
     * `minSize` bytes large.
     */
    method AcquireIntended(minSize: nat) returns (buf: BytesMut)
      requires Valid()
      modifies this
      ensures Valid()
      ensures buf.data == [] && buf.capacity >= minSize
      ensures old(pool) != [] ==>
        pool == old(pool)[..|old(pool)| - 1] && buf == Prepare(old(pool)[|old(pool)| - 1], minSize)
      ensures old(pool) == [] ==> pool == [] && buf == BytesMut([], Max(minSize, bufferSize))
    {
      if pool != [] {
        var last := pool[|pool| - 1];
        pool := pool[..|pool| - 1];
        buf := Prepare(last, minSize);
      } else {
        buf := BytesMut([], Max(minSize, bufferSize));
      }
    }

    /** `release`: kept, cleared, while the pool is below capacity; dropped otherwise. */
    method Release(buf: BytesMut)
      requires Valid()
      modifies this
      ensures Valid()
      ensures |old(pool)| < capacity ==> pool == old(pool) + [Clear(buf)]
      ensures |old(pool)| >= capacity ==> pool == old(pool)
    {
      if |pool| < capacity {
        pool := pool + [Clear(buf)];
      }
    }

    function Size(): (n: nat)
      reads this
      requires Valid()
      ensures n == |pool| && n <= capacity
    {
      |pool|
    }

    function Capacity(): nat
      reads this
    {
      capacity
    }
  }

  /**
   * The steps of the source's test at buffer_pool.rs:90-104, applied to
   * `acquire` as written: the pool sizes come out as the test expects, but
   * the 2048-byte request is answered with a pooled 1024-byte buffer that
   * `reserve` leaves at 1024.
   */
  method PoolScenario() returns (start: nat, afterOne: nat, refilled: nat, buf3: BytesMut, afterTwo: nat, end: nat)
    ensures start == 5 && afterOne == 4 && refilled == 5
    ensures buf3.capacity == 1024 && afterTwo == 3 && end == 5
  {
    var pool := new BufferPool(5, 1024);
    start := pool.Size();
    var buf1 := pool.Acquire(512);
    afterOne := pool.Size();
    pool.Release(buf1);
    refilled := pool.Size();
    var buf2 := pool.Acquire(1024);
    buf3 := pool.Acquire(2048);
    afterTwo := pool.Size();
    pool.Release(buf2);
    pool.Release(buf3);
    end := pool.Size();
  }

  /** The same steps applied to `acquire` as intended: the 2048-byte request is honoured. */
  method IntendedPoolScenario() returns (start: nat, afterOne: nat, refilled: nat, buf3: BytesMut, afterTwo: nat, end: nat)
    ensures start == 5 && afterOne == 4 && refilled == 5
    ensures buf3.capacity >= 2048 && afterTwo == 3 && end == 5
  {
    var pool := new BufferPool(5, 1024);
    start := pool.Size();
    var buf1 := pool.AcquireIntended(512);
    afterOne := pool.Size();
    pool.Release(buf1);
    refilled := pool.Size();
    var buf2 := pool.AcquireIntended(1024);
    buf3 := pool.AcquireIntended(2048);
    afterTwo := pool.Size();
    pool.Release(buf2);
    pool.Release(buf3);
    end := pool.Size();
  }

  /** An exhausted pool allocates; of three released buffers only two are kept. */
  method ExhaustionScenario() returns (drained: nat, stillDrained: nat, end: nat)
    ensures drained == 0 && stillDrained == 0 && end == 2
  {
    var pool := new BufferPool(2, 1024);
    var buf1 := pool.Acquire(512);
    var buf2 := pool.Acquire(512);
    drained := pool.Size();
    var buf3 := pool.Acquire(512);
    stillDrained := pool.Size();
    pool.Release(buf1);
    pool.Release(buf2);
    pool.Release(buf3);
    end := pool.Size();
  }
}
