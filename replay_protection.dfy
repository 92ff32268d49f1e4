/**
 * Replay protection for 0-RTT data: a message carries a nonce and a
 * timestamp; it is refused when the timestamp is too far from the local
 * clock or when the nonce was seen before. Seen nonces are kept in a window
 * of at most `max_window_size` entries; when the window overflows, nonces
 * more than `max_window_size - 1` below the largest are dropped and the
 * window's lower bound rises, so that older nonces count as duplicates.
 *
 * The clock (`SystemTime::now()`) is the parameter `nowNs`, nanoseconds
 * relative to the Unix epoch; a negative reading is a clock before the
 * epoch, which the source reports as an invalid timestamp.
 */
module ReplayProtections {
  import opened Base

  datatype ReplayError = DuplicateNonce | TimestampOutOfRange | InvalidTimestamp

  /** The periodic cleanup interval, 60 seconds. */
  const CLEANUP_INTERVAL_NS: nat := 60 * NANOS_PER_SEC

  function AbsDiff(a: nat, b: nat): (d: nat)
    ensures a + d == b || b + d == a
  {
    if a >= b then a - b else b - a
  }

  /** `validate_timestamp`: the clock must be past the epoch and within the skew of `timestamp`, in whole seconds. */
  function ValidateTimestamp(timestamp: u64, maxClockSkewSecs: nat, nowNs: int): (r: Result<(), ReplayError>)
    ensures nowNs < 0 <==> r == Err(InvalidTimestamp)
    ensures r == Err(TimestampOutOfRange) <==>
      nowNs >= 0 && (timestamp + maxClockSkewSecs < nowNs / NANOS_PER_SEC || nowNs / NANOS_PER_SEC + maxClockSkewSecs < timestamp)
    ensures r.Err? ==> r.error != DuplicateNonce
  {
    if nowNs < 0 then Err(InvalidTimestamp)
    else if AbsDiff(nowNs / NANOS_PER_SEC, timestamp) > maxClockSkewSecs then Err(TimestampOutOfRange)
    else Ok(())
  }

  /** The lower bound `shrink_window` sets: `max - (W - 1)`, stopping at 0. */
  function Threshold(maxNonce: u64, maxWindowSize: nat): (t: u64)
    requires maxWindowSize >= 1
    ensures t <= maxNonce
    ensures maxNonce >= maxWindowSize - 1 ==> t + maxWindowSize - 1 == maxNonce
    ensures maxNonce < maxWindowSize - 1 ==> t == 0
  {
    SaturatingSub(maxNonce, maxWindowSize - 1)
  }

  /** The nonces from `lo` to `hi` number at most `hi - lo + 1`. */
  lemma {:induction false} RangeBound(s: set<nat>, lo: nat, hi: int)
    requires forall x :: x in s ==> lo <= x <= hi
    ensures |s| + lo <= hi + 1 || s == {}
    decreases hi - lo
  {
    if hi < lo {
      assert s == {} by {
        forall x | x in s
          ensures false
        {
        }
      }
    } else if s != {} {
      var rest := s - {hi};
      RangeBound(rest, lo, hi - 1);
      assert |s| <= |rest| + 1;
    }
  }

  /** The window's nonces and its bounds. */
  datatype NonceWindow = NonceWindow(nonces: set<u64>, min: u64, max: u64)

  /** `is_duplicate`: below a non-empty window's lower bound, or already in it. */
  predicate Duplicate(w: NonceWindow, nonce: u64) {
    (w.nonces != {} && nonce < w.min) || nonce in w.nonces
  }

  /**
   * A non-empty window lies between its bounds, holds its upper bound and
   * at most `maxWindowSize` nonces.
   */
  predicate Sound(w: NonceWindow, maxWindowSize: nat) {
    w.nonces != {} ==>
      w.max in w.nonces && |w.nonces| <= maxWindowSize
      && forall n :: n in w.nonces ==> w.min <= n <= w.max
  }

  /** `shrink_window`: keep the nonces at or above the threshold, which becomes the lower bound. */
  function Shrunk(w: NonceWindow, maxWindowSize: nat): (r: NonceWindow)
    requires maxWindowSize >= 1
    ensures r.max == w.max && r.min == Threshold(w.max, maxWindowSize)
    ensures forall n :: n in r.nonces <==> n in w.nonces && n >= r.min
  {
    var threshold := Threshold(w.max, maxWindowSize);
    NonceWindow((set n | n in w.nonces && n >= threshold), threshold, w.max)
  }

  /**
   * `register_nonce`: start the bounds at the first nonce or widen them to
   * it, insert it, and shrink when the window overflows.
   */
  function Register(w: NonceWindow, nonce: u64, maxWindowSize: nat): (r: NonceWindow)
    requires maxWindowSize >= 1
  {
    var min := if w.nonces == {} || nonce < w.min then nonce else w.min;
    var max := if w.nonces == {} || nonce > w.max then nonce else w.max;
    var grown := NonceWindow(w.nonces + {nonce}, min, max);
    if |grown.nonces| > maxWindowSize then Shrunk(grown, maxWindowSize) else grown
  }

  /**
   * Registering a fresh nonce keeps the window sound, and every nonce
   * accepted so far, the new one included, stays a duplicate: a nonce is
   * never accepted twice.
   */
  lemma RegisterKeepsReplaysOut(w: NonceWindow, nonce: u64, maxWindowSize: nat, accepted: set<u64>)
    requires maxWindowSize >= 1 && Sound(w, maxWindowSize) && !Duplicate(w, nonce)
    requires forall a :: a in accepted ==> Duplicate(w, a)
    ensures Sound(Register(w, nonce, maxWindowSize), maxWindowSize)
    ensures forall a :: a in accepted + {nonce} ==> Duplicate(Register(w, nonce, maxWindowSize), a)
    ensures Register(w, nonce, maxWindowSize).nonces <= w.nonces + {nonce}
  {
    var min := if w.nonces == {} || nonce < w.min then nonce else w.min;
    var max := if w.nonces == {} || nonce > w.max then nonce else w.max;
    var grown := NonceWindow(w.nonces + {nonce}, min, max);
    assert min == (if w.nonces == {} then nonce else w.min);
    assert forall n :: n in grown.nonces ==> min <= n <= max;
    if |grown.nonces| > maxWindowSize {
      ShrunkKeepsReplaysOut(grown, maxWindowSize, accepted + {nonce});
    }
  }

  /** Shrinking an overflowing window bounds it and keeps every duplicate a duplicate. */
  lemma ShrunkKeepsReplaysOut(w: NonceWindow, maxWindowSize: nat, accepted: set<u64>)
    requires maxWindowSize >= 1 && |w.nonces| > maxWindowSize && w.max in w.nonces
    requires forall n :: n in w.nonces ==> w.min <= n <= w.max
    requires forall a :: a in accepted ==> Duplicate(w, a)
    ensures Sound(Shrunk(w, maxWindowSize), maxWindowSize)
    ensures forall a :: a in accepted ==> Duplicate(Shrunk(w, maxWindowSize), a)
  {
    var r := Shrunk(w, maxWindowSize);
    ShrinkRaisesFloor(w.nonces, w.min, w.max, maxWindowSize);
    RangeBound(r.nonces, r.min, r.max);
    forall a | a in accepted
      ensures Duplicate(r, a)
    {
      if a !in r.nonces {
        assert a < r.min;
      }
    }
  }

  class ReplayProtection {
    var nonceWindow: set<u64>
    const maxWindowSize: nat
    var minNonce: u64
    var maxNonce: u64
    const maxClockSkewSecs: nat
    var lastCleanup: int
    /** Every nonce accepted so far. */
    ghost var accepted: set<u64>

    function Window(): NonceWindow
      reads this
    {
      NonceWindow(nonceWindow, minNonce, maxNonce)
    }

    /** The window is sound and every accepted nonce is still a duplicate. */
    ghost predicate Valid()
      reads this
    {
      maxWindowSize >= 1
      && Sound(Window(), maxWindowSize)
      && forall a :: a in accepted ==> Duplicate(Window(), a)
    }

    /** `ReplayProtection::new`; a window size of 0 would make the first registration underflow. */
    constructor (maxWindowSize: nat, maxClockSkewSecs: nat, nowNs: int)
      requires maxWindowSize >= 1
      ensures Valid() && accepted == {}
      ensures Window() == NonceWindow({}, 0, 0) && lastCleanup == nowNs
      ensures this.maxWindowSize == maxWindowSize && this.maxClockSkewSecs == maxClockSkewSecs
    {
      nonceWindow := {};
      this.maxWindowSize := maxWindowSize;
      minNonce := 0;
      maxNonce := 0;
      this.maxClockSkewSecs := maxClockSkewSecs;
      lastCleanup := nowNs;
      accepted := {};
    }

    predicate IsDuplicate(nonce: u64)
      reads this
    {
      Duplicate(Window(), nonce)
    }

    /**
     * `check_and_register`: a bad timestamp is reported first and changes
     * nothing; then a duplicate nonce is refused and changes nothing;
     * otherwise the nonce is registered and accepted, and the cleanup
     * time is stamped when more than the cleanup interval has passed.
     */
    method CheckAndRegister(nonce: u64, timestamp: u64, nowNs: int) returns (r: Result<(), ReplayError>)
      requires Valid()
      modifies this
      ensures Valid()
      ensures ValidateTimestamp(timestamp, maxClockSkewSecs, nowNs).Err? ==>
        r == ValidateTimestamp(timestamp, maxClockSkewSecs, nowNs) && unchanged(this)
      ensures ValidateTimestamp(timestamp, maxClockSkewSecs, nowNs).Ok? && old(IsDuplicate(nonce)) ==>
        r == Err(DuplicateNonce) && unchanged(this)
      ensures ValidateTimestamp(timestamp, maxClockSkewSecs, nowNs).Ok? && !old(IsDuplicate(nonce)) ==>
        r == Ok(()) && accepted == old(accepted) + {nonce}
        && Window() == Register(old(Window()), nonce, maxWindowSize)
        && (nowNs - old(lastCleanup) > CLEANUP_INTERVAL_NS ==> lastCleanup == nowNs)
        && (nowNs - old(lastCleanup) <= CLEANUP_INTERVAL_NS ==> lastCleanup == old(lastCleanup))
    {
      var valid := ValidateTimestamp(timestamp, maxClockSkewSecs, nowNs);
      if valid.Err? {
        return valid;
      }
      if IsDuplicate(nonce) {
        return Err(DuplicateNonce);
      }
      RegisterNonce(nonce);
      MaybeCleanup(nowNs);
      r := Ok(());
    }

    method RegisterNonce(nonce: u64)
      requires Valid() && !IsDuplicate(nonce)
      modifies this
      ensures Valid() && accepted == old(accepted) + {nonce}
      ensures Window() == Register(old(Window()), nonce, maxWindowSize)
      ensures lastCleanup == old(lastCleanup)
    {
      RegisterKeepsReplaysOut(Window(), nonce, maxWindowSize, accepted);
      if nonceWindow == {} {
        minNonce := nonce;
        maxNonce := nonce;
      } else {
        if nonce < minNonce {
          // a nonce below a non-empty window's bound is a duplicate
          assert false;
        }
        if nonce > maxNonce {
          maxNonce := nonce;
        }
      }
      nonceWindow := nonceWindow + {nonce};
      accepted := accepted + {nonce};
      if |nonceWindow| > maxWindowSize {
        ShrinkWindow();
      }
    }

    method ShrinkWindow()
      requires maxWindowSize >= 1
      modifies this
      ensures Window() == Shrunk(old(Window()), maxWindowSize)
      ensures accepted == old(accepted) && lastCleanup == old(lastCleanup)
    {
      var threshold := Threshold(maxNonce, maxWindowSize);
      nonceWindow := set n | n in nonceWindow && n >= threshold;
      minNonce := threshold;
    }

    /** `maybe_cleanup`: only stamps the cleanup time once the interval has passed. */
    method MaybeCleanup(nowNs: int)
      modifies this
      ensures nowNs - old(lastCleanup) > CLEANUP_INTERVAL_NS ==> lastCleanup == nowNs
      ensures nowNs - old(lastCleanup) <= CLEANUP_INTERVAL_NS ==> lastCleanup == old(lastCleanup)
      ensures Window() == old(Window()) && accepted == old(accepted)
    {
      var elapsed := if nowNs >= lastCleanup then nowNs - lastCleanup else 0;
      if elapsed > CLEANUP_INTERVAL_NS {
        lastCleanup := nowNs;
      }
    }

    function WindowSize(): (n: nat)
      reads this
      requires Valid()
      ensures n <= maxWindowSize
    {
      |nonceWindow|
    }
  }

  /**
   * A window that overflowed lies above its old lower bound `lo` with more
   * than `w` nonces up to `hi`, so the new lower bound lies above `lo`:
   * shrinking never readmits a nonce that was below the window.
   */
  lemma ShrinkRaisesFloor(s: set<nat>, lo: nat, hi: u64, w: nat)
    requires w >= 1 && |s| > w
    requires forall n :: n in s ==> lo <= n <= hi
    ensures lo < Threshold(hi, w)
  {
    RangeBound(s, lo, hi);
  }

  /** Nonces 100, 105, 102, 110 are all accepted, in that order; 100 and 105 are then refused. */
  method OutOfOrderScenario(ts: u64) returns (accepted: seq<bool>, replayed: seq<bool>)
    ensures accepted == [true, true, true, true] && replayed == [false, false]
  {
    var nowNs := ts * NANOS_PER_SEC;
    var rp := new ReplayProtection(100, 60, nowNs);
    var a := rp.CheckAndRegister(100, ts, nowNs);
    var b := rp.CheckAndRegister(105, ts, nowNs);
    var c := rp.CheckAndRegister(102, ts, nowNs);
    var d := rp.CheckAndRegister(110, ts, nowNs);
    accepted := [a.Ok?, b.Ok?, c.Ok?, d.Ok?];
    var e := rp.CheckAndRegister(100, ts, nowNs);
    var f := rp.CheckAndRegister(105, ts, nowNs);
    replayed := [e.Ok?, f.Ok?];
  }

  /** With a 60-second skew, timestamps 400 s away are out of range and 30 s away are accepted. */
  method TimestampScenario(ts: u64) returns (results: seq<Result<(), ReplayError>>)
    requires 400 <= ts && ts + 400 < U64_LIMIT
    ensures results == [Ok(()), Err(TimestampOutOfRange), Err(TimestampOutOfRange), Ok(()), Ok(())]
  {
    var nowNs := ts * NANOS_PER_SEC;
    var rp := new ReplayProtection(100, 60, nowNs);
    var a := rp.CheckAndRegister(1, ts, nowNs);
    var b := rp.CheckAndRegister(2, ts - 400, nowNs);
    var c := rp.CheckAndRegister(3, ts + 400, nowNs);
    var d := rp.CheckAndRegister(4, ts + 30, nowNs);
    var e := rp.CheckAndRegister(5, ts - 30, nowNs);
    results := [a, b, c, d, e];
  }
}
