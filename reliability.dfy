/**
 * The reliability layer of the transport: the sender keeps every packet it
 * has sent until it is acknowledged, cumulatively or by a selective
 * acknowledgement (SACK) range, and decides what to send again; the receiver
 * buffers what arrives, advances its cumulative acknowledgement over the
 * contiguous prefix, releases packets in order and reports SACK ranges.
 *
 * Time is the caller's monotonic clock, in nanoseconds, passed as `now`.
 * The congestion controller the layer feeds is not part of this module: it
 * appears only as the window `cwnd` that `CanSend` compares against.
 */
module Reliability {
  import opened Base
  import opened Delivery
  import opened OrderedKeys

  datatype SentPacket = SentPacket(sentTime: nat, data: seq<u8>, mode: DeliveryMode)

  datatype ReceivedPacket = ReceivedPacket(streamId: u32, data: seq<u8>)

  /** The first RTT guess, 100 ms, and the floor of the retransmission timeout, 200 ms. */
  const INITIAL_SRTT: nat := 100 * NANOS_PER_MILLI
  const MIN_RTO: nat := 200 * NANOS_PER_MILLI

  datatype RttEstimate = RttEstimate(srtt: nat, rttvar: nat)

  // ---------------------------------------------------------------------
  // Round-trip time
  // ---------------------------------------------------------------------

  /**
   * `update_rtt`: the smoothed RTT moves an eighth of the way towards the
   * sample and the variance a quarter of the way towards the deviation
   * (section 2 of RFC 6298); a zero estimate is replaced by the sample.
   */
  function UpdatedRtt(e: RttEstimate, rtt: nat): (r: RttEstimate)
    ensures e.srtt == 0 ==> r.srtt == rtt && r.rttvar == rtt / 2
    ensures e.srtt != 0 && rtt <= e.srtt ==> rtt <= r.srtt <= e.srtt
    ensures e.srtt != 0 && e.srtt <= rtt ==> e.srtt <= r.srtt <= rtt
  {
    if e.srtt == 0 then RttEstimate(rtt, rtt / 2)
    else
      var delta := if rtt > e.srtt then rtt - e.srtt else e.srtt - rtt;
      RttEstimate((e.srtt * 7 + rtt) / 8, (e.rttvar * 3 + delta) / 4)
  }

  /** The retransmission timeout: `srtt + 4 * rttvar`, but never below 200 ms. */
  function Rto(e: RttEstimate): (r: nat)
    ensures r >= MIN_RTO && r >= e.srtt + 4 * e.rttvar
    ensures r == MIN_RTO || r == e.srtt + 4 * e.rttvar
  {
    if e.srtt + 4 * e.rttvar >= MIN_RTO then e.srtt + 4 * e.rttvar else MIN_RTO
  }

  // ---------------------------------------------------------------------
  // Sender
  // ---------------------------------------------------------------------

  datatype Sender = Sender(sent: map<nat, SentPacket>, inflight: nat, rtt: RttEstimate)

  /** `track_sent_packet`: remember the packet (replacing any under the same number). */
  function TrackSent(st: Sender, sn: nat, data: seq<u8>, mode: DeliveryMode, now: nat): (r: Sender)
    ensures r.sent.Keys == st.sent.Keys + {sn} && r.sent[sn] == SentPacket(now, data, mode)
    ensures forall k :: k in st.sent && k != sn ==> r.sent[k] == st.sent[k]
    ensures r.inflight == st.inflight + |data| && r.rtt == st.rtt
  {
    Sender(st.sent[sn := SentPacket(now, data, mode)], st.inflight + |data|, st.rtt)
  }

  /** Removing one acknowledged packet: its bytes leave the flight and its age is an RTT sample. */
  function Acknowledge(st: Sender, k: nat, now: nat): (r: Sender)
    ensures r.sent == st.sent - {k}
    ensures r.inflight <= st.inflight
    ensures k !in st.sent ==> r == st
  {
    if k in st.sent then
      var p := st.sent[k];
      Sender(st.sent - {k}, SaturatingSub(st.inflight, |p.data|), UpdatedRtt(st.rtt, Elapsed(now, p.sentTime)))
    else
      st
  }

  /** Acknowledging the packets `ks` one after the other. */
  function AcknowledgeAll(st: Sender, ks: seq<nat>, now: nat): (r: Sender)
    ensures r.inflight <= st.inflight
    decreases |ks|
  {
    if |ks| == 0 then st
    else Acknowledge(AcknowledgeAll(st, ks[..|ks| - 1], now), ks[|ks| - 1], now)
  }

  function UpTo(sent: map<nat, SentPacket>, ack: nat): set<nat> {
    set k | k in sent && k <= ack
  }

  function Within(sent: map<nat, SentPacket>, lo: nat, hi: nat): set<nat> {
    set k | k in sent && lo <= k <= hi
  }

  /** The SACK part of `on_ack`: each range in turn, its packets in ascending order. */
  ghost function AckRanges(st: Sender, ranges: seq<(nat, nat)>, now: nat): (r: Sender)
    ensures r.inflight <= st.inflight
    decreases |ranges|
  {
    if |ranges| == 0 then st
    else
      var before := AckRanges(st, ranges[..|ranges| - 1], now);
      var range := ranges[|ranges| - 1];
      AcknowledgeAll(before, Ascending(Within(before.sent, range.0, range.1)), now)
  }

  /** `on_ack`: the packets up to `ack` in ascending order, then the SACK ranges. */
  ghost function Acked(st: Sender, ack: nat, ranges: seq<(nat, nat)>, now: nat): (r: Sender)
    ensures r.inflight <= st.inflight
  {
    AckRanges(AcknowledgeAll(st, Ascending(UpTo(st.sent, ack)), now), ranges, now)
  }

  predicate InSomeRange(k: nat, ranges: seq<(nat, nat)>) {
    exists i :: 0 <= i < |ranges| && ranges[i].0 <= k <= ranges[i].1
  }

  lemma InSomeRangeSnoc(k: nat, ranges: seq<(nat, nat)>)
    requires |ranges| > 0
    ensures InSomeRange(k, ranges) <==>
      InSomeRange(k, ranges[..|ranges| - 1]) || ranges[|ranges| - 1].0 <= k <= ranges[|ranges| - 1].1
  {
    var n := |ranges| - 1;
    if InSomeRange(k, ranges) {
      var i :| 0 <= i < |ranges| && ranges[i].0 <= k <= ranges[i].1;
      if i < n {
        assert ranges[..n][i] == ranges[i];
      }
    }
    if InSomeRange(k, ranges[..n]) {
      var i :| 0 <= i < n && ranges[..n][i].0 <= k <= ranges[..n][i].1;
      assert ranges[i] == ranges[..n][i];
    }
  }

  lemma {:induction false} AcknowledgeAllRemoves(st: Sender, ks: seq<nat>, now: nat)
    ensures AcknowledgeAll(st, ks, now).sent == map k | k in st.sent && k !in ks :: st.sent[k]
    decreases |ks|
  {
    if |ks| > 0 {
      var prefix := ks[..|ks| - 1];
      AcknowledgeAllRemoves(st, prefix, now);
      assert ks == prefix + [ks[|ks| - 1]];
    }
  }

  lemma {:induction false} AckRangesRemoves(st: Sender, ranges: seq<(nat, nat)>, now: nat)
    ensures AckRanges(st, ranges, now).sent == map k | k in st.sent && !InSomeRange(k, ranges) :: st.sent[k]
    decreases |ranges|
  {
    if |ranges| > 0 {
      var n := |ranges| - 1;
      var before := AckRanges(st, ranges[..n], now);
      var w := Within(before.sent, ranges[n].0, ranges[n].1);
      AckRangesRemoves(st, ranges[..n], now);
      AcknowledgeAllRemoves(before, Ascending(w), now);
      AscendingElements(w);
      forall k
        ensures InSomeRange(k, ranges) <==> InSomeRange(k, ranges[..n]) || ranges[n].0 <= k <= ranges[n].1
      {
        InSomeRangeSnoc(k, ranges);
      }
    } else {
      assert forall k :: !InSomeRange(k, ranges);
    }
  }

  /**
   * `on_ack` removes exactly the packets numbered up to `ack` and those
   * inside some SACK range; every other packet stays as it was.
   */
  lemma AckedRemoves(st: Sender, ack: nat, ranges: seq<(nat, nat)>, now: nat)
    ensures Acked(st, ack, ranges, now).sent ==
      map k | k in st.sent && k > ack && !InSomeRange(k, ranges) :: st.sent[k]
  {
    var ks := Ascending(UpTo(st.sent, ack));
    AscendingElements(UpTo(st.sent, ack));
    AcknowledgeAllRemoves(st, ks, now);
    AckRangesRemoves(AcknowledgeAll(st, ks, now), ranges, now);
  }

  /** The total payload of the packets in flight. */
  ghost function SumLens(m: map<nat, SentPacket>): nat
    decreases |m.Keys|
  {
    if m.Keys == {} then 0
    else
      var k := Least(m.Keys);
      assert (m - {k}).Keys == m.Keys - {k};
      |m[k].data| + SumLens(m - {k})
  }

  lemma {:induction false} SumLensRemove(m: map<nat, SentPacket>, k: nat)
    requires k in m
    ensures SumLens(m) == |m[k].data| + SumLens(m - {k})
    decreases |m.Keys|
  {
    var j := Least(m.Keys);
    if j != k {
      assert (m - {k}).Keys == m.Keys - {k};
      assert (m - {j}).Keys == m.Keys - {j};
      SumLensRemove(m - {j}, k);
      SumLensRemove(m - {k}, j);
      assert m - {j} - {k} == m - {k} - {j};
    }
  }

  /** The byte count of the flight matches the packets tracked. */
  ghost predicate Consistent(st: Sender) {
    st.inflight == SumLens(st.sent)
  }

  lemma AcknowledgeConsistent(st: Sender, k: nat, now: nat)
    requires Consistent(st)
    ensures Consistent(Acknowledge(st, k, now))
  {
    if k in st.sent {
      SumLensRemove(st.sent, k);
    }
  }

  lemma {:induction false} AcknowledgeAllConsistent(st: Sender, ks: seq<nat>, now: nat)
    requires Consistent(st)
    ensures Consistent(AcknowledgeAll(st, ks, now))
    decreases |ks|
  {
    if |ks| > 0 {
      AcknowledgeAllConsistent(st, ks[..|ks| - 1], now);
      AcknowledgeConsistent(AcknowledgeAll(st, ks[..|ks| - 1], now), ks[|ks| - 1], now);
    }
  }

  lemma {:induction false} AckRangesConsistent(st: Sender, ranges: seq<(nat, nat)>, now: nat)
    requires Consistent(st)
    ensures Consistent(AckRanges(st, ranges, now))
    decreases |ranges|
  {
    if |ranges| > 0 {
      var n := |ranges| - 1;
      var before := AckRanges(st, ranges[..n], now);
      AckRangesConsistent(st, ranges[..n], now);
      AcknowledgeAllConsistent(before, Ascending(Within(before.sent, ranges[n].0, ranges[n].1)), now);
    }
  }

  /**
   * `saturating_sub` never has to saturate: as long as every packet was
   * tracked under a fresh number, the bytes in flight after an
   * acknowledgement are the payload of the packets still tracked.
   */
  lemma AckedConsistent(st: Sender, ack: nat, ranges: seq<(nat, nat)>, now: nat)
    requires Consistent(st)
    ensures Consistent(Acked(st, ack, ranges, now))
  {
    var ks := Ascending(UpTo(st.sent, ack));
    AcknowledgeAllConsistent(st, ks, now);
    AckRangesConsistent(AcknowledgeAll(st, ks, now), ranges, now);
  }

  /** Tracking a packet under a fresh number keeps the byte count exact. */
  lemma TrackSentConsistent(st: Sender, sn: nat, data: seq<u8>, mode: DeliveryMode, now: nat)
    requires Consistent(st) && sn !in st.sent
    ensures Consistent(TrackSent(st, sn, data, mode, now))
  {
    var r := TrackSent(st, sn, data, mode, now);
    SumLensRemove(r.sent, sn);
    assert r.sent - {sn} == st.sent;
  }

  /** Whether `get_retransmits` sends a packet again: past the RTO, and only while its mode allows. */
  predicate ShouldRetransmit(p: SentPacket, now: nat, rto: nat) {
    var elapsed := Elapsed(now, p.sentTime);
    elapsed > rto &&
    match p.mode
    case Reliable => true
    case PartiallyReliable(ttlMs) => elapsed < ttlMs * NANOS_PER_MILLI
    case BestEffort => false
  }

  /**
   * Only the modes that ask for retransmission are sent again, and only
   * while not expired: the retransmission rule agrees with the delivery
   * mode's own predicates.
   */
  lemma ShouldRetransmitAgrees(p: SentPacket, now: nat, rto: nat)
    ensures ShouldRetransmit(p, now, rto) <==>
      Elapsed(now, p.sentTime) > rto && RequiresRetransmit(p.mode) && !IsExpired(p.mode, Elapsed(now, p.sentTime))
  {
  }

  /** The packets among `ks` to send again, in the order of `ks`. */
  function RetransmitsAmong(sent: map<nat, SentPacket>, ks: seq<nat>, now: nat, rto: nat): seq<(nat, seq<u8>)>
    decreases |ks|
  {
    if |ks| == 0 then []
    else
      var k := ks[|ks| - 1];
      RetransmitsAmong(sent, ks[..|ks| - 1], now, rto)
        + (if k in sent && ShouldRetransmit(sent[k], now, rto) then [(k, sent[k].data)] else [])
  }

  /** `get_retransmits`: the packets due again, in ascending sequence order. */
  ghost function Retransmits(st: Sender, now: nat): seq<(nat, seq<u8>)> {
    RetransmitsAmong(st.sent, Ascending(st.sent.Keys), now, Rto(st.rtt))
  }

  /** A listed retransmission: a tracked packet that is due, with its own data. */
  predicate Due(sent: map<nat, SentPacket>, e: (nat, seq<u8>), now: nat, rto: nat) {
    e.0 in sent && e.1 == sent[e.0].data && ShouldRetransmit(sent[e.0], now, rto)
  }

  /** Every packet listed is among `ks` and due. */
  lemma {:induction false} RetransmitsAmongSound(sent: map<nat, SentPacket>, ks: seq<nat>, now: nat, rto: nat)
    ensures forall e :: e in RetransmitsAmong(sent, ks, now, rto) ==> e.0 in ks && Due(sent, e, now, rto)
    decreases |ks|
  {
    if |ks| > 0 {
      var prefix := ks[..|ks| - 1];
      RetransmitsAmongSound(sent, prefix, now, rto);
      assert forall k :: k in prefix ==> k in ks;
    }
  }

  predicate KeysIncreasing<T>(r: seq<(nat, T)>) {
    forall i, j :: 0 <= i < j < |r| ==> r[i].0 < r[j].0
  }

  /** Listed in the order of `ks`, when that order is increasing. */
  lemma {:induction false} RetransmitsAmongOrdered(sent: map<nat, SentPacket>, ks: seq<nat>, now: nat, rto: nat)
    requires StrictlyIncreasing(ks)
    ensures KeysIncreasing(RetransmitsAmong(sent, ks, now, rto))
    decreases |ks|
  {
    if |ks| > 0 {
      var n := |ks| - 1;
      var prefix := ks[..n];
      assert StrictlyIncreasing(prefix);
      RetransmitsAmongOrdered(sent, prefix, now, rto);
      RetransmitsAmongSound(sent, prefix, now, rto);
      var before := RetransmitsAmong(sent, prefix, now, rto);
      var r := RetransmitsAmong(sent, ks, now, rto);
      forall i, j | 0 <= i < j < |r|
        ensures r[i].0 < r[j].0
      {
        assert r[i] == before[i];
        if j < |before| {
          assert r[j] == before[j];
        } else {
          assert r[j].0 == ks[n];
          assert before[i] in before;
          var m :| 0 <= m < n && prefix[m] == before[i].0;
          assert ks[m] == prefix[m];
        }
      }
    }
  }

  /** Every due packet among `ks` is listed. */
  lemma {:induction false} RetransmitsAmongComplete(sent: map<nat, SentPacket>, ks: seq<nat>, now: nat, rto: nat)
    ensures forall k :: k in ks && k in sent && ShouldRetransmit(sent[k], now, rto) ==>
      (k, sent[k].data) in RetransmitsAmong(sent, ks, now, rto)
    decreases |ks|
  {
    if |ks| > 0 {
      var prefix := ks[..|ks| - 1];
      RetransmitsAmongComplete(sent, prefix, now, rto);
      assert forall k :: k in ks ==> k in prefix || k == ks[|ks| - 1];
    }
  }

  /**
   * `get_retransmits` returns, in ascending order, exactly the tracked
   * packets older than the RTO that are Reliable, or PartiallyReliable and
   * still within their time to live; never a BestEffort packet.
   */
  lemma RetransmitsSpec(st: Sender, now: nat)
    ensures forall e :: e in Retransmits(st, now) ==> Due(st.sent, e, now, Rto(st.rtt))
    ensures KeysIncreasing(Retransmits(st, now))
    ensures forall k :: k in st.sent && ShouldRetransmit(st.sent[k], now, Rto(st.rtt)) ==>
      (k, st.sent[k].data) in Retransmits(st, now)
  {
    var ks := Ascending(st.sent.Keys);
    AscendingSpec(st.sent.Keys);
    RetransmitsAmongSound(st.sent, ks, now, Rto(st.rtt));
    RetransmitsAmongOrdered(st.sent, ks, now, Rto(st.rtt));
    RetransmitsAmongComplete(st.sent, ks, now, Rto(st.rtt));
  }

  /**
   * The retransmission scenarios: a packet sent at `t` is not due while
   * the RTO (200 ms at first) has not passed; 250 ms later a Reliable one
   * is sent again, while a PartiallyReliable one with a 100 ms time to
   * live, and a BestEffort one, are not.
   */
  lemma RetransmitScenarios(t: nat, data: seq<u8>)
    ensures Retransmits(TrackSent(Fresh(), 1, data, Reliable, t), t) == []
    ensures Retransmits(TrackSent(Fresh(), 1, data, Reliable, t), t + 250 * NANOS_PER_MILLI) == [(1, data)]
    ensures Retransmits(TrackSent(Fresh(), 1, data, PartiallyReliable(100), t), t + 250 * NANOS_PER_MILLI) == []
    ensures Retransmits(TrackSent(Fresh(), 1, data, BestEffort, t), t + 250 * NANOS_PER_MILLI) == []
  {
    AscendingUnique({1}, [1]);
    assert [1][..0] == [];
    assert Rto(Fresh().rtt) == MIN_RTO;
    forall mode: DeliveryMode
      ensures TrackSent(Fresh(), 1, data, mode, t).sent.Keys == {1}
    {
    }
  }

  /** The sender of a new layer. */
  function Fresh(): (st: Sender)
    ensures Consistent(st) && st.sent == map[] && Rto(st.rtt) == MIN_RTO
  {
    Sender(map[], 0, RttEstimate(INITIAL_SRTT, 0))
  }

  /** Whether `cleanup_expired` keeps a packet. */
  predicate Kept(p: SentPacket, now: nat, rto: nat) {
    match p.mode
    case PartiallyReliable(ttlMs) => Elapsed(now, p.sentTime) < ttlMs * NANOS_PER_MILLI
    case BestEffort => Elapsed(now, p.sentTime) <= rto
    case Reliable => true
  }

  /** `cleanup_expired`: drop the packets past their use, then recount the bytes in flight. */
  ghost function Cleaned(st: Sender, now: nat): (r: Sender)
    ensures Consistent(r)
  {
    var kept := map k | k in st.sent && Kept(st.sent[k], now, Rto(st.rtt)) :: st.sent[k];
    Sender(kept, SumLens(kept), st.rtt)
  }

  /**
   * `cleanup_expired` keeps every Reliable packet, drops a PartiallyReliable
   * one once its time to live has passed and a BestEffort one once the RTO
   * has, and changes no packet it keeps.
   */
  lemma CleanedSpec(st: Sender, now: nat)
    ensures var r := Cleaned(st, now);
      r.sent.Keys <= st.sent.Keys
      && (forall k :: k in r.sent ==> r.sent[k] == st.sent[k])
      && (forall k :: k in st.sent && st.sent[k].mode.Reliable? ==> k in r.sent)
      && (forall k :: k in st.sent && st.sent[k].mode.PartiallyReliable? ==>
            (k in r.sent <==> !IsExpired(st.sent[k].mode, Elapsed(now, st.sent[k].sentTime))))
      && (forall k :: k in st.sent && st.sent[k].mode.BestEffort? ==>
            (k in r.sent <==> Elapsed(now, st.sent[k].sentTime) <= Rto(st.rtt)))
  {
  }

  // ---------------------------------------------------------------------
  // Receiver
  // ---------------------------------------------------------------------

  datatype Receiver = Receiver(cumulativeAck: nat, buffer: map<nat, ReceivedPacket>, pendingAcks: nat, lastAckTime: nat)

  function Above(ks: set<nat>, c: nat): set<nat> {
    set k | k in ks && k > c
  }

  /** The `while` loop of `track_received_packet`: move `c` over the buffered run after it. */
  function AdvanceAck(ks: set<nat>, c: nat): (r: nat)
    ensures c <= r && r + 1 !in ks
    ensures forall s :: c < s <= r ==> s in ks
    decreases |Above(ks, c)|
  {
    if c + 1 in ks then
      assert Above(ks, c) == Above(ks, c + 1) + {c + 1};
      AdvanceAck(ks, c + 1)
    else
      c
  }

  /**
   * `track_received_packet`: a packet already released (numbered up to
   * the cumulative acknowledgement and no longer buffered) or already
   * buffered is ignored; any other is buffered, the cumulative
   * acknowledgement advances over the contiguous run, and one more
   * acknowledgement is pending.
   */
  function Received(r: Receiver, sn: nat, streamId: u32, data: seq<u8>): Receiver {
    if sn <= r.cumulativeAck && sn !in r.buffer then r
    else if sn in r.buffer then r
    else
      var buffer := r.buffer[sn := ReceivedPacket(streamId, data)];
      Receiver(AdvanceAck(buffer.Keys, r.cumulativeAck), buffer, r.pendingAcks + 1, r.lastAckTime)
  }

  /**
   * The receiver's invariant over the set `arrived` of every number ever
   * received: the buffer holds only arrived packets, every number up to the
   * cumulative acknowledgement has arrived, and the next one is not buffered.
   */
  ghost predicate ReceiverValid(r: Receiver, arrived: set<nat>) {
    r.buffer.Keys <= arrived
    && (forall s :: 1 <= s <= r.cumulativeAck ==> s in arrived)
    && r.cumulativeAck + 1 !in r.buffer
  }

  /** A duplicate leaves everything, the pending count included, as it was. */
  lemma ReceivedDuplicate(r: Receiver, sn: nat, streamId: u32, data: seq<u8>)
    requires sn <= r.cumulativeAck || sn in r.buffer
    ensures Received(r, sn, streamId, data) == r
  {
  }

  /** A new packet is buffered and counted as one pending acknowledgement. */
  lemma ReceivedNew(r: Receiver, sn: nat, streamId: u32, data: seq<u8>)
    requires sn > r.cumulativeAck && sn !in r.buffer
    ensures var r' := Received(r, sn, streamId, data);
      r'.buffer == r.buffer[sn := ReceivedPacket(streamId, data)]
      && r'.pendingAcks == r.pendingAcks + 1
      && r.cumulativeAck <= r'.cumulativeAck
      && (sn == r.cumulativeAck + 1 ==> r'.cumulativeAck >= sn)
  {
  }

  lemma ReceivedValid(r: Receiver, arrived: set<nat>, sn: nat, streamId: u32, data: seq<u8>)
    requires ReceiverValid(r, arrived)
    ensures ReceiverValid(Received(r, sn, streamId, data), arrived + {sn})
  {
    var r' := Received(r, sn, streamId, data);
    forall s | 1 <= s <= r'.cumulativeAck
      ensures s in arrived + {sn}
    {
      if s > r.cumulativeAck {
        assert s in r'.buffer.Keys;
      }
    }
  }

  /** The longest prefix of `ks` whose numbers are at most `c` (the loop stops at the first gap). */
  function TakeUpTo(ks: seq<nat>, c: nat): (r: seq<nat>)
    ensures |r| <= |ks| && r == ks[..|r|]
    ensures forall i :: 0 <= i < |r| ==> r[i] <= c
    ensures |r| < |ks| ==> ks[|r|] > c
    decreases |ks|
  {
    if |ks| == 0 || ks[0] > c then [] else [ks[0]] + TakeUpTo(ks[1..], c)
  }

  /** The buffered packets numbered `ks`, as `(sn, stream_id, data)`. */
  function Delivered(buffer: map<nat, ReceivedPacket>, ks: seq<nat>): seq<(nat, u32, seq<u8>)>
    decreases |ks|
  {
    if |ks| == 0 then []
    else
      var k := ks[|ks| - 1];
      Delivered(buffer, ks[..|ks| - 1])
        + (if k in buffer then [(k, buffer[k].streamId, buffer[k].data)] else [])
  }

  /** `pop_received_packets`: what it returns. */
  ghost function Popped(r: Receiver): seq<(nat, u32, seq<u8>)> {
    Delivered(r.buffer, TakeUpTo(Ascending(r.buffer.Keys), r.cumulativeAck))
  }

  /** `pop_received_packets`: what stays buffered. */
  function AfterPop(r: Receiver): (r': Receiver)
    ensures r'.cumulativeAck == r.cumulativeAck && r'.pendingAcks == r.pendingAcks
    ensures r'.lastAckTime == r.lastAckTime
  {
    r.(buffer := map k | k in r.buffer && k > r.cumulativeAck :: r.buffer[k])
  }

  lemma {:induction false} DeliveredSpec(buffer: map<nat, ReceivedPacket>, ks: seq<nat>)
    requires StrictlyIncreasing(ks) && forall k :: k in ks ==> k in buffer
    ensures var d := Delivered(buffer, ks);
      |d| == |ks| && forall i :: 0 <= i < |d| ==> d[i] == (ks[i], buffer[ks[i]].streamId, buffer[ks[i]].data)
    decreases |ks|
  {
    if |ks| > 0 {
      DeliveredSpec(buffer, ks[..|ks| - 1]);
    }
  }

  /**
   * `pop_received_packets` releases, in ascending order, exactly the
   * buffered packets numbered up to the cumulative acknowledgement, each
   * with the stream and data it arrived with.
   */
  lemma PoppedSpec(r: Receiver)
    ensures SeqsIncreasing(Popped(r))
    ensures forall e :: e in Popped(r) ==>
      e.0 in r.buffer && e.0 <= r.cumulativeAck && e.1 == r.buffer[e.0].streamId && e.2 == r.buffer[e.0].data
    ensures forall k :: k in r.buffer && k <= r.cumulativeAck ==>
      (k, r.buffer[k].streamId, r.buffer[k].data) in Popped(r)
  {
    var t := TakeUpTo(Ascending(r.buffer.Keys), r.cumulativeAck);
    TakenUpTo(r.buffer.Keys, r.cumulativeAck);
    DeliveredSpec(r.buffer, t);
    var p := Popped(r);
    forall k | k in r.buffer && k <= r.cumulativeAck
      ensures (k, r.buffer[k].streamId, r.buffer[k].data) in p
    {
      var i :| 0 <= i < |t| && t[i] == k;
      assert p[i] == (k, r.buffer[k].streamId, r.buffer[k].data);
    }
  }

  predicate SeqsIncreasing(p: seq<(nat, u32, seq<u8>)>) {
    forall i, j :: 0 <= i < j < |p| ==> p[i].0 < p[j].0
  }

  /** The prefix `TakeUpTo` keeps of the ascending keys is, in order, every key up to `c`. */
  lemma TakenUpTo(s: set<nat>, c: nat)
    ensures var t := TakeUpTo(Ascending(s), c);
      StrictlyIncreasing(t)
      && (forall k :: k in t <==> k in s && k <= c)
  {
    var ks := Ascending(s);
    var t := TakeUpTo(ks, c);
    AscendingSpec(s);
    assert forall i :: 0 <= i < |t| ==> t[i] == ks[i];
    forall k | k in s && k <= c
      ensures k in t
    {
      var j :| 0 <= j < |ks| && ks[j] == k;
      assert j < |t|;
      assert t[j] == k;
    }
  }

  /** Releasing keeps the receiver's invariant. */
  lemma AfterPopValid(r: Receiver, arrived: set<nat>)
    requires ReceiverValid(r, arrived)
    ensures ReceiverValid(AfterPop(r), arrived)
  {
  }

  /** In the out-of-order scenario, 1, 2 and 4 have arrived: the acknowledgement stops at the gap. */
  lemma AfterThreeState(t: nat)
    ensures AfterThree(t) == Receiver(2, map[1 := ReceivedPacket(0, [1]), 2 := ReceivedPacket(0, [2]),
                                              4 := ReceivedPacket(0, [4])], 3, t)
  {
    var r1 := Received(Receiver(0, map[], 0, t), 1, 0, [1]);
    assert r1.buffer.Keys == {1};
    assert AdvanceAck({1}, 0) == AdvanceAck({1}, 1) == 1;
    var r2 := Received(r1, 2, 0, [2]);
    assert r2.buffer.Keys == {1, 2};
    assert AdvanceAck({1, 2}, 1) == AdvanceAck({1, 2}, 2) == 2;
    var r3 := Received(r2, 4, 0, [4]);
    assert r3.buffer.Keys == {1, 2, 4};
    assert AdvanceAck({1, 2, 4}, 2) == 2;
  }

  /**
   * The out-of-order scenario: 1, 2 and 4 arrive; 1 and 2 are released
   * and 4 stays buffered.
   */
  lemma OutOfOrderFirstPop(t: nat)
    ensures Popped(AfterThree(t)) == [(1, 0, [1]), (2, 0, [2])]
    ensures AfterPop(AfterThree(t)).buffer == map[4 := ReceivedPacket(0, [4])]
  {
    AfterThreeState(t);
    FirstPopValues(t);
  }

  lemma FirstPopValues(t: nat)
    ensures var r := Receiver(2, map[1 := ReceivedPacket(0, [1]), 2 := ReceivedPacket(0, [2]),
                                     4 := ReceivedPacket(0, [4])], 3, t);
      Popped(r) == [(1, 0, [1]), (2, 0, [2])] && AfterPop(r).buffer == map[4 := ReceivedPacket(0, [4])]
  {
    var b := map[1 := ReceivedPacket(0, [1]), 2 := ReceivedPacket(0, [2]), 4 := ReceivedPacket(0, [4])];
    assert Ascending(b.Keys) == [1, 2, 4] by {
      assert b.Keys == {1, 2, 4};
      AscendingUnique({1, 2, 4}, [1, 2, 4]);
    }
    assert TakeUpTo([1, 2, 4], 2) == [1, 2] by {
      assert [1, 2, 4][1..] == [2, 4];
      assert [2, 4][1..] == [4];
    }
    assert Delivered(b, [1, 2]) == [(1, 0, [1]), (2, 0, [2])] by {
      assert [1, 2][..1] == [1];
      assert [1][..0] == [];
    }
  }

  /** Once 3 arrives as well, 3 and 4 are released and nothing stays buffered. */
  lemma OutOfOrderSecondPop(t: nat)
    ensures Popped(Received(AfterPop(AfterThree(t)), 3, 0, [3])) == [(3, 0, [3]), (4, 0, [4])]
    ensures AfterPop(Received(AfterPop(AfterThree(t)), 3, 0, [3])).buffer == map[]
  {
    OutOfOrderFirstPop(t);
    AfterThreeState(t);
    var b := map[3 := ReceivedPacket(0, [3]), 4 := ReceivedPacket(0, [4])];
    var popped := AfterPop(AfterThree(t));
    assert popped == Receiver(2, map[4 := ReceivedPacket(0, [4])], 3, t);
    assert popped.buffer[3 := ReceivedPacket(0, [3])] == b;
    assert Received(popped, 3, 0, [3]) == Receiver(4, b, 4, t) by {
      assert b.Keys == {3, 4};
      assert AdvanceAck({3, 4}, 2) == AdvanceAck({3, 4}, 3) == AdvanceAck({3, 4}, 4) == 4;
    }
    SecondPopValues(t);
  }

  lemma SecondPopValues(t: nat)
    ensures var r := Receiver(4, map[3 := ReceivedPacket(0, [3]), 4 := ReceivedPacket(0, [4])], 4, t);
      Popped(r) == [(3, 0, [3]), (4, 0, [4])] && AfterPop(r).buffer == map[]
  {
    var b := map[3 := ReceivedPacket(0, [3]), 4 := ReceivedPacket(0, [4])];
    assert Ascending(b.Keys) == [3, 4] by {
      assert b.Keys == {3, 4};
      AscendingUnique({3, 4}, [3, 4]);
    }
    assert TakeUpTo([3, 4], 4) == [3, 4] by {
      assert [3, 4][1..] == [4];
    }
    assert Delivered(b, [3, 4]) == [(3, 0, [3]), (4, 0, [4])] by {
      assert [3, 4][..1] == [3];
      assert [3][..0] == [];
    }
  }

  /** The receiver after 1, 2 and 4 have arrived, starting at time `t`. */
  function AfterThree(t: nat): Receiver {
    Received(Received(Received(Receiver(0, map[], 0, t), 1, 0, [1]), 2, 0, [2]), 4, 0, [4])
  }

  // ---------------------------------------------------------------------
  // SACK ranges
  // ---------------------------------------------------------------------

  /**
   * What `get_ack_info` promises of its ranges: each lies above the
   * cumulative acknowledgement and is wholly buffered, they come in
   * ascending order with a gap between neighbours, and together they cover
   * every buffered number above the acknowledgement. So they are the
   * maximal runs of buffered numbers above it.
   */
  ghost predicate SackRanges(keys: set<nat>, ack: nat, ranges: seq<(nat, nat)>) {
    RangesSound(keys, ack, ranges)
    && (forall s :: s in keys && s > ack ==> InSomeRange(s, ranges))
  }

  /** The ranges lie above `ack`, are wholly buffered, and ascend with gaps between them. */
  ghost predicate RangesSound(keys: set<nat>, ack: nat, ranges: seq<(nat, nat)>) {
    (forall i :: 0 <= i < |ranges| ==> ack < ranges[i].0 <= ranges[i].1)
    && (forall i, s :: 0 <= i < |ranges| && ranges[i].0 <= s <= ranges[i].1 ==> s in keys)
    && (forall i :: 0 < i < |ranges| ==> ranges[i - 1].1 + 1 < ranges[i].0)
  }

  /** Closing the run `start..=end` after the ranges already closed. */
  lemma PushRange(keys: set<nat>, ack: nat, ranges: seq<(nat, nat)>, start: nat, end: nat)
    requires RangesSound(keys, ack, ranges)
    requires ack < start <= end && forall s :: start <= s <= end ==> s in keys
    requires |ranges| > 0 ==> ranges[|ranges| - 1].1 + 1 < start
    ensures RangesSound(keys, ack, ranges + [(start, end)])
    ensures forall s: nat :: InSomeRange(s, ranges) || start <= s <= end ==> InSomeRange(s, ranges + [(start, end)])
  {
    var ranges' := ranges + [(start, end)];
    assert forall i :: 0 <= i < |ranges| ==> ranges'[i] == ranges[i];
    forall s: nat | InSomeRange(s, ranges) || start <= s <= end
      ensures InSomeRange(s, ranges')
    {
      if InSomeRange(s, ranges) {
        var i :| 0 <= i < |ranges| && ranges[i].0 <= s <= ranges[i].1;
        assert ranges'[i] == ranges[i];
      } else {
        assert ranges'[|ranges|] == (start, end);
      }
    }
  }

  /** What the loop of `get_ack_info` has seen so far is covered by the closed ranges or the open run. */
  ghost predicate Covered(s: nat, ranges: seq<(nat, nat)>, start: nat, end: nat) {
    InSomeRange(s, ranges) || (start != 0 && start <= s <= end)
  }

  /** Each range of `SackRanges` is a maximal run: the numbers on either side are not buffered. */
  lemma SackRangesMaximal(keys: set<nat>, ack: nat, ranges: seq<(nat, nat)>, i: nat)
    requires SackRanges(keys, ack, ranges) && i < |ranges|
    ensures ranges[i].1 + 1 !in keys
    ensures ranges[i].0 - 1 > ack ==> ranges[i].0 - 1 !in keys
  {
    SeparatedRanges(ranges, ack);
    assert !InSomeRange(ranges[i].1 + 1, ranges);
    assert !InSomeRange(ranges[i].0 - 1, ranges);
  }

  /** Separated neighbours make every earlier range end well before every later one starts. */
  lemma {:induction false} SeparatedRanges(ranges: seq<(nat, nat)>, ack: nat)
    requires forall i :: 0 <= i < |ranges| ==> ack < ranges[i].0 <= ranges[i].1
    requires forall i :: 0 < i < |ranges| ==> ranges[i - 1].1 + 1 < ranges[i].0
    ensures forall i, j :: 0 <= i < j < |ranges| ==> ranges[i].1 + 1 < ranges[j].0
    decreases |ranges|
  {
    if |ranges| > 1 {
      var n := |ranges| - 1;
      SeparatedRanges(ranges[..n], ack);
      forall i, j | 0 <= i < j < |ranges|
        ensures ranges[i].1 + 1 < ranges[j].0
      {
        if j < n {
          assert ranges[..n][i] == ranges[i] && ranges[..n][j] == ranges[j];
        } else if i < n - 1 {
          assert ranges[..n][i] == ranges[i] && ranges[..n][n - 1] == ranges[n - 1];
        }
      }
    }
  }

  // ---------------------------------------------------------------------
  // The layer
  // ---------------------------------------------------------------------

  class ReliabilityLayer {
    var nextSeq: nat
    var sentBuffer: map<nat, SentPacket>
    var srtt: nat
    var rttvar: nat
    var inflightBytes: nat
    var cumulativeAck: nat
    var receivedBuffer: map<nat, ReceivedPacket>
    var pendingAckCount: nat
    var lastAckTime: nat
    /** Every sequence number ever received. */
    ghost var arrived: set<nat>

    function SenderState(): Sender
      reads this
    {
      Sender(sentBuffer, inflightBytes, RttEstimate(srtt, rttvar))
    }

    function ReceiverState(): Receiver
      reads this
    {
      Receiver(cumulativeAck, receivedBuffer, pendingAckCount, lastAckTime)
    }

    ghost predicate Valid()
      reads this
    {
      nextSeq >= 1 && ReceiverValid(ReceiverState(), arrived)
    }

    /** `ReliabilityLayer::new`. */
    constructor (now: nat)
      ensures nextSeq == 1 && arrived == {}
      ensures SenderState() == Sender(map[], 0, RttEstimate(INITIAL_SRTT, 0))
      ensures ReceiverState() == Receiver(0, map[], 0, now)
      ensures Valid() && Consistent(SenderState())
    {
      nextSeq := 1;
      sentBuffer := map[];
      srtt := INITIAL_SRTT;
      rttvar := 0;
      inflightBytes := 0;
      cumulativeAck := 0;
      receivedBuffer := map[];
      pendingAckCount := 0;
      lastAckTime := now;
      arrived := {};
    }

    /** `next_sequence`: hand out the next number; the numbers run 1, 2, 3, ... */
    method NextSequence() returns (sn: nat)
      requires Valid()
      modifies this
      ensures sn == old(nextSeq) && nextSeq == sn + 1 && sn >= 1
      ensures SenderState() == old(SenderState()) && ReceiverState() == old(ReceiverState())
      ensures arrived == old(arrived) && Valid()
    {
      sn := nextSeq;
      nextSeq := nextSeq + 1;
    }

    /** `track_sent_packet`. */
    method TrackSentPacket(sn: nat, data: seq<u8>, mode: DeliveryMode, now: nat)
      modifies this
      ensures SenderState() == TrackSent(old(SenderState()), sn, data, mode, now)
      ensures ReceiverState() == old(ReceiverState()) && nextSeq == old(nextSeq) && arrived == old(arrived)
    {
      sentBuffer := sentBuffer[sn := SentPacket(now, data, mode)];
      inflightBytes := inflightBytes + |data|;
    }

    /** `update_rtt`. */
    method UpdateRtt(rtt: nat)
      modifies this
      ensures RttEstimate(srtt, rttvar) == UpdatedRtt(old(RttEstimate(srtt, rttvar)), rtt)
      ensures sentBuffer == old(sentBuffer) && inflightBytes == old(inflightBytes)
      ensures ReceiverState() == old(ReceiverState()) && nextSeq == old(nextSeq) && arrived == old(arrived)
    {
      if srtt == 0 {
        srtt := rtt;
        rttvar := rtt / 2;
      } else {
        var delta := if rtt > srtt then rtt - srtt else srtt - rtt;
        rttvar := (rttvar * 3 + delta) / 4;
        srtt := (srtt * 7 + rtt) / 8;
      }
    }

    /** The body shared by both loops of `on_ack`: remove the packets `keys`, in order. */
    method RemoveAcknowledged(keys: seq<nat>, now: nat)
      modifies this
      ensures SenderState() == AcknowledgeAll(old(SenderState()), keys, now)
      ensures ReceiverState() == old(ReceiverState()) && nextSeq == old(nextSeq) && arrived == old(arrived)
    {
      for i := 0 to |keys|
        invariant SenderState() == AcknowledgeAll(old(SenderState()), keys[..i], now)
        invariant ReceiverState() == old(ReceiverState()) && nextSeq == old(nextSeq) && arrived == old(arrived)
      {
        var k := keys[i];
        assert keys[..i + 1][..i] == keys[..i];
        if k in sentBuffer {
          var p := sentBuffer[k];
          sentBuffer := sentBuffer - {k};
          inflightBytes := SaturatingSub(inflightBytes, |p.data|);
          UpdateRtt(Elapsed(now, p.sentTime));
        }
      }
      assert keys[..|keys|] == keys;
    }

    /** `on_ack`. */
    method OnAck(ackSeq: nat, ranges: seq<(nat, nat)>, now: nat)
      modifies this
      ensures SenderState() == Acked(old(SenderState()), ackSeq, ranges, now)
      ensures ReceiverState() == old(ReceiverState()) && nextSeq == old(nextSeq) && arrived == old(arrived)
    {
      var keysToRemove := SortedKeys(UpTo(sentBuffer, ackSeq));
      RemoveAcknowledged(keysToRemove, now);
      ghost var afterCumulative := SenderState();
      for i := 0 to |ranges|
        invariant SenderState() == AckRanges(afterCumulative, ranges[..i], now)
        invariant ReceiverState() == old(ReceiverState()) && nextSeq == old(nextSeq) && arrived == old(arrived)
      {
        var (start, end) := ranges[i];
        assert ranges[..i + 1][..i] == ranges[..i];
        var sackKeys := SortedKeys(Within(sentBuffer, start, end));
        RemoveAcknowledged(sackKeys, now);
      }
      assert ranges[..|ranges|] == ranges;
    }

    /** `get_retransmits`; the loss report to the congestion controller is not modelled. */
    method GetRetransmits(now: nat) returns (retransmits: seq<(nat, seq<u8>)>)
      ensures retransmits == Retransmits(SenderState(), now)
    {
      var rto := Rto(RttEstimate(srtt, rttvar));
      var keys := SortedKeys(sentBuffer.Keys);
      retransmits := [];
      for i := 0 to |keys|
        invariant retransmits == RetransmitsAmong(sentBuffer, keys[..i], now, rto)
      {
        var k := keys[i];
        assert keys[..i + 1][..i] == keys[..i];
        if k in sentBuffer && ShouldRetransmit(sentBuffer[k], now, rto) {
          retransmits := retransmits + [(k, sentBuffer[k].data)];
        }
      }
      assert keys[..|keys|] == keys;
    }

    /** `cleanup_expired`. */
    method CleanupExpired(now: nat)
      modifies this
      ensures SenderState() == Cleaned(old(SenderState()), now)
      ensures ReceiverState() == old(ReceiverState()) && nextSeq == old(nextSeq) && arrived == old(arrived)
    {
      var rto := Rto(RttEstimate(srtt, rttvar));
      sentBuffer := map k | k in sentBuffer && Kept(sentBuffer[k], now, rto) :: sentBuffer[k];
      inflightBytes := SumOfLengths(sentBuffer);
    }

    /**
     * `can_send`, with the congestion controller reduced to its window: while
     * the byte count is kept consistent, sending is allowed exactly while the
     * unacknowledged packets total fewer bytes than the window.
     */
    predicate CanSend(cwnd: nat)
      reads this
      ensures Consistent(SenderState()) ==> (CanSend(cwnd) <==> SumLens(sentBuffer) < cwnd)
    {
      inflightBytes < cwnd
    }

    /** `track_received_packet`. */
    method TrackReceivedPacket(sn: nat, streamId: u32, data: seq<u8>)
      requires Valid()
      modifies this
      ensures ReceiverState() == Received(old(ReceiverState()), sn, streamId, data)
      ensures arrived == old(arrived) + {sn} && Valid()
      ensures SenderState() == old(SenderState()) && nextSeq == old(nextSeq)
    {
      ReceivedValid(ReceiverState(), arrived, sn, streamId, data);
      arrived := arrived + {sn};
      if sn <= cumulativeAck && sn !in receivedBuffer {
        return;
      }
      if sn in receivedBuffer {
        return;
      }
      receivedBuffer := receivedBuffer[sn := ReceivedPacket(streamId, data)];
      AdvanceCumulativeAck();
      pendingAckCount := pendingAckCount + 1;
    }

    /** The `while` loop of `track_received_packet`. */
    method AdvanceCumulativeAck()
      modifies this
      ensures cumulativeAck == AdvanceAck(receivedBuffer.Keys, old(cumulativeAck))
      ensures receivedBuffer == old(receivedBuffer) && pendingAckCount == old(pendingAckCount)
      ensures lastAckTime == old(lastAckTime) && arrived == old(arrived)
      ensures SenderState() == old(SenderState()) && nextSeq == old(nextSeq)
    {
      while cumulativeAck + 1 in receivedBuffer
        invariant old(cumulativeAck) <= cumulativeAck
        invariant AdvanceAck(receivedBuffer.Keys, cumulativeAck) == AdvanceAck(receivedBuffer.Keys, old(cumulativeAck))
        invariant receivedBuffer == old(receivedBuffer) && pendingAckCount == old(pendingAckCount)
        invariant lastAckTime == old(lastAckTime) && arrived == old(arrived)
        invariant SenderState() == old(SenderState()) && nextSeq == old(nextSeq)
        decreases |Above(receivedBuffer.Keys, cumulativeAck)|
      {
        assert Above(receivedBuffer.Keys, cumulativeAck)
          == Above(receivedBuffer.Keys, cumulativeAck + 1) + {cumulativeAck + 1};
        cumulativeAck := cumulativeAck + 1;
      }
    }

    /** `pop_received_packets`. */
    method PopReceivedPackets() returns (packets: seq<(nat, u32, seq<u8>)>)
      requires Valid()
      modifies this
      ensures packets == Popped(old(ReceiverState()))
      ensures ReceiverState() == AfterPop(old(ReceiverState()))
      ensures SenderState() == old(SenderState()) && nextSeq == old(nextSeq) && arrived == old(arrived)
      ensures Valid()
    {
      AfterPopValid(ReceiverState(), arrived);
      packets, receivedBuffer := ReleaseInOrder(receivedBuffer, cumulativeAck);
    }

    /** `should_send_ack`. */
    predicate ShouldSendAck(batchSize: nat, batchTimeout: nat, now: nat)
      reads this
      ensures ShouldSendAck(batchSize, batchTimeout, now) ==> pendingAckCount > 0
      ensures pendingAckCount > 0 && pendingAckCount >= batchSize ==> ShouldSendAck(batchSize, batchTimeout, now)
      ensures pendingAckCount > 0 && Elapsed(now, lastAckTime) >= batchTimeout ==> ShouldSendAck(batchSize, batchTimeout, now)
      ensures pendingAckCount < batchSize && Elapsed(now, lastAckTime) < batchTimeout ==> !ShouldSendAck(batchSize, batchTimeout, now)
    {
      if pendingAckCount == 0 then false
      else if pendingAckCount >= batchSize then true
      else Elapsed(now, lastAckTime) >= batchTimeout
    }

    /** `has_pending_acks`. */
    predicate HasPendingAcks()
      reads this
      ensures HasPendingAcks() <==> pendingAckCount != 0
    {
      pendingAckCount > 0
    }

    /** `on_ack_sent`. */
    method OnAckSent(now: nat)
      requires Valid()
      modifies this
      ensures pendingAckCount == 0 && lastAckTime == now
      ensures cumulativeAck == old(cumulativeAck) && receivedBuffer == old(receivedBuffer)
      ensures SenderState() == old(SenderState()) && nextSeq == old(nextSeq) && arrived == old(arrived)
      ensures Valid() && !HasPendingAcks()
    {
      pendingAckCount := 0;
      lastAckTime := now;
    }

    /** `get_ack_info`: the cumulative acknowledgement and the SACK ranges above it. */
    method GetAckInfo() returns (ack: nat, ranges: seq<(nat, nat)>)
      ensures ack == cumulativeAck
      ensures SackRanges(receivedBuffer.Keys, ack, ranges)
    {
      ack := cumulativeAck;
      ranges := RunsAbove(receivedBuffer.Keys, ack);
    }
  }

  /**
   * The loop of `get_ack_info`: walk the buffered numbers upwards, skip
   * those up to `ack`, and close a range at every gap.
   */
  method RunsAbove(buffered: set<nat>, ack: nat) returns (ranges: seq<(nat, nat)>)
    ensures SackRanges(buffered, ack, ranges)
  {
    ranges := [];
    var start: nat := 0;
    var end: nat := 0;
    var keys := SortedKeys(buffered);
    for i := 0 to |keys|
      invariant RangesSound(buffered, ack, ranges)
      invariant start != 0 ==> ack < start <= end
      invariant start != 0 ==> i > 0
      invariant start != 0 ==> end == keys[i - 1]
      invariant start != 0 ==> forall s :: start <= s <= end ==> s in buffered
      invariant start != 0 && |ranges| > 0 ==> ranges[|ranges| - 1].1 + 1 < start
      invariant start == 0 ==> |ranges| == 0
      invariant forall j :: 0 <= j < i && keys[j] > ack ==> Covered(keys[j], ranges, start, end)
    {
      var sn := keys[i];
      assert sn in buffered by {
        AscendingElements(buffered);
      }
      if i > 0 {
        AscendingOrdered(buffered, i - 1, i);
      }
      if sn <= ack {
        continue;
      }
      if start == 0 {
        start := sn;
        end := sn;
      } else if sn == end + 1 {
        end := sn;
      } else {
        PushRange(buffered, ack, ranges, start, end);
        ranges := ranges + [(start, end)];
        start := sn;
        end := sn;
      }
    }
    if start != 0 {
      PushRange(buffered, ack, ranges, start, end);
      ranges := ranges + [(start, end)];
    }
    forall s | s in buffered && s > ack
      ensures InSomeRange(s, ranges)
    {
      assert s in keys by {
        AscendingElements(buffered);
      }
      var j :| 0 <= j < |keys| && keys[j] == s;
      assert Covered(keys[j], ranges, 0, 0);
    }
  }

  /**
   * The loop of `pop_received_packets`: walk the buffered numbers upwards,
   * releasing each one up to `c` and stopping at the first above it.
   */
  method ReleaseInOrder(buffer: map<nat, ReceivedPacket>, c: nat)
    returns (packets: seq<(nat, u32, seq<u8>)>, rest: map<nat, ReceivedPacket>)
    ensures packets == Popped(Receiver(c, buffer, 0, 0))
    ensures rest == (map k | k in buffer && k > c :: buffer[k])
  {
    var keys := SortedKeys(buffer.Keys);
    rest := buffer;
    packets := [];
    var i := 0;
    while i < |keys|
      invariant 0 <= i <= |keys|
      invariant forall j :: 0 <= j < i ==> keys[j] <= c
      invariant packets == Delivered(buffer, keys[..i])
      invariant rest == map k | k in buffer && k !in keys[..i] :: buffer[k]
    {
      var sn := keys[i];
      if sn <= c {
        PopStep(buffer, keys, i);
        if sn in rest {
          var p := rest[sn];
          rest := rest - {sn};
          packets := packets + [(sn, p.streamId, p.data)];
        }
      } else {
        break;
      }
      i := i + 1;
    }
    PopStops(buffer, keys, c, i);
  }

  /** The sum the source recomputes after `retain`. */
  method SumOfLengths(m: map<nat, SentPacket>) returns (total: nat)
    ensures total == SumLens(m)
  {
    total := 0;
    var rest := m;
    while rest.Keys != {}
      invariant total + SumLens(rest) == SumLens(m)
      decreases |rest.Keys|
    {
      var k :| k in rest;
      SumLensRemove(rest, k);
      total := total + |rest[k].data|;
      assert (rest - {k}).Keys == rest.Keys - {k};
      rest := rest - {k};
    }
  }

  /** One turn of the loop of `pop_received_packets` releases the next key, which is still buffered. */
  lemma PopStep(buffer: map<nat, ReceivedPacket>, keys: seq<nat>, i: nat)
    requires keys == Ascending(buffer.Keys) && i < |keys|
    ensures var before := map k | k in buffer && k !in keys[..i] :: buffer[k];
      keys[i] in before
      && before - {keys[i]} == (map k | k in buffer && k !in keys[..i + 1] :: buffer[k])
      && Delivered(buffer, keys[..i + 1])
         == Delivered(buffer, keys[..i]) + [(keys[i], buffer[keys[i]].streamId, buffer[keys[i]].data)]
  {
    assert keys[..i + 1][..i] == keys[..i];
    assert keys[..i + 1] == keys[..i] + [keys[i]];
    AscendingElements(buffer.Keys);
    forall j | 0 <= j < i
      ensures keys[j] != keys[i]
    {
      AscendingOrdered(buffer.Keys, j, i);
    }
  }

  /**
   * Where the loop of `pop_received_packets` stops, it has released what
   * `Popped` says and left what `AfterPop` says.
   */
  lemma PopStops(buffer: map<nat, ReceivedPacket>, keys: seq<nat>, c: nat, i: nat)
    requires keys == Ascending(buffer.Keys) && i <= |keys|
    requires forall j :: 0 <= j < i ==> keys[j] <= c
    requires i < |keys| ==> keys[i] > c
    ensures Delivered(buffer, keys[..i]) == Popped(Receiver(c, buffer, 0, 0))
    ensures (map k | k in buffer && k !in keys[..i] :: buffer[k]) == (map k | k in buffer && k > c :: buffer[k])
  {
    TakeUpToPrefix(keys, c, i);
    AscendingElements(buffer.Keys);
    forall k | k in buffer && k <= c
      ensures k in keys[..i]
    {
      var j :| 0 <= j < |keys| && keys[j] == k;
      if i < j {
        AscendingOrdered(buffer.Keys, i, j);
      }
      assert keys[..i][j] == k;
    }
  }

  /** The loop of `pop_received_packets` stops where `TakeUpTo` does. */
  lemma {:induction false} TakeUpToPrefix(ks: seq<nat>, c: nat, i: nat)
    requires i <= |ks| && (forall j :: 0 <= j < i ==> ks[j] <= c) && (i < |ks| ==> ks[i] > c)
    ensures TakeUpTo(ks, c) == ks[..i]
    decreases i
  {
    if i > 0 {
      TakeUpToPrefix(ks[1..], c, i - 1);
      assert ks[..i] == [ks[0]] + ks[1..][..i - 1];
    }
  }
}
