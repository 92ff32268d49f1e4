/**
 * Stateful header compression. The compressor remembers the last header it
 * sent; the next one is written as a flags byte followed only by the fields
 * that changed, with sequence, timestamp and nonce sent as wrapping deltas.
 * The decompressor keeps the same memory and undoes the encoding.
 */
module HeaderCompression {
  import opened Base
  import opened Delivery
  import Varint

  const FLAG_STREAM_ID_CHANGED: u8 := 0x01
  const FLAG_MSG_TYPE_PRESENT: u8 := 0x02
  const FLAG_SEQUENCE_DELTA: u8 := 0x04
  const FLAG_TIMESTAMP_DELTA: u8 := 0x08
  const FLAG_NONCE_DELTA: u8 := 0x10
  const FLAG_HAS_PIGGYBACKED_ACK: u8 := 0x20
  const FLAG_HAS_PAYLOAD_LEN: u8 := 0x40

  const EMPTY_INPUT: string := "Empty compressed data"
  /** Indexing past the end of the input panics in the source; here it is an error. */
  const OUT_OF_BOUNDS: string := "index out of bounds"

  /** The packet header; the connection id is a 64-bit value. */
  datatype Header = Header(
    streamId: u32,
    msgType: u8,
    flags: u8,
    sequence: u64,
    timestamp: u64,
    nonce: u64,
    deliveryMode: DeliveryMode,
    piggybackedAck: Option<u64>,
    payloadLen: Option<u32>,
    connectionId: Option<u64>)

  /** `flags & mask != 0` for one of the single-bit masks above. */
  predicate HasFlag(flags: u8, mask: u8)
    requires mask in {1, 2, 4, 8, 16, 32, 64}
  {
    (flags / mask) % 2 == 1
  }

  function Bits(set_: bool, mask: nat): nat {
    if set_ then mask else 0
  }

  /** The flags byte the compressor writes first. */
  function FlagsByte(streamChanged: bool, msgTypeChanged: bool, deltas: bool, hasAck: bool, hasLen: bool): u8
  {
    Bits(streamChanged, 1) + Bits(msgTypeChanged, 2) + Bits(deltas, 4 + 8 + 16)
      + Bits(hasAck, 32) + Bits(hasLen, 64)
  }

  /** Every flag the compressor sets reads back as set, and no other. */
  lemma FlagsReadBack(streamChanged: bool, msgTypeChanged: bool, deltas: bool, hasAck: bool, hasLen: bool)
    ensures var f := FlagsByte(streamChanged, msgTypeChanged, deltas, hasAck, hasLen);
      && HasFlag(f, FLAG_STREAM_ID_CHANGED) == streamChanged
      && HasFlag(f, FLAG_MSG_TYPE_PRESENT) == msgTypeChanged
      && HasFlag(f, FLAG_SEQUENCE_DELTA) == deltas
      && HasFlag(f, FLAG_TIMESTAMP_DELTA) == deltas
      && HasFlag(f, FLAG_NONCE_DELTA) == deltas
      && HasFlag(f, FLAG_HAS_PIGGYBACKED_ACK) == hasAck
      && HasFlag(f, FLAG_HAS_PAYLOAD_LEN) == hasLen
  {
  }

  predicate StreamIdChanged(last: Option<Header>, h: Header) {
    last.None? || last.value.streamId != h.streamId
  }

  predicate MsgTypeChanged(last: Option<Header>, h: Header) {
    last.None? || last.value.msgType != h.msgType
  }

  /** Sequence, timestamp and nonce: deltas against `last`, or full values. */
  function CounterBytes(last: Option<Header>, h: Header): seq<u8> {
    if last.Some? then
      Varint.Encode(WrappingSub64(h.sequence, last.value.sequence))
        + Varint.Encode(WrappingSub64(h.timestamp, last.value.timestamp))
        + Varint.Encode(WrappingSub64(h.nonce, last.value.nonce))
    else
      Varint.Encode(h.sequence) + Varint.Encode(h.timestamp) + Varint.Encode(h.nonce)
  }

  function ModeBytes(m: DeliveryMode): seq<u8> {
    match m
    case Reliable => [0]
    case PartiallyReliable(ttlMs) => [1] + Varint.Encode(ttlMs)
    case BestEffort => [2]
  }

  function OptionalBytes(o: Option<u64>): seq<u8> {
    if o.Some? then Varint.Encode(o.value) else []
  }

  function LenAsU64(o: Option<u32>): Option<u64> {
    if o.Some? then Some(o.value) else None
  }

  /** The flags byte, the stream id if it changed and the message type if it changed. */
  function HeadBytes(last: Option<Header>, h: Header): seq<u8> {
    var sidChanged := StreamIdChanged(last, h);
    var mtChanged := MsgTypeChanged(last, h);
    [FlagsByte(sidChanged, mtChanged, last.Some?, h.piggybackedAck.Some?, h.payloadLen.Some?)]
      + (if sidChanged then Varint.Encode(h.streamId) else [])
      + (if mtChanged then [h.msgType] else [])
  }

  /** Header flags, delivery mode, optional fields and, on a first packet, the connection id. */
  function TailBytes(last: Option<Header>, h: Header): seq<u8> {
    [h.flags]
      + ModeBytes(h.deliveryMode)
      + OptionalBytes(h.piggybackedAck)
      + OptionalBytes(LenAsU64(h.payloadLen))
      + (if last.None? then OptionalBytes(h.connectionId) else [])
  }

  /** The bytes `compress` produces for `h` when the last header sent was `last`. */
  function Compressed(last: Option<Header>, h: Header): seq<u8> {
    HeadBytes(last, h) + CounterBytes(last, h) + TailBytes(last, h)
  }


  /**
   * Reading works on the unread rest of the input, the slice
   * `compressed[pos..]` of the source; every reader returns what it read
   * together with the rest after it.
   */

  /** `decode_varint` on the rest. */
  function ReadVarint(s: seq<u8>): (r: Result<(u64, seq<u8>), string>)
    ensures r.Ok? ==> |r.value.1| < |s|
    ensures |s| == 0 ==> r == Err(Varint.INCOMPLETE)
  {
    var d :- Varint.Decode(s);
    Ok((d.0, s[d.1..]))
  }

  /** `compressed[pos]` followed by `pos += 1`; indexing past the end is an error. */
  function ReadByte(s: seq<u8>): (r: Result<(u8, seq<u8>), string>)
    ensures r.Ok? <==> |s| > 0
    ensures r.Ok? ==> r.value.0 == s[0] && r.value.1 == s[1..]
    ensures r.Err? ==> r.error == OUT_OF_BOUNDS
  {
    if |s| > 0 then Ok((s[0], s[1..])) else Err(OUT_OF_BOUNDS)
  }

  /** The stream id: a varint truncated to 32 bits if flagged, else the previous one (or 0). */
  function ReadStreamId(last: Option<Header>, flags: u8, s: seq<u8>): (r: Result<(u32, seq<u8>), string>)
    ensures !HasFlag(flags, FLAG_STREAM_ID_CHANGED) ==> r == Ok((if last.Some? then last.value.streamId else 0, s))
  {
    if HasFlag(flags, FLAG_STREAM_ID_CHANGED) then
      var d :- ReadVarint(s);
      Ok((d.0 % U32_LIMIT, d.1))
    else
      Ok((if last.Some? then last.value.streamId else 0, s))
  }

  /** The message type: the next byte if flagged, else the previous one (or 0). */
  function ReadMsgType(last: Option<Header>, flags: u8, s: seq<u8>): (r: Result<(u8, seq<u8>), string>)
    ensures !HasFlag(flags, FLAG_MSG_TYPE_PRESENT) ==> r == Ok((if last.Some? then last.value.msgType else 0, s))
    ensures HasFlag(flags, FLAG_MSG_TYPE_PRESENT) ==> r == ReadByte(s)
  {
    if HasFlag(flags, FLAG_MSG_TYPE_PRESENT) then ReadByte(s)
    else Ok((if last.Some? then last.value.msgType else 0, s))
  }

  /**
   * Sequence, timestamp and nonce: three varints, whatever the flags say,
   * added to `last` with wrap-around if there is a previous header.
   */
  function ReadCounters(last: Option<Header>, s: seq<u8>): (r: Result<(u64, u64, u64, seq<u8>), string>)
    ensures r.Ok? ==> |r.value.3| + 3 <= |s|
  {
    var sq :- ReadVarint(s);
    var ts :- ReadVarint(sq.1);
    var nc :- ReadVarint(ts.1);
    if last.Some? then
      Ok((WrappingAdd64(last.value.sequence, sq.0),
          WrappingAdd64(last.value.timestamp, ts.0),
          WrappingAdd64(last.value.nonce, nc.0), nc.1))
    else
      Ok((sq.0, ts.0, nc.0, nc.1))
  }

  /**
   * The delivery mode after its tag byte `tag`: 0 Reliable, 1 partially
   * reliable with a varint time to live truncated to 32 bits, 2 BestEffort,
   * and Reliable for any other tag.
   */
  function ReadMode(tag: u8, s: seq<u8>): (r: Result<(DeliveryMode, seq<u8>), string>)
    ensures tag != 1 ==> r.Ok? && r.value.1 == s
    ensures tag == 2 ==> r.value.0 == BestEffort
    ensures tag != 1 && tag != 2 ==> r.value.0 == Reliable
    ensures tag == 1 && r.Ok? ==> r.value.0.PartiallyReliable? && |r.value.1| < |s|
  {
    match tag
    case 0 => Ok((Reliable, s))
    case 1 =>
      var d :- ReadVarint(s);
      Ok((PartiallyReliable(d.0 % U32_LIMIT), d.1))
    case 2 => Ok((BestEffort, s))
    case _ => Ok((Reliable, s))
  }

  /** An optional field: a varint if its flag is set, else absent and nothing read. */
  function ReadOptional(present: bool, s: seq<u8>): (r: Result<(Option<u64>, seq<u8>), string>)
    ensures r.Ok? ==> (r.value.0.Some? <==> present)
    ensures !present ==> r == Ok((None, s))
  {
    if present then
      var d :- ReadVarint(s);
      Ok((Some(d.0), d.1))
    else
      Ok((None, s))
  }

  /** The connection id is read only on a first packet that still has bytes left. */
  function ReadConnectionId(last: Option<Header>, s: seq<u8>): (r: Result<Option<u64>, string>)
    ensures last.Some? ==> r == Ok(last.value.connectionId)
    ensures last.None? && |s| == 0 ==> r == Ok(None)
  {
    if last.None? && |s| > 0 then
      var d :- ReadVarint(s);
      Ok(Some(d.0))
    else
      Ok(if last.Some? then last.value.connectionId else None)
  }

  function LenAsU32(o: Option<u64>): Option<u32> {
    if o.Some? then Some(o.value % U32_LIMIT) else None
  }

  /** What `decompress` returns on `c` when the last header it produced was `last`. */
  function Decompressed(last: Option<Header>, c: seq<u8>): (r: Result<Header, string>)
    ensures |c| == 0 ==> r == Err(EMPTY_INPUT)
    ensures r.Ok? && !HasFlag(c[0], FLAG_STREAM_ID_CHANGED) && last.Some? ==> r.value.streamId == last.value.streamId
    ensures r.Ok? && !HasFlag(c[0], FLAG_MSG_TYPE_PRESENT) && last.Some? ==> r.value.msgType == last.value.msgType
    ensures r.Ok? ==> (r.value.piggybackedAck.Some? <==> HasFlag(c[0], FLAG_HAS_PIGGYBACKED_ACK))
    ensures r.Ok? ==> (r.value.payloadLen.Some? <==> HasFlag(c[0], FLAG_HAS_PAYLOAD_LEN))
    ensures r.Ok? && last.Some? ==> r.value.connectionId == last.value.connectionId
  {
    if |c| == 0 then Err(EMPTY_INPUT)
    else
      var flags := c[0];
      var sid :- ReadStreamId(last, flags, c[1..]);
      var mt :- ReadMsgType(last, flags, sid.1);
      var ctr :- ReadCounters(last, mt.1);
      var hf :- ReadByte(ctr.3);
      var tag :- ReadByte(hf.1);
      var mode :- ReadMode(tag.0, tag.1);
      var ack :- ReadOptional(HasFlag(flags, FLAG_HAS_PIGGYBACKED_ACK), mode.1);
      var len :- ReadOptional(HasFlag(flags, FLAG_HAS_PAYLOAD_LEN), ack.1);
      var cid :- ReadConnectionId(last, len.1);
      Ok(Header(sid.0, mt.0, hf.0, ctr.0, ctr.1, ctr.2, mode.0, ack.0, LenAsU32(len.0), cid))
  }

  /**
   * The decompressor's memory agrees with the compressor's, except that it
   * keeps the connection id of the first packet.
   */
  predicate Synced(sent: Option<Header>, seen: Option<Header>) {
    || (sent.None? && seen.None?)
    || (sent.Some? && seen.Some? && seen.value == sent.value.(connectionId := seen.value.connectionId))
  }

  /** The header a synced decompressor recovers from `h`. */
  function Restored(seen: Option<Header>, h: Header): Header {
    if seen.Some? then h.(connectionId := seen.value.connectionId) else h
  }

  lemma ReadVarintOf(x: u64, rest: seq<u8>)
    ensures ReadVarint(Varint.Encode(x) + rest) == Ok((x, rest))
  {
    Varint.RoundTrip(x, rest);
    DropAppend(Varint.Encode(x), rest);
  }

  lemma ReadOptionalOf(o: Option<u64>, rest: seq<u8>)
    ensures ReadOptional(o.Some?, OptionalBytes(o) + rest) == Ok((o, rest))
  {
    if o.Some? {
      ReadVarintOf(o.value, rest);
    } else {
      assert OptionalBytes(o) + rest == rest;
    }
  }

  /** The flags byte, stream id and message type read back. */
  lemma HeadRoundTrip(sent: Option<Header>, seen: Option<Header>, h: Header, rest: seq<u8>)
    requires Synced(sent, seen)
    ensures var c := HeadBytes(sent, h) + rest;
      var b := if MsgTypeChanged(sent, h) then [h.msgType] else [];
      && c[0] == FlagsByte(StreamIdChanged(sent, h), MsgTypeChanged(sent, h), sent.Some?,
                           h.piggybackedAck.Some?, h.payloadLen.Some?)
      && ReadStreamId(seen, c[0], c[1..]) == Ok((h.streamId, b + rest))
      && ReadMsgType(seen, c[0], b + rest) == Ok((h.msgType, rest))
  {
    var sidChanged, mtChanged := StreamIdChanged(sent, h), MsgTypeChanged(sent, h);
    var f := FlagsByte(sidChanged, mtChanged, sent.Some?, h.piggybackedAck.Some?, h.payloadLen.Some?);
    FlagsReadBack(sidChanged, mtChanged, sent.Some?, h.piggybackedAck.Some?, h.payloadLen.Some?);
    var a := if sidChanged then Varint.Encode(h.streamId) else [];
    var b := if mtChanged then [h.msgType] else [];
    AppendAssoc([f] + a, b, rest);
    AppendAssoc([f], a, b + rest);
    DropAppend([f], a + (b + rest));
    if sidChanged {
      ReadVarintOf(h.streamId, b + rest);
    } else {
      assert a + (b + rest) == b + rest;
    }
    if mtChanged {
      DropAppend([h.msgType], rest);
    } else {
      assert b + rest == rest;
    }
  }

  lemma ThreeVarints(s: u64, t: u64, n: u64, rest: seq<u8>)
    ensures var c := Varint.Encode(s) + Varint.Encode(t) + Varint.Encode(n) + rest;
      && ReadVarint(c) == Ok((s, Varint.Encode(t) + Varint.Encode(n) + rest))
      && ReadVarint(Varint.Encode(t) + Varint.Encode(n) + rest) == Ok((t, Varint.Encode(n) + rest))
      && ReadVarint(Varint.Encode(n) + rest) == Ok((n, rest))
  {
    var es, et, en := Varint.Encode(s), Varint.Encode(t), Varint.Encode(n);
    AppendAssoc(es + et, en, rest);
    AppendAssoc(es, et, en + rest);
    AppendAssoc(et, en, rest);
    ReadVarintOf(s, et + en + rest);
    ReadVarintOf(t, en + rest);
    ReadVarintOf(n, rest);
  }

  /** Deltas added back with wrap-around give the original counters. */
  lemma CountersRoundTrip(sent: Option<Header>, seen: Option<Header>, h: Header, rest: seq<u8>)
    requires Synced(sent, seen)
    ensures ReadCounters(seen, CounterBytes(sent, h) + rest) == Ok((h.sequence, h.timestamp, h.nonce, rest))
  {
    if sent.Some? {
      var l := sent.value;
      assert seen.value.sequence == l.sequence && seen.value.timestamp == l.timestamp && seen.value.nonce == l.nonce;
      ThreeVarints(WrappingSub64(h.sequence, l.sequence), WrappingSub64(h.timestamp, l.timestamp),
                   WrappingSub64(h.nonce, l.nonce), rest);
      WrappingInverse64(h.sequence, l.sequence);
      WrappingInverse64(h.timestamp, l.timestamp);
      WrappingInverse64(h.nonce, l.nonce);
    } else {
      ThreeVarints(h.sequence, h.timestamp, h.nonce, rest);
    }
  }

  /** The delivery mode reads back from its tag and time to live. */
  lemma ModeRoundTrip(m: DeliveryMode, rest: seq<u8>)
    ensures var c := ModeBytes(m) + rest;
      |c| > 0 && ReadMode(c[0], c[1..]) == Ok((m, rest))
  {
    match m {
      case PartiallyReliable(ttl) =>
        AppendAssoc([1], Varint.Encode(ttl), rest);
        DropAppend([1], Varint.Encode(ttl) + rest);
        ReadVarintOf(ttl, rest);
      case _ =>
        DropAppend(ModeBytes(m), rest);
    }
  }

  /** Header flags, delivery mode, optional fields and connection id read back. */
  lemma TailRoundTrip(sent: Option<Header>, seen: Option<Header>, h: Header)
    requires Synced(sent, seen)
    ensures
      var r3 := if sent.None? then OptionalBytes(h.connectionId) else [];
      var r2 := OptionalBytes(LenAsU64(h.payloadLen)) + r3;
      var r1 := OptionalBytes(h.piggybackedAck) + r2;
      var r0 := ModeBytes(h.deliveryMode) + r1;
      && ReadByte(TailBytes(sent, h)) == Ok((h.flags, r0))
      && |r0| > 0
      && ReadMode(r0[0], r0[1..]) == Ok((h.deliveryMode, r1))
      && ReadOptional(h.piggybackedAck.Some?, r1) == Ok((h.piggybackedAck, r2))
      && ReadOptional(h.payloadLen.Some?, r2) == Ok((LenAsU64(h.payloadLen), r3))
      && ReadConnectionId(seen, r3) == Ok(Restored(seen, h).connectionId)
  {
    var m := ModeBytes(h.deliveryMode);
    var o1 := OptionalBytes(h.piggybackedAck);
    var o2 := OptionalBytes(LenAsU64(h.payloadLen));
    var r3 := if sent.None? then OptionalBytes(h.connectionId) else [];
    var r2 := o2 + r3;
    var r1 := o1 + r2;
    var r0 := m + r1;
    AppendAssoc([h.flags] + m + o1, o2, r3);
    AppendAssoc([h.flags] + m, o1, r2);
    AppendAssoc([h.flags], m, r1);
    DropAppend([h.flags], r0);
    ModeRoundTrip(h.deliveryMode, r1);
    ReadOptionalOf(h.piggybackedAck, r2);
    ReadOptionalOf(LenAsU64(h.payloadLen), r3);
    if sent.None? && h.connectionId.Some? {
      ReadVarintOf(h.connectionId.value, []);
      assert Varint.Encode(h.connectionId.value) + [] == r3;
    }
  }

  lemma LenRoundTrip(o: Option<u32>)
    ensures LenAsU32(LenAsU64(o)) == o
  {
  }

  /** After a round trip both sides remember the same header, up to the connection id. */
  lemma RestoredSynced(sent: Option<Header>, seen: Option<Header>, h: Header)
    requires Synced(sent, seen)
    ensures Synced(Some(h), Some(Restored(seen, h)))
  {
  }

  /** `Decompressed` once every stage is known to succeed. */
  lemma DecompressedChain(last: Option<Header>, c: seq<u8>, sid: u32, mt: u8, sq: u64, ts: u64, nc: u64, hf: u8,
                          mode: DeliveryMode, ack: Option<u64>, len: Option<u64>, cid: Option<u64>,
                          s1: seq<u8>, s2: seq<u8>, s3: seq<u8>, s4: seq<u8>, s5: seq<u8>, s6: seq<u8>, s7: seq<u8>)
    requires |c| > 0
    requires ReadStreamId(last, c[0], c[1..]) == Ok((sid, s1))
    requires ReadMsgType(last, c[0], s1) == Ok((mt, s2))
    requires ReadCounters(last, s2) == Ok((sq, ts, nc, s3))
    requires ReadByte(s3) == Ok((hf, s4))
    requires |s4| > 0 && ReadMode(s4[0], s4[1..]) == Ok((mode, s5))
    requires ReadOptional(HasFlag(c[0], FLAG_HAS_PIGGYBACKED_ACK), s5) == Ok((ack, s6))
    requires ReadOptional(HasFlag(c[0], FLAG_HAS_PAYLOAD_LEN), s6) == Ok((len, s7))
    requires ReadConnectionId(last, s7) == Ok(cid)
    ensures Decompressed(last, c) == Ok(Header(sid, mt, hf, sq, ts, nc, mode, ack, LenAsU32(len), cid))
  {
  }

  /**
   * A synced decompressor recovers every field of a compressed header; only
   * the connection id stays the one it already knows. Afterwards both sides
   * are synced again.
   */
  lemma RoundTrip(sent: Option<Header>, seen: Option<Header>, h: Header)
    requires Synced(sent, seen)
    ensures Decompressed(seen, Compressed(sent, h)) == Ok(Restored(seen, h))
  {
    var ctr, tail := CounterBytes(sent, h), TailBytes(sent, h);
    AppendAssoc(HeadBytes(sent, h), ctr, tail);
    HeadRoundTrip(sent, seen, h, ctr + tail);
    FlagsReadBack(StreamIdChanged(sent, h), MsgTypeChanged(sent, h), sent.Some?,
                  h.piggybackedAck.Some?, h.payloadLen.Some?);
    CountersRoundTrip(sent, seen, h, tail);
    TailRoundTrip(sent, seen, h);
    var r3 := if sent.None? then OptionalBytes(h.connectionId) else [];
    var r2 := OptionalBytes(LenAsU64(h.payloadLen)) + r3;
    var r1 := OptionalBytes(h.piggybackedAck) + r2;
    var r0 := ModeBytes(h.deliveryMode) + r1;
    var b := if MsgTypeChanged(sent, h) then [h.msgType] else [];
    var c := HeadBytes(sent, h) + (ctr + tail);
    DecompressedChain(seen, c, h.streamId, h.msgType, h.sequence, h.timestamp, h.nonce, h.flags,
                      h.deliveryMode, h.piggybackedAck, LenAsU64(h.payloadLen), Restored(seen, h).connectionId,
                      b + (ctr + tail), ctr + tail, tail, r0, r1, r2, r3);
    LenRoundTrip(h.payloadLen);
  }

  /** The `flags |= FLAG_…` steps of `compress`; each sets a bit that is still clear, so it adds the mask. */
  method ComputeFlags(streamChanged: bool, msgTypeChanged: bool, deltas: bool, hasAck: bool, hasLen: bool)
    returns (flags: u8)
    ensures flags == FlagsByte(streamChanged, msgTypeChanged, deltas, hasAck, hasLen)
  {
    flags := 0;
    if streamChanged {
      flags := flags + FLAG_STREAM_ID_CHANGED;
    }
    if msgTypeChanged {
      flags := flags + FLAG_MSG_TYPE_PRESENT;
    }
    if deltas {
      flags := flags + FLAG_SEQUENCE_DELTA + FLAG_TIMESTAMP_DELTA + FLAG_NONCE_DELTA;
    }
    if hasAck {
      flags := flags + FLAG_HAS_PIGGYBACKED_ACK;
    }
    if hasLen {
      flags := flags + FLAG_HAS_PAYLOAD_LEN;
    }
  }

  /** Sequence, timestamp and nonce as `compress` appends them. */
  method EncodeCounters(last: Option<Header>, header: Header) returns (bytes: seq<u8>)
    ensures bytes == CounterBytes(last, header)
  {
    if last.Some? {
      var s := Varint.EncodeVarint(WrappingSub64(header.sequence, last.value.sequence));
      var t := Varint.EncodeVarint(WrappingSub64(header.timestamp, last.value.timestamp));
      var n := Varint.EncodeVarint(WrappingSub64(header.nonce, last.value.nonce));
      bytes := s + t + n;
    } else {
      var s := Varint.EncodeVarint(header.sequence);
      var t := Varint.EncodeVarint(header.timestamp);
      var n := Varint.EncodeVarint(header.nonce);
      bytes := s + t + n;
    }
  }

  /** The delivery-mode tag, followed by the time to live for a partially reliable mode. */
  method EncodeMode(mode: DeliveryMode) returns (bytes: seq<u8>)
    ensures bytes == ModeBytes(mode)
  {
    match mode {
      case Reliable =>
        bytes := [0];
      case PartiallyReliable(ttlMs) =>
        var e := Varint.EncodeVarint(ttlMs);
        bytes := [1] + e;
      case BestEffort =>
        bytes := [2];
    }
  }

  /** Everything `compress` appends after the counters. */
  method EncodeTail(last: Option<Header>, header: Header) returns (bytes: seq<u8>)
    ensures bytes == TailBytes(last, header)
  {
    bytes := [header.flags];
    var e := EncodeMode(header.deliveryMode);
    bytes := bytes + e;
    e := EncodeOptional(header.piggybackedAck);
    bytes := bytes + e;
    e := EncodeOptional(LenAsU64(header.payloadLen));
    bytes := bytes + e;
    if last.None? {
      e := EncodeOptional(header.connectionId);
      bytes := bytes + e;
    }
  }

  method EncodeOptional(o: Option<u64>) returns (bytes: seq<u8>)
    ensures bytes == OptionalBytes(o)
  {
    bytes := [];
    if o.Some? {
      bytes := Varint.EncodeVarint(o.value);
    }
  }


  /** A first packet flags both the stream id and the message type, and no deltas. */
  lemma FirstPacketFlags(h: Header)
    ensures var c := Compressed(None, h);
      && |c| > 0
      && HasFlag(c[0], FLAG_STREAM_ID_CHANGED) && HasFlag(c[0], FLAG_MSG_TYPE_PRESENT)
      && !HasFlag(c[0], FLAG_SEQUENCE_DELTA) && !HasFlag(c[0], FLAG_TIMESTAMP_DELTA) && !HasFlag(c[0], FLAG_NONCE_DELTA)
  {
    FlagsReadBack(true, true, false, h.piggybackedAck.Some?, h.payloadLen.Some?);
  }

  /** A fresh decompressor recovers a first packet exactly, connection id included. */
  lemma FirstPacketRoundTrip(h: Header)
    ensures Decompressed(None, Compressed(None, h)) == Ok(h)
  {
    RoundTrip(None, None, h);
  }

  /** The packets `compress` emits for `hs`, one call after another, starting from `last`. */
  function CompressAll(last: Option<Header>, hs: seq<Header>): (r: seq<seq<u8>>)
    ensures |r| == |hs|
    decreases |hs|
  {
    if |hs| == 0 then [] else [Compressed(last, hs[0])] + CompressAll(Some(hs[0]), hs[1..])
  }

  /** `decompress` applied to each packet in turn, stopping at the first error. */
  function DecompressAll(last: Option<Header>, cs: seq<seq<u8>>): Result<seq<Header>, string>
    decreases |cs|
  {
    if |cs| == 0 then Ok([])
    else
      var h :- Decompressed(last, cs[0]);
      var t :- DecompressAll(Some(h), cs[1..]);
      Ok([h] + t)
  }

  lemma DecompressAllStep(last: Option<Header>, c: seq<u8>, cs: seq<seq<u8>>, h: Header, t: seq<Header>)
    requires Decompressed(last, c) == Ok(h)
    requires DecompressAll(Some(h), cs) == Ok(t)
    ensures DecompressAll(last, [c] + cs) == Ok([h] + t)
  {
    assert ([c] + cs)[1..] == cs;
  }

  /** The connection id the decompressor ends up attributing to every header. */
  function FirstConnectionId(seen: Option<Header>, hs: seq<Header>): Option<u64> {
    if seen.Some? then seen.value.connectionId
    else if |hs| > 0 then hs[0].connectionId
    else None
  }

  function WithConnectionId(hs: seq<Header>, cid: Option<u64>): (r: seq<Header>)
    ensures |r| == |hs|
    ensures forall i :: 0 <= i < |hs| ==> r[i] == hs[i].(connectionId := cid)
  {
    if |hs| == 0 then [] else [hs[0].(connectionId := cid)] + WithConnectionId(hs[1..], cid)
  }

  /**
   * Headers compressed one after another and decompressed in the same order
   * by a synced decompressor come back with every field intact, except that
   * all carry the connection id of the first packet.
   */
  lemma {:induction false} StreamRoundTrip(sent: Option<Header>, seen: Option<Header>, hs: seq<Header>)
    requires Synced(sent, seen)
    ensures DecompressAll(seen, CompressAll(sent, hs)) == Ok(WithConnectionId(hs, FirstConnectionId(seen, hs)))
    decreases |hs|
  {
    if |hs| > 0 {
      var h0 := Restored(seen, hs[0]);
      var cid := FirstConnectionId(seen, hs);
      RestoredSynced(sent, seen, hs[0]);
      StreamRoundTrip(Some(hs[0]), Some(h0), hs[1..]);
      assert FirstConnectionId(Some(h0), hs[1..]) == cid;
      RoundTrip(sent, seen, hs[0]);
      DecompressAllStep(seen, Compressed(sent, hs[0]), CompressAll(Some(hs[0]), hs[1..]), h0,
                        WithConnectionId(hs[1..], cid));
      assert h0 == hs[0].(connectionId := cid);
    }
  }

  /** A compressor and a decompressor that both start fresh stay in step over any header sequence. */
  lemma FreshStreamRoundTrip(hs: seq<Header>)
    requires |hs| > 0
    ensures DecompressAll(None, CompressAll(None, hs)) == Ok(WithConnectionId(hs, hs[0].connectionId))
  {
    StreamRoundTrip(None, None, hs);
  }

  /** `decode_varint(&compressed[pos..])?` followed by `pos += consumed`. */
  method ReadVarintFrom(s: seq<u8>) returns (r: Result<(u64, seq<u8>), string>)
    ensures r == ReadVarint(s)
  {
    var d := Varint.DecodeVarint(s);
    if d.Err? {
      return Err(d.error);
    }
    r := Ok((d.value.0, s[d.value.1..]));
  }

  method ReadStreamIdFrom(last: Option<Header>, flags: u8, s: seq<u8>) returns (r: Result<(u32, seq<u8>), string>)
    ensures r == ReadStreamId(last, flags, s)
  {
    if HasFlag(flags, FLAG_STREAM_ID_CHANGED) {
      var d := ReadVarintFrom(s);
      if d.Err? {
        return Err(d.error);
      }
      r := Ok((d.value.0 % U32_LIMIT, d.value.1));
    } else {
      r := Ok((if last.Some? then last.value.streamId else 0, s));
    }
  }

  method ReadMsgTypeFrom(last: Option<Header>, flags: u8, s: seq<u8>) returns (r: Result<(u8, seq<u8>), string>)
    ensures r == ReadMsgType(last, flags, s)
  {
    if HasFlag(flags, FLAG_MSG_TYPE_PRESENT) {
      if |s| == 0 {
        return Err(OUT_OF_BOUNDS);
      }
      r := Ok((s[0], s[1..]));
    } else {
      r := Ok((if last.Some? then last.value.msgType else 0, s));
    }
  }

  method ReadCountersFrom(last: Option<Header>, s: seq<u8>) returns (r: Result<(u64, u64, u64, seq<u8>), string>)
    ensures r == ReadCounters(last, s)
  {
    var sq := ReadVarintFrom(s);
    if sq.Err? {
      return Err(sq.error);
    }
    var ts := ReadVarintFrom(sq.value.1);
    if ts.Err? {
      return Err(ts.error);
    }
    var nc := ReadVarintFrom(ts.value.1);
    if nc.Err? {
      return Err(nc.error);
    }
    if last.Some? {
      r := Ok((WrappingAdd64(last.value.sequence, sq.value.0),
               WrappingAdd64(last.value.timestamp, ts.value.0),
               WrappingAdd64(last.value.nonce, nc.value.0), nc.value.1));
    } else {
      r := Ok((sq.value.0, ts.value.0, nc.value.0, nc.value.1));
    }
  }

  method ReadModeFrom(tag: u8, s: seq<u8>) returns (r: Result<(DeliveryMode, seq<u8>), string>)
    ensures r == ReadMode(tag, s)
  {
    match tag {
      case 0 =>
        r := Ok((Reliable, s));
      case 1 =>
        var d := ReadVarintFrom(s);
        if d.Err? {
          return Err(d.error);
        }
        r := Ok((PartiallyReliable(d.value.0 % U32_LIMIT), d.value.1));
      case 2 =>
        r := Ok((BestEffort, s));
      case _ =>
        r := Ok((Reliable, s));
    }
  }

  method ReadOptionalFrom(present: bool, s: seq<u8>) returns (r: Result<(Option<u64>, seq<u8>), string>)
    ensures r == ReadOptional(present, s)
  {
    if present {
      var d := ReadVarintFrom(s);
      if d.Err? {
        return Err(d.error);
      }
      r := Ok((Some(d.value.0), d.value.1));
    } else {
      r := Ok((None, s));
    }
  }

  method ReadConnectionIdFrom(last: Option<Header>, s: seq<u8>) returns (r: Result<Option<u64>, string>)
    ensures r == ReadConnectionId(last, s)
  {
    if last.None? && |s| > 0 {
      var d := ReadVarintFrom(s);
      if d.Err? {
        return Err(d.error);
      }
      r := Ok(Some(d.value.0));
    } else {
      r := Ok(if last.Some? then last.value.connectionId else None);
    }
  }

  class HeaderCompressor {
    var lastHeader: Option<Header>

    constructor ()
      ensures lastHeader == None
    {
      lastHeader := None;
    }

    /** `compress`: append each field that changed, then remember `header`. */
    method Compress(header: Header) returns (compressed: seq<u8>)
      modifies this
      ensures compressed == Compressed(old(lastHeader), header)
      ensures lastHeader == Some(header)
    {
      var last := lastHeader;
      var streamIdChanged := last.None? || last.value.streamId != header.streamId;
      var msgTypeChanged := last.None? || last.value.msgType != header.msgType;
      var flags := ComputeFlags(streamIdChanged, msgTypeChanged, last.Some?,
                                header.piggybackedAck.Some?, header.payloadLen.Some?);
      compressed := [flags];
      if streamIdChanged {
        var e := Varint.EncodeVarint(header.streamId);
        compressed := compressed + e;
      }
      if msgTypeChanged {
        compressed := compressed + [header.msgType];
      }
      assert compressed == HeadBytes(last, header);
      var e := EncodeCounters(last, header);
      compressed := compressed + e;
      e := EncodeTail(last, header);
      compressed := compressed + e;
      lastHeader := Some(header);
    }

    /** `decompress`: read the fields the flags announce, then remember the result. */
    method Decompress(compressed: seq<u8>) returns (r: Result<Header, string>)
      modifies this
      ensures r == Decompressed(old(lastHeader), compressed)
      ensures r.Ok? ==> lastHeader == Some(r.value)
      ensures r.Err? ==> lastHeader == old(lastHeader)
    {
      var last := lastHeader;
      if |compressed| == 0 {
        return Err(EMPTY_INPUT);
      }
      var flags := compressed[0];
      var sid := ReadStreamIdFrom(last, flags, compressed[1..]);
      if sid.Err? {
        return Err(sid.error);
      }
      var mt := ReadMsgTypeFrom(last, flags, sid.value.1);
      if mt.Err? {
        return Err(mt.error);
      }
      var ctr := ReadCountersFrom(last, mt.value.1);
      if ctr.Err? {
        return Err(ctr.error);
      }
      var rest := ctr.value.3;
      if |rest| == 0 {
        return Err(OUT_OF_BOUNDS);
      }
      var headerFlags := rest[0];
      rest := rest[1..];
      if |rest| == 0 {
        return Err(OUT_OF_BOUNDS);
      }
      var modeByte := rest[0];
      rest := rest[1..];
      var mode := ReadModeFrom(modeByte, rest);
      if mode.Err? {
        return Err(mode.error);
      }
      var ack := ReadOptionalFrom(HasFlag(flags, FLAG_HAS_PIGGYBACKED_ACK), mode.value.1);
      if ack.Err? {
        return Err(ack.error);
      }
      var len := ReadOptionalFrom(HasFlag(flags, FLAG_HAS_PAYLOAD_LEN), ack.value.1);
      if len.Err? {
        return Err(len.error);
      }
      var cid := ReadConnectionIdFrom(last, len.value.1);
      if cid.Err? {
        return Err(cid.error);
      }
      var header := Header(sid.value.0, mt.value.0, headerFlags, ctr.value.0, ctr.value.1, ctr.value.2,
                           mode.value.0, ack.value.0, LenAsU32(len.value.0), cid.value);
      lastHeader := Some(header);
      r := Ok(header);
    }

    /** `reset`: forget the last header, so the next packet is sent in full. */
    method Reset()
      modifies this
      ensures lastHeader == None
    {
      lastHeader := None;
    }
  }
}
