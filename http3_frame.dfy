/**
 * HTTP/3 frames (section 7.1 of RFC 9114) and the QUIC variable-length
 * integers they are built from (section 16 of RFC 9000).
 *
 * A frame is one frame-type byte, the payload length as a QUIC varint, and
 * the payload. A QUIC varint announces its width in the two high bits of its
 * first byte: 0, 1, 2 and 3 select 1, 2, 4 and 8 bytes, and the remaining
 * bits hold the value big-endian.
 *
 * The decoder of the source mishandles the 8-byte form; `QuicDecodeAsWritten`
 * models it as written and `QuicDecode` the intended reading. The frame
 * decoder comes in both halves too: `DecodedAsWritten` and
 * `DecodeFrameAsWritten` read through the source's varint decoder, while
 * `Decoded` and `DecodeFrame` read through the intended one.
 */
module Http3Frame {
  import opened Base

  datatype FrameType = Data | Headers | CancelPush | Settings | PushPromise | Goaway | MaxPushId

  /** The discriminant of each frame type (`frame_type as u8`). */
  function Code(t: FrameType): (c: u8)
    ensures c < 64
  {
    match t
    case Data => 0x00
    case Headers => 0x01
    case CancelPush => 0x03
    case Settings => 0x04
    case PushPromise => 0x05
    case Goaway => 0x07
    case MaxPushId => 0x0D
  }

  /** `FrameType::from_u64`: the frame type with code `v`, if any. */
  function FromU64(v: u64): (r: Option<FrameType>)
    ensures r.Some? <==> v in {0x00, 0x01, 0x03, 0x04, 0x05, 0x07, 0x0D}
    ensures r.Some? ==> Code(r.value) == v
  {
    match v
    case 0x00 => Some(Data)
    case 0x01 => Some(Headers)
    case 0x03 => Some(CancelPush)
    case 0x04 => Some(Settings)
    case 0x05 => Some(PushPromise)
    case 0x07 => Some(Goaway)
    case 0x0D => Some(MaxPushId)
    case _ => None
  }

  /** Every frame type is read back from its own code. */
  lemma FromCode(t: FrameType)
    ensures FromU64(Code(t)) == Some(t)
  {
  }

  datatype Frame = Frame(frameType: FrameType, payload: seq<u8>)

  /** `Frame::data`, `Frame::headers` and `Frame::settings`. */
  function DataFrame(data: seq<u8>): (f: Frame)
    ensures f.frameType == Data && f.payload == data
  {
    Frame(Data, data)
  }

  function HeadersFrame(headers: seq<u8>): (f: Frame)
    ensures f.frameType == Headers && f.payload == headers
  {
    Frame(Headers, headers)
  }

  function SettingsFrame(): (f: Frame)
    ensures f.frameType == Settings && f.payload == []
  {
    Frame(Settings, [])
  }

  /** Every decoding failure is `Http3Error::InvalidFrame` with one of these messages. */
  datatype FrameError =
    | TooShort                   // "Too short"
    | NoDataForVarint            // "No data for varint"
    | IncompleteVarint           // "Incomplete varint"
    | UnknownFrameType(code: u64)  // "Unknown frame type: {code}"
    | IncompletePayload          // "Incomplete payload"

  // ---------------------------------------------------------------------
  // Big-endian byte strings
  // ---------------------------------------------------------------------

  /** The low `k` bytes of `x`, most significant first (`put_u16`/`put_u32`/`put_u64`). */
  function BigEndian(x: nat, k: nat): (r: seq<u8>)
    ensures |r| == k
  {
    if k == 0 then [] else BigEndian(x / 256, k - 1) + [x % 256]
  }

  /** Shifting `acc` left by a byte and or-ing in each byte of `s` in turn. */
  function Accumulate(acc: nat, s: seq<u8>): nat
    decreases |s|
  {
    if |s| == 0 then acc else Accumulate(acc * 256 + s[0], s[1..])
  }

  /** The value of a big-endian byte string. */
  function BigEndianValue(s: seq<u8>): nat {
    Accumulate(0, s)
  }

  lemma {:induction false} AccumulateSplit(acc: nat, s: seq<u8>)
    ensures Accumulate(acc, s) == acc * Pow2(8 * |s|) + BigEndianValue(s)
    decreases |s|
  {
    if |s| > 0 {
      var t := s[1..];
      var p := Pow2(8 * |t|);
      AccumulateSplit(acc * 256 + s[0], t);
      AccumulateSplit(s[0], t);
      Pow2Byte(8 * |t|);
      assert 8 * |s| == 8 * |t| + 8;
      assert (acc * 256 + s[0]) * p == acc * (256 * p) + s[0] * p;
    }
  }

  lemma {:induction false} AccumulateSnoc(acc: nat, s: seq<u8>, b: u8)
    ensures Accumulate(acc, s + [b]) == Accumulate(acc, s) * 256 + b
    decreases |s|
  {
    if |s| > 0 {
      assert (s + [b])[1..] == s[1..] + [b];
      AccumulateSnoc(acc * 256 + s[0], s[1..], b);
    }
  }

  lemma {:induction false} BigEndianBound(s: seq<u8>)
    ensures BigEndianValue(s) < Pow2(8 * |s|)
    decreases |s|
  {
    if |s| > 0 {
      var t := s[1..];
      var p := Pow2(8 * |t|);
      var b: nat := s[0];
      assert BigEndianValue(s) == Accumulate(b, t);
      BigEndianBound(t);
      AccumulateSplit(b, t);
      assert BigEndianValue(s) < (b + 1) * p;
      MulMonotone(b + 1, 256, p);
      WidthStep(|s|);
    }
  }

  /** Splitting off the last byte of a number written in base 256. */
  lemma MixedRadix(x: nat, m: nat)
    requires m > 0
    ensures ((x / 256) % m) * 256 + x % 256 == x % (256 * m)
  {
    var q := x / 256;
    var r := x % 256;
    var a := q / m;
    var b := q % m;
    assert x == 256 * q + r;
    assert q == a * m + b;
    assert x == a * (256 * m) + (256 * b + r);
    MulMonotone(b + 1, m, 256);
    ModOfMultiplePlus(a, 256 * m, 256 * b + r);
  }

  /** `BigEndian` writes the value of `x` modulo the width. */
  lemma {:induction false} BigEndianOf(x: nat, k: nat)
    ensures BigEndianValue(BigEndian(x, k)) == x % Pow2(8 * k)
  {
    if k > 0 {
      var m := Pow2(8 * (k - 1));
      BigEndianOf(x / 256, k - 1);
      AccumulateSnoc(0, BigEndian(x / 256, k - 1), x % 256);
      Pow2Byte(8 * (k - 1));
      assert 8 * k == 8 * (k - 1) + 8;
      MixedRadix(x, m);
    }
  }

  /** The first of `k` big-endian bytes is the quotient by the weight of the others. */
  lemma BigEndianHead(x: nat, k: nat)
    requires k >= 1 && x < Pow2(8 * k)
    ensures var s := BigEndian(x, k);
      s[0] == x / Pow2(8 * (k - 1)) && BigEndianValue(s[1..]) == x % Pow2(8 * (k - 1))
  {
    var m := Pow2(8 * (k - 1));
    var s := BigEndian(x, k);
    var t := s[1..];
    BigEndianOf(x, k);
    ModOfMultiplePlus(0, Pow2(8 * k), x);
    assert BigEndianValue(s) == Accumulate(s[0], t);
    AccumulateSplit(s[0], t);
    BigEndianBound(t);
    ModOfMultiplePlus(s[0], m, BigEndianValue(t));
  }

  lemma WidthStep(k: nat)
    requires k >= 1
    ensures Pow2(8 * k) == 256 * Pow2(8 * (k - 1))
  {
    Pow2Byte(8 * (k - 1));
    assert 8 * k == 8 * (k - 1) + 8;
  }

  /**
   * A varint of `k` bytes carries `tag` in the two high bits of its first
   * byte, the value's high six bits `hi` in the rest of that byte and its
   * low bits `lo` in the bytes after it.
   */
  lemma PrefixedLayout(hi: nat, lo: nat, tag: nat, k: nat)
    requires k >= 1 && tag < 4 && hi < 64 && lo < Pow2(8 * (k - 1))
    ensures var s := BigEndian((hi + 64 * tag) * Pow2(8 * (k - 1)) + lo, k);
      s[0] == hi + 64 * tag && BigEndianValue(s[1..]) == lo
  {
    var m := Pow2(8 * (k - 1));
    var first := hi + 64 * tag;
    assert first * m + lo < 256 * m by {
      MulMonotone(first + 1, 256, m);
    }
    WidthStep(k);
    ModOfMultiplePlus(first, m, lo);
    BigEndianHead(first * m + lo, k);
  }

  // ---------------------------------------------------------------------
  // QUIC variable-length integers
  // ---------------------------------------------------------------------

  const TWO_30: nat := 0x4000_0000
  const TWO_56: nat := 0x100_0000_0000_0000
  const TWO_62: nat := 0x4000_0000_0000_0000

  /**
   * `encode_varint`: 1, 2, 4 or 8 bytes for values below 64, 16384, 2^30
   * and beyond. Or-ing the tag into the 8-byte form overwrites bits 62 and
   * 63, so only the low 62 bits of a larger value are written.
   */
  function QuicEncode(v: u64): (r: seq<u8>)
    ensures |r| == (if v < 64 then 1 else if v < 0x4000 then 2 else if v < TWO_30 then 4 else 8)
  {
    if v < 64 then [v]
    else if v < 0x4000 then BigEndian(v + 0x4000, 2)
    else if v < TWO_30 then BigEndian(v + 0x8000_0000, 4)
    else BigEndian(v % TWO_62 + 0xC000_0000_0000_0000, 8)
  }

  /** `(val << 8) | b` on u64: the top byte of `val` is shifted out. */
  function ShiftInWrapping(val: nat, b: u8): (r: u64) {
    (val % TWO_56) * 256 + b
  }

  /** The 8-byte loop of the source, with its u64 shifts. */
  function AccumulateWrapping(acc: nat, s: seq<u8>): nat
    decreases |s|
  {
    if |s| == 0 then acc else AccumulateWrapping(ShiftInWrapping(acc, s[0]), s[1..])
  }

  lemma AccumulateWrappingBound(acc: nat, s: seq<u8>)
    requires |s| > 0
    ensures AccumulateWrapping(acc, s) < U64_LIMIT
    decreases |s|
  {
    if |s| > 1 {
      AccumulateWrappingBound(ShiftInWrapping(acc, s[0]), s[1..]);
    }
  }

  /** While nothing reaches the top byte, the wrapping loop is exact. */
  lemma {:induction false} AccumulateWrappingExact(acc: nat, s: seq<u8>)
    requires |s| <= 7 && acc < Pow2(64 - 8 * (|s| + 1))
    ensures AccumulateWrapping(acc, s) == Accumulate(acc, s)
    decreases |s|
  {
    if |s| > 0 {
      Pow2Monotone(64 - 8 * (|s| + 1), 56);
      Pow2Values();
      ModOfMultiplePlus(0, TWO_56, acc);
      Pow2Byte(64 - 8 * (|s| + 1));
      assert 64 - 8 * |s| == 64 - 8 * (|s| + 1) + 8;
      AccumulateWrappingExact(acc * 256 + s[0], s[1..]);
    }
  }

  lemma Accumulate3(a: nat, s: seq<u8>)
    requires |s| == 3
    ensures Accumulate(a, s) == a * 0x100_0000 + s[0] as nat * 0x1_0000 + s[1] as nat * 0x100 + s[2]
  {
    var t1 := s[1..];
    var t2 := t1[1..];
    assert Accumulate(a, s) == Accumulate(a * 256 + s[0], t1);
    assert Accumulate(a * 256 + s[0], t1) == Accumulate((a * 256 + s[0]) * 256 + s[1], t2);
    assert t2 == [s[2]];
  }

  /**
   * `decode_varint` as written: the first byte's six bits are pre-shifted
   * by 56 before the 8-byte loop shifts seven more bytes in, so they leave
   * the u64 and only the last seven bytes survive.
   */
  function QuicDecodeAsWritten(s: seq<u8>): (r: Result<(u64, seq<u8>), FrameError>)
    ensures |s| == 0 ==> r == Err(NoDataForVarint)
    ensures r.Ok? ==> |r.value.1| < |s|
  {
    if |s| < 1 then Err(NoDataForVarint)
    else
      var first: nat := s[0];
      var prefix := first / 64;
      if prefix == 0 then Ok((first, s[1..]))
      else if prefix == 1 then
        if |s| - 1 < 1 then Err(IncompleteVarint)
        else Ok(((first % 64) * 0x100 + s[1], s[2..]))
      else if prefix == 2 then
        if |s| - 1 < 3 then Err(IncompleteVarint)
        else Ok(((first % 64) * 0x100_0000 + s[1] as nat * 0x1_0000 + s[2] as nat * 0x100 + s[3], s[4..]))
      else
        if |s| - 1 < 7 then Err(IncompleteVarint)
        else
          AccumulateWrappingBound((first % 64) * TWO_56, s[1..8]);
          Ok((AccumulateWrapping((first % 64) * TWO_56, s[1..8]), s[8..]))
  }

  /**
   * `decode_varint` as section 16 of RFC 9000 reads it: the six low bits of
   * the first byte followed by the remaining bytes, big-endian.
   */
  function QuicDecode(s: seq<u8>): (r: Result<(u64, seq<u8>), FrameError>)
    ensures |s| == 0 ==> r == Err(NoDataForVarint)
    ensures r.Ok? ==> |r.value.1| < |s|
    ensures r.Ok? ==> r.value.0 < TWO_62
  {
    if |s| < 1 then Err(NoDataForVarint)
    else
      var first: nat := s[0];
      var prefix := first / 64;
      if prefix == 0 then Ok((first, s[1..]))
      else if prefix == 1 then
        if |s| - 1 < 1 then Err(IncompleteVarint)
        else Ok(((first % 64) * 0x100 + s[1], s[2..]))
      else if prefix == 2 then
        if |s| - 1 < 3 then Err(IncompleteVarint)
        else Ok(((first % 64) * 0x100_0000 + s[1] as nat * 0x1_0000 + s[2] as nat * 0x100 + s[3], s[4..]))
      else
        if |s| - 1 < 7 then Err(IncompleteVarint)
        else
          LongFormBound(first, s[1..8]);
          Ok((Accumulate(first % 64, s[1..8]), s[8..]))
  }

  lemma LongFormBound(first: u8, t: seq<u8>)
    requires |t| == 7
    ensures Accumulate(first % 64, t) < TWO_62
  {
    AccumulateSplit(first % 64, t);
    BigEndianBound(t);
    Pow2Values();
    Pow2Add(56, 6);
    MulMonotone(first % 64 + 1, 64, TWO_56);
  }

  /** The width a varint announces in its first byte. */
  function AnnouncedLength(first: u8): nat {
    if first / 64 == 0 then 1 else if first / 64 == 1 then 2 else if first / 64 == 2 then 4 else 8
  }

  /** Truncated input is "Incomplete varint" in both readings. */
  lemma DecodeIncomplete(s: seq<u8>)
    requires 0 < |s| < AnnouncedLength(s[0])
    ensures QuicDecode(s) == Err(IncompleteVarint)
    ensures QuicDecodeAsWritten(s) == Err(IncompleteVarint)
  {
  }

  /** Both readings consume exactly the announced width. */
  lemma DecodeConsumesAnnounced(s: seq<u8>)
    requires |s| >= 1 && |s| >= AnnouncedLength(s[0])
    ensures QuicDecode(s).Ok? && QuicDecode(s).value.1 == s[AnnouncedLength(s[0])..]
    ensures QuicDecodeAsWritten(s).Ok? && QuicDecodeAsWritten(s).value.1 == s[AnnouncedLength(s[0])..]
  {
  }

  /** Reading a varint laid out by `PrefixedLayout` in front of `rest`. */
  lemma PrefixedDecode(hi: nat, lo: nat, tag: nat, k: nat, rest: seq<u8>)
    requires k >= 1 && tag < 4 && hi < 64 && lo < Pow2(8 * (k - 1))
    ensures var s := BigEndian((hi + 64 * tag) * Pow2(8 * (k - 1)) + lo, k) + rest;
      s[0] / 64 == tag && s[0] % 64 == hi
      && BigEndianValue(s[1..k]) == lo && Accumulate(hi, s[1..k]) == hi * Pow2(8 * (k - 1)) + lo
      && s[k..] == rest
  {
    var e := BigEndian((hi + 64 * tag) * Pow2(8 * (k - 1)) + lo, k);
    PrefixedLayout(hi, lo, tag, k);
    ModOfMultiplePlus(tag, 64, hi);
    assert (e + rest)[1..k] == e[1..];
    AccumulateSplit(hi, e[1..]);
    DropAppend(e, rest);
  }

  /** One byte holds values below 64, and both readings return them. */
  lemma OneByteRoundTrip(v: u64, rest: seq<u8>)
    requires v < 64
    ensures QuicDecode(QuicEncode(v) + rest) == Ok((v, rest))
    ensures QuicDecodeAsWritten(QuicEncode(v) + rest) == Ok((v, rest))
  {
    assert (QuicEncode(v) + rest)[1..] == rest;
  }

  /** Two bytes hold values below 2^14, and both readings return them. */
  lemma TwoByteRoundTrip(v: u64, rest: seq<u8>)
    requires 64 <= v < 0x4000
    ensures QuicDecode(QuicEncode(v) + rest) == Ok((v, rest))
    ensures QuicDecodeAsWritten(QuicEncode(v) + rest) == Ok((v, rest))
  {
    Pow2Byte(0);
    var hi, lo := v / 256, v % 256;
    assert (hi + 64 * 1) * Pow2(8 * (2 - 1)) + lo == v + 0x4000;
    PrefixedDecode(hi, lo, 1, 2, rest);
    var s := QuicEncode(v) + rest;
    assert s[1..2] == [s[1]];
  }

  /** Four bytes hold values below 2^30, and both readings return them. */
  lemma FourByteRoundTrip(v: u64, rest: seq<u8>)
    requires 0x4000 <= v < TWO_30
    ensures QuicDecode(QuicEncode(v) + rest) == Ok((v, rest))
    ensures QuicDecodeAsWritten(QuicEncode(v) + rest) == Ok((v, rest))
  {
    Pow2Values();
    var hi, lo := v / 0x100_0000, v % 0x100_0000;
    assert (hi + 64 * 2) * Pow2(8 * (4 - 1)) + lo == v + 0x8000_0000;
    PrefixedDecode(hi, lo, 2, 4, rest);
    var s := QuicEncode(v) + rest;
    Accumulate3(hi, s[1..4]);
  }

  /** Eight bytes hold the low 62 bits of larger values. */
  lemma EightByteLayout(v: u64, rest: seq<u8>)
    requires TWO_30 <= v
    ensures var s := QuicEncode(v) + rest;
      s[0] / 64 == 3 && s[8..] == rest
      && Accumulate(s[0] % 64, s[1..8]) == v % TWO_62
      && BigEndianValue(s[1..8]) == v % TWO_56
  {
    Pow2Values();
    var w := v % TWO_62;
    var hi, lo := w / TWO_56, w % TWO_56;
    assert (hi + 64 * 3) * Pow2(8 * (8 - 1)) + lo == w + 0xC000_0000_0000_0000;
    PrefixedDecode(hi, lo, 3, 8, rest);
    var q := v / TWO_62;
    assert v == (q * 64 + hi) * TWO_56 + lo;
    ModOfMultiplePlus(q * 64 + hi, TWO_56, lo);
  }

  /** The intended reading inverts `encode_varint` on the low 62 bits. */
  lemma QuicRoundTrip(v: u64, rest: seq<u8>)
    ensures QuicDecode(QuicEncode(v) + rest) == Ok((v % TWO_62, rest))
  {
    if v < 64 {
      OneByteRoundTrip(v, rest);
    } else if v < 0x4000 {
      TwoByteRoundTrip(v, rest);
    } else if v < TWO_30 {
      FourByteRoundTrip(v, rest);
    } else {
      EightByteLayout(v, rest);
    }
  }

  /** Every value the format can carry, below 2^62, round-trips. */
  lemma QuicRoundTripBelow62(v: u64, rest: seq<u8>)
    requires v < TWO_62
    ensures QuicDecode(QuicEncode(v) + rest) == Ok((v, rest))
  {
    QuicRoundTrip(v, rest);
  }

  /** The source's reading recovers only the low 56 bits of what was written. */
  lemma AsWrittenRoundTrip(v: u64, rest: seq<u8>)
    ensures QuicDecodeAsWritten(QuicEncode(v) + rest) == Ok((v % TWO_56, rest))
  {
    if v < 64 {
      OneByteRoundTrip(v, rest);
    } else if v < 0x4000 {
      TwoByteRoundTrip(v, rest);
    } else if v < TWO_30 {
      FourByteRoundTrip(v, rest);
    } else {
      var s := QuicEncode(v) + rest;
      var t := s[1..8];
      EightByteLayout(v, rest);
      AsWrittenDropsFirstByte(s[0] % 64, t);
    }
  }

  /** The 8-byte loop of the source ends with the value of the last seven bytes alone. */
  lemma AsWrittenDropsFirstByte(hi: nat, t: seq<u8>)
    requires |t| == 7
    ensures AccumulateWrapping(hi * TWO_56, t) == BigEndianValue(t)
  {
    Pow2Values();
    ModOfMultiplePlus(hi, TWO_56, 0);
    assert AccumulateWrapping(hi * TWO_56, t) == AccumulateWrapping(t[0], t[1..]);
    AccumulateWrappingExact(t[0], t[1..]);
  }

  /** Values below 2^56 still survive the source's reading. */
  lemma AsWrittenRoundTripBelow56(v: u64, rest: seq<u8>)
    requires v < TWO_56
    ensures QuicDecodeAsWritten(QuicEncode(v) + rest) == Ok((v, rest))
  {
    AsWrittenRoundTrip(v, rest);
    ModOfMultiplePlus(0, TWO_56, v);
  }

  /** 2^56 is written as eight bytes but read back by the source as 0. */
  lemma AsWrittenLosesTwo56()
    ensures QuicDecode(QuicEncode(TWO_56)) == Ok((TWO_56 as u64, []))
    ensures QuicDecodeAsWritten(QuicEncode(TWO_56)) == Ok((0, []))
  {
    QuicRoundTripBelow62(TWO_56, []);
    AsWrittenRoundTrip(TWO_56, []);
    assert QuicEncode(TWO_56) + [] == QuicEncode(TWO_56);
    ModOfMultiplePlus(1, TWO_56, 0);
  }

  // ---------------------------------------------------------------------
  // Frames
  // ---------------------------------------------------------------------

  /** `Frame::encode`: type byte, payload length as a varint, payload. */
  function Encoded(f: Frame): (r: seq<u8>)
    requires |f.payload| < U64_LIMIT
    ensures |r| >= 2 + |f.payload| && r[0] == Code(f.frameType)
  {
    [Code(f.frameType)] + QuicEncode(|f.payload|) + f.payload
  }

  /** The frame type behind the varint `v`, or the error naming it. */
  function TypeOf(v: u64): (r: Result<FrameType, FrameError>)
    ensures r.Ok? <==> FromU64(v).Some?
    ensures r.Err? ==> r.error == UnknownFrameType(v)
  {
    match FromU64(v)
    case Some(t) => Ok(t)
    case None => Err(UnknownFrameType(v))
  }

  /**
   * `Frame::decode`: rejects input under two bytes, reads the type and the
   * length, and takes that many payload bytes; bytes after the payload are
   * ignored.
   */
  function Decoded(data: seq<u8>): (r: Result<Frame, FrameError>)
    ensures |data| < 2 ==> r == Err(TooShort)
    ensures r.Ok? ==> |r.value.payload| + 2 <= |data|
  {
    if |data| < 2 then Err(TooShort)
    else
      var (typeCode, afterType) :- QuicDecode(data);
      var frameType :- TypeOf(typeCode);
      var (length, afterLength) :- QuicDecode(afterType);
      if |afterLength| < length then Err(IncompletePayload)
      else Ok(Frame(frameType, afterLength[..length]))
  }

  /** The checks of `Frame::decode`, in the order it makes them. */
  lemma DecodedErrors(data: seq<u8>)
    requires |data| >= 2
    ensures QuicDecode(data).Ok? && FromU64(QuicDecode(data).value.0).None? ==>
      Decoded(data) == Err(UnknownFrameType(QuicDecode(data).value.0))
    ensures (QuicDecode(data).Ok? && FromU64(QuicDecode(data).value.0).Some?
      && QuicDecode(QuicDecode(data).value.1).Ok?
      && |QuicDecode(QuicDecode(data).value.1).value.1| < QuicDecode(QuicDecode(data).value.1).value.0) ==>
      Decoded(data) == Err(IncompletePayload)
    ensures Decoded(data).Ok? ==> QuicDecode(data).Ok? && FromU64(QuicDecode(data).value.0) == Some(Decoded(data).value.frameType)
  {
  }

  /** `Frame::decode(frame.encode())` gives the frame back, whatever follows it. */
  lemma FrameRoundTrip(f: Frame, rest: seq<u8>)
    requires |f.payload| < TWO_62
    ensures Decoded(Encoded(f) + rest) == Ok(f)
  {
    var code := Code(f.frameType);
    var n := |f.payload|;
    var data := Encoded(f) + rest;
    var tail := QuicEncode(n) + (f.payload + rest);
    assert data == [code] + tail;
    assert QuicDecode(data) == Ok((code, tail));
    FromCode(f.frameType);
    QuicRoundTripBelow62(n, f.payload + rest);
    assert (f.payload + rest)[..n] == f.payload;
  }

  /** The frame of the source's own test: a DATA frame carrying "Hello HTTP/3". */
  lemma HelloFrameRoundTrip(payload: seq<u8>)
    requires |payload| == 12
    ensures Decoded(Encoded(DataFrame(payload))) == Ok(Frame(Data, payload))
  {
    FrameRoundTrip(DataFrame(payload), []);
    assert Encoded(DataFrame(payload)) + [] == Encoded(DataFrame(payload));
  }

  /**
   * `Frame::decode` exactly as the source writes it: the same checks as
   * `Decoded`, with both varints read by the source's own decoder.
   */
  function DecodedAsWritten(data: seq<u8>): (r: Result<Frame, FrameError>)
    ensures |data| < 2 ==> r == Err(TooShort)
    ensures r.Ok? ==> |r.value.payload| + 2 <= |data|
  {
    if |data| < 2 then Err(TooShort)
    else
      var (typeCode, afterType) :- QuicDecodeAsWritten(data);
      var frameType :- TypeOf(typeCode);
      var (length, afterLength) :- QuicDecodeAsWritten(afterType);
      if |afterLength| < length then Err(IncompletePayload)
      else Ok(Frame(frameType, afterLength[..length]))
  }

  /** The source's `Frame::decode(frame.encode())` gives the frame back while its payload is below 2^56 bytes. */
  lemma {:induction false} FrameRoundTripAsWritten(f: Frame, rest: seq<u8>)
    requires |f.payload| < TWO_56
    ensures DecodedAsWritten(Encoded(f) + rest) == Ok(f)
  {
    var code := Code(f.frameType);
    var n := |f.payload|;
    var data := Encoded(f) + rest;
    var tail := QuicEncode(n) + (f.payload + rest);
    assert data == [code] + tail;
    assert QuicDecodeAsWritten(data) == Ok((code, tail));
    FromCode(f.frameType);
    AsWrittenRoundTripBelow56(n, f.payload + rest);
    assert (f.payload + rest)[..n] == f.payload;
  }

  /**
   * A nine-byte input on which the two readings part: the type varint
   * announces 2^56, which the source reads as 0 (DATA) and the intended
   * reading rejects as an unknown frame type.
   */
  lemma AsWrittenFrameMisread()
    ensures DecodedAsWritten([0xC1, 0, 0, 0, 0, 0, 0, 0, 0]) == Ok(Frame(Data, []))
    ensures Decoded([0xC1, 0, 0, 0, 0, 0, 0, 0, 0]) == Err(UnknownFrameType(TWO_56 as u64))
  {
    var data: seq<u8> := [0xC1, 0, 0, 0, 0, 0, 0, 0, 0];
    var t := data[1..8];
    assert t == [0, 0, 0, 0, 0, 0, 0];
    AsWrittenDropsFirstByte(1, t);
    AccumulateWrappingExact(0, t);
    assert QuicDecodeAsWritten(data) == Ok((0, [0]));
    assert QuicDecodeAsWritten([0]) == Ok((0, []));
    AccumulateSplit(1, t);
    assert QuicDecode(data) == Ok((TWO_56 as u64, [0]));
  }

  // ---------------------------------------------------------------------
  // The buffers the source writes to and reads from
  // ---------------------------------------------------------------------

  /** A growing `BytesMut`. */
  class WriteBuffer {
    var bytes: seq<u8>

    constructor ()
      ensures bytes == []
    {
      bytes := [];
    }

    method PutU8(b: u8)
      modifies this
      ensures bytes == old(bytes) + [b]
    {
      bytes := bytes + [b];
    }

    /** `put_u16`, `put_u32`, `put_u64`: `k` bytes, big-endian. */
    method PutBigEndian(x: nat, k: nat)
      modifies this
      ensures bytes == old(bytes) + BigEndian(x, k)
    {
      bytes := bytes + BigEndian(x, k);
    }

    method Put(data: seq<u8>)
      modifies this
      ensures bytes == old(bytes) + data
    {
      bytes := bytes + data;
    }

    /** `Frame::encode_varint`. */
    method EncodeVarint(value: u64)
      modifies this
      ensures bytes == old(bytes) + QuicEncode(value)
    {
      if value < 64 {
        PutU8(value);
      } else if value < 16384 {
        PutBigEndian(value + 0x4000, 2);
      } else if value < 1073741824 {
        PutBigEndian(value + 0x8000_0000, 4);
      } else {
        PutBigEndian(value % TWO_62 + 0xC000_0000_0000_0000, 8);
      }
    }
  }

  /** `Frame::encode`. */
  method EncodeFrame(f: Frame) returns (r: seq<u8>)
    requires |f.payload| < U64_LIMIT
    ensures r == Encoded(f)
  {
    var buf := new WriteBuffer();
    buf.PutU8(Code(f.frameType));
    buf.EncodeVarint(|f.payload|);
    buf.Put(f.payload);
    r := buf.bytes;
  }

  /** A `Bytes` being consumed from the front. */
  class ReadCursor {
    var data: seq<u8>

    constructor (d: seq<u8>)
      ensures data == d
    {
      data := d;
    }

    function Remaining(): nat
      reads this
    {
      |data|
    }

    method GetU8() returns (b: u8)
      requires |data| > 0
      modifies this
      ensures b == old(data)[0] && data == old(data)[1..]
    {
      b := data[0];
      data := data[1..];
    }

    /** `split_to(n)`: the first `n` bytes, removed from the cursor. */
    method SplitTo(n: nat) returns (front: seq<u8>)
      requires n <= |data|
      modifies this
      ensures front + data == old(data) && |front| == n
    {
      front := data[..n];
      data := data[n..];
    }
  }

  /** The cursor after a failed varint read: the first byte, if any, is gone. */
  function AfterFailedVarint(s: seq<u8>): seq<u8> {
    if |s| == 0 then [] else s[1..]
  }

  /** `Frame::decode_varint` exactly as the source writes it. */
  method DecodeVarintAsWritten(c: ReadCursor) returns (r: Result<u64, FrameError>)
    modifies c
    ensures r.Ok? ==> QuicDecodeAsWritten(old(c.data)) == Ok((r.value, c.data))
    ensures r.Err? ==> QuicDecodeAsWritten(old(c.data)) == Err(r.error) && c.data == AfterFailedVarint(old(c.data))
  {
    var s := c.data;
    if c.Remaining() < 1 {
      return Err(NoDataForVarint);
    }
    var first: nat := c.GetU8();
    var prefix := first / 64;
    if prefix == 0 {
      r := Ok(first);
    } else if prefix == 1 {
      if c.Remaining() < 1 {
        return Err(IncompleteVarint);
      }
      var b := c.GetU8();
      r := Ok((first % 64) * 0x100 + b);
    } else if prefix == 2 {
      if c.Remaining() < 3 {
        return Err(IncompleteVarint);
      }
      var val := (first % 64) * 0x100_0000;
      var b := c.GetU8();
      val := val + b as nat * 0x1_0000;
      b := c.GetU8();
      val := val + b as nat * 0x100;
      b := c.GetU8();
      val := val + b;
      r := Ok(val);
    } else {
      if c.Remaining() < 7 {
        return Err(IncompleteVarint);
      }
      var val: nat := (first % 64) * TWO_56;
      var i := 0;
      while i < 7
        invariant 0 <= i <= 7
        invariant c.data == s[1 + i..]
        invariant AccumulateWrapping(val, s[1 + i..8]) == AccumulateWrapping((first % 64) * TWO_56, s[1..8])
      {
        var b := c.GetU8();
        assert s[1 + i..8][1..] == s[1 + i + 1..8];
        val := ShiftInWrapping(val, b);
        i := i + 1;
      }
      AccumulateWrappingBound((first % 64) * TWO_56, s[1..8]);
      r := Ok(val);
    }
  }

  /** `Frame::decode_varint` with the 8-byte loop starting from the first byte's own six bits. */
  method DecodeVarint(c: ReadCursor) returns (r: Result<u64, FrameError>)
    modifies c
    ensures r.Ok? ==> QuicDecode(old(c.data)) == Ok((r.value, c.data))
    ensures r.Err? ==> QuicDecode(old(c.data)) == Err(r.error) && c.data == AfterFailedVarint(old(c.data))
  {
    var s := c.data;
    if c.Remaining() < 1 {
      return Err(NoDataForVarint);
    }
    var first: nat := c.GetU8();
    var prefix := first / 64;
    if prefix == 0 {
      r := Ok(first);
    } else if prefix == 1 {
      if c.Remaining() < 1 {
        return Err(IncompleteVarint);
      }
      var b := c.GetU8();
      r := Ok((first % 64) * 0x100 + b);
    } else if prefix == 2 {
      if c.Remaining() < 3 {
        return Err(IncompleteVarint);
      }
      var val := (first % 64) * 0x100_0000;
      var b := c.GetU8();
      val := val + b as nat * 0x1_0000;
      b := c.GetU8();
      val := val + b as nat * 0x100;
      b := c.GetU8();
      val := val + b;
      r := Ok(val);
    } else {
      if c.Remaining() < 7 {
        return Err(IncompleteVarint);
      }
      var val: nat := first % 64;
      var i := 0;
      while i < 7
        invariant 0 <= i <= 7
        invariant c.data == s[1 + i..]
        invariant Accumulate(val, s[1 + i..8]) == Accumulate(first % 64, s[1..8])
      {
        var b := c.GetU8();
        assert s[1 + i..8][1..] == s[1 + i + 1..8];
        val := val * 256 + b;
        i := i + 1;
      }
      LongFormBound(first, s[1..8]);
      r := Ok(val);
    }
  }

  /** `Frame::decode` exactly as the source writes it, through its own varint decoder. */
  method DecodeFrameAsWritten(data: seq<u8>) returns (r: Result<Frame, FrameError>)
    ensures r == DecodedAsWritten(data)
  {
    var c := new ReadCursor(data);
    if c.Remaining() < 2 {
      return Err(TooShort);
    }
    var typeCode := DecodeVarintAsWritten(c);
    if typeCode.Err? {
      return Err(typeCode.error);
    }
    var frameType := FromU64(typeCode.value);
    if frameType.None? {
      return Err(UnknownFrameType(typeCode.value));
    }
    var length := DecodeVarintAsWritten(c);
    if length.Err? {
      return Err(length.error);
    }
    if c.Remaining() < length.value {
      return Err(IncompletePayload);
    }
    var payload := c.SplitTo(length.value);
    r := Ok(Frame(frameType.value, payload));
  }

  /** `Frame::decode` as intended, reading through the corrected varint decoder. */
  method DecodeFrame(data: seq<u8>) returns (r: Result<Frame, FrameError>)
    ensures r == Decoded(data)
  {
    var c := new ReadCursor(data);
    if c.Remaining() < 2 {
      return Err(TooShort);
    }
    var typeCode := DecodeVarint(c);
    if typeCode.Err? {
      return Err(typeCode.error);
    }
    var frameType := FromU64(typeCode.value);
    if frameType.None? {
      return Err(UnknownFrameType(typeCode.value));
    }
    var length := DecodeVarint(c);
    if length.Err? {
      return Err(length.error);
    }
    if c.Remaining() < length.value {
      return Err(IncompletePayload);
    }
    var payload := c.SplitTo(length.value);
    r := Ok(Frame(frameType.value, payload));
  }
}
