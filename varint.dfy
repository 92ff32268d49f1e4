/**
 * LEB128-style variable-length integers used by the header compressor:
 * seven payload bits per byte, least significant group first, bit 0x80 set
 * on every byte that is followed by another.
 */
module Varint {
  import opened Base

  const INCOMPLETE: string := "Incomplete varint"
  const TOO_LARGE: string := "Varint too large"

  /** A continuation byte has its top bit set. */
  predicate IsContinuation(b: u8) {
    b >= 128
  }

  /** The byte string `encode_varint` produces for `v`. */
  function Encode(v: u64): (r: seq<u8>)
    ensures |r| >= 1
    ensures |r| == 1 <==> v < 128
    decreases v
  {
    if v < 128 then [v] else [v % 128 + 128] + Encode(v / 128)
  }

  /** Every byte of an encoding but the last has the continuation bit set. */
  lemma {:induction false} EncodeContinues(v: u64)
    ensures forall i :: 0 <= i < |Encode(v)| - 1 ==> IsContinuation(Encode(v)[i])
    decreases v
  {
    if v >= 128 {
      EncodeContinues(v / 128);
    }
  }

  /** The last byte of every encoding has the continuation bit clear. */
  lemma {:induction false} EncodeLastStops(v: u64)
    ensures !IsContinuation(Encode(v)[|Encode(v)| - 1])
    decreases v
  {
    if v >= 128 {
      EncodeLastStops(v / 128);
    }
  }

  /** Little-endian base-128 value of the low seven bits of each byte. */
  function Payload(s: seq<u8>): nat
  {
    if |s| == 0 then 0 else s[0] % 128 + 128 * Payload(s[1..])
  }

  /** Index of the first byte without the continuation bit, or `|s|` if none. */
  function FirstStop(s: seq<u8>): (k: nat)
    ensures k <= |s|
  {
    if |s| == 0 then 0 else if !IsContinuation(s[0]) then 0 else 1 + FirstStop(s[1..])
  }

  /** Every byte before `FirstStop(s)` continues, and the byte there stops. */
  lemma {:induction false} FirstStopSpec(s: seq<u8>)
    ensures forall i :: 0 <= i < FirstStop(s) ==> IsContinuation(s[i])
    ensures FirstStop(s) < |s| ==> !IsContinuation(s[FirstStop(s)])
  {
    if |s| > 0 && IsContinuation(s[0]) {
      FirstStopSpec(s[1..]);
      assert forall i :: 1 <= i < FirstStop(s) ==> s[i] == s[1..][i - 1];
    }
  }

  /**
   * What `decode_varint` returns on `s`: the value and the number of bytes
   * consumed, or the reason it gives up. At most ten bytes are read, and
   * payload bits beyond bit 63 are shifted out of the 64-bit accumulator.
   */
  function Decode(s: seq<u8>): (r: Result<(u64, nat), string>)
    ensures |s| == 0 ==> r == Err(INCOMPLETE)
    ensures r.Ok? ==> 1 <= r.value.1 <= |s| && r.value.1 <= 10
    ensures r.Err? ==> r.error in {INCOMPLETE, TOO_LARGE}
  {
    var k := FirstStop(s);
    if k < |s| && k < 10 then Ok((Payload(s[..k + 1]) % U64_LIMIT, k + 1))
    else if k >= 10 then Err(TOO_LARGE)
    else Err(INCOMPLETE)
  }

  /**
   * A decoded varint ends at its first stop byte; decoding fails as too
   * large exactly when the first ten bytes all continue.
   */
  lemma DecodeShape(s: seq<u8>)
    ensures Decode(s).Ok? ==> !IsContinuation(s[Decode(s).value.1 - 1])
    ensures Decode(s).Ok? ==> forall i :: 0 <= i < Decode(s).value.1 - 1 ==> IsContinuation(s[i])
    ensures Decode(s) == Err(TOO_LARGE) <==> |s| >= 10 && forall i :: 0 <= i < 10 ==> IsContinuation(s[i])
  {
    FirstStopSpec(s);
  }

  /** `encode_varint`: emit seven bits at a time until nothing is left. */
  method EncodeVarint(value: u64) returns (bytes: seq<u8>)
    ensures bytes == Encode(value)
  {
    var v := value;
    bytes := [];
    while true
      invariant bytes + Encode(v) == Encode(value)
      decreases v
    {
      ghost var w, done := v, bytes;
      var b: u8 := v % 128;
      v := v / 128;
      if v != 0 {
        b := b + 128;
        EncodeStep(w);
      } else {
        assert Encode(w) == [b];
      }
      bytes := bytes + [b];
      if v == 0 {
        assert bytes == done + Encode(w);
        break;
      }
      assert bytes + Encode(v) == done + ([b] + Encode(v));
    }
  }

  lemma EncodeStep(w: u64)
    requires w >= 128
    ensures Encode(w) == [w % 128 + 128] + Encode(w / 128)
  {
  }

  /** `decode_varint`: accumulate seven bits per byte until a stop byte. */
  method DecodeVarint(bytes: seq<u8>) returns (r: Result<(u64, nat), string>)
    ensures r == Decode(bytes)
  {
    var value: nat := 0;
    var shift: nat := 0;
    var pos: nat := 0;
    Pow2Is64();
    while true
      invariant shift == 7 * pos
      invariant Scanned(bytes, pos, value)
      decreases |bytes| - pos
    {
      if pos >= |bytes| {
        ScannedAll(bytes, pos, value);
        return Err(INCOMPLETE);
      }
      var b := bytes[pos];
      if !IsContinuation(b) {
        DecodeStop(bytes, pos, value);
      } else if pos == 9 {
        DecodeOverflow(bytes, value);
      } else {
        DecodeContinue(bytes, pos, value);
      }
      pos := pos + 1;
      value := value + ((b % 128) * Pow2(shift)) % U64_LIMIT;
      if !IsContinuation(b) {
        break;
      }
      shift := shift + 7;
      if shift >= 64 {
        return Err(TOO_LARGE);
      }
    }
    return Ok((value, pos));
  }

  /** The loop state of `decode_varint` after reading `pos` continuation bytes. */
  ghost predicate Scanned(bytes: seq<u8>, pos: nat, value: nat) {
    && pos <= 9 && pos <= |bytes|
    && (forall i :: 0 <= i < pos ==> IsContinuation(bytes[i]))
    && value == Payload(bytes[..pos])
    && value < Pow2(7 * pos)
  }

  lemma ScannedAll(bytes: seq<u8>, pos: nat, value: nat)
    requires Scanned(bytes, pos, value) && pos == |bytes|
    ensures Decode(bytes) == Err(INCOMPLETE)
  {
    FirstStopSpec(bytes);
  }

  /** A stop byte ends the loop with the value `Decode` gives. */
  lemma DecodeStop(bytes: seq<u8>, pos: nat, value: nat)
    requires Scanned(bytes, pos, value) && pos < |bytes| && !IsContinuation(bytes[pos])
    ensures value + ((bytes[pos] % 128) * Pow2(7 * pos)) % U64_LIMIT < U64_LIMIT
    ensures Decode(bytes) == Ok((value + ((bytes[pos] % 128) * Pow2(7 * pos)) % U64_LIMIT, pos + 1))
  {
    var b := bytes[pos];
    Pow2Is64();
    PayloadSnoc(bytes[..pos], b);
    assert bytes[..pos] + [b] == bytes[..pos + 1];
    AddShifted(value, b % 128, 7 * pos);
    FirstStopSpec(bytes);
    assert FirstStop(bytes) == pos;
  }

  /** A tenth continuation byte makes the varint too large. */
  lemma DecodeOverflow(bytes: seq<u8>, value: nat)
    requires Scanned(bytes, 9, value) && 9 < |bytes| && IsContinuation(bytes[9])
    ensures Decode(bytes) == Err(TOO_LARGE)
  {
    FirstStopSpec(bytes);
  }

  /** A continuation byte below the tenth keeps the loop state. */
  lemma DecodeContinue(bytes: seq<u8>, pos: nat, value: nat)
    requires Scanned(bytes, pos, value) && pos < |bytes| && pos < 9 && IsContinuation(bytes[pos])
    ensures Scanned(bytes, pos + 1, value + ((bytes[pos] % 128) * Pow2(7 * pos)) % U64_LIMIT)
  {
    var b := bytes[pos];
    var shift := 7 * pos;
    var added := (b % 128) * Pow2(shift);
    Pow2Is64();
    AddShifted(value, b % 128, shift);
    assert added % U64_LIMIT == added;
    PayloadSnoc(bytes[..pos], b);
    assert bytes[..pos] + [b] == bytes[..pos + 1];
    assert value + added == Payload(bytes[..pos + 1]);
    assert value + added < Pow2(7 * (pos + 1)) by {
      assert shift + 7 == 7 * (pos + 1);
    }
  }

  /**
   * Or-ing `p << shift` into an accumulator whose bits all lie below `shift`
   * is an addition, and its 64-bit truncation only drops bits of `p`.
   */
  lemma AddShifted(value: nat, p: nat, shift: nat)
    requires value < Pow2(shift) && p < 128
    requires shift <= 63 && shift % 7 == 0
    ensures value + (p * Pow2(shift)) % Pow2(64) < Pow2(64)
    ensures (value + p * Pow2(shift)) % Pow2(64) == value + (p * Pow2(shift)) % Pow2(64)
    ensures shift <= 56 ==> (p * Pow2(shift)) % Pow2(64) == p * Pow2(shift)
    ensures shift <= 56 ==> value + p * Pow2(shift) < Pow2(shift + 7)
  {
    var w, m := Pow2(shift), Pow2(64);
    if shift <= 56 {
      Pow2Step7(shift);
      Pow2Monotone(shift + 7, 64);
      AddBelowModulus(value, p, w, m);
    } else {
      assert shift == 63;
      Pow2Add(63, 1);
      assert Pow2(1) == 2;
      AddAtTopBit(value, p, w, m);
    }
  }

  lemma AddBelowModulus(value: nat, p: nat, w: nat, m: nat)
    requires value < w && p < 128 && 128 * w <= m
    ensures value + p * w < 128 * w
    ensures (p * w) % m == p * w
    ensures (value + p * w) % m == value + p * w
  {
    MulMonotone(p, 127, w);
    ModOfMultiplePlus(0, m, p * w);
    ModOfMultiplePlus(0, m, value + p * w);
  }

  lemma AddAtTopBit(value: nat, p: nat, w: nat, m: nat)
    requires value < w && m == 2 * w
    ensures value + (p * w) % m < m
    ensures (value + p * w) % m == value + (p * w) % m
  {
    var q, b := p / 2, p % 2;
    assert p * w == q * m + b * w by {
      assert p == 2 * q + b;
      assert p * w == (2 * q) * w + b * w;
    }
    MulMonotone(b, 1, w);
    ModOfMultiplePlus(q, m, b * w);
    ModOfMultiplePlus(q, m, value + b * w);
  }

  lemma {:induction false} PayloadSnoc(s: seq<u8>, b: u8)
    ensures Payload(s + [b]) == Payload(s) + (b % 128) * Pow2(7 * |s|)
  {
    if |s| == 0 {
    } else {
      var t := s[1..];
      assert (s + [b])[1..] == t + [b];
      PayloadSnoc(t, b);
      var w := Pow2(7 * |t|);
      Pow2Step7(7 * |t|);
      assert Pow2(7 * |s|) == 128 * w;
      calc {
        Payload(s + [b]);
        s[0] % 128 + 128 * Payload(t + [b]);
        s[0] % 128 + 128 * (Payload(t) + (b % 128) * w);
        s[0] % 128 + 128 * Payload(t) + 128 * ((b % 128) * w);
        { assert 128 * ((b % 128) * w) == (b % 128) * (128 * w); }
        Payload(s) + (b % 128) * Pow2(7 * |s|);
      }
    }
  }

  lemma {:induction false} PayloadEncode(v: u64)
    ensures Payload(Encode(v)) == v
    decreases v
  {
    if v >= 128 {
      PayloadEncode(v / 128);
    }
  }

  /** A value below 2^(7n) needs at most n bytes. */
  lemma {:induction false} EncodeLength(v: u64, n: nat)
    requires n >= 1 && v < Pow2(7 * n)
    ensures |Encode(v)| <= n
    decreases n
  {
    if v >= 128 {
      Pow2Values();
      Pow2Add(7, 7 * (n - 1));
      assert n > 1;
      EncodeLength(v / 128, n - 1);
    }
  }

  /** Every 64-bit value encodes in at most ten bytes. */
  lemma EncodeAtMostTen(v: u64)
    ensures |Encode(v)| <= 10
  {
    Pow2Values();
    Pow2Monotone(64, 70);
    EncodeLength(v, 10);
  }

  /** `encode_varint(0)` is the single byte 0. */
  lemma EncodeZero()
    ensures Encode(0) == [0]
  {
  }

  /** Values below 128 are their own one-byte encoding. */
  lemma EncodeSmall(v: u64)
    requires v < 128
    ensures Encode(v) == [v]
  {
  }

  /**
   * Decoding an encoding returns the value and its length, whatever follows
   * it in the buffer; in particular for `u64::MAX`.
   */
  lemma RoundTrip(v: u64, rest: seq<u8>)
    ensures Decode(Encode(v) + rest) == Ok((v, |Encode(v)|))
  {
    var e := Encode(v);
    var s := e + rest;
    EncodeAtMostTen(v);
    EncodeLastStops(v);
    EncodeContinues(v);
    assert forall i :: 0 <= i < |e| - 1 ==> IsContinuation(s[i]);
    assert !IsContinuation(s[|e| - 1]);
    var k := FirstStop(s);
    FirstStopSpec(s);
    assert k == |e| - 1;
    assert s[..k + 1] == e;
    PayloadEncode(v);
  }

  /** Every proper prefix of an encoding is an incomplete varint. */
  lemma Truncated(v: u64, k: nat)
    requires k < |Encode(v)|
    ensures Decode(Encode(v)[..k]) == Err(INCOMPLETE)
  {
    EncodeAtMostTen(v);
    EncodeContinues(v);
    var s := Encode(v)[..k];
    assert forall i :: 0 <= i < |s| ==> IsContinuation(s[i]);
    FirstStopSpec(s);
  }
}
