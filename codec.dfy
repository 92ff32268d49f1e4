/**
 * The serialization-format byte that tags an encoded message, and the codec
 * object that remembers which format to use.
 */
module Codec {
  import opened Base

  /** CBOR is the default, for compatibility with older peers. */
  datatype SerializationFormat = Cbor | FlatBuffers

  const DEFAULT_FORMAT: SerializationFormat := Cbor

  /** The wire byte of a format. */
  function ToByte(f: SerializationFormat): (b: u8)
    ensures b <= 1
    ensures b == 0 <==> f == Cbor
  {
    match f
    case Cbor => 0
    case FlatBuffers => 1
  }

  /** The format named by a wire byte, if any. */
  function FromByte(b: u8): (r: Option<SerializationFormat>)
    ensures r.Some? <==> b <= 1
    ensures r.Some? ==> ToByte(r.value) == b
  {
    match b
    case 0 => Some(Cbor)
    case 1 => Some(FlatBuffers)
    case _ => None
  }

  /** The byte of a format reads back as that format, and nothing else does. */
  lemma FormatByteRoundTrip(f: SerializationFormat, b: u8)
    ensures FromByte(ToByte(f)) == Some(f)
    ensures FromByte(b) == Some(f) <==> b == ToByte(f)
  {
  }

  class Codec {
    var format: SerializationFormat

    constructor (format: SerializationFormat)
      ensures this.format == format
    {
      this.format := format;
    }

    constructor Cbor()
      ensures format == SerializationFormat.Cbor
    {
      format := SerializationFormat.Cbor;
    }

    constructor FlatBuffers()
      ensures format == SerializationFormat.FlatBuffers
    {
      format := SerializationFormat.FlatBuffers;
    }

    method Format() returns (f: SerializationFormat)
      ensures f == format
    {
      f := format;
    }

    /** After `SetFormat(f)`, `Format()` answers `f`. */
    method SetFormat(f: SerializationFormat)
      modifies this
      ensures format == f
    {
      format := f;
    }
  }
}
