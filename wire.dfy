/** The byte layout of the four messages of the protocol.

    Each message is a sequence of 32-bit unsigned fields in network byte
    order, a `HashRequest` followed by its payload and a `HashResponse` by
    its 32-byte hash, with no padding or delimiter between them. The
    receiver knows which message it expects, so decoding is by shape. */
module Wire {
  import opened Bytes
  import opened Io

  /** A message as its fields hold it (host byte order). */
  datatype Frame =
    | Fixed(tag: u32, value: u32)                  // InitRequest {Type, N}, AckResponse {Type, Length}
    | Request(tag: u32, payload: seq<byte>)        // HashRequest {Type, Length, Payload}
    | Response(tag: u32, index: u32, hash: seq<byte>)  // HashResponse {Type, I, Hash}

  datatype Shape = FixedShape | RequestShape | ResponseShape

  function ShapeOf(f: Frame): Shape
  {
    match f
    case Fixed(_, _) => FixedShape
    case Request(_, _) => RequestShape
    case Response(_, _, _) => ResponseShape
  }

  /** A frame that fits its fields: a length that fits in 32 bits, a hash of 32 bytes. */
  predicate WellFormed(f: Frame)
  {
    match f
    case Fixed(_, _) => true
    case Request(_, payload) => |payload| < 0x1_0000_0000
    case Response(_, _, hash) => |hash| == 32
  }

  /** Bytes on the wire: 8 for InitRequest and AckResponse, 8 plus the
      payload for HashRequest, 40 for HashResponse. */
  function Size(f: Frame): nat
  {
    match f
    case Fixed(_, _) => 8
    case Request(_, payload) => 8 + |payload|
    case Response(_, _, _) => 40
  }

  /** The fields written in declaration order. */
  function Encode(f: Frame): (b: seq<byte>)
    requires WellFormed(f)
    ensures |b| == Size(f)
    ensures b[..4] == U32ToBytes(f.tag)
  {
    match f
    case Fixed(tag, value) => U32ToBytes(tag) + U32ToBytes(value)
    case Request(tag, payload) => U32ToBytes(tag) + U32ToBytes(|payload|) + payload
    case Response(tag, index, hash) => U32ToBytes(tag) + U32ToBytes(index) + hash
  }

  /** Reads a frame of the expected shape from the front of `b`, reading
      the fields in declaration order; `None` when `b` ends first. */
  function Decode(shape: Shape, b: seq<byte>): (r: Option<(Frame, seq<byte>)>)
    ensures r.Some? ==> ShapeOf(r.value.0) == shape && WellFormed(r.value.0)
    ensures r.Some? ==> |b| == Size(r.value.0) + |r.value.1| && r.value.1 == b[Size(r.value.0)..]
  {
    if |b| < 8 then None
    else
      var tag, field := BytesToU32(b[..4]), BytesToU32(b[4..8]);
      match shape
      case FixedShape => Some((Fixed(tag, field), b[8..]))
      case RequestShape =>
        if |b| - 8 < field then None else Some((Request(tag, b[8..8 + field]), b[8 + field..]))
      case ResponseShape =>
        if |b| < 40 then None else Some((Response(tag, field, b[8..40]), b[40..]))
  }

  /** `Field = htonl(x)` for the 32-bit field at offset `at` of a struct
      whose memory is `buf`: its four octets become those of `x`, most
      significant first, and the rest of the struct is untouched. */
  method StoreField(buf: array<byte>, at: nat, x: u32)
    requires at + 4 <= buf.Length
    modifies buf
    ensures buf[at..at + 4] == U32ToBytes(x) && BytesToU32(buf[at..at + 4]) == x
    ensures forall i | 0 <= i < buf.Length && !(at <= i < at + 4) :: buf[i] == old(buf[i])
  {
    var b := U32ToBytes(x);
    buf[at], buf[at + 1], buf[at + 2], buf[at + 3] := b[0], b[1], b[2], b[3];
    assert buf[at..at + 4] == b;
    U32RoundTrip(x);
  }

  /** Sending the fields of a struct of two 32-bit fields one after the
      other puts its encoding on the wire. */
  lemma EncodeFixedImage(image: seq<byte>)
    requires |image| == 8
    ensures Encode(Fixed(BytesToU32(image[..4]), BytesToU32(image[4..8]))) == image[..4] + image[4..8]
  {
    BytesRoundTrip(image[..4]);
    BytesRoundTrip(image[4..8]);
  }

  /** The same for a `HashRequest` whose `Length` is the size of its payload. */
  lemma EncodeRequestImage(image: seq<byte>, payload: seq<byte>)
    requires |image| == 8 && BytesToU32(image[4..8]) == |payload|
    ensures Encode(Request(BytesToU32(image[..4]), payload)) == image + payload
  {
    BytesRoundTrip(image[..4]);
    BytesRoundTrip(image[4..8]);
    assert image == image[..4] + image[4..8];
  }

  /** The same for a `HashResponse`: `Type`, `I` and `Hash`. */
  lemma EncodeResponseImage(image: seq<byte>)
    requires |image| == 40
    ensures Encode(Response(BytesToU32(image[..4]), BytesToU32(image[4..8]), image[8..40])) ==
              image[..4] + image[4..8] + image[8..40]
  {
    BytesRoundTrip(image[..4]);
    BytesRoundTrip(image[4..8]);
  }

  /** A struct of two 32-bit fields whose memory holds the first eight
      bytes of `b` holds the frame decoded from `b`. */
  lemma DecodeFixedImage(b: seq<byte>, image: seq<byte>)
    requires |b| >= 8 && image == b[..8]
    ensures Decode(FixedShape, b) == Some((Fixed(BytesToU32(image[..4]), BytesToU32(image[4..8])), b[8..]))
  {
    assert image[..4] == b[..4] && image[4..8] == b[4..8];
  }

  /** A `HashResponse` whose memory holds the first forty bytes of `b`
      holds the frame decoded from `b`. */
  lemma DecodeResponseImage(b: seq<byte>, image: seq<byte>)
    requires |b| >= 40 && image == b[..40]
    ensures Decode(ResponseShape, b) ==
              Some((Response(BytesToU32(image[..4]), BytesToU32(image[4..8]), image[8..40]), b[40..]))
  {
    assert image[..4] == b[..4] && image[4..8] == b[4..8] && image[8..40] == b[8..40];
  }

  /** A struct image `image` of `Type` and `Length` followed by a payload
      of `Length` bytes, all read from the front of `b`, is the frame
      decoded from `b`. */
  lemma DecodeRequestImage(b: seq<byte>, image: seq<byte>, payload: seq<byte>)
    requires |b| >= 8 && image == b[..8] && BytesToU32(image[4..8]) == |payload|
    requires |b| >= 8 + |payload| && payload == b[8..8 + |payload|]
    ensures Decode(RequestShape, b) == Some((Request(BytesToU32(image[..4]), payload), b[8 + |payload|..]))
  {
    assert image[..4] == b[..4] && image[4..8] == b[4..8];
  }

  /** Decoding what was encoded gives back the frame and leaves what follows it. */
  lemma DecodeEncode(f: Frame, rest: seq<byte>)
    requires WellFormed(f)
    ensures Decode(ShapeOf(f), Encode(f) + rest) == Some((f, rest))
  {
    var b := Encode(f) + rest;
    U32RoundTrip(f.tag);
    assert b[..4] == U32ToBytes(f.tag);
    match f
    case Fixed(tag, value) =>
      U32RoundTrip(value);
      assert b[4..8] == U32ToBytes(value);
    case Request(tag, payload) =>
      U32RoundTrip(|payload|);
      assert b[4..8] == U32ToBytes(|payload|);
      assert b[8..8 + |payload|] == payload;
      assert b[8 + |payload|..] == rest;
    case Response(tag, index, hash) =>
      U32RoundTrip(index);
      assert b[4..8] == U32ToBytes(index);
      assert b[8..40] == hash;
  }

  /** Every byte string a frame can be decoded from is that frame's encoding followed by the rest. */
  lemma EncodeDecode(shape: Shape, b: seq<byte>)
    requires Decode(shape, b).Some?
    ensures Encode(Decode(shape, b).value.0) + Decode(shape, b).value.1 == b
  {
    var f := Decode(shape, b).value.0;
    BytesRoundTrip(b[..4]);
    BytesRoundTrip(b[4..8]);
    assert b == b[..4] + b[4..8] + b[8..];
    match f
    case Fixed(_, _) =>
    case Request(_, payload) =>
      assert b[8..] == payload + b[8 + |payload|..];
    case Response(_, _, _) =>
      assert b[8..] == b[8..40] + b[40..];
  }
}
