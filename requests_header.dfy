/** The four messages as includes/requests.h defines them, the older
    revision of the protocol code: the message types are the literals 1
    and 3, an `InitRequest` or `AckResponse` is received as one 8-byte
    block, and a `HashRequest`'s payload is received into the struct. */
module RequestsHeader {
  import opened Bytes
  import opened Io
  import opened Wire
  import opened Transfer

  /** The `Type` that `InitRequest::setValues` writes. */
  const INIT_REQUEST: u32 := 1
  /** The `Type` that `HashRequest::setValues` writes. */
  const HASH_REQUEST: u32 := 3

  /** What `std::vector::resize` throws (libstdc++) when a negative `int`
      length, converted to `size_t`, exceeds the largest vector. */
  const LENGTH_ERROR := "vector::_M_default_append"

  /** `InitRequest {Type, N}`. */
  class InitRequest {
    /** The struct's memory: `Type` at offset 0, `N` at offset 4. */
    const raw: array<byte>

    /** A struct whose memory starts out holding `image`. */
    constructor (image: seq<byte>)
      requires |image| == 8
      ensures Valid() && raw[..] == image && fresh(raw)
    {
      raw := new byte[8](i requires 0 <= i < 8 => image[i]);
    }

    predicate Valid()
      reads this
    {
      raw.Length == 8
    }

    /** The fields, converted to host byte order. */
    function Fields(): Frame
      requires Valid()
      reads this, raw
    {
      Fixed(BytesToU32(raw[..4]), BytesToU32(raw[4..8]))
    }

    /** `setValues(n)`: type 1 and `n` converted to `uint32_t`. */
    method SetValues(n: CInt)
      requires Valid()
      modifies raw
      ensures Fields() == Fixed(INIT_REQUEST, ToU32(n))
    {
      StoreField(raw, 0, INIT_REQUEST);
      ghost var tag := raw[..4];
      StoreField(raw, 4, ToU32(n));
      assert raw[..4] == tag;
    }

    /** `sendTo(sockfd)`: `Type`, then `N`. */
    method SendTo(sock: Socket) returns (o: Outcome)
      requires Valid()
      modifies sock`outbound, sock`sendScript
      ensures var k := Delivered(old(sock.sendScript), [4, 4]);
        (o == Completed <==> k == 2) &&
        (o.Failed? ==> o.what == ["Sending initialisation's type failed!",
                                  "Sending initialisation's number of hashes failed!"][k])
      ensures o == Completed ==> sock.outbound == old(sock.outbound) + Encode(Fields())
      ensures old(sock.outbound) <= sock.outbound
    {
      assert [4, 4] == [4] + [4] && [4] == [4] + [];
      o := SendField(sock, raw[..4], "Sending initialisation's type failed!", [4]);
      if o.Failed? {
        return;
      }
      o := SendField(sock, raw[4..8], "Sending initialisation's number of hashes failed!", []);
      if o.Completed? {
        EncodeFixedImage(raw[..]);
        assert raw[..][..4] == raw[..4] && raw[..][4..8] == raw[4..8];
      }
    }

    /** `receive(sockfd)`: the whole struct in one `receiveAny`. */
    method Receive(sock: Socket) returns (o: Outcome)
      requires Valid()
      modifies raw, sock`inbound, sock`recvScript
      ensures o == Completed <==> Gather(old(sock.recvScript), |old(sock.inbound)|, 8).Some?
      ensures o.Failed? ==> o.what == "Receiving an initialisation failed!"
      ensures o == Completed ==>
                sock.recvScript == Gather(old(sock.recvScript), |old(sock.inbound)|, 8).value &&
                Decode(FixedShape, old(sock.inbound)) == Some((Fields(), sock.inbound))
    {
      ghost var inbound0 := sock.inbound;
      o := ReceiveAny(sock, raw, 0, 8, "Receiving an initialisation failed!");
      if o.Completed? {
        assert raw[..] == inbound0[..8];
        DecodeFixedImage(inbound0, raw[..]);
      }
    }
  }

  /** `AckResponse {Type, Length}`. */
  class AckResponse {
    /** The struct's memory: `Type` at offset 0, `Length` at offset 4. */
    const raw: array<byte>

    /** A struct whose memory starts out holding `image`. */
    constructor (image: seq<byte>)
      requires |image| == 8
      ensures Valid() && raw[..] == image && fresh(raw)
    {
      raw := new byte[8](i requires 0 <= i < 8 => image[i]);
    }

    predicate Valid()
      reads this
    {
      raw.Length == 8
    }

    /** The fields, converted to host byte order. */
    function Fields(): Frame
      requires Valid()
      reads this, raw
    {
      Fixed(BytesToU32(raw[..4]), BytesToU32(raw[4..8]))
    }

    /** `setValues(type, length)`: both `int`s converted to `uint32_t`. */
    method SetValues(kind: CInt, length: CInt)
      requires Valid()
      modifies raw
      ensures Fields() == Fixed(ToU32(kind), ToU32(length))
    {
      StoreField(raw, 0, ToU32(kind));
      ghost var tag := raw[..4];
      StoreField(raw, 4, ToU32(length));
      assert raw[..4] == tag;
    }

    /** `sendTo(sockfd)`: `Type`, then `Length`. */
    method SendTo(sock: Socket) returns (o: Outcome)
      requires Valid()
      modifies sock`outbound, sock`sendScript
      ensures var k := Delivered(old(sock.sendScript), [4, 4]);
        (o == Completed <==> k == 2) &&
        (o.Failed? ==> o.what == ["Sending acknowledgement's type failed!",
                                  "Sending acknowledgement's length failed!"][k])
      ensures o == Completed ==> sock.outbound == old(sock.outbound) + Encode(Fields())
      ensures old(sock.outbound) <= sock.outbound
    {
      assert [4, 4] == [4] + [4] && [4] == [4] + [];
      o := SendField(sock, raw[..4], "Sending acknowledgement's type failed!", [4]);
      if o.Failed? {
        return;
      }
      o := SendField(sock, raw[4..8], "Sending acknowledgement's length failed!", []);
      if o.Completed? {
        EncodeFixedImage(raw[..]);
        assert raw[..][..4] == raw[..4] && raw[..][4..8] == raw[4..8];
      }
    }

    /** `receive(sockfd)`: the whole struct in one `receiveAny`. */
    method Receive(sock: Socket) returns (o: Outcome)
      requires Valid()
      modifies raw, sock`inbound, sock`recvScript
      ensures o == Completed <==> Gather(old(sock.recvScript), |old(sock.inbound)|, 8).Some?
      ensures o.Failed? ==> o.what == "Receiving an acknowledgement failed!"
      ensures o == Completed ==>
                sock.recvScript == Gather(old(sock.recvScript), |old(sock.inbound)|, 8).value &&
                Decode(FixedShape, old(sock.inbound)) == Some((Fields(), sock.inbound))
    {
      ghost var inbound0 := sock.inbound;
      o := ReceiveAny(sock, raw, 0, 8, "Receiving an acknowledgement failed!");
      if o.Completed? {
        assert raw[..] == inbound0[..8];
        DecodeFixedImage(inbound0, raw[..]);
      }
    }
  }

  /** `HashRequest {Type, Length, Payload}`. */
  class HashRequest {
    /** The memory of `Type` (offset 0) and `Length` (offset 4). */
    const raw: array<byte>
    /** The elements of the `Payload` vector. */
    var Payload: array<byte>

    /** A struct whose fields start out holding `image` and `payload`. */
    constructor (image: seq<byte>, payload: seq<byte>)
      requires |image| == 8
      ensures Valid() && raw[..] == image && Payload[..] == payload && fresh(raw) && fresh(Payload)
    {
      raw := new byte[8](i requires 0 <= i < 8 => image[i]);
      Payload := new byte[|payload|](i requires 0 <= i < |payload| => payload[i]);
    }

    predicate Valid()
      reads this
    {
      raw.Length == 8 && raw != Payload
    }

    /** `ntohl(Length)` is the size of `Payload`. */
    predicate Consistent()
      requires Valid()
      reads this, raw
    {
      BytesToU32(raw[4..8]) == Payload.Length
    }

    /** The fields, converted to host byte order. */
    function Fields(): Frame
      requires Valid() && Consistent()
      reads this, raw, Payload
    {
      Request(BytesToU32(raw[..4]), Payload[..])
    }

    /** `Payload.resize(n)`. */
    method Resize(n: nat)
      requires Valid()
      modifies this`Payload
      ensures Valid() && fresh(Payload)
      ensures Payload[..] == Resized(old(Payload[..]), n)
    {
      var a := new byte[n];
      forall i | 0 <= i < n {
        a[i] := if i < Payload.Length then Payload[i] else 0;
      }
      Payload := a;
    }

    /** `setValues(length, file)`: type 3 and `length` are written first; a
        negative `length` then makes `resize` throw; otherwise `Payload`
        takes `length` elements and `fread` fills it from `file`, failing
        when the file runs out first. */
    method SetValues(length: CInt, file: FileStream) returns (o: Outcome)
      requires Valid()
      modifies raw, this`Payload, file
      ensures Valid()
      ensures BytesToU32(raw[..4]) == HASH_REQUEST && BytesToU32(raw[4..8]) == ToU32(length)
      ensures length < 0 ==> o == Failed(LENGTH_ERROR) && Payload == old(Payload) && file.remaining == old(file.remaining)
      ensures length >= 0 ==>
                Consistent() && fresh(Payload) &&
                var count := Min(length, |old(file.remaining)|);
                file.remaining == old(file.remaining)[count..] &&
                Payload[..] == old(file.remaining)[..count] + Resized(old(Payload[..]), length)[count..]
      ensures o == Completed <==> 0 <= length <= |old(file.remaining)|
      ensures o.Failed? && length >= 0 ==> o.what == "Failed to read expected payload from file"
      ensures o == Completed ==> Fields() == Request(HASH_REQUEST, old(file.remaining)[..length])
    {
      StoreField(raw, 0, HASH_REQUEST);
      ghost var tag := raw[..4];
      StoreField(raw, 4, ToU32(length));
      assert raw[..4] == tag;
      if length < 0 {
        return Failed(LENGTH_ERROR);
      }
      ghost var before := Resized(Payload[..], length);
      Resize(length);
      var count := file.Read(Payload, length);
      assert Payload[..] == old(file.remaining)[..count] + before[count..];
      if count != length {
        return Failed("Failed to read expected payload from file");
      }
      o := Completed;
    }

    /** `sendTo(sockfd)`: `Type`, `Length`, then the whole `Payload`. */
    method SendTo(sock: Socket) returns (o: Outcome)
      requires Valid()
      modifies sock`outbound, sock`sendScript
      ensures var k := Delivered(old(sock.sendScript), [4, 4, Payload.Length]);
        (o == Completed <==> k == 3) &&
        (o.Failed? ==> o.what == ["Sending a HashRequest's type failed!", "Sending a HashRequest's length failed!",
                                  "Sending a HashRequest's payload failed!"][k])
      ensures o == Completed ==> sock.outbound == old(sock.outbound) + raw[..] + Payload[..]
      ensures o == Completed && Consistent() ==> sock.outbound == old(sock.outbound) + Encode(Fields())
      ensures old(sock.outbound) <= sock.outbound
    {
      ghost var out0 := sock.outbound;
      assert [4, 4, Payload.Length] == [4] + [4, Payload.Length] && [4, Payload.Length] == [4] + [Payload.Length];
      assert [Payload.Length] == [Payload.Length] + [];
      o := SendField(sock, raw[..4], "Sending a HashRequest's type failed!", [4, Payload.Length]);
      if o.Failed? {
        return;
      }
      o := SendField(sock, raw[4..8], "Sending a HashRequest's length failed!", [Payload.Length]);
      if o.Failed? {
        return;
      }
      o := SendField(sock, Payload[..], "Sending a HashRequest's payload failed!", []);
      if o.Completed? {
        assert raw[..4] + raw[4..8] == raw[..];
        AppendThree(out0, raw[..4], raw[4..8], Payload[..]);
        if Consistent() {
          EncodeRequestImage(raw[..], Payload[..]);
          assert raw[..][..4] == raw[..4] && raw[..][4..8] == raw[4..8];
        }
      }
    }

    /** The first two `receiveAny` calls of `receive`: `Type`, then `Length`. */
    method ReceiveHeader(sock: Socket) returns (o: Outcome)
      requires Valid()
      modifies raw, sock`inbound, sock`recvScript
      ensures var g := Gathered(old(sock.recvScript), |old(sock.inbound)|, [4, 4]);
        (o == Completed <==> g.0 == 2) &&
        (o.Failed? ==> o.what == ["Receiving a HashRequest's type failed!",
                                  "Receiving a HashRequest's length failed!"][g.0]) &&
        (o == Completed ==> sock.recvScript == g.1)
      ensures o == Completed ==>
                |old(sock.inbound)| >= 8 && raw[..] == old(sock.inbound)[..8] && sock.inbound == old(sock.inbound)[8..]
    {
      ghost var inbound0 := sock.inbound;
      assert [4, 4] == [4] + [4] && [4] == [4] + [];
      o := ReceiveField(sock, raw, 0, 4, "Receiving a HashRequest's type failed!", [4], inbound0);
      if o.Failed? {
        return;
      }
      o := ReceiveField(sock, raw, 4, 4, "Receiving a HashRequest's length failed!", [], inbound0);
      if o.Completed? {
        assert raw[..] == raw[..8];
      }
    }

    /** The end of `receive`: `Payload` resized to `n` elements and filled
        by one `receiveAny`. */
    method ReceivePayload(sock: Socket, n: u32) returns (o: Outcome)
      requires Valid()
      modifies this`Payload, sock`inbound, sock`recvScript
      ensures Valid() && fresh(Payload) && Payload.Length == n
      ensures o == Completed <==> Gather(old(sock.recvScript), |old(sock.inbound)|, n).Some?
      ensures o.Failed? ==> o.what == "Receiving a HashRequest's payload failed!"
      ensures o == Completed ==>
                n <= |old(sock.inbound)| && Payload[..] == old(sock.inbound)[..n] && sock.inbound == old(sock.inbound)[n..]
    {
      Resize(n);
      o := ReceiveAny(sock, Payload, 0, n, "Receiving a HashRequest's payload failed!");
    }

    /** `receive(sockfd)`: `Type` and `Length`, then `Payload` resized to
        `ntohl(Length)` and filled by one more `receiveAny`. On success the
        struct holds the frame at the front of the connection. */
    method Receive(sock: Socket) returns (o: Outcome)
      requires Valid()
      modifies raw, this`Payload, sock`inbound, sock`recvScript
      ensures Valid()
      ensures var g := Gathered(old(sock.recvScript), |old(sock.inbound)|, [4, 4]);
        g.0 < 2 ==>
          o == Failed(["Receiving a HashRequest's type failed!", "Receiving a HashRequest's length failed!"][g.0])
      ensures var g := Gathered(old(sock.recvScript), |old(sock.inbound)|, [4, 4]);
        g.0 == 2 ==>
          |old(sock.inbound)| >= 8 && raw[..] == old(sock.inbound)[..8] && Consistent() && fresh(Payload) &&
          (o == Completed <==> Gather(g.1, |old(sock.inbound)| - 8, Payload.Length).Some?) &&
          (o.Failed? ==> o.what == "Receiving a HashRequest's payload failed!")
      ensures o == Completed ==> Consistent() && Decode(RequestShape, old(sock.inbound)) == Some((Fields(), sock.inbound))
    {
      ghost var inbound0 := sock.inbound;
      o := ReceiveHeader(sock);
      if o.Failed? {
        return;
      }
      o := ReceivePayload(sock, BytesToU32(raw[4..8]));
      if o.Completed? {
        assert Payload[..] == inbound0[8..][..Payload.Length] == inbound0[8..8 + Payload.Length];
        assert sock.inbound == inbound0[8 + Payload.Length..];
        DecodeRequestImage(inbound0, raw[..], Payload[..]);
      }
    }
  }

  /** A `HashRequest` that `sendTo` put on the connection, read back by the
      buffered `receive` while every `recv` returns all it asks for: both
      header fields and the payload arrive, and the frame read is the one
      sent, with the rest of the connection left in place. */
  lemma ReceiveAfterSendTo(f: Frame, rest: seq<byte>, script: seq<int>)
    requires f.Request? && WellFormed(f)
    requires |script| >= 2 && script[0] >= 4 && script[1] >= 4
    requires |f.payload| > 0 ==> |script| >= 3 && script[2] >= |f.payload|
    ensures var inbound := Encode(f) + rest;
      var g := Gathered(script, |inbound|, [4, 4]);
      g == (2, script[2..]) && BytesToU32(inbound[4..8]) == |f.payload| &&
      Gather(g.1, |inbound| - 8, |f.payload|).Some? &&
      Decode(RequestShape, inbound) == Some((f, rest))
  {
    var inbound := Encode(f) + rest;
    AllGathered(script, |inbound|, [4, 4]);
    DecodeEncode(f, rest);
    if |f.payload| > 0 {
      OneFullRead(script[2..], |inbound| - 8, |f.payload|);
    }
  }

  /** `HashResponse {Type, I, Hash}`. */
  class HashResponse {
    /** The struct's memory: `Type` at offset 0, `I` at 4, `Hash` at 8..40. */
    const raw: array<byte>

    /** A struct whose memory starts out holding `image`. */
    constructor (image: seq<byte>)
      requires |image| == 40
      ensures Valid() && raw[..] == image && fresh(raw)
    {
      raw := new byte[40](i requires 0 <= i < 40 => image[i]);
    }

    predicate Valid()
      reads this
    {
      raw.Length == 40
    }

    /** The fields, converted to host byte order. */
    function Fields(): Frame
      requires Valid()
      reads this, raw
    {
      Response(BytesToU32(raw[..4]), BytesToU32(raw[4..8]), raw[8..40])
    }

    /** `setValues(type, i)`: `Type` and `I`; `Hash` is left as it was. */
    method SetValues(kind: CInt, i: CInt)
      requires Valid()
      modifies raw
      ensures Fields() == Response(ToU32(kind), ToU32(i), old(raw[8..40]))
    {
      StoreField(raw, 0, ToU32(kind));
      ghost var tag := raw[..4];
      StoreField(raw, 4, ToU32(i));
      assert raw[..4] == tag && raw[8..40] == old(raw[8..40]);
    }

    /** `sendTo(sockfd)`: `Type`, `I`, then the 32 bytes of `Hash`; the first
        two messages are those of a `HashRequest`. */
    method SendTo(sock: Socket) returns (o: Outcome)
      requires Valid()
      modifies sock`outbound, sock`sendScript
      ensures var k := Delivered(old(sock.sendScript), [4, 4, 32]);
        (o == Completed <==> k == 3) &&
        (o.Failed? ==> o.what == ["Sending a HashRequest's type failed!", "Sending a HashRequest's index failed!",
                                  "Sending a hash failed!"][k])
      ensures o == Completed ==> sock.outbound == old(sock.outbound) + Encode(Fields())
      ensures old(sock.outbound) <= sock.outbound
    {
      ghost var out0 := sock.outbound;
      assert [4, 4, 32] == [4] + [4, 32] && [4, 32] == [4] + [32] && [32] == [32] + [];
      o := SendField(sock, raw[..4], "Sending a HashRequest's type failed!", [4, 32]);
      if o.Failed? {
        return;
      }
      o := SendField(sock, raw[4..8], "Sending a HashRequest's index failed!", [32]);
      if o.Failed? {
        return;
      }
      o := SendField(sock, raw[8..40], "Sending a hash failed!", []);
      if o.Completed? {
        ghost var image := raw[..];
        EncodeResponseImage(image);
        assert image[..4] == raw[..4] && image[4..8] == raw[4..8] && image[8..40] == raw[8..40];
        AppendThree(out0, raw[..4], raw[4..8], raw[8..40]);
      }
    }

    /** `receive(sockfd)`: `Type`, `I`, then the 32 bytes of `Hash`; the
        first two messages are those of a `HashRequest`. */
    method Receive(sock: Socket) returns (o: Outcome)
      requires Valid()
      modifies raw, sock`inbound, sock`recvScript
      ensures var g := Gathered(old(sock.recvScript), |old(sock.inbound)|, [4, 4, 32]);
        (o == Completed <==> g.0 == 3) &&
        (o.Failed? ==> o.what == ["Receiving a HashRequest's type failed!", "Receiving a HashRequest's index failed!",
                                  "Receiving a hash failed!"][g.0]) &&
        (o == Completed ==> sock.recvScript == g.1)
      ensures o == Completed ==> Decode(ResponseShape, old(sock.inbound)) == Some((Fields(), sock.inbound))
    {
      ghost var inbound0 := sock.inbound;
      assert [4, 4, 32] == [4] + [4, 32] && [4, 32] == [4] + [32] && [32] == [32] + [];
      o := ReceiveField(sock, raw, 0, 4, "Receiving a HashRequest's type failed!", [4, 32], inbound0);
      if o.Failed? {
        return;
      }
      o := ReceiveField(sock, raw, 4, 4, "Receiving a HashRequest's index failed!", [32], inbound0);
      if o.Failed? {
        return;
      }
      o := ReceiveField(sock, raw, 8, 32, "Receiving a hash failed!", [], inbound0);
      if o.Completed? {
        assert raw[..] == raw[..40];
        DecodeResponseImage(inbound0, raw[..]);
      }
    }
  }
}
