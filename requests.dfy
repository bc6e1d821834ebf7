/** The four messages of src/requests.cpp: each struct's `setValues`
    writes its fields in network byte order, `sendTo` sends them one
    `sendAny` per field, and `receive` reads them back one `receiveAny` per
    field; a `HashRequest`'s payload is not kept but hashed as it arrives. */
module Requests {
  import opened Bytes
  import opened Io
  import opened Wire
  import opened Checksum
  import opened Transfer
  import opened Streaming

  /** `MessageType::InitRequest` and `MessageType::HashRequest`. The enum
      is declared in a header that is not part of this model, so their
      values are left open. */
  const INIT_REQUEST: u32
  const HASH_REQUEST: u32

  /** What `std::vector::resize` throws (libstdc++) when a negative `int`
      length, converted to `size_t`, exceeds the largest vector. */
  const LENGTH_ERROR := "vector::_M_default_append"

  /** `ERR_SEND(cls, field)`. */
  function ErrSend(cls: string, field: string): string
  {
    "Sending " + cls + "::" + field + " failed!"
  }

  /** `ERR_RECV(cls, field)`. */
  function ErrRecv(cls: string, field: string): string
  {
    "Receiving " + cls + "::" + field + " failed!"
  }

  /** `InitRequest {Type, N}`: the client announces how many hashes follow. */
  class InitRequest {
    /** The struct's memory: `Type` at offset 0, `N` at offset 4. */
    const raw: array<byte>

    /** A struct whose memory starts out holding `image`. */
    constructor (image: seq<byte>)
      requires |image| == 8
      ensures Valid() && raw[..] == image && fresh(raw)
    {
      raw := new byte[8](i requires 0 <= i < 8 => image[i]);
    }

    predicate Valid()
      reads this
    {
      raw.Length == 8
    }

    /** The fields, converted to host byte order. */
    function Fields(): Frame
      requires Valid()
      reads this, raw
    {
      Fixed(BytesToU32(raw[..4]), BytesToU32(raw[4..8]))
    }

    /** `setValues(n)`: the type of an initialisation and `n` converted to `uint32_t`. */
    method SetValues(n: CInt)
      requires Valid()
      modifies raw
      ensures Fields() == Fixed(INIT_REQUEST, ToU32(n))
    {
      StoreField(raw, 0, INIT_REQUEST);
      ghost var tag := raw[..4];
      StoreField(raw, 4, ToU32(n));
      assert raw[..4] == tag;
    }

    /** `sendTo(sockfd)`: `Type`, then `N`; the first `send` that does not
        take its whole field ends it with that field's message. */
    method SendTo(sock: Socket) returns (o: Outcome)
      requires Valid()
      modifies sock`outbound, sock`sendScript
      ensures var k := Delivered(old(sock.sendScript), [4, 4]);
        (o == Completed <==> k == 2) &&
        (o.Failed? ==> o.what == [ErrSend("InitRequest", "Type"), ErrSend("InitRequest", "N")][k])
      ensures o == Completed ==> sock.outbound == old(sock.outbound) + Encode(Fields())
      ensures old(sock.outbound) <= sock.outbound
    {
      assert [4, 4] == [4] + [4] && [4] == [4] + [];
      o := SendField(sock, raw[..4], ErrSend("InitRequest", "Type"), [4]);
      if o.Failed? {
        return;
      }
      o := SendField(sock, raw[4..8], ErrSend("InitRequest", "N"), []);
      if o.Completed? {
        EncodeFixedImage(raw[..]);
        assert raw[..][..4] == raw[..4] && raw[..][4..8] == raw[4..8];
      }
    }

    /** `receive(sockfd)`: `Type`, then `N`; on success the struct holds
        the frame at the front of the connection and nothing more is taken. */
    method Receive(sock: Socket) returns (o: Outcome)
      requires Valid()
      modifies raw, sock`inbound, sock`recvScript
      ensures var g := Gathered(old(sock.recvScript), |old(sock.inbound)|, [4, 4]);
        (o == Completed <==> g.0 == 2) &&
        (o.Failed? ==> o.what == [ErrRecv("InitRequest", "Type"), ErrRecv("InitRequest", "N")][g.0]) &&
        (o == Completed ==> sock.recvScript == g.1)
      ensures o == Completed ==> Decode(FixedShape, old(sock.inbound)) == Some((Fields(), sock.inbound))
    {
      ghost var inbound0 := sock.inbound;
      assert [4, 4] == [4] + [4] && [4] == [4] + [];
      o := ReceiveField(sock, raw, 0, 4, ErrRecv("InitRequest", "Type"), [4], inbound0);
      if o.Failed? {
        return;
      }
      o := ReceiveField(sock, raw, 4, 4, ErrRecv("InitRequest", "N"), [], inbound0);
      if o.Completed? {
        assert raw[..] == raw[..8];
        DecodeFixedImage(inbound0, raw[..]);
      }
    }
  }

  /** `AckResponse {Type, Length}`: the server's acknowledgement. */
  class AckResponse {
    /** The struct's memory: `Type` at offset 0, `Length` at offset 4. */
    const raw: array<byte>

    /** A struct whose memory starts out holding `image`. */
    constructor (image: seq<byte>)
      requires |image| == 8
      ensures Valid() && raw[..] == image && fresh(raw)
    {
      raw := new byte[8](i requires 0 <= i < 8 => image[i]);
    }

    predicate Valid()
      reads this
    {
      raw.Length == 8
    }

    /** The fields, converted to host byte order. */
    function Fields(): Frame
      requires Valid()
      reads this, raw
    {
      Fixed(BytesToU32(raw[..4]), BytesToU32(raw[4..8]))
    }

    /** `setValues(type, length)`: `length` converted to `uint32_t`. */
    method SetValues(kind: u32, length: CInt)
      requires Valid()
      modifies raw
      ensures Fields() == Fixed(kind, ToU32(length))
    {
      StoreField(raw, 0, kind);
      ghost var tag := raw[..4];
      StoreField(raw, 4, ToU32(length));
      assert raw[..4] == tag;
    }

    /** `sendTo(sockfd)`: `Type`, then `Length`. */
    method SendTo(sock: Socket) returns (o: Outcome)
      requires Valid()
      modifies sock`outbound, sock`sendScript
      ensures var k := Delivered(old(sock.sendScript), [4, 4]);
        (o == Completed <==> k == 2) &&
        (o.Failed? ==> o.what == [ErrSend("AckResponse", "Type"), ErrSend("AckResponse", "Length")][k])
      ensures o == Completed ==> sock.outbound == old(sock.outbound) + Encode(Fields())
      ensures old(sock.outbound) <= sock.outbound
    {
      assert [4, 4] == [4] + [4] && [4] == [4] + [];
      o := SendField(sock, raw[..4], ErrSend("AckResponse", "Type"), [4]);
      if o.Failed? {
        return;
      }
      o := SendField(sock, raw[4..8], ErrSend("AckResponse", "Length"), []);
      if o.Completed? {
        EncodeFixedImage(raw[..]);
        assert raw[..][..4] == raw[..4] && raw[..][4..8] == raw[4..8];
      }
    }

    /** `receive(sockfd)`: `Type`, then `Length`. */
    method Receive(sock: Socket) returns (o: Outcome)
      requires Valid()
      modifies raw, sock`inbound, sock`recvScript
      ensures var g := Gathered(old(sock.recvScript), |old(sock.inbound)|, [4, 4]);
        (o == Completed <==> g.0 == 2) &&
        (o.Failed? ==> o.what == [ErrRecv("AckResponse", "Type"), ErrRecv("AckResponse", "Length")][g.0]) &&
        (o == Completed ==> sock.recvScript == g.1)
      ensures o == Completed ==> Decode(FixedShape, old(sock.inbound)) == Some((Fields(), sock.inbound))
    {
      ghost var inbound0 := sock.inbound;
      assert [4, 4] == [4] + [4] && [4] == [4] + [];
      o := ReceiveField(sock, raw, 0, 4, ErrRecv("AckResponse", "Type"), [4], inbound0);
      if o.Failed? {
        return;
      }
      o := ReceiveField(sock, raw, 4, 4, ErrRecv("AckResponse", "Length"), [], inbound0);
      if o.Completed? {
        assert raw[..] == raw[..8];
        DecodeFixedImage(inbound0, raw[..]);
      }
    }
  }

  /** `HashRequest {Type, Length, Payload}`: one piece of the client's file. */
  class HashRequest {
    /** The memory of `Type` (offset 0) and `Length` (offset 4). */
    const raw: array<byte>
    /** The elements of the `Payload` vector. */
    var Payload: array<byte>

    /** A struct whose fields start out holding `image` and `payload`. */
    constructor (image: seq<byte>, payload: seq<byte>)
      requires |image| == 8
      ensures Valid() && raw[..] == image && Payload[..] == payload && fresh(raw) && fresh(Payload)
    {
      raw := new byte[8](i requires 0 <= i < 8 => image[i]);
      Payload := new byte[|payload|](i requires 0 <= i < |payload| => payload[i]);
    }

    predicate Valid()
      reads this
    {
      raw.Length == 8 && raw != Payload
    }

    /** `ntohl(Length)` is the size of `Payload`. */
    predicate Consistent()
      requires Valid()
      reads this, raw
    {
      BytesToU32(raw[4..8]) == Payload.Length
    }

    /** The fields, converted to host byte order. */
    function Fields(): Frame
      requires Valid() && Consistent()
      reads this, raw, Payload
    {
      Request(BytesToU32(raw[..4]), Payload[..])
    }

    /** `Payload.resize(n)`. */
    method Resize(n: nat)
      requires Valid()
      modifies this`Payload
      ensures Valid() && fresh(Payload)
      ensures Payload[..] == Resized(old(Payload[..]), n)
    {
      var a := new byte[n];
      forall i | 0 <= i < n {
        a[i] := if i < Payload.Length then Payload[i] else 0;
      }
      Payload := a;
    }

    /** `setValues(length, file)`: both header fields are written first;
        a negative `length` then makes `resize` throw; otherwise `Payload`
        takes `length` elements and `fread` fills it from `file`, failing
        when the file runs out first. */
    method SetValues(length: CInt, file: FileStream) returns (o: Outcome)
      requires Valid()
      modifies raw, this`Payload, file
      ensures Valid()
      ensures BytesToU32(raw[..4]) == HASH_REQUEST && BytesToU32(raw[4..8]) == ToU32(length)
      ensures length < 0 ==> o == Failed(LENGTH_ERROR) && Payload == old(Payload) && file.remaining == old(file.remaining)
      ensures length >= 0 ==>
                Consistent() && fresh(Payload) &&
                var count := Min(length, |old(file.remaining)|);
                file.remaining == old(file.remaining)[count..] &&
                Payload[..] == old(file.remaining)[..count] + Resized(old(Payload[..]), length)[count..]
      ensures o == Completed <==> 0 <= length <= |old(file.remaining)|
      ensures o.Failed? && length >= 0 ==> o.what == "Failed to read expected payload from file"
      ensures o == Completed ==> Fields() == Request(HASH_REQUEST, old(file.remaining)[..length])
    {
      StoreField(raw, 0, HASH_REQUEST);
      ghost var tag := raw[..4];
      StoreField(raw, 4, ToU32(length));
      assert raw[..4] == tag;
      if length < 0 {
        return Failed(LENGTH_ERROR);
      }
      ghost var before := Resized(Payload[..], length);
      Resize(length);
      var count := file.Read(Payload, length);
      assert Payload[..] == old(file.remaining)[..count] + before[count..];
      if count != length {
        return Failed("Failed to read expected payload from file");
      }
      o := Completed;
    }

    /** `sendTo(sockfd)`: `Type`, `Length`, then the whole `Payload`. */
    method SendTo(sock: Socket) returns (o: Outcome)
      requires Valid()
      modifies sock`outbound, sock`sendScript
      ensures var k := Delivered(old(sock.sendScript), [4, 4, Payload.Length]);
        (o == Completed <==> k == 3) &&
        (o.Failed? ==> o.what == [ErrSend("HashRequest", "Type"), ErrSend("HashRequest", "Length"),
                                  ErrSend("HashRequest", "Payload")][k])
      ensures o == Completed ==> sock.outbound == old(sock.outbound) + raw[..] + Payload[..]
      ensures o == Completed && Consistent() ==> sock.outbound == old(sock.outbound) + Encode(Fields())
      ensures old(sock.outbound) <= sock.outbound
    {
      ghost var out0 := sock.outbound;
      assert [4, 4, Payload.Length] == [4] + [4, Payload.Length] && [4, Payload.Length] == [4] + [Payload.Length];
      assert [Payload.Length] == [Payload.Length] + [];
      o := SendField(sock, raw[..4], ErrSend("HashRequest", "Type"), [4, Payload.Length]);
      if o.Failed? {
        return;
      }
      o := SendField(sock, raw[4..8], ErrSend("HashRequest", "Length"), [Payload.Length]);
      if o.Failed? {
        return;
      }
      o := SendField(sock, Payload[..], ErrSend("HashRequest", "Payload"), []);
      if o.Completed? {
        assert raw[..4] + raw[4..8] == raw[..];
        AppendThree(out0, raw[..4], raw[4..8], Payload[..]);
        if Consistent() {
          EncodeRequestImage(raw[..], Payload[..]);
          assert raw[..][..4] == raw[..4] && raw[..][4..8] == raw[4..8];
        }
      }
    }

    /** The first two `receiveAny` calls of `receive`: `Type`, then `Length`. */
    method ReceiveHeader(sock: Socket) returns (o: Outcome)
      requires Valid()
      modifies raw, sock`inbound, sock`recvScript
      ensures var g := Gathered(old(sock.recvScript), |old(sock.inbound)|, [4, 4]);
        (o == Completed <==> g.0 == 2) &&
        (o.Failed? ==> o.what == [ErrRecv("HashRequest", "Type"), ErrRecv("HashRequest", "Length")][g.0]) &&
        (o == Completed ==> sock.recvScript == g.1)
      ensures o == Completed ==>
                |old(sock.inbound)| >= 8 && raw[..] == old(sock.inbound)[..8] && sock.inbound == old(sock.inbound)[8..]
    {
      ghost var inbound0 := sock.inbound;
      assert [4, 4] == [4] + [4] && [4] == [4] + [];
      o := ReceiveField(sock, raw, 0, 4, ErrRecv("HashRequest", "Type"), [4], inbound0);
      if o.Failed? {
        return;
      }
      o := ReceiveField(sock, raw, 4, 4, ErrRecv("HashRequest", "Length"), [], inbound0);
      if o.Completed? {
        assert raw[..] == raw[..8];
      }
    }

    /** `receive(sockfd, salt)`: `Type` and `Length` into the struct, then
        the payload of `ntohl(Length)` bytes through `receiveHash`, whose
        chunk buffer starts out holding `stale`. */
    method Receive(sock: Socket, salt: seq<byte>, platform: Platform, stale: seq<byte>) returns (res: Result<Digest>)
      requires Valid() && |stale| == UPDATE_PAYLOAD_SIZE
      modifies raw, sock`inbound, sock`recvScript, platform
      ensures var g := Gathered(old(sock.recvScript), |old(sock.inbound)|, [4, 4]);
        g.0 < 2 ==>
          res == Err([ErrRecv("HashRequest", "Type"), ErrRecv("HashRequest", "Length")][g.0]) &&
          platform.faults == old(platform.faults) && platform.outstanding == old(platform.outstanding)
      ensures var g := Gathered(old(sock.recvScript), |old(sock.inbound)|, [4, 4]);
        g.0 == 2 ==>
          |old(sock.inbound)| >= 8 && raw[..] == old(sock.inbound)[..8] &&
          var size := BytesToU32(raw[4..8]);
          var s := Streamed(stale, old(sock.inbound)[8..], g.1, size);
          (res.Ok? <==> s.Some? && FaultFree(old(platform.faults), CreateDraws(|salt|) + s.value.draws)) &&
          (res.Ok? ==> res.value == if size == 0 then ZERO_DIGEST else Sha256(salt + s.value.fed)) &&
          ReceiveHashFailure(stale, old(sock.inbound)[8..], g.1, size, |salt|, old(platform.faults),
                             ErrRecv("HashRequest", "Payload")) == (if res.Ok? then None else Some(res.what)) &&
          platform.outstanding == old(platform.outstanding) + CreateLeak(old(platform.faults), |salt|)
    {
      var o := ReceiveHeader(sock);
      if o.Failed? {
        return Err(o.what);
      }
      res := ReceiveHash(sock, BytesToU32(raw[4..8]), salt, ErrRecv("HashRequest", "Payload"), platform, stale);
    }

    /** `receive` with the payload hashed as `compute_checksum` hashes it:
        the digest of the salt and exactly the `Length` bytes that follow
        the header. */
    method ReceiveFixed(sock: Socket, salt: seq<byte>, platform: Platform) returns (res: Result<Digest>)
      requires Valid()
      modifies raw, sock`inbound, sock`recvScript, platform
      ensures var g := Gathered(old(sock.recvScript), |old(sock.inbound)|, [4, 4]);
        g.0 < 2 ==>
          res == Err([ErrRecv("HashRequest", "Type"), ErrRecv("HashRequest", "Length")][g.0]) &&
          platform.faults == old(platform.faults)
      ensures var g := Gathered(old(sock.recvScript), |old(sock.inbound)|, [4, 4]);
        g.0 == 2 ==>
          |old(sock.inbound)| >= 8 && raw[..] == old(sock.inbound)[..8] &&
          var size := BytesToU32(raw[4..8]);
          (res.Ok? <==> ChunkGather(g.1, |old(sock.inbound)| - 8, size).Some? &&
                        FaultFree(old(platform.faults), ChecksumDraws(|salt|, size))) &&
          (res.Ok? ==> 8 + size <= |old(sock.inbound)| &&
                       res.value == ChecksumOf(old(sock.inbound)[8..8 + size], salt, old(platform.faults)))
      ensures platform.outstanding == old(platform.outstanding)
    {
      var o := ReceiveHeader(sock);
      if o.Failed? {
        return Err(o.what);
      }
      ghost var after := sock.inbound;
      var size := BytesToU32(raw[4..8]);
      res := ReceiveHashFixed(sock, size, salt, ErrRecv("HashRequest", "Payload"), platform);
      if res.Ok? {
        assert after[..size] == old(sock.inbound)[8..8 + size];
      }
    }
  }

  /** A `HashRequest` that `sendTo` put on the connection, read back by
      `receive` while every `recv` returns all it asks for: both header
      fields arrive, and the digest is the one `compute_checksum` gives for
      the payload and the receiver's salt, with the same checksum calls. */
  lemma ReceiveAfterSendTo(f: Frame, rest: seq<byte>, script: seq<int>, stale: seq<byte>,
                           salt: seq<byte>, faults: seq<bool>)
    requires f.Request? && WellFormed(f) && |f.payload| > 0 && |stale| == UPDATE_PAYLOAD_SIZE
    requires |script| >= 2 && script[0] >= 4 && script[1] >= 4 && FullReads(script[2..], |f.payload|)
    ensures var inbound := Encode(f) + rest;
      var g := Gathered(script, |inbound|, [4, 4]);
      g == (2, script[2..]) && BytesToU32(inbound[4..8]) == |f.payload| &&
      var s := Streamed(stale, inbound[8..], g.1, |f.payload|);
      s.Some? && CreateDraws(|salt|) + s.value.draws == ChecksumDraws(|salt|, |f.payload|) &&
      (FaultFree(faults, ChecksumDraws(|salt|, |f.payload|)) ==>
         Sha256(salt + s.value.fed) == ChecksumOf(f.payload, salt, faults))
  {
    var inbound := Encode(f) + rest;
    AllGathered(script, |inbound|, [4, 4]);
    DecodeEncode(f, rest);
    assert inbound[8..] == f.payload + rest;
    assert inbound[8..][..|f.payload|] == f.payload;
    FullReadsAgreeWithComputeChecksum(stale, inbound[8..], script[2..], |f.payload|, salt, faults);
  }

  /** `HashResponse {Type, I, Hash}`: the digest of one piece and its index. */
  class HashResponse {
    /** The struct's memory: `Type` at offset 0, `I` at 4, `Hash` at 8..40. */
    const raw: array<byte>

    /** A struct whose memory starts out holding `image`. */
    constructor (image: seq<byte>)
      requires |image| == 40
      ensures Valid() && raw[..] == image && fresh(raw)
    {
      raw := new byte[40](i requires 0 <= i < 40 => image[i]);
    }

    predicate Valid()
      reads this
    {
      raw.Length == 40
    }

    /** The fields, converted to host byte order. */
    function Fields(): Frame
      requires Valid()
      reads this, raw
    {
      Response(BytesToU32(raw[..4]), BytesToU32(raw[4..8]), raw[8..40])
    }

    /** `setValues(type, i)`: `Type` and `I`; `Hash` is left as it was. */
    method SetValues(kind: u32, i: CInt)
      requires Valid()
      modifies raw
      ensures Fields() == Response(kind, ToU32(i), old(raw[8..40]))
    {
      StoreField(raw, 0, kind);
      ghost var tag := raw[..4];
      StoreField(raw, 4, ToU32(i));
      assert raw[..4] == tag && raw[8..40] == old(raw[8..40]);
    }

    /** `sendTo(sockfd)`: `Type`, `I`, then the 32 bytes of `Hash`. */
    method SendTo(sock: Socket) returns (o: Outcome)
      requires Valid()
      modifies sock`outbound, sock`sendScript
      ensures var k := Delivered(old(sock.sendScript), [4, 4, 32]);
        (o == Completed <==> k == 3) &&
        (o.Failed? ==> o.what == [ErrSend("HashResponse", "Type"), ErrSend("HashResponse", "Index"),
                                  ErrSend("HashResponse", "Hash")][k])
      ensures o == Completed ==> sock.outbound == old(sock.outbound) + Encode(Fields())
      ensures old(sock.outbound) <= sock.outbound
    {
      ghost var out0 := sock.outbound;
      assert [4, 4, 32] == [4] + [4, 32] && [4, 32] == [4] + [32] && [32] == [32] + [];
      o := SendField(sock, raw[..4], ErrSend("HashResponse", "Type"), [4, 32]);
      if o.Failed? {
        return;
      }
      o := SendField(sock, raw[4..8], ErrSend("HashResponse", "Index"), [32]);
      if o.Failed? {
        return;
      }
      o := SendField(sock, raw[8..40], ErrSend("HashResponse", "Hash"), []);
      if o.Completed? {
        ghost var image := raw[..];
        EncodeResponseImage(image);
        assert image[..4] == raw[..4] && image[4..8] == raw[4..8] && image[8..40] == raw[8..40];
        AppendThree(out0, raw[..4], raw[4..8], raw[8..40]);
      }
    }

    /** `receive(sockfd)`: `Type`, `I`, then the 32 bytes of `Hash`. */
    method Receive(sock: Socket) returns (o: Outcome)
      requires Valid()
      modifies raw, sock`inbound, sock`recvScript
      ensures var g := Gathered(old(sock.recvScript), |old(sock.inbound)|, [4, 4, 32]);
        (o == Completed <==> g.0 == 3) &&
        (o.Failed? ==> o.what == [ErrRecv("HashResponse", "Type"), ErrRecv("HashResponse", "Index"),
                                  ErrRecv("HashResponse", "Hash")][g.0]) &&
        (o == Completed ==> sock.recvScript == g.1)
      ensures o == Completed ==> Decode(ResponseShape, old(sock.inbound)) == Some((Fields(), sock.inbound))
    {
      ghost var inbound0 := sock.inbound;
      assert [4, 4, 32] == [4] + [4, 32] && [4, 32] == [4] + [32] && [32] == [32] + [];
      o := ReceiveField(sock, raw, 0, 4, ErrRecv("HashResponse", "Type"), [4, 32], inbound0);
      if o.Failed? {
        return;
      }
      o := ReceiveField(sock, raw, 4, 4, ErrRecv("HashResponse", "Index"), [32], inbound0);
      if o.Failed? {
        return;
      }
      o := ReceiveField(sock, raw, 8, 32, ErrRecv("HashResponse", "Hash"), [], inbound0);
      if o.Completed? {
        assert raw[..] == raw[..40];
        DecodeResponseImage(inbound0, raw[..]);
      }
    }
  }
}
