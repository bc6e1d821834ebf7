/** `sendAny` and `receiveAny`: one `send` that must take the whole buffer,
    and a loop of `recv` calls that must fill the buffer exactly. The two
    revisions of the program define them with the same bodies. */
module Transfer {
  import opened Bytes
  import opened Io

  /** What a loop of `recv` calls, each asking for what is still missing,
      does with the script: the script left once `need` bytes are gathered,
      or `None` when a call returns 0 or less first. */
  function Gather(script: seq<int>, available: nat, need: nat): Option<seq<int>>
    decreases need
  {
    if need == 0 then Some(script)
    else
      var r := RecvResult(script, available, need);
      if r <= 0 then None else Gather(script[1..], available - r, need - r)
  }

  /** A gather can only succeed when the peer has sent at least `need`
      bytes. Each call uses up one script entry, a non-negative one: what
      is left is the script after its first `calls` entries, where `calls`
      is at least one when bytes are needed, and at most `need`, since
      every call that does not end the loop returns at least one byte. */
  lemma {:induction false} GatherNeedsBytes(script: seq<int>, available: nat, need: nat)
    requires Gather(script, available, need).Some?
    ensures available >= need
    ensures var rest := Gather(script, available, need).value;
      var calls := |script| - |rest|;
      0 <= calls <= need && (need > 0 ==> calls >= 1) && rest == script[calls..] &&
      forall i | 0 <= i < calls :: script[i] >= 0
    decreases need
  {
    if need > 0 {
      var r := RecvResult(script, available, need);
      GatherNeedsBytes(script[1..], available - r, need - r);
      var rest := Gather(script, available, need).value;
      assert rest == Gather(script[1..], available - r, need - r).value;
      assert script[1..][|script[1..]| - |rest|..] == script[|script| - |rest|..];
    }
  }

  /** A single `recv` that delivers everything succeeds. */
  lemma OneFullRead(script: seq<int>, available: nat, need: nat)
    requires need > 0 && script != [] && script[0] >= need && available >= need
    ensures Gather(script, available, need) == Some(script[1..])
  {
    assert RecvResult(script, available, need) == need;
  }

  /** A `recv` returning 0 (the peer closed the connection) before `need` bytes arrived fails the gather. */
  lemma ClosedConnection(script: seq<int>, need: nat)
    requires need > 0 && script != [] && script[0] >= 0
    ensures Gather(script, 0, need) == None
  {
    assert RecvResult(script, 0, need) == 0;
  }

  /** The sum of the sizes of a message's fields. */
  function Sum(sizes: seq<nat>): nat
  {
    if sizes == [] then 0 else sizes[0] + Sum(sizes[1..])
  }

  /** How many of the successive `sendAny` calls for fields of `sizes`
      complete before the first that fails; each makes one `send`. */
  function Delivered(script: seq<int>, sizes: seq<nat>): (k: nat)
    ensures k <= |sizes| && k <= |script|
  {
    if sizes == [] || script == [] || script[0] < sizes[0] then 0
    else 1 + Delivered(script[1..], sizes[1..])
  }

  /** The `sendAny` of the first field of `n :: sizes` fails, or
      completes and leaves the rest to the others. */
  lemma DeliveredStep(script: seq<int>, n: nat, sizes: seq<nat>)
    ensures Delivered(script, [n] + sizes) ==
              if script != [] && script[0] >= n then 1 + Delivered(script[1..], sizes) else 0
  {
    assert ([n] + sizes)[1..] == sizes;
  }

  /** Every `sendAny` of a message completes exactly when each `send`
      takes its whole field. */
  lemma {:induction false} DeliveredAll(script: seq<int>, sizes: seq<nat>)
    ensures Delivered(script, sizes) == |sizes| <==>
              |sizes| <= |script| && forall i | 0 <= i < |sizes| :: script[i] >= sizes[i]
  {
    if sizes != [] && script != [] && script[0] >= sizes[0] {
      DeliveredAll(script[1..], sizes[1..]);
      if |sizes| <= |script| {
        assert forall i | 1 <= i < |sizes| :: script[1..][i - 1] == script[i] && sizes[1..][i - 1] == sizes[i];
      }
    }
  }

  /** Successive `receiveAny` calls for fields of `sizes`: how many
      complete before the first that fails, and the script left after the
      ones that complete. */
  function Gathered(script: seq<int>, available: nat, sizes: seq<nat>): (r: (nat, seq<int>))
    ensures r.0 <= |sizes|
    decreases |sizes|
  {
    if sizes == [] then (0, script)
    else
      match Gather(script, available, sizes[0])
      case None => (0, script)
      case Some(rest) =>
        GatherNeedsBytes(script, available, sizes[0]);
        var r := Gathered(rest, available - sizes[0], sizes[1..]);
        (1 + r.0, r.1)
  }

  /** The `receiveAny` of the first field of `n :: sizes` fails, or
      completes and leaves the rest to the others. */
  lemma GatheredStep(script: seq<int>, available: nat, n: nat, sizes: seq<nat>)
    ensures Gather(script, available, n).None? ==> Gathered(script, available, [n] + sizes) == (0, script)
    ensures Gather(script, available, n).Some? ==>
              available >= n &&
              var r := Gathered(Gather(script, available, n).value, available - n, sizes);
              Gathered(script, available, [n] + sizes) == (1 + r.0, r.1)
  {
    assert ([n] + sizes)[1..] == sizes;
    if Gather(script, available, n).Some? {
      GatherNeedsBytes(script, available, n);
    }
  }

  /** When each `recv` returns the whole field it asks for, every
      `receiveAny` of a message completes, one `recv` each. */
  lemma {:induction false} AllGathered(script: seq<int>, available: nat, sizes: seq<nat>)
    requires available >= Sum(sizes) && |sizes| <= |script|
    requires forall i | 0 <= i < |sizes| :: 0 < sizes[i] <= script[i]
    ensures Gathered(script, available, sizes) == (|sizes|, script[|sizes|..])
  {
    if sizes != [] {
      OneFullRead(script, available, sizes[0]);
      assert forall i | 1 <= i < |sizes| :: script[1..][i - 1] == script[i] && sizes[1..][i - 1] == sizes[i];
      AllGathered(script[1..], available - sizes[0], sizes[1..]);
      assert script[1..][|sizes| - 1..] == script[|sizes|..];
    }
  }

  /** `sendAny(sockfd, data, size, errMsg)`: completes iff `send` reports
      every byte sent, and otherwise fails with `errMsg`; the bytes the
      transport took are on the stream either way. */
  method SendAny(sock: Socket, data: seq<byte>, errMsg: string) returns (o: Outcome)
    modifies sock`outbound, sock`sendScript
    ensures o == Completed <==> old(sock.sendScript) != [] && old(sock.sendScript)[0] >= |data|
    ensures o.Failed? ==> o.what == errMsg
    ensures o == Completed ==> sock.outbound == old(sock.outbound) + data
    ensures old(sock.outbound) <= sock.outbound
    ensures sock.sendScript == Tail(old(sock.sendScript))
  {
    var sent := sock.Send(data);
    if sent != |data| {
      return Failed(errMsg);
    }
    assert data[..sent] == data;
    o := Completed;
  }

  /** `receiveAny(sockfd, buf + at, size, errMsg)`: reads until exactly
      `size` bytes are in `buf[at..at + size]`, in arrival order; a `recv`
      that returns 0 or less fails it with `errMsg`. */
  method ReceiveAny(sock: Socket, buf: array<byte>, at: nat, size: nat, errMsg: string) returns (o: Outcome)
    requires at + size <= buf.Length
    modifies sock`inbound, sock`recvScript, buf
    ensures o == Completed <==> Gather(old(sock.recvScript), |old(sock.inbound)|, size).Some?
    ensures o.Failed? ==> o.what == errMsg
    ensures o == Completed ==> size <= |old(sock.inbound)| && sock.inbound == old(sock.inbound)[size..]
    ensures o == Completed ==> forall i | at <= i < at + size :: buf[i] == old(sock.inbound)[i - at]
    ensures forall i | 0 <= i < buf.Length && !(at <= i < at + size) :: buf[i] == old(buf[i])
    ensures o == Completed ==> sock.recvScript == Gather(old(sock.recvScript), |old(sock.inbound)|, size).value
  {
    ghost var script0, inbound0, buf0 := sock.recvScript, sock.inbound, buf[..];
    var total := 0;
    while total < size
      invariant 0 <= total <= size
      invariant total <= |inbound0| && sock.inbound == inbound0[total..]
      invariant forall i | at <= i < at + total :: buf[i] == inbound0[i - at]
      invariant forall i | 0 <= i < buf.Length && !(at <= i < at + total) :: buf[i] == buf0[i]
      invariant Gather(script0, |inbound0|, size) == Gather(sock.recvScript, |sock.inbound|, size - total)
      decreases size - total
    {
      ghost var script, available := sock.recvScript, sock.inbound;
      var received := sock.Recv(buf, at + total, size - total);
      if received <= 0 {
        return Failed(errMsg);
      }
      assert sock.recvScript == script[1..] && |sock.inbound| == |available| - received;
      total := total + received;
    }
    o := Completed;
  }

  /** `sendAny` of one field of a struct, the others being `sizes`: the
      count of fields `Delivered` advances by one exactly when it completes. */
  method SendField(sock: Socket, data: seq<byte>, errMsg: string, ghost sizes: seq<nat>) returns (o: Outcome)
    modifies sock`outbound, sock`sendScript
    ensures Delivered(old(sock.sendScript), [|data|] + sizes) ==
              if o == Completed then 1 + Delivered(sock.sendScript, sizes) else 0
    ensures o.Failed? ==> o.what == errMsg
    ensures o == Completed ==> sock.outbound == old(sock.outbound) + data
    ensures old(sock.outbound) <= sock.outbound
  {
    DeliveredStep(sock.sendScript, |data|, sizes);
    o := SendAny(sock, data, errMsg);
  }

  /** `receiveAny` of one field, at offset `at`, of a struct whose memory
      is `buf` and which is read in order from `stream`, the fields after it
      being `sizes`: the count of fields `Gathered` advances by one exactly
      when it completes, and the struct then holds `stream` up to the end of
      this field. */
  method ReceiveField(sock: Socket, buf: array<byte>, at: nat, size: nat, errMsg: string,
                      ghost sizes: seq<nat>, ghost stream: seq<byte>)
    returns (o: Outcome)
    requires at + size <= buf.Length
    requires at <= |stream| && buf[..at] == stream[..at] && sock.inbound == stream[at..]
    modifies sock`inbound, sock`recvScript, buf
    ensures var g := Gathered(sock.recvScript, |sock.inbound|, sizes);
      Gathered(old(sock.recvScript), |old(sock.inbound)|, [size] + sizes) ==
        if o == Completed then (1 + g.0, g.1) else (0, old(sock.recvScript))
    ensures o.Failed? ==> o.what == errMsg
    ensures o == Completed ==>
              at + size <= |stream| && buf[..at + size] == stream[..at + size] && sock.inbound == stream[at + size..]
  {
    GatheredStep(sock.recvScript, |sock.inbound|, size, sizes);
    o := ReceiveAny(sock, buf, at, size, errMsg);
    if o == Completed {
      assert buf[..at + size] == stream[..at + size];
    }
  }
}
