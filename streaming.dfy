/** `receiveHash` of src/requests.cpp: the payload of a `HashRequest` is
    read off the connection in pieces of at most `UPDATE_PAYLOAD_SIZE`
    bytes and fed to a checksum context as it arrives. */
module Streaming {
  import opened Bytes
  import opened Io
  import opened Checksum
  import opened Transfer

  /** What a receive loop fed to the checksum context after the salt, and
      how many fallible checksum calls that took. */
  datatype Absorption = Absorption(fed: seq<byte>, draws: nat)

  /** `a` preceded by bytes fed and calls made before it. */
  function After(fed: seq<byte>, draws: nat, a: Option<Absorption>): Option<Absorption>
  {
    match a
    case None => None
    case Some(x) => Some(Absorption(fed + x.fed, draws + x.draws))
  }

  lemma AfterAfter(fed1: seq<byte>, draws1: nat, fed2: seq<byte>, draws2: nat, a: Option<Absorption>)
    ensures After(fed1, draws1, After(fed2, draws2, a)) == After(fed1 + fed2, draws1 + draws2, a)
  {
    if a.Some? {
      assert fed1 + (fed2 + a.value.fed) == fed1 + fed2 + a.value.fed;
    }
  }

  /** What the loop of `receiveHash`, as written, feeds to the context
      when `left` bytes are still to come, the chunk buffer holds `buffer`
      and the connection is in the state (`inbound`, `script`): each `recv`
      asks for `min(CHUNK, left)` bytes into the start of the buffer; a
      negative result ends the loop with an error (`None`); a read that does
      not complete the payload, even a short or empty one, is followed by an
      update with the whole buffer; the read that completes it by a finish
      with the bytes it returned. */
  function Streamed(buffer: seq<byte>, inbound: seq<byte>, script: seq<int>, left: nat): Option<Absorption>
    requires |buffer| == UPDATE_PAYLOAD_SIZE
    decreases |script|
  {
    if left == 0 then Some(Absorption([], 0))
    else
      var r := RecvResult(script, |inbound|, Min(UPDATE_PAYLOAD_SIZE, left));
      if r < 0 then None
      else
        var next := inbound[..r] + buffer[r..];
        if r < left then After(next, 1, Streamed(next, inbound[r..], script[1..], left - r))
        else Some(Absorption(next[..r], FinishDraws(r)))
  }

  const UPDATE_FAILED := "checksum_update failed"
  const FINISH_FAILED := "checksum_finish failed"
  const CREATE_FAILED := "Failed to create checksum context"

  /** The message the loop of `receiveHash` as written stops with when the
      checksum calls draw their failures from `faults`, or `None` when it
      completes: `errMsg` for a failed `recv`, the update message when the
      update of a turn that leaves bytes to come fails, the finish message
      when the finish of the last turn fails; the first of these ends it. */
  function StreamFailure(buffer: seq<byte>, inbound: seq<byte>, script: seq<int>, left: nat,
                         faults: seq<bool>, errMsg: string): Option<string>
    requires |buffer| == UPDATE_PAYLOAD_SIZE
    decreases |script|
  {
    if left == 0 then None
    else
      var r := RecvResult(script, |inbound|, Min(UPDATE_PAYLOAD_SIZE, left));
      if r < 0 then Some(errMsg)
      else if r < left then
        if Fails(faults) then Some(UPDATE_FAILED)
        else StreamFailure(inbound[..r] + buffer[r..], inbound[r..], script[1..], left - r, Tail(faults), errMsg)
      else if FaultFree(faults, FinishDraws(r)) then None
      else Some(FINISH_FAILED)
  }

  /** The loop stops without a message exactly when every `recv` succeeds
      and none of the checksum calls `Streamed` counts fails. */
  lemma {:induction false} StreamFailureNone(buffer: seq<byte>, inbound: seq<byte>, script: seq<int>, left: nat,
                                             faults: seq<bool>, errMsg: string)
    requires |buffer| == UPDATE_PAYLOAD_SIZE
    ensures var s := Streamed(buffer, inbound, script, left);
      StreamFailure(buffer, inbound, script, left, faults, errMsg) == None <==> s.Some? && FaultFree(faults, s.value.draws)
    decreases |script|
  {
    if left > 0 {
      var r := RecvResult(script, |inbound|, Min(UPDATE_PAYLOAD_SIZE, left));
      if 0 <= r < left {
        var next := inbound[..r] + buffer[r..];
        StreamFailureNone(next, inbound[r..], script[1..], left - r, Tail(faults), errMsg);
        var rest := Streamed(next, inbound[r..], script[1..], left - r);
        if rest.Some? {
          FaultFreeSplit(faults, 1, rest.value.draws);
          assert Drop(faults, 1) == Tail(faults);
        }
      }
    }
  }

  /** One unfolding of `Streamed` for a read that leaves bytes to come. */
  lemma UnfoldUpdate(buffer: seq<byte>, inbound: seq<byte>, script: seq<int>, left: nat, r: nat)
    requires |buffer| == UPDATE_PAYLOAD_SIZE && r < left
    requires r == RecvResult(script, |inbound|, Min(UPDATE_PAYLOAD_SIZE, left))
    ensures Streamed(buffer, inbound, script, left) ==
              After(inbound[..r] + buffer[r..], 1, Streamed(inbound[..r] + buffer[r..], inbound[r..], script[1..], left - r))
  {
  }

  /** One unfolding of `Streamed` for the read that completes the payload. */
  lemma UnfoldFinish(buffer: seq<byte>, inbound: seq<byte>, script: seq<int>, left: nat, r: int)
    requires |buffer| == UPDATE_PAYLOAD_SIZE && 0 < left <= r
    requires r == RecvResult(script, |inbound|, Min(UPDATE_PAYLOAD_SIZE, left))
    ensures r == left && Streamed(buffer, inbound, script, left) == Some(Absorption((inbound[..r] + buffer[r..])[..r], FinishDraws(r)))
  {
  }

  /** A turn whose `recv` fails ends the loop with an error. */
  lemma TurnFails(buffer: seq<byte>, inbound: seq<byte>, script: seq<int>, left: nat)
    requires |buffer| == UPDATE_PAYLOAD_SIZE && left > 0
    requires RecvResult(script, |inbound|, Min(UPDATE_PAYLOAD_SIZE, left)) < 0
    ensures Streamed(buffer, inbound, script, left) == None
  {
  }

  /** A turn that leaves bytes to come feeds the whole buffer, whose first
      `r` bytes are the ones just read, and the loop carries on with it. */
  lemma TurnUpdates(goal: Option<Absorption>, fed: seq<byte>, draws: nat,
                    buffer: seq<byte>, inbound: seq<byte>, script: seq<int>, left: nat, r: nat)
    requires |buffer| == UPDATE_PAYLOAD_SIZE && r < left
    requires r == RecvResult(script, |inbound|, Min(UPDATE_PAYLOAD_SIZE, left))
    requires goal == After(fed, draws, Streamed(buffer, inbound, script, left))
    ensures goal == After(fed + (inbound[..r] + buffer[r..]), draws + 1,
                          Streamed(inbound[..r] + buffer[r..], inbound[r..], script[1..], left - r))
    ensures goal.Some? ==> goal.value.draws > draws
  {
    UnfoldUpdate(buffer, inbound, script, left, r);
    var next := inbound[..r] + buffer[r..];
    AfterAfter(fed, draws, next, 1, Streamed(next, inbound[r..], script[1..], left - r));
  }

  /** The turn that completes the payload feeds exactly the bytes it read. */
  lemma TurnFinishes(goal: Option<Absorption>, fed: seq<byte>, draws: nat,
                     buffer: seq<byte>, inbound: seq<byte>, script: seq<int>, left: nat, r: int)
    requires |buffer| == UPDATE_PAYLOAD_SIZE && 0 < left <= r
    requires r == RecvResult(script, |inbound|, Min(UPDATE_PAYLOAD_SIZE, left))
    requires goal == After(fed, draws, Streamed(buffer, inbound, script, left))
    ensures r == left && goal == Some(Absorption(fed + inbound[..r], draws + FinishDraws(r)))
  {
    UnfoldFinish(buffer, inbound, script, left, r);
    assert (inbound[..r] + buffer[r..])[..r] == inbound[..r];
  }

  /** Every `recv` of the loop returns all it asked for. */
  predicate FullReads(script: seq<int>, left: nat)
    decreases left
  {
    left == 0 ||
    (script != [] && script[0] >= Min(UPDATE_PAYLOAD_SIZE, left) &&
     FullReads(script[1..], left - Min(UPDATE_PAYLOAD_SIZE, left)))
  }

  /** A full read that leaves bytes to come fills the buffer with the next
      `UPDATE_PAYLOAD_SIZE` bytes of the stream. */
  lemma FullReadContinues(buffer: seq<byte>, inbound: seq<byte>, script: seq<int>, left: nat)
    requires |buffer| == UPDATE_PAYLOAD_SIZE < left
    requires FullReads(script, left) && |inbound| >= left
    ensures FullReads(script[1..], left - UPDATE_PAYLOAD_SIZE)
    ensures Streamed(buffer, inbound, script, left) ==
              After(inbound[..UPDATE_PAYLOAD_SIZE], 1,
                    Streamed(inbound[..UPDATE_PAYLOAD_SIZE], inbound[UPDATE_PAYLOAD_SIZE..], script[1..], left - UPDATE_PAYLOAD_SIZE))
  {
    var r := RecvResult(script, |inbound|, UPDATE_PAYLOAD_SIZE);
    assert r == UPDATE_PAYLOAD_SIZE;
    UnfoldUpdate(buffer, inbound, script, left, r);
    assert inbound[..r] + buffer[r..] == inbound[..UPDATE_PAYLOAD_SIZE];
  }

  /** A full read of the last `left` bytes ends the loop with them. */
  lemma FullReadEnds(buffer: seq<byte>, inbound: seq<byte>, script: seq<int>, left: nat)
    requires |buffer| == UPDATE_PAYLOAD_SIZE && 0 < left <= UPDATE_PAYLOAD_SIZE
    requires FullReads(script, left) && |inbound| >= left
    ensures Streamed(buffer, inbound, script, left) == Some(Absorption(inbound[..left], FinishDraws(left)))
  {
    var r := RecvResult(script, |inbound|, left);
    assert r == left;
    UnfoldFinish(buffer, inbound, script, left, r);
    assert (inbound[..r] + buffer[r..])[..r] == inbound[..left];
  }

  /** With full reads the loop feeds exactly the payload, whatever the
      buffer held before, and makes as many calls as `compute_checksum`. */
  lemma {:induction false} FullReadsFeedPayload(buffer: seq<byte>, inbound: seq<byte>, script: seq<int>, left: nat)
    requires |buffer| == UPDATE_PAYLOAD_SIZE && left > 0
    requires FullReads(script, left) && |inbound| >= left
    ensures Streamed(buffer, inbound, script, left) ==
              Some(Absorption(inbound[..left], FullChunks(left) + FinishDraws(Remainder(left))))
    decreases left
  {
    var C := UPDATE_PAYLOAD_SIZE;
    if left > C {
      FullReadContinues(buffer, inbound, script, left);
      FullReadsFeedPayload(inbound[..C], inbound[C..], script[1..], left - C);
      assert inbound[..left] == inbound[..C] + inbound[C..][..left - C];
      assert FullChunks(left) == 1 + FullChunks(left - C) && Remainder(left) == Remainder(left - C);
    } else {
      FullReadEnds(buffer, inbound, script, left);
      if left == C {
        assert FullChunks(left - C) == 0 && Remainder(left - C) == 0;
      }
    }
  }

  /** `buffer` written `n` times in a row. */
  function Repeated(buffer: seq<byte>, n: nat): seq<byte>
  {
    if n == 0 then [] else buffer + Repeated(buffer, n - 1)
  }

  /** The peer has closed the connection while `left` bytes are still due:
      each `recv` that does not fail returns 0, `total` stays where it is
      and the turn feeds the same stale buffer again. After `n` such turns
      the loop is in the state it started from, so on a connection whose
      `recv` keeps returning 0 it never ends. */
  lemma {:induction false} PeerClosedRepeats(buffer: seq<byte>, script: seq<int>, left: nat, n: nat)
    requires |buffer| == UPDATE_PAYLOAD_SIZE && left > 0 && n <= |script|
    requires forall i | 0 <= i < n :: script[i] >= 0
    ensures Streamed(buffer, [], script, left) ==
              After(Repeated(buffer, n), n, Streamed(buffer, [], script[n..], left))
    decreases n
  {
    if n == 0 {
      var s := Streamed(buffer, [], script, left);
      if s.Some? {
        assert [] + s.value.fed == s.value.fed;
      }
    } else {
      PeerClosedRepeats(buffer, script[1..], left, n - 1);
      assert RecvResult(script, 0, Min(UPDATE_PAYLOAD_SIZE, left)) == 0;
      UnfoldUpdate(buffer, [], script, left, 0);
      assert [][..0] + buffer[0..] == buffer;
      assert script[1..][n - 1..] == script[n..];
      AfterAfter(buffer, 1, Repeated(buffer, n - 1), n - 1, Streamed(buffer, [], script[n..], left));
    }
  }

  /** The model's `recv` script is finite, so where the program keeps
      reading 0 from a closed connection the modelled loop runs out of
      script and stops with an error. */
  lemma PeerClosedCutOff(buffer: seq<byte>, script: seq<int>, left: nat)
    requires |buffer| == UPDATE_PAYLOAD_SIZE && left > 0
    requires forall i | 0 <= i < |script| :: script[i] >= 0
    ensures Streamed(buffer, [], script, left) == None
  {
    PeerClosedRepeats(buffer, script, left, |script|);
  }

  /** A short read before the last one updates with bytes that did not arrive in it. */
  lemma StaleBufferOnShortRead(buffer: seq<byte>, payload: seq<byte>)
    requires |buffer| == UPDATE_PAYLOAD_SIZE >= 2 && |payload| == UPDATE_PAYLOAD_SIZE
    ensures var s := Streamed(buffer, payload, [1, UPDATE_PAYLOAD_SIZE - 1], UPDATE_PAYLOAD_SIZE);
      s == Some(Absorption(payload[..1] + buffer[1..] + payload[1..], 3)) && s.value.fed != payload
  {
    var C := UPDATE_PAYLOAD_SIZE;
    assert RecvResult([1, C - 1], C, C) == 1;
    var next := payload[..1] + buffer[1..];
    assert RecvResult([C - 1], C - 1, C - 1) == C - 1;
    assert payload[1..][..C - 1] + next[C - 1..] == payload[1..] + next[C - 1..];
    assert (payload[1..][..C - 1] + next[C - 1..])[..C - 1] == payload[1..];
    assert |next + payload[1..]| == 2 * C - 1 != |payload|;
  }

  /** The update of a turn that leaves the payload incomplete: the whole
      chunk buffer goes to the context, as one fallible call; `rest` is
      what the loop feeds after this turn. */
  method AbsorbBuffer(ctx: ChecksumCtx, buffer: array<byte>,
                      ghost goal: Option<Absorption>, ghost rest: Option<Absorption>, ghost fed: seq<byte>,
                      ghost draws: nat, ghost faults0: seq<bool>, ghost absorbed0: seq<byte>)
    returns (o: Outcome, ghost fed': seq<byte>, ghost draws': nat)
    requires buffer.Length == UPDATE_PAYLOAD_SIZE
    requires ctx.Valid() && !ctx.finalized && ctx.absorbed == absorbed0 + fed
    requires goal == After(fed + buffer[..], draws + 1, rest)
    requires FaultFree(faults0, draws) && ctx.platform.faults == Drop(faults0, draws)
    modifies ctx`absorbed, ctx.platform`faults
    ensures o.Failed? <==> Fails(old(ctx.platform.faults))
    ensures o.Failed? ==> o.what == UPDATE_FAILED && !(goal.Some? && FaultFree(faults0, goal.value.draws))
    ensures o == Completed ==> ctx.platform.faults == Tail(old(ctx.platform.faults))
    ensures o == Completed ==>
              goal == After(fed', draws', rest) && !ctx.finalized && ctx.absorbed == absorbed0 + fed' &&
              FaultFree(faults0, draws') && ctx.platform.faults == Drop(faults0, draws')
  {
    var rc := ctx.Update(buffer[..]);
    if rc != 0 {
      if goal.Some? {
        FailingDraw(faults0, draws, goal.value.draws);
      }
      return Failed(UPDATE_FAILED), fed, draws;
    }
    SucceedingDraw(faults0, draws);
    o, fed', draws' := Completed, fed + buffer[..], draws + 1;
  }

  /** The finish of the turn that completes the payload with the `received`
      bytes at the start of the buffer. */
  method FinishBuffer(ctx: ChecksumCtx, buffer: array<byte>, digest: array<byte>, received: nat,
                      ghost goal: Option<Absorption>, ghost fed: seq<byte>,
                      ghost draws: nat, ghost faults0: seq<bool>, ghost absorbed0: seq<byte>)
    returns (o: Outcome, ghost fed': seq<byte>, ghost draws': nat)
    requires received <= buffer.Length && digest.Length == 32 && buffer != digest
    requires ctx.Valid() && !ctx.finalized && ctx.absorbed == absorbed0 + fed
    requires goal == Some(Absorption(fed + buffer[..received], draws + FinishDraws(received)))
    requires FaultFree(faults0, draws) && ctx.platform.faults == Drop(faults0, draws)
    modifies digest, ctx`absorbed, ctx`finalized, ctx.platform`faults
    ensures o.Failed? <==> !FaultFree(old(ctx.platform.faults), FinishDraws(received))
    ensures o.Failed? ==> o.what == FINISH_FAILED && !FaultFree(faults0, goal.value.draws)
    ensures o == Completed ==>
              goal == Some(Absorption(fed', draws')) && digest[..] == Sha256(absorbed0 + fed') &&
              FaultFree(faults0, draws') && ctx.platform.faults == Drop(faults0, draws')
  {
    ghost var last := buffer[..received];
    var rc := ctx.Finish(buffer[..received], digest);
    FaultFreeSplit(faults0, draws, FinishDraws(received));
    if rc != 0 {
      return Failed(FINISH_FAILED), fed, draws;
    }
    assert absorbed0 + fed + last == absorbed0 + (fed + last);
    o, fed', draws' := Completed, fed + last, draws + FinishDraws(received);
  }

  /** The body of the loop of `receiveHash` as written, with `total` bytes
      of `size` received so far: one `recv` of `min(CHUNK, size - total)`
      bytes into the start of `buffer`; then, unless it failed, an update
      with the whole buffer when the payload is still incomplete, or the
      finish with the bytes just received when it is complete. The ghost
      parameters carry the loop's bookkeeping: `goal` is what the whole loop
      feeds, of which `fed` has gone into the context (after `absorbed0`)
      in `draws` checksum calls since the fault sequence was `faults0`. */
  method ReceiveChunk(sock: Socket, ctx: ChecksumCtx, buffer: array<byte>, digest: array<byte>,
                      size: nat, total: nat, errMsg: string,
                      ghost goal: Option<Absorption>, ghost fed: seq<byte>, ghost draws: nat,
                      ghost faults0: seq<bool>, ghost absorbed0: seq<byte>)
    returns (o: Outcome, received: int, ghost fed': seq<byte>, ghost draws': nat)
    requires total < size && buffer.Length == UPDATE_PAYLOAD_SIZE && digest.Length == 32 && buffer != digest
    requires ctx.Valid() && !ctx.finalized && ctx.absorbed == absorbed0 + fed
    requires goal == After(fed, draws, Streamed(buffer[..], sock.inbound, sock.recvScript, size - total))
    requires FaultFree(faults0, draws) && ctx.platform.faults == Drop(faults0, draws)
    modifies sock`inbound, sock`recvScript, buffer, digest, ctx`absorbed, ctx`finalized, ctx.platform`faults
    ensures var f := StreamFailure(old(buffer[..]), old(sock.inbound), old(sock.recvScript), size - total,
                                   old(ctx.platform.faults), errMsg);
      (o.Failed? ==> f == Some(o.what)) &&
      (o == Completed && total + received < size ==>
         f == StreamFailure(buffer[..], sock.inbound, sock.recvScript, size - total - received, ctx.platform.faults, errMsg)) &&
      (o == Completed && total + received == size ==> f == None)
    ensures o.Failed? ==> !(goal.Some? && FaultFree(faults0, goal.value.draws))
    ensures o == Completed ==>
              0 <= received <= |old(sock.inbound)| && total + received <= size &&
              sock.inbound == old(sock.inbound)[received..] &&
              |sock.recvScript| < |old(sock.recvScript)| &&
              FaultFree(faults0, draws') && ctx.platform.faults == Drop(faults0, draws')
    ensures o == Completed && total + received < size ==>
              goal == After(fed', draws', Streamed(buffer[..], sock.inbound, sock.recvScript, size - total - received)) &&
              !ctx.finalized && ctx.absorbed == absorbed0 + fed' && digest[..] == old(digest[..])
    ensures o == Completed && total + received == size ==>
              goal == Some(Absorption(fed', draws')) && digest[..] == Sha256(absorbed0 + fed')
  {
    ghost var before, available, script := buffer[..], sock.inbound, sock.recvScript;
    var toRead := Min(UPDATE_PAYLOAD_SIZE, size - total);
    received := sock.Recv(buffer, 0, toRead);
    if received < 0 {
      TurnFails(before, available, script, size - total);
      return Failed(errMsg), received, fed, draws;
    }
    ghost var next := available[..received] + before[received..];
    assert buffer[..] == next;
    if total + received < size {
      TurnUpdates(goal, fed, draws, before, available, script, size - total, received);
      o, fed', draws' := AbsorbBuffer(ctx, buffer, goal, Streamed(next, available[received..], script[1..], size - total - received),
                                      fed, draws, faults0, absorbed0);
    } else {
      TurnFinishes(goal, fed, draws, before, available, script, size - total, received);
      assert buffer[..received] == available[..received];
      o, fed', draws' := FinishBuffer(ctx, buffer, digest, received, goal, fed, draws, faults0, absorbed0);
    }
  }

  /** The `while (total < size)` loop of `receiveHash` as written, reading
      into the chunk buffer `buffer` and driving `ctx`. Specified by
      `Streamed`: it completes iff every `recv` succeeds and no checksum call
      fails, and then `digest` holds the digest of everything `ctx` absorbed
      (it is untouched when `size == 0`); otherwise it stops with the
      message the source throws. */
  method FeedPayload(sock: Socket, ctx: ChecksumCtx, buffer: array<byte>, digest: array<byte>, size: nat, errMsg: string)
    returns (o: Outcome)
    requires buffer.Length == UPDATE_PAYLOAD_SIZE && digest.Length == 32 && buffer != digest
    requires ctx.Valid() && !ctx.finalized
    modifies sock`inbound, sock`recvScript, buffer, digest, ctx`absorbed, ctx`finalized, ctx.platform`faults
    ensures var s := Streamed(old(buffer[..]), old(sock.inbound), old(sock.recvScript), size);
      o == Completed <==> s.Some? && FaultFree(old(ctx.platform.faults), s.value.draws)
    ensures o == Completed ==>
              var s := Streamed(old(buffer[..]), old(sock.inbound), old(sock.recvScript), size);
              size <= |old(sock.inbound)| && sock.inbound == old(sock.inbound)[size..] &&
              digest[..] == if size == 0 then old(digest[..]) else Sha256(old(ctx.absorbed) + s.value.fed)
    ensures StreamFailure(old(buffer[..]), old(sock.inbound), old(sock.recvScript), size, old(ctx.platform.faults), errMsg) ==
              if o == Completed then None else Some(o.what)
  {
    ghost var faults0, inbound0, absorbed0 := ctx.platform.faults, sock.inbound, ctx.absorbed;
    ghost var goal := Streamed(buffer[..], inbound0, sock.recvScript, size);
    ghost var failure := StreamFailure(buffer[..], inbound0, sock.recvScript, size, faults0, errMsg);
    ghost var fed: seq<byte>, draws: nat := [], 0;
    assert After([], 0, goal) == goal by {
      if goal.Some? {
        assert [] + goal.value.fed == goal.value.fed;
      }
    }
    assert absorbed0 + [] == absorbed0;
    var total := 0;
    while total < size
      invariant 0 <= total <= size && total <= |inbound0| && sock.inbound == inbound0[total..]
      invariant total < size ==> goal == After(fed, draws, Streamed(buffer[..], sock.inbound, sock.recvScript, size - total))
      invariant total == size ==> goal == Some(Absorption(fed, draws))
      invariant total < size ==> !ctx.finalized && ctx.absorbed == absorbed0 + fed
      invariant total < size || size == 0 ==> digest[..] == old(digest[..])
      invariant total == size > 0 ==> digest[..] == Sha256(absorbed0 + fed)
      invariant FaultFree(faults0, draws) && ctx.platform.faults == Drop(faults0, draws)
      invariant total < size ==>
                  failure == StreamFailure(buffer[..], sock.inbound, sock.recvScript, size - total, ctx.platform.faults, errMsg)
      invariant total == size ==> failure == None
      decreases |sock.recvScript|
    {
      var received;
      o, received, fed, draws := ReceiveChunk(sock, ctx, buffer, digest, size, total, errMsg, goal, fed, draws, faults0, absorbed0);
      if o.Failed? {
        return;
      }
      total := total + received;
    }
    o := Completed;
  }

  /** A new array holding `s`. */
  method Filled(s: seq<byte>) returns (a: array<byte>)
    ensures fresh(a) && a[..] == s
  {
    a := new byte[|s|];
    forall i | 0 <= i < |s| {
      a[i] := s[i];
    }
  }

  /** The message `receiveHash` as written throws, or `None` when it returns
      a digest: the creation message when `checksum_create` fails, otherwise
      the message the receive loop stops with. */
  function ReceiveHashFailure(stale: seq<byte>, inbound: seq<byte>, script: seq<int>, size: nat,
                              saltLen: nat, faults: seq<bool>, errMsg: string): Option<string>
    requires |stale| == UPDATE_PAYLOAD_SIZE
  {
    if !FaultFree(faults, CreateDraws(saltLen)) then Some(CREATE_FAILED)
    else StreamFailure(stale, inbound, script, size, Drop(faults, CreateDraws(saltLen)), errMsg)
  }

  /** `receiveHash(sockfd, size, salt, errMsg)` as written. The chunk
      buffer starts with the unspecified bytes `stale`. The result is
      specified by `Streamed`: the digest of the salt and what the loop fed
      (the all-zero array when `size == 0`), or the message of the first
      call that failed. The context is destroyed on every path after its
      creation; a creation that fails after its first `malloc` leaves the
      EVP context allocated. */
  method ReceiveHash(sock: Socket, size: u32, salt: seq<byte>, errMsg: string, platform: Platform, stale: seq<byte>)
    returns (res: Result<Digest>)
    requires |stale| == UPDATE_PAYLOAD_SIZE
    modifies sock`inbound, sock`recvScript, platform
    ensures var s := Streamed(stale, old(sock.inbound), old(sock.recvScript), size);
      res.Ok? <==> s.Some? && FaultFree(old(platform.faults), CreateDraws(|salt|) + s.value.draws)
    ensures res.Ok? ==>
              res.value == if size == 0 then ZERO_DIGEST
                           else Sha256(salt + Streamed(stale, old(sock.inbound), old(sock.recvScript), size).value.fed)
    ensures ReceiveHashFailure(stale, old(sock.inbound), old(sock.recvScript), size, |salt|, old(platform.faults), errMsg) ==
              if res.Ok? then None else Some(res.what)
    ensures res.Ok? ==> size <= |old(sock.inbound)| && sock.inbound == old(sock.inbound)[size..]
    ensures platform.outstanding == old(platform.outstanding) + CreateLeak(old(platform.faults), |salt|)
  {
    ghost var faults0 := platform.faults;
    ghost var goal := Streamed(stale, sock.inbound, sock.recvScript, size);
    var digest := Filled(ZERO_DIGEST);
    var buffer := Filled(stale);
    var ctx := ChecksumCtx.CreateAsWritten(salt, platform);
    if ctx == null {
      if goal.Some? {
        FaultFreeSplit(faults0, CreateDraws(|salt|), goal.value.draws);
      }
      return Err(CREATE_FAILED);
    }
    var o := FeedPayload(sock, ctx, buffer, digest, size, errMsg);
    if goal.Some? {
      FaultFreeSplit(faults0, CreateDraws(|salt|), goal.value.draws);
    }
    var _ := ctx.Destroy();
    if o.Failed? {
      return Err(o.what);
    }
    res := Ok(digest[..]);
  }

  /** When every `recv` returns all it asked for and the payload is not
      empty, `receiveHash` as written agrees with `compute_checksum` on the
      payload received: it succeeds exactly when `compute_checksum` would
      (the same calls, in the same number), and then with the same digest of
      the salt and the payload. An empty payload is excluded because the
      code as written returns the all-zero digest for it without calling
      `checksum_finish` (Findings row 3 of README.md). */
  lemma FullReadsAgreeWithComputeChecksum(stale: seq<byte>, inbound: seq<byte>, script: seq<int>, size: nat,
                                          salt: seq<byte>, faults: seq<bool>)
    requires |stale| == UPDATE_PAYLOAD_SIZE && size > 0
    requires FullReads(script, size) && |inbound| >= size
    ensures var s := Streamed(stale, inbound, script, size);
      s.Some? && CreateDraws(|salt|) + s.value.draws == ChecksumDraws(|salt|, size) &&
      (FaultFree(faults, ChecksumDraws(|salt|, size)) ==> Sha256(salt + s.value.fed) == ChecksumOf(inbound[..size], salt, faults))
  {
    FullReadsFeedPayload(stale, inbound, script, size);
  }

  /** What the receive loop of the corrected `receiveHash` does with the
      script: the payload is gathered as `receiveAny` would, in pieces of
      `UPDATE_PAYLOAD_SIZE` bytes and one shorter remainder (possibly
      empty); the script left after the last piece, or `None` when a `recv`
      returns 0 or less first. */
  function ChunkGather(script: seq<int>, available: nat, left: nat): (r: Option<seq<int>>)
    ensures r.Some? ==> available >= left && |r.value| <= |script|
    decreases left
  {
    if left < UPDATE_PAYLOAD_SIZE then
      var g := Gather(script, available, left);
      if g.Some? then GatherNeedsBytes(script, available, left); g else None
    else
      var g := Gather(script, available, UPDATE_PAYLOAD_SIZE);
      if g.None? then None
      else
        GatherNeedsBytes(script, available, UPDATE_PAYLOAD_SIZE);
        ChunkGather(g.value, available - UPDATE_PAYLOAD_SIZE, left - UPDATE_PAYLOAD_SIZE)
  }

  /** A full piece that cannot be gathered fails the corrected loop. */
  lemma ChunkGatherFails(script: seq<int>, available: nat, left: nat)
    requires left >= UPDATE_PAYLOAD_SIZE && Gather(script, available, UPDATE_PAYLOAD_SIZE).None?
    ensures ChunkGather(script, available, left) == None
  {
  }

  /** A full piece that is gathered leaves the rest of the payload to the same loop. */
  lemma ChunkGatherStep(script: seq<int>, available: nat, left: nat)
    requires left >= UPDATE_PAYLOAD_SIZE && Gather(script, available, UPDATE_PAYLOAD_SIZE).Some?
    ensures available >= UPDATE_PAYLOAD_SIZE
    ensures ChunkGather(script, available, left) ==
              ChunkGather(Gather(script, available, UPDATE_PAYLOAD_SIZE).value, available - UPDATE_PAYLOAD_SIZE, left - UPDATE_PAYLOAD_SIZE)
  {
    GatherNeedsBytes(script, available, UPDATE_PAYLOAD_SIZE);
  }

  /** One full piece of the corrected loop of a `size`-byte payload of
      which `total` bytes have been fed: `receiveAny` of
      `UPDATE_PAYLOAD_SIZE` bytes into `buffer`, then `checksum_update` with
      them. The ghost parameters carry the loop's bookkeeping: the stream
      started as `inbound0`, the context had absorbed `absorbed0`, `k`
      updates have succeeded after `draws` fault-free calls since `faults0`,
      and `gathered` is what the whole loop does with the script. */
  method ReceiveAndUpdate(sock: Socket, ctx: ChecksumCtx, buffer: array<byte>, errMsg: string,
                          ghost size: nat, ghost total: nat, ghost k: nat,
                          ghost inbound0: seq<byte>, ghost absorbed0: seq<byte>, ghost gathered: Option<seq<int>>,
                          ghost faults0: seq<bool>, ghost draws: nat)
    returns (o: Outcome)
    requires buffer.Length == UPDATE_PAYLOAD_SIZE <= size - total && ctx.Valid() && !ctx.finalized
    requires total <= |inbound0| && sock.inbound == inbound0[total..]
    requires FullChunks(size) == k + FullChunks(size - total) && Remainder(size) == Remainder(size - total)
    requires gathered == ChunkGather(sock.recvScript, |sock.inbound|, size - total)
    requires ctx.absorbed == absorbed0 + inbound0[..total]
    requires FaultFree(faults0, draws + k) && ctx.platform.faults == Drop(faults0, draws + k)
    modifies sock`inbound, sock`recvScript, buffer, ctx`absorbed, ctx.platform`faults
    ensures o.Failed? ==>
              o.what in {errMsg, "checksum_update failed"} && !(gathered.Some? && FaultFree(faults0, draws + FullChunks(size)))
    ensures o == Completed ==>
              var total', k' := total + UPDATE_PAYLOAD_SIZE, k + 1;
              total' <= |inbound0| && sock.inbound == inbound0[total'..] &&
              FullChunks(size) == k' + FullChunks(size - total') && Remainder(size) == Remainder(size - total') &&
              gathered == ChunkGather(sock.recvScript, |sock.inbound|, size - total') &&
              !ctx.finalized && ctx.absorbed == absorbed0 + inbound0[..total'] &&
              FaultFree(faults0, draws + k') && ctx.platform.faults == Drop(faults0, draws + k')
  {
    ghost var script, available := sock.recvScript, sock.inbound;
    ghost var left := size - total;
    assert FullChunks(left) == 1 + FullChunks(left - UPDATE_PAYLOAD_SIZE);
    o := ReceiveAny(sock, buffer, 0, UPDATE_PAYLOAD_SIZE, errMsg);
    if o.Failed? {
      ChunkGatherFails(script, |available|, left);
      return;
    }
    ChunkGatherStep(script, |available|, left);
    assert buffer[..] == available[..UPDATE_PAYLOAD_SIZE];
    var rc := ctx.Update(buffer[..]);
    if rc != 0 {
      FailingDraw(faults0, draws + k, draws + FullChunks(size));
      return Failed("checksum_update failed");
    }
    SucceedingDraw(faults0, draws + k);
    PrefixGrowsBy(absorbed0, inbound0, total, UPDATE_PAYLOAD_SIZE);
    o := Completed;
  }

  /** The last piece of the corrected loop: `receiveAny` of the `rest`
      bytes, then `checksum_finish` with them. */
  method ReceiveAndFinish(sock: Socket, ctx: ChecksumCtx, buffer: array<byte>, digest: array<byte>,
                          rest: nat, errMsg: string) returns (o: Outcome)
    requires rest <= buffer.Length && digest.Length == 32 && buffer != digest && ctx.Valid() && !ctx.finalized
    modifies sock`inbound, sock`recvScript, buffer, digest, ctx`absorbed, ctx`finalized, ctx.platform`faults
    ensures var g := Gather(old(sock.recvScript), |old(sock.inbound)|, rest);
      (g.None? ==> o == Failed(errMsg)) &&
      (g.Some? ==>
         rest <= |old(sock.inbound)| && sock.inbound == old(sock.inbound)[rest..] &&
         (o == Completed <==> FaultFree(old(ctx.platform.faults), FinishDraws(rest))) &&
         (o.Failed? ==> o.what == "checksum_finish failed"))
    ensures o == Completed ==> digest[..] == Sha256(old(ctx.absorbed) + old(sock.inbound)[..rest])
  {
    o := ReceiveAny(sock, buffer, 0, rest, errMsg);
    if o.Failed? {
      return;
    }
    assert buffer[..rest] == old(sock.inbound)[..rest];
    var rc := ctx.Finish(buffer[..rest], digest);
    o := if rc != 0 then Failed("checksum_finish failed") else Completed;
  }

  /** Absorbing the next `c` bytes of what is left of `p` after its first `o`. */
  lemma PrefixGrowsBy(salt: seq<byte>, p: seq<byte>, o: nat, c: nat)
    requires o + c <= |p|
    ensures salt + p[..o] + p[o..][..c] == salt + p[..o + c]
  {
    assert p[o..][..c] == p[o..o + c];
    PrefixGrows(salt, p, o, c);
  }

  /** The loop of the corrected `receiveHash` over the full pieces of a
      `size`-byte payload, after `draws` fault-free calls since `faults0`:
      it stops with the remainder still to come, having fed every full
      piece, or with the first error. */
  method FeedChunks(sock: Socket, ctx: ChecksumCtx, buffer: array<byte>, size: nat, errMsg: string,
                    ghost faults0: seq<bool>, ghost draws: nat)
    returns (o: Outcome, total: nat)
    requires buffer.Length == UPDATE_PAYLOAD_SIZE && ctx.Valid() && !ctx.finalized
    requires FaultFree(faults0, draws) && ctx.platform.faults == Drop(faults0, draws)
    modifies sock`inbound, sock`recvScript, buffer, ctx`absorbed, ctx.platform`faults
    ensures o.Failed? ==>
              o.what in {errMsg, "checksum_update failed"} &&
              !(ChunkGather(old(sock.recvScript), |old(sock.inbound)|, size).Some? &&
                FaultFree(faults0, draws + FullChunks(size)))
    ensures o == Completed ==>
              total == size - Remainder(size) && total <= |old(sock.inbound)| &&
              sock.inbound == old(sock.inbound)[total..] &&
              ChunkGather(old(sock.recvScript), |old(sock.inbound)|, size) ==
                ChunkGather(sock.recvScript, |sock.inbound|, Remainder(size)) &&
              !ctx.finalized && ctx.absorbed == old(ctx.absorbed) + old(sock.inbound)[..total] &&
              FaultFree(faults0, draws + FullChunks(size)) &&
              ctx.platform.faults == Drop(faults0, draws + FullChunks(size))
  {
    ghost var inbound0, absorbed0 := sock.inbound, ctx.absorbed;
    ghost var gathered := ChunkGather(sock.recvScript, |sock.inbound|, size);
    total := 0;
    ghost var k := 0;
    assert inbound0[..0] == [] && absorbed0 + [] == absorbed0;
    while size - total >= UPDATE_PAYLOAD_SIZE
      invariant total <= size && total <= |inbound0| && sock.inbound == inbound0[total..]
      invariant FullChunks(size) == k + FullChunks(size - total) && Remainder(size) == Remainder(size - total)
      invariant gathered == ChunkGather(sock.recvScript, |sock.inbound|, size - total)
      invariant !ctx.finalized && ctx.absorbed == absorbed0 + inbound0[..total]
      invariant FaultFree(faults0, draws + k) && ctx.platform.faults == Drop(faults0, draws + k)
      decreases size - total
    {
      o := ReceiveAndUpdate(sock, ctx, buffer, errMsg, size, total, k, inbound0, absorbed0, gathered, faults0, draws);
      if o.Failed? {
        return;
      }
      total, k := total + UPDATE_PAYLOAD_SIZE, k + 1;
    }
    ChunkArithmetic(size);
    o := Completed;
  }

  /** `receiveHash` as evidently intended: every piece of the payload is read
      completely before it is hashed (a `recv` of 0 or less is an error, as
      in `receiveAny`, so a connection closed before the payload is complete
      ends it with an error), full pieces are fed with `checksum_update` and the
      remainder, possibly empty, with `checksum_finish`, exactly as
      `compute_checksum` feeds a payload it holds. The result is the digest
      `compute_checksum` gives for the bytes received, also for `size == 0`. */
  method ReceiveHashFixed(sock: Socket, size: u32, salt: seq<byte>, errMsg: string, platform: Platform)
    returns (res: Result<Digest>)
    modifies sock`inbound, sock`recvScript, platform
    ensures res.Ok? <==> ChunkGather(old(sock.recvScript), |old(sock.inbound)|, size).Some? &&
                         FaultFree(old(platform.faults), ChecksumDraws(|salt|, size))
    ensures res.Ok? ==> size <= |old(sock.inbound)| && sock.inbound == old(sock.inbound)[size..] &&
                        res.value == ChecksumOf(old(sock.inbound)[..size], salt, old(platform.faults))
    ensures !FaultFree(old(platform.faults), CreateDraws(|salt|)) ==> res == Err("Failed to create checksum context")
    ensures res.Err? ==> res.what in {CREATE_FAILED, errMsg, UPDATE_FAILED, FINISH_FAILED}
    ensures |old(sock.inbound)| < size ==> res.Err?
    ensures platform.outstanding == old(platform.outstanding)
  {
    ghost var faults0, inbound0 := platform.faults, sock.inbound;
    ghost var gathered := ChunkGather(sock.recvScript, |inbound0|, size);
    var ctx := ChecksumCtx.Create(salt, platform);
    if ctx == null {
      FaultFreeSplit(faults0, CreateDraws(|salt|), ChecksumDraws(|salt|, size) - CreateDraws(|salt|));
      return Err(CREATE_FAILED);
    }
    var buffer := new byte[UPDATE_PAYLOAD_SIZE];
    var o, total := FeedChunks(sock, ctx, buffer, size, errMsg, faults0, CreateDraws(|salt|));
    if o.Failed? {
      var _ := ctx.Destroy();
      return Err(o.what);
    }
    var rest := size - total;
    ChunkArithmetic(size);
    FaultFreeSplit(faults0, CreateDraws(|salt|) + FullChunks(size), FinishDraws(rest));
    var digest := Filled(ZERO_DIGEST);
    o := ReceiveAndFinish(sock, ctx, buffer, digest, rest, errMsg);
    var _ := ctx.Destroy();
    if o.Failed? {
      return Err(o.what);
    }
    PrefixGrowsBy(salt, inbound0, total, rest);
    res := Ok(digest[..]);
  }
}
