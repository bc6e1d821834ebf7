/** The salted streaming checksum context of src/hash.cpp.

    The OpenSSL SHA-256 context (FIPS 180-4, section 6.2) is modelled by the
    sequence of bytes it has absorbed since it was last initialised; the
    digest is the uninterpreted `Sha256` of that sequence. Allocation and the
    EVP calls that the source checks draw their failures from a `Platform`. */
module Checksum {
  import opened Bytes
  import opened Io

  type PosNat = n: nat | n > 0 witness 1

  /** `UPDATE_PAYLOAD_SIZE`, defined in hash.h (not part of this model): some positive size. */
  const UPDATE_PAYLOAD_SIZE: PosNat

  type Digest = s: seq<byte> | |s| == 32 witness seq(32, _ => 0)

  /** The value-initialised `array<uint8_t, 32> digest{}`. */
  const ZERO_DIGEST: Digest := seq(32, _ => 0)

  /** SHA-256 of a byte string, left uninterpreted. */
  const Sha256: seq<byte> -> Digest

  /** Fallible calls made by a successful `checksum_create`: malloc of the
      context, then, with a salt, malloc of its copy and the salt update. */
  function CreateDraws(saltLen: nat): nat { if saltLen > 0 then 3 else 1 }

  /** Fallible calls made by `checksum_reset`: the salt update, when there is a salt. */
  function ResetDraws(saltLen: nat): nat { if saltLen > 0 then 1 else 0 }

  /** Fallible calls made by a successful `checksum_finish`: the update of a
      non-empty remainder, then `EVP_DigestFinal_ex`. */
  function FinishDraws(restLen: nat): nat { if restLen > 0 then 2 else 1 }

  /** Blocks a live context holds: the struct, the EVP context and, with a salt, its copy. */
  function Allocations(saltLen: nat): nat { if saltLen > 0 then 3 else 2 }

  /** Allocations a failed `checksum_create` leaves behind: the EVP context,
      when the first `malloc` succeeded but a later call failed. */
  function CreateLeak(faults: seq<bool>, saltLen: nat): nat
  {
    if FaultFree(faults, CreateDraws(saltLen)) || Fails(faults) then 0 else 1
  }

  /** Number of full `UPDATE_PAYLOAD_SIZE` chunks in `n` bytes. */
  function FullChunks(n: nat): nat
    decreases n
  {
    if n < UPDATE_PAYLOAD_SIZE then 0 else 1 + FullChunks(n - UPDATE_PAYLOAD_SIZE)
  }

  /** Length of what is left of `n` bytes after the full chunks. */
  function Remainder(n: nat): nat
    decreases n
  {
    if n < UPDATE_PAYLOAD_SIZE then n else Remainder(n - UPDATE_PAYLOAD_SIZE)
  }

  /** The full chunks and the remainder account for every byte, and the remainder is short. */
  lemma {:induction false} ChunkArithmetic(n: nat)
    ensures FullChunks(n) * UPDATE_PAYLOAD_SIZE + Remainder(n) == n
    ensures Remainder(n) < UPDATE_PAYLOAD_SIZE
    decreases n
  {
    if n >= UPDATE_PAYLOAD_SIZE {
      ChunkArithmetic(n - UPDATE_PAYLOAD_SIZE);
    }
  }

  /** Appending `r` bytes to `n` bytes, without overflowing the current chunk. */
  lemma {:induction false} ChunkStep(n: nat, r: nat)
    requires Remainder(n) + r <= UPDATE_PAYLOAD_SIZE
    ensures Remainder(n) + r < UPDATE_PAYLOAD_SIZE ==>
              FullChunks(n + r) == FullChunks(n) && Remainder(n + r) == Remainder(n) + r
    ensures Remainder(n) + r == UPDATE_PAYLOAD_SIZE ==>
              FullChunks(n + r) == FullChunks(n) + 1 && Remainder(n + r) == 0
    decreases n
  {
    if n >= UPDATE_PAYLOAD_SIZE {
      ChunkStep(n - UPDATE_PAYLOAD_SIZE, r);
    } else if n + r >= UPDATE_PAYLOAD_SIZE {
      assert n + r == UPDATE_PAYLOAD_SIZE;
      assert FullChunks(n + r - UPDATE_PAYLOAD_SIZE) == 0;
    }
  }

  /** All fallible calls `compute_checksum` makes when none of them fails. */
  function ChecksumDraws(saltLen: nat, payloadLen: nat): nat
  {
    CreateDraws(saltLen) + FullChunks(payloadLen) + FinishDraws(Remainder(payloadLen))
  }

  /** What `compute_checksum(payload, salt)` returns under the fault script
      `faults`: SHA-256 of the salt followed by the payload when no call
      fails, the all-zero array otherwise. */
  function ChecksumOf(payload: seq<byte>, salt: seq<byte>, faults: seq<bool>): Digest
  {
    if FaultFree(faults, ChecksumDraws(|salt|, |payload|)) then Sha256(salt + payload) else ZERO_DIGEST
  }

  /** Without a salt, and without faults, the checksum is the plain SHA-256 of the payload. */
  lemma UnsaltedChecksum(payload: seq<byte>)
    ensures ChecksumOf(payload, [], []) == Sha256(payload)
  {
    assert [] + payload == payload;
  }

  /** The payload split into its full chunks, in order. */
  function Chunks(p: seq<byte>): seq<seq<byte>>
    decreases |p|
  {
    if |p| < UPDATE_PAYLOAD_SIZE then [] else [p[..UPDATE_PAYLOAD_SIZE]] + Chunks(p[UPDATE_PAYLOAD_SIZE..])
  }

  /** The bytes after the last full chunk. */
  function RemainderBytes(p: seq<byte>): seq<byte>
    decreases |p|
  {
    if |p| < UPDATE_PAYLOAD_SIZE then p else RemainderBytes(p[UPDATE_PAYLOAD_SIZE..])
  }

  function Flatten(ss: seq<seq<byte>>): seq<byte>
  {
    if ss == [] then [] else ss[0] + Flatten(ss[1..])
  }

  /** The chunks are `FullChunks` many, each exactly `UPDATE_PAYLOAD_SIZE`
      long, and the remainder is `Remainder` long. */
  lemma {:induction false} ChunkLengths(p: seq<byte>)
    ensures |Chunks(p)| == FullChunks(|p|) && |RemainderBytes(p)| == Remainder(|p|)
    ensures forall i | 0 <= i < |Chunks(p)| :: |Chunks(p)[i]| == UPDATE_PAYLOAD_SIZE
    decreases |p|
  {
    if |p| >= UPDATE_PAYLOAD_SIZE {
      var rest := p[UPDATE_PAYLOAD_SIZE..];
      ChunkLengths(rest);
      var cs := Chunks(p);
      assert cs == [p[..UPDATE_PAYLOAD_SIZE]] + Chunks(rest);
      forall i | 0 <= i < |cs|
        ensures |cs[i]| == UPDATE_PAYLOAD_SIZE
      {
        if i > 0 {
          assert cs[i] == Chunks(rest)[i - 1];
        }
      }
    }
  }

  /** The flattened chunks followed by the remainder give back the payload. */
  lemma {:induction false} FlattenChunks(p: seq<byte>)
    ensures Flatten(Chunks(p)) + RemainderBytes(p) == p
    decreases |p|
  {
    if |p| >= UPDATE_PAYLOAD_SIZE {
      var head, rest := p[..UPDATE_PAYLOAD_SIZE], p[UPDATE_PAYLOAD_SIZE..];
      FlattenChunks(rest);
      var cs := Chunks(p);
      assert cs == [head] + Chunks(rest);
      assert cs[0] == head && cs[1..] == Chunks(rest);
      assert Flatten(cs) == head + Flatten(Chunks(rest));
      assert p == head + rest;
    }
  }

  /** The chunk-and-remainder split of `compute_checksum` partitions the
      payload: the chunks, each exactly `UPDATE_PAYLOAD_SIZE` long, followed
      by the shorter remainder, are the payload in order. */
  lemma ChunkingPartitions(p: seq<byte>)
    ensures Flatten(Chunks(p)) + RemainderBytes(p) == p
    ensures |Chunks(p)| == FullChunks(|p|) && |RemainderBytes(p)| == Remainder(|p|)
    ensures |RemainderBytes(p)| < UPDATE_PAYLOAD_SIZE
    ensures forall i | 0 <= i < |Chunks(p)| :: |Chunks(p)[i]| == UPDATE_PAYLOAD_SIZE
  {
    FlattenChunks(p);
    ChunkLengths(p);
    ChunkArithmetic(|p|);
  }

  /** `compute_checksum`'s loop stops with `Remainder` bytes left: what lies
      before that point is exactly the full chunks, and what lies after it
      is the remainder the finish gets. */
  lemma ChunksBeforeRemainder(p: seq<byte>)
    ensures var offset := |p| - Remainder(|p|);
      0 <= offset && p[..offset] == Flatten(Chunks(p)) && p[offset..] == RemainderBytes(p)
  {
    ChunkingPartitions(p);
    assert p == Flatten(Chunks(p)) + RemainderBytes(p);
  }

  /** `struct checksum_ctx`. */
  class ChecksumCtx {
    var salt: seq<byte>       // the private copy (`NULL`, here [], when `len == 0`)
    var len: nat              // salt length
    var absorbed: seq<byte>   // input of the running SHA-256 state since `EVP_DigestInit_ex`
    var finalized: bool       // `EVP_DigestFinal_ex` has consumed the running state
    var freed: bool           // `checksum_destroy` has released the context
    const platform: Platform

    ghost predicate Valid()
      reads this
    {
      |salt| == len && !freed
    }

    /** The struct as `malloc` followed by `bzero` leaves it. */
    constructor (platform: Platform)
      ensures salt == [] && len == 0 && absorbed == [] && !finalized && !freed
      ensures this.platform == platform
    {
      salt := [];
      len := 0;
      absorbed := [];
      finalized := false;
      freed := false;
      this.platform := platform;
    }

    /** `checksum_create` with the source's error path: when the salt copy
        cannot be allocated or the salt update fails, the struct and the salt
        copy are freed but the EVP context is not. */
    static method CreateAsWritten(salt: seq<byte>, platform: Platform) returns (csm: ChecksumCtx?)
      modifies platform
      ensures csm != null <==> FaultFree(old(platform.faults), CreateDraws(|salt|))
      ensures csm != null ==> fresh(csm) && csm.Valid() && csm.platform == platform
      ensures csm != null ==> csm.salt == salt && csm.len == |salt| && csm.absorbed == salt && !csm.finalized
      ensures csm != null ==> platform.faults == Drop(old(platform.faults), CreateDraws(|salt|))
      ensures csm != null ==> platform.outstanding == old(platform.outstanding) + Allocations(|salt|)
      ensures csm == null ==> platform.outstanding == old(platform.outstanding) + CreateLeak(old(platform.faults), |salt|)
    {
      var ok := platform.Malloc();
      if !ok {
        return null;
      }
      csm := new ChecksumCtx(platform);
      platform.Acquire();
      csm.len := |salt|;
      if |salt| > 0 {
        ok := platform.Malloc();
        if !ok {
          platform.Release();
          return null;
        }
        csm.salt := salt;
      }
      var rc := csm.Reset();
      if rc != 0 {
        if |salt| > 0 {
          platform.Release();
        }
        platform.Release();
        return null;
      }
    }

    /** `checksum_create` with the EVP context also released on the error
        path: a failed creation leaves no allocation behind. */
    static method Create(salt: seq<byte>, platform: Platform) returns (csm: ChecksumCtx?)
      modifies platform
      ensures csm != null <==> FaultFree(old(platform.faults), CreateDraws(|salt|))
      ensures csm != null ==> fresh(csm) && csm.Valid() && csm.platform == platform
      ensures csm != null ==> csm.salt == salt && csm.len == |salt| && csm.absorbed == salt && !csm.finalized
      ensures csm != null ==> platform.faults == Drop(old(platform.faults), CreateDraws(|salt|))
      ensures platform.outstanding == old(platform.outstanding) + (if csm != null then Allocations(|salt|) else 0)
    {
      var ok := platform.Malloc();
      if !ok {
        return null;
      }
      csm := new ChecksumCtx(platform);
      platform.Acquire();
      csm.len := |salt|;
      if |salt| > 0 {
        ok := platform.Malloc();
        if !ok {
          platform.Release();
          platform.Release();
          return null;
        }
        csm.salt := salt;
      }
      var rc := csm.Reset();
      if rc != 0 {
        platform.Release();
        if |salt| > 0 {
          platform.Release();
        }
        platform.Release();
        return null;
      }
    }

    /** `checksum_update`: absorbs exactly one chunk; 0 iff the EVP update succeeded. */
    method Update(chunk: seq<byte>) returns (rc: int)
      requires Valid() && !finalized && |chunk| == UPDATE_PAYLOAD_SIZE
      modifies this`absorbed, platform`faults
      ensures rc == 0 <==> !Fails(old(platform.faults))
      ensures absorbed == old(absorbed) + (if rc == 0 then chunk else [])
      ensures platform.faults == Tail(old(platform.faults))
    {
      var ok := platform.Attempt();
      if ok {
        absorbed := absorbed + chunk;
      }
      rc := if ok then 0 else 1;
    }

    /** `checksum_finish`: absorbs `rest` only when it is non-empty, then
        writes the digest of everything absorbed to `out`; nonzero if either
        step fails. */
    method Finish(rest: seq<byte>, out: array<byte>) returns (rc: int)
      requires Valid() && !finalized && out.Length == 32
      modifies this`absorbed, this`finalized, platform`faults, out
      ensures rc == 0 <==> FaultFree(old(platform.faults), FinishDraws(|rest|))
      ensures rc == 0 ==> finalized && out[..] == Sha256(old(absorbed) + rest)
      ensures rc == 0 ==> platform.faults == Drop(old(platform.faults), FinishDraws(|rest|))
      ensures rc != 0 ==> out[..] == old(out[..])
    {
      var ok := true;
      if |rest| > 0 {
        ok := platform.Attempt();
        if ok {
          absorbed := absorbed + rest;
        }
      }
      if ok {
        assert absorbed == old(absorbed) + rest;
        ok := platform.Attempt();
        if ok {
          var d := Sha256(absorbed);
          forall i | 0 <= i < 32 {
            out[i] := d[i];
          }
          assert out[..] == d;
          finalized := true;
        } else if |rest| > 0 {
          FailingDraw(old(platform.faults), 1, 2);
        }
      }
      rc := if ok then 0 else 1;
    }

    /** `checksum_reset`: the running state again holds exactly the salt (nothing, without one). */
    method Reset() returns (rc: int)
      requires Valid()
      modifies this`absorbed, this`finalized, platform`faults
      ensures !finalized
      ensures rc == 0 <==> FaultFree(old(platform.faults), ResetDraws(len))
      ensures absorbed == (if rc == 0 then salt else [])
      ensures platform.faults == Drop(old(platform.faults), ResetDraws(len))
    {
      absorbed := [];
      finalized := false;
      rc := 0;
      if len > 0 {
        var ok := platform.Attempt();
        if ok {
          absorbed := salt;
        } else {
          rc := 1;
        }
      }
    }

    /** `checksum_destroy`: releases the EVP context, the salt copy and the struct. */
    method Destroy() returns (rc: int)
      requires !freed
      modifies this`freed, platform`outstanding
      ensures freed && rc == 0
      ensures platform.outstanding == old(platform.outstanding) - Allocations(len)
    {
      platform.Release();
      if len > 0 {
        platform.Release();
      }
      platform.Release();
      freed := true;
      rc := 0;
    }
  }

  /** Absorbing the next `c` payload bytes after the salt and the first `o`. */
  lemma PrefixGrows(salt: seq<byte>, p: seq<byte>, o: nat, c: nat)
    requires o + c <= |p|
    ensures salt + p[..o] + p[o..o + c] == salt + p[..o + c]
  {
    assert p[..o + c] == p[..o] + p[o..o + c];
  }

  /** The `while` loop of `compute_checksum`: one `checksum_update` per full
      chunk of `payload`, after `draws` fault-free calls since the fault
      sequence was `faults0`. It gets through every chunk exactly when none
      of those updates fails, and then has absorbed the full chunks in order
      and stops where the remainder begins. */
  method UpdateChunks(ctx: ChecksumCtx, payload: seq<byte>, ghost faults0: seq<bool>, ghost draws: nat)
    returns (ok: bool, offset: nat)
    requires ctx.Valid() && !ctx.finalized
    requires FaultFree(faults0, draws) && ctx.platform.faults == Drop(faults0, draws)
    modifies ctx`absorbed, ctx.platform`faults
    ensures ok <==> FaultFree(faults0, draws + FullChunks(|payload|))
    ensures ok ==>
              offset <= |payload| && |payload| - offset == Remainder(|payload|) &&
              ctx.absorbed == old(ctx.absorbed) + payload[..offset] &&
              ctx.platform.faults == Drop(faults0, draws + FullChunks(|payload|))
  {
    ghost var absorbed0 := ctx.absorbed;
    offset := 0;
    var length := |payload|;
    ghost var k := 0;
    assert absorbed0 + payload[..0] == absorbed0;
    while length - offset >= UPDATE_PAYLOAD_SIZE
      invariant 0 <= offset <= length
      invariant FullChunks(length) == k + FullChunks(length - offset)
      invariant Remainder(length) == Remainder(length - offset)
      invariant !ctx.finalized && ctx.absorbed == absorbed0 + payload[..offset]
      invariant FaultFree(faults0, draws + k) && ctx.platform.faults == Drop(faults0, draws + k)
      decreases length - offset
    {
      var rc := ctx.Update(payload[offset..offset + UPDATE_PAYLOAD_SIZE]);
      if rc != 0 {
        FailingDraw(faults0, draws + k, draws + FullChunks(length));
        return false, offset;
      }
      SucceedingDraw(faults0, draws + k);
      PrefixGrows(absorbed0, payload, offset, UPDATE_PAYLOAD_SIZE);
      offset := offset + UPDATE_PAYLOAD_SIZE;
      k := k + 1;
    }
    ok := true;
  }

  /** The end of `compute_checksum` once the full chunks are absorbed, after
      `draws` fault-free calls since `faults0`: `checksum_finish` with the
      remainder `rest`, then `checksum_destroy` whatever the outcome. */
  method FinishWith(ctx: ChecksumCtx, rest: seq<byte>, ghost faults0: seq<bool>, ghost draws: nat) returns (digest: Digest)
    requires ctx.Valid() && !ctx.finalized
    requires FaultFree(faults0, draws) && ctx.platform.faults == Drop(faults0, draws)
    modifies ctx`absorbed, ctx`finalized, ctx`freed, ctx.platform
    ensures digest == if FaultFree(faults0, draws + FinishDraws(|rest|)) then Sha256(old(ctx.absorbed) + rest) else ZERO_DIGEST
    ensures ctx.platform.outstanding == old(ctx.platform.outstanding) - Allocations(ctx.len)
  {
    FaultFreeSplit(faults0, draws, FinishDraws(|rest|));
    var out := new byte[32](_ => 0);
    var rc := ctx.Finish(rest, out);
    if rc != 0 {
      rc := ctx.Destroy();
      return ZERO_DIGEST;
    }
    rc := ctx.Destroy();
    digest := out[..];
  }

  /** The body of `compute_checksum` after a successful `checksum_create`
      that drew its calls from `faults0`: the update loop, then the finish,
      with `checksum_destroy` on every path. */
  method DigestWith(ctx: ChecksumCtx, payload: seq<byte>, ghost faults0: seq<bool>) returns (digest: Digest)
    requires ctx.Valid() && !ctx.finalized && ctx.absorbed == ctx.salt
    requires FaultFree(faults0, CreateDraws(ctx.len)) && ctx.platform.faults == Drop(faults0, CreateDraws(ctx.len))
    modifies ctx`absorbed, ctx`finalized, ctx`freed, ctx.platform
    ensures digest == ChecksumOf(payload, ctx.salt, faults0)
    ensures ctx.platform.outstanding == old(ctx.platform.outstanding) - Allocations(ctx.len)
  {
    ghost var salt := ctx.salt;
    var ok, offset := UpdateChunks(ctx, payload, faults0, CreateDraws(ctx.len));
    if !ok {
      FaultFreeSplit(faults0, CreateDraws(|salt|) + FullChunks(|payload|), FinishDraws(Remainder(|payload|)));
      var _ := ctx.Destroy();
      return ZERO_DIGEST;
    }
    digest := FinishWith(ctx, payload[offset..], faults0, CreateDraws(ctx.len) + FullChunks(|payload|));
    assert salt + payload[..offset] + payload[offset..] == salt + payload;
  }

  /** `compute_checksum`: hashes the salt and the payload, fed as full chunks
      and one remainder; any failure yields the all-zero array. It calls
      `checksum_create` as written, so a creation that fails after the first
      `malloc` leaves the EVP context allocated; every other path releases
      all it allocated. */
  method ComputeChecksum(payload: seq<byte>, salt: seq<byte>, platform: Platform) returns (digest: Digest)
    modifies platform
    ensures digest == ChecksumOf(payload, salt, old(platform.faults))
    ensures platform.outstanding == old(platform.outstanding) + CreateLeak(old(platform.faults), |salt|)
  {
    ghost var faults0 := platform.faults;
    var ctx := ChecksumCtx.CreateAsWritten(salt, platform);
    if ctx == null {
      FaultFreeSplit(faults0, CreateDraws(|salt|), ChecksumDraws(|salt|, |payload|) - CreateDraws(|salt|));
      return ZERO_DIGEST;
    }
    digest := DigestWith(ctx, payload, faults0);
  }
}
