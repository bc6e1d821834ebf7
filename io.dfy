/** The operating system and library calls the core relies on, as oracles.

    A `Socket` is the connected stream socket: `recv` and `send` draw their
    return values from scripts, and the bytes the peer sent wait in
    `inbound`. A `FileStream` stands for a `FILE*` opened for reading. A
    `Platform` stands for `malloc`/`free` and the OpenSSL EVP calls: each
    fallible call draws the next entry of `faults`. */
module Io {
  import opened Bytes

  /** The result of a C++ function that returns `void` or throws `runtime_error(what)`. */
  datatype Outcome = Completed | Failed(what: string)

  /** The result of a C++ function that returns a value or throws `runtime_error(what)`. */
  datatype Result<T> = Ok(value: T) | Err(what: string)

  datatype Option<T> = None | Some(value: T)

  function Min(a: int, b: int): int { if a <= b then a else b }

  function Max(a: int, b: int): int { if a >= b then a else b }

  function Tail<T>(s: seq<T>): seq<T> { if s == [] then [] else s[1..] }

  /** What successive writes of `a`, `b` and `c` append to a stream `s`. */
  lemma AppendThree<T>(s: seq<T>, a: seq<T>, b: seq<T>, c: seq<T>)
    ensures s + a + b + c == s + (a + b + c)
    ensures s + a + b + c == s + (a + b) + c
  {
  }

  /** `s` after `n` draws. */
  function Drop<T>(s: seq<T>, n: nat): (r: seq<T>)
    ensures n <= |s| ==> r == s[n..]
    ensures n >= |s| ==> r == []
  {
    if n >= |s| then [] else s[n..]
  }

  /** What one `recv(fd, buf, max, 0)` returns when the script head is the
      peer's next delivery limit and `available` bytes are still to come
      before the peer closes the connection: a negative head (or an
      exhausted script: the connection is gone) is the error -1; at the end
      of the stream, or for `max == 0`, 0; otherwise as many bytes as the
      limit, `max` and the bytes to come allow, and at least one, since a
      blocking stream socket returns 0 only at the end of the stream. */
  function RecvResult(script: seq<int>, available: nat, max: nat): (r: int)
    ensures r == -1 <==> script == [] || script[0] < 0
    ensures r != -1 ==> 0 <= r <= max && r <= available
    ensures r != -1 ==> (r == 0 <==> max == 0 || available == 0)
    ensures r != -1 && script[0] >= max && available >= max ==> r == max
  {
    if script == [] || script[0] < 0 then -1 else Min(Max(script[0], 1), Min(max, available))
  }

  /** What one `send(fd, data, size, 0)` returns: -1 for a negative head or
      an exhausted script, otherwise at most `size`. */
  function SendResult(script: seq<int>, size: nat): (r: int)
    ensures r == -1 <==> script == [] || script[0] < 0
    ensures r != -1 ==> 0 <= r <= size
    ensures r == size <==> script != [] && script[0] >= size
  {
    if script == [] || script[0] < 0 then -1 else Min(script[0], size)
  }

  class Socket {
    var inbound: seq<byte>     // bytes the peer sends before closing that no recv has returned yet
    var recvScript: seq<int>   // successive recv limits (negative: the call fails)
    var outbound: seq<byte>    // bytes send has handed to the transport so far
    var sendScript: seq<int>   // successive send limits (negative: the call fails)

    constructor (inbound: seq<byte>, recvScript: seq<int>, sendScript: seq<int>)
      ensures this.inbound == inbound && this.recvScript == recvScript
      ensures this.sendScript == sendScript && outbound == []
    {
      this.inbound := inbound;
      this.recvScript := recvScript;
      this.sendScript := sendScript;
      outbound := [];
    }

    /** `recv(fd, buf + at, max, 0)`: the next bytes of the stream are written
        in place at `buf[at..]`, nothing else of `buf` changes. */
    method Recv(buf: array<byte>, at: nat, max: nat) returns (r: int)
      requires at + max <= buf.Length
      modifies this`inbound, this`recvScript, buf
      ensures r == RecvResult(old(recvScript), |old(inbound)|, max)
      ensures recvScript == Tail(old(recvScript))
      ensures r >= 0 ==> inbound == old(inbound)[r..]
      ensures r >= 0 ==> forall i | at <= i < at + r :: buf[i] == old(inbound)[i - at]
      ensures forall i | 0 <= i < buf.Length && !(at <= i < at + r) :: buf[i] == old(buf[i])
      ensures r < 0 ==> inbound == old(inbound)
    {
      r := RecvResult(recvScript, |inbound|, max);
      recvScript := Tail(recvScript);
      if r >= 0 {
        forall i | 0 <= i < r {
          buf[at + i] := inbound[i];
        }
        inbound := inbound[r..];
      }
    }

    /** `send(fd, data, |data|, 0)`: the bytes the call accepts are appended to the stream. */
    method Send(data: seq<byte>) returns (r: int)
      modifies this`outbound, this`sendScript
      ensures r == SendResult(old(sendScript), |data|)
      ensures sendScript == Tail(old(sendScript))
      ensures outbound == old(outbound) + (if r < 0 then [] else data[..r])
    {
      r := SendResult(sendScript, |data|);
      sendScript := Tail(sendScript);
      if r >= 0 {
        outbound := outbound + data[..r];
      }
    }
  }

  /** `std::vector<uint8_t>::resize(n)` on a vector holding `s`: the first
      `n` elements are kept and any new ones are zero. */
  function Resized(s: seq<byte>, n: nat): (r: seq<byte>)
    ensures |r| == n
    ensures forall i | 0 <= i < n && i < |s| :: r[i] == s[i]
    ensures forall i | |s| <= i < n :: r[i] == 0
  {
    if n <= |s| then s[..n] else s + seq(n - |s|, _ => 0)
  }

  /** A `FILE*` opened for reading: the bytes not yet read. */
  class FileStream {
    var remaining: seq<byte>

    constructor (contents: seq<byte>)
      ensures remaining == contents
    {
      remaining := contents;
    }

    /** `fread(buf, 1, n, file)`: the number of bytes read, written to `buf[..count]`. */
    method Read(buf: array<byte>, n: nat) returns (count: nat)
      requires n <= buf.Length
      modifies this, buf
      ensures count == Min(n, |old(remaining)|)
      ensures remaining == old(remaining)[count..]
      ensures buf[..] == old(remaining)[..count] + old(buf[count..])
    {
      count := Min(n, |remaining|);
      forall i | 0 <= i < count {
        buf[i] := remaining[i];
      }
      remaining := remaining[count..];
    }
  }

  /** Whether the next fallible call fails. An exhausted script lets every call succeed. */
  predicate Fails(faults: seq<bool>)
  {
    faults != [] && faults[0]
  }

  /** None of the next `n` fallible calls fails. */
  predicate FaultFree(faults: seq<bool>, n: nat)
  {
    forall i | 0 <= i < n && i < |faults| :: !faults[i]
  }

  /** A failing draw after `m` successful ones rules out a fault-free run of any longer length. */
  lemma FailingDraw(faults: seq<bool>, m: nat, n: nat)
    requires Fails(Drop(faults, m)) && m < n
    ensures !FaultFree(faults, n)
  {
    assert faults[m];
  }

  /** Fault-freedom of `m + k` draws splits at `m`. */
  lemma FaultFreeSplit(faults: seq<bool>, m: nat, k: nat)
    ensures FaultFree(faults, m + k) <==> FaultFree(faults, m) && FaultFree(Drop(faults, m), k)
  {
    if FaultFree(faults, m) && FaultFree(Drop(faults, m), k) {
      forall i | 0 <= i < m + k && i < |faults|
        ensures !faults[i]
      {
        if i >= m {
          assert Drop(faults, m)[i - m] == faults[i];
        }
      }
    }
  }

  /** A successful draw after `m` successful ones extends the fault-free run by one. */
  lemma SucceedingDraw(faults: seq<bool>, m: nat)
    requires FaultFree(faults, m) && !Fails(Drop(faults, m))
    ensures FaultFree(faults, m + 1)
    ensures Tail(Drop(faults, m)) == Drop(faults, m + 1)
  {
  }

  /** The C library and OpenSSL as the digest engine sees them. */
  class Platform {
    var faults: seq<bool>   // successive fallible calls: true means that call fails
    var outstanding: int    // blocks and EVP contexts allocated and not yet released

    constructor (faults: seq<bool>)
      ensures this.faults == faults && outstanding == 0
    {
      this.faults := faults;
      outstanding := 0;
    }

    /** A fallible library call: reports success and consumes one draw. */
    method Attempt() returns (ok: bool)
      modifies this`faults
      ensures ok == !Fails(old(faults))
      ensures faults == Tail(old(faults))
    {
      ok := !Fails(faults);
      faults := Tail(faults);
    }

    /** `malloc`: a fallible call that, on success, leaves one more block outstanding. */
    method Malloc() returns (ok: bool)
      modifies this
      ensures ok == !Fails(old(faults))
      ensures faults == Tail(old(faults))
      ensures outstanding == old(outstanding) + (if ok then 1 else 0)
    {
      ok := Attempt();
      if ok {
        outstanding := outstanding + 1;
      }
    }

    /** An allocation the program does not check (`EVP_MD_CTX_new`). */
    method Acquire()
      modifies this`outstanding
      ensures outstanding == old(outstanding) + 1
    {
      outstanding := outstanding + 1;
    }

    /** `free` of a block, or `EVP_MD_CTX_free`. */
    method Release()
      modifies this`outstanding
      ensures outstanding == old(outstanding) - 1
    {
      outstanding := outstanding - 1;
    }
  }
}
