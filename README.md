# TCP-file-hashes in Dafny

TCP-file-hashes is a small client/server pair. The client reads payloads from a file and sends them over TCP in `HashRequest` messages. The server answers each one with the salted SHA-256 digest of the payload.

This project models the parts of the C++ program that decide what goes on the wire, what is hashed and which command lines are accepted.

## Modules

**Checksum** (`checksum.dfy`, `src/hash.cpp`)
- `checksum_ctx` is a class whose SHA-256 state is the byte string it has absorbed since it was last initialised. `Sha256` is an uninterpreted function of that string.
- `checksum_create`, `checksum_update`, `checksum_finish`, `checksum_reset` and `checksum_destroy` are methods on the class.
- `compute_checksum` is a loop over full `UPDATE_PAYLOAD_SIZE` chunks followed by one remainder. It is proved to return SHA-256 of the salt followed by the payload when no library call fails, and the all-zero digest otherwise. It calls `checksum_create` as written, so a creation that fails after its first `malloc` leaves the EVP context allocated. Every other path releases everything it allocated.

**Transfer** (`transfer.dfy`, `src/requests.cpp` and `includes/requests.h`)
- `sendAny` and `receiveAny`, which both revisions define with the same bodies.
- The connection is a byte stream plus a script of what each `send` and `recv` call returns.

**Wire** (`wire.dfy`)
- The byte layout of the four messages: 32-bit big-endian fields, then the payload or the 32-byte hash.
- The layout is a pair of functions, encode and decode, proved to be inverses.

**Streaming** (`streaming.dfy`, `src/requests.cpp`)
- `receiveHash`, which hashes a payload as it arrives in pieces of at most `UPDATE_PAYLOAD_SIZE` bytes.
- Its behaviour as written is characterised exactly by `Streamed`, including what it hashes after a short read. `StreamFailure` gives the message of the first failing call.
- On a connection the peer has closed too early, the loop as written never ends.
- A corrected version hashes exactly what `compute_checksum` would hash.

**Requests** (`requests.dfy`, `src/requests.cpp`) and **RequestsHeader** (`requests_header.dfy`, `includes/requests.h`)
- These are the two revisions of `InitRequest`, `AckResponse`, `HashRequest` and `HashResponse`.
- Each message is a class whose fixed fields are the bytes of the struct in memory.
- `setValues` stores the fields in network byte order.
- `sendTo` puts the message's encoding on the stream.
- `receive` reads back, from the stream, the frame that decoding gives.
- Every failure of `sendTo`, of `receive` and of `receiveHash` as written reports the message of the first call that failed. The corrected `receive` states only which messages it can report.

**ArgCheck**, **ParserClient** and **ParserServer** (`arg_check.dfy`, `parser_client.dfy`, `parser_server.dfy`; `src/parser_client.cpp`, `includes/parser_client.h`, `src/parser_server.cpp`)
- The `argp` callbacks that validate options and fill the argument records.
- The end-of-options checks run in their fixed order.

## Model conventions

- External calls are oracles:
  - `recv` and `send` return what a script says. A negative entry is an error, and an exhausted script behaves like an error.
  - The bytes waiting for `recv` are everything the peer sends before it closes the connection. `recv` returns 0 only once they are all delivered (or when asked for 0 bytes). While bytes are still to come it returns at least one, whatever the script says.
  - `malloc` and the checked EVP calls fail or succeed as a fault script says.
  - `fread` reads from a byte sequence.
  - `inet_pton` and `fopen` are parameters.
- A thrown `std::runtime_error` is a `Failed(message)` or `Err(message)` result. A call of `argp_error`, which prints and exits, is an `Error(message)` reply.
- An option's text is the C string before its terminating NUL, so `strlen(arg)` is its length.

## Model

| member | source | states |
|---|---|---|
| `Bytes.ToU32` | src/requests.cpp:74 | converting a C `int` to `uint32_t` agrees with it modulo 2^32 and keeps non-negative values |
| `Bytes.U32RoundTrip` | src/requests.cpp:119 | `ntohl` of the bytes `htonl` stores gives the value back |
| `Bytes.BytesRoundTrip` | includes/requests.h:96 | the four bytes of a field are the `htonl` image of their `ntohl` value |
| `Bytes.U16RoundTrip` | src/parser_client.cpp:35 | `ntohs(htons(p)) == p`, and the stored port is all zero exactly when `p == 0` |
| `Io.Socket.Recv` | src/requests.cpp:25 | one `recv`: returns what the script allows, writes that many next stream bytes in place, changes no other byte of the buffer |
| `Io.Socket.Send` | src/requests.cpp:15 | one `send`: the bytes the call accepts are appended to the outgoing stream |
| `Io.FileStream.Read` | src/requests.cpp:106 | `fread` returns `min(n, bytes left)`, fills that prefix of the buffer and advances the file |
| `Io.Resized` | src/requests.cpp:105 | `vector::resize(n)` keeps the first `min(n, size)` elements and zero-fills any new ones |
| `Checksum.ChunkArithmetic` | src/hash.cpp:99-110 | the full chunks and the remainder add up to the payload length, and the remainder is shorter than a chunk |
| `Checksum.ChunkingPartitions` | src/hash.cpp:99-111 | the chunks `compute_checksum` feeds, followed by the remainder, are the payload in order, each chunk exactly `UPDATE_PAYLOAD_SIZE` long |
| `Checksum.ChunksBeforeRemainder` | src/hash.cpp:101-111 | the loop of `compute_checksum` stops `Remainder` bytes before the end; the bytes before that point are exactly the full chunks, and the bytes after it are the remainder the finish gets |
| `Checksum.UnsaltedChecksum` | src/hash.cpp:90-93 | with an empty salt and no failures the checksum is the plain SHA-256 of the payload |
| `Checksum.ChecksumCtx.constructor` | src/hash.cpp:19-23 | the struct as `malloc` and `bzero` leave it: no salt, nothing absorbed |
| `Checksum.ChecksumCtx.CreateAsWritten` | src/hash.cpp:18-52 | succeeds exactly when its fallible calls succeed, and then holds the salt and has absorbed it; on a failure after the first `malloc` one allocation, the EVP context, stays outstanding |
| `Checksum.ChecksumCtx.Create` | src/hash.cpp:41-48 | the same success condition and state, and a failed creation leaves no allocation outstanding |
| `Checksum.ChecksumCtx.Update` | src/hash.cpp:54-56 | returns 0 exactly when the EVP update succeeds, and then has absorbed exactly one more chunk |
| `Checksum.ChecksumCtx.Finish` | src/hash.cpp:58-68 | an empty remainder is not fed; on success the output is SHA-256 of everything absorbed plus the remainder; on failure the output is untouched |
| `Checksum.ChecksumCtx.Reset` | src/hash.cpp:70-78 | afterwards the running state holds exactly the salt, or nothing without one; it fails only on a failed salt update |
| `Checksum.ChecksumCtx.Destroy` | src/hash.cpp:80-86 | releases every allocation the context holds and returns 0 |
| `Checksum.UpdateChunks` | src/hash.cpp:99-108 | the update loop gets through every full chunk exactly when none of its updates fails; it then has absorbed the payload up to the point where only the `Remainder` is left |
| `Checksum.FinishWith` | src/hash.cpp:110-119 | the finish with the remainder: SHA-256 of everything absorbed plus the remainder when its calls succeed, otherwise all zero; the context is destroyed on both paths |
| `Checksum.DigestWith` | src/hash.cpp:99-119 | after a successful creation the result is the checksum of the salt and the payload (all zero on a later failure), and every allocation the context holds is released |
| `Checksum.ComputeChecksum` | src/hash.cpp:88-120 | the result is SHA-256 of salt followed by payload when no call fails and all zero otherwise; a creation failing after its first `malloc` leaves exactly one allocation, the EVP context, outstanding, and every other path releases everything |
| `Wire.Encode` | src/requests.cpp:110-114 | a message takes 8, 8 plus payload, or 40 bytes on the wire, starting with its type in network order |
| `Wire.Decode` | src/requests.cpp:116-118 | a decoded frame has the expected shape and is well formed, and exactly its size is consumed from the front of the input |
| `Wire.StoreField` | src/requests.cpp:73-74 | assigning `htonl(x)` to a field writes the big-endian octets of `x` there, and nothing else of the struct changes |
| `Wire.DecodeEncode` | src/requests.cpp:77-85 | decoding what was encoded gives the message back and leaves what follows it |
| `Wire.EncodeDecode` | includes/requests.h:48-50 | any bytes a message decodes from are that message's encoding followed by the rest |
| `Transfer.SendAny` | src/requests.cpp:14-18 | completes exactly when `send` takes the whole buffer, otherwise fails with `errMsg`; the stream only grows |
| `Transfer.ReceiveAny` | src/requests.cpp:20-31 | completes exactly when the `recv` loop gathers `size` bytes before a call returns 0 or less; the buffer then holds the next `size` stream bytes in order |
| `Transfer.GatherNeedsBytes` | src/requests.cpp:24-30 | filling a buffer needs at least that many bytes from the peer; the loop uses up one non-negative script entry per `recv` call, at least one call and at most one per byte needed, and leaves the rest of the script |
| `Transfer.OneFullRead` | src/requests.cpp:24-30 | one `recv` that returns everything asked for fills the buffer |
| `Transfer.ClosedConnection` | src/requests.cpp:26-27 | a `recv` returning 0 before the buffer is full fails the receive |
| `Transfer.DeliveredAll` | src/requests.cpp:110-114 | every `sendAny` of a message completes exactly when each `send` takes its whole field |
| `Transfer.AllGathered` | src/requests.cpp:133-137 | when each `recv` returns the whole field, every `receiveAny` of a message completes, one call each |
| `Streaming.PeerClosedRepeats` | src/requests.cpp:46-60 | once the peer has closed with bytes still due, every turn reads 0, `total` stays put and the stale buffer is hashed again: after any number of turns the loop is back where it started |
| `Streaming.PeerClosedCutOff` | src/requests.cpp:46-60 | the model's finite `recv` script ends that endless loop with an error (see Left out) |
| `Streaming.StaleBufferOnShortRead` | src/requests.cpp:54-57 | a short read before the end hashes the rest of the buffer from the previous read, not the payload |
| `Streaming.FullReadsFeedPayload` | src/requests.cpp:46-67 | when every `recv` returns all it asks for, the loop feeds exactly the payload, in full chunks and one finish |
| `Streaming.AbsorbBuffer` | src/requests.cpp:57-60 | one `checksum_update` of the whole buffer; a failure reports "checksum_update failed" |
| `Streaming.FinishBuffer` | src/requests.cpp:62-65 | one `checksum_finish` with the bytes just read; on success the digest is SHA-256 of all that was absorbed |
| `Streaming.ReceiveChunk` | src/requests.cpp:47-66 | one turn of the `receiveHash` loop advances the as-written characterisation `Streamed` by exactly one read |
| `Streaming.StreamFailureNone` | src/requests.cpp:46-67 | the loop ends without an exception exactly when every `recv` succeeds and none of the checksum calls `Streamed` counts fails |
| `Streaming.FeedPayload` | src/requests.cpp:45-67 | the loop succeeds exactly when `Streamed` does and its calls succeed; it consumes exactly the payload and the digest is SHA-256 of what `Streamed` fed; otherwise it stops with the message of the first failing call: `errMsg` for a failed `recv`, "checksum_update failed" or "checksum_finish failed" |
| `Streaming.ReceiveHash` | src/requests.cpp:33-70 | as written: a zero digest for an empty payload, otherwise SHA-256 of salt plus what the loop fed; each failure gives the message of the first failing call, the creation message first; a creation failing after its first `malloc` leaves the EVP context outstanding, and nothing else is left behind |
| `Streaming.FullReadsAgreeWithComputeChecksum` | src/requests.cpp:33-70 | for a non-empty payload, when every `recv` is full, `receiveHash` makes the same checksum calls as `compute_checksum` and returns the same digest; an empty payload is excluded because the code as written returns the all-zero digest for it (Findings) |
| `Streaming.ChunkGatherStep` | src/requests.cpp:46-60 | receiving a payload chunk by chunk is one full chunk followed by the rest |
| `Streaming.ReceiveAndUpdate` | src/requests.cpp:56-60 | corrected turn: one full chunk is received and absorbed |
| `Streaming.ReceiveAndFinish` | src/requests.cpp:61-65 | corrected last turn: the remainder is received and finished |
| `Streaming.FeedChunks` | src/requests.cpp:46-60 | corrected loop: absorbs exactly the full chunks of the payload, in order |
| `Streaming.ReceiveHashFixed` | src/requests.cpp:33-70 | corrected: the result is exactly `compute_checksum` of the `size` bytes received and the salt, including for an empty payload; a connection that closes before `size` bytes arrive gives an error; nothing is left allocated |
| `Requests.InitRequest.SetValues` | src/requests.cpp:72-75 | the struct then holds the frame (InitRequest type, `n` as `uint32_t`) |
| `Requests.InitRequest.SendTo` | src/requests.cpp:77-80 | completes exactly when both fields are sent, then the stream gains the frame's encoding; a failure names the first field not sent |
| `Requests.InitRequest.Receive` | src/requests.cpp:82-85 | completes exactly when both fields arrive, then holds the frame decoded from the stream; a failure names the first field that did not arrive |
| `Requests.AckResponse.SetValues` | src/requests.cpp:87-90 | the struct then holds the frame (the given type, `length` as `uint32_t`) |
| `Requests.AckResponse.SendTo` | src/requests.cpp:92-95 | the stream gains the encoding exactly when both fields are sent; otherwise the message of the first field that failed |
| `Requests.AckResponse.Receive` | src/requests.cpp:97-100 | holds the decoded frame exactly when both fields arrive; otherwise the message of the first field that failed |
| `Requests.HashRequest.Resize` | src/requests.cpp:105 | `Payload.resize(n)` keeps the prefix and zero-fills the rest |
| `Requests.HashRequest.SetValues` | src/requests.cpp:102-108 | the header holds the type and the length; a negative length throws from `resize`; otherwise the payload holds what `fread` returned, and success means the file had at least `length` bytes left |
| `Requests.HashRequest.SendTo` | src/requests.cpp:110-114 | the stream gains type, length and payload exactly when all three sends complete, which is the encoding when the length field matches the payload |
| `Requests.HashRequest.ReceiveHeader` | src/requests.cpp:117-118 | the two header fields arrive in order or the first missing one is named |
| `Requests.HashRequest.Receive` | src/requests.cpp:116-120 | as written: header errors by field, then the `receiveHash` result for the received `Length`, with the message of the first failing call and the allocation left by a failed creation |
| `Requests.HashRequest.ReceiveFixed` | src/requests.cpp:116-120 | corrected: the digest is `compute_checksum` of exactly the `Length` bytes after the header |
| `Requests.ReceiveAfterSendTo` | src/requests.cpp:110-120 | a `HashRequest` with a non-empty payload, read back after `sendTo` with full reads, yields the digest `compute_checksum` gives for its payload; an empty payload is excluded because the code as written returns the all-zero digest for it (Findings) |
| `Requests.HashResponse.SetValues` | src/requests.cpp:122-125 | the struct then holds type and index, and the hash is untouched |
| `Requests.HashResponse.SendTo` | src/requests.cpp:127-131 | the stream gains the 40-byte encoding exactly when all three sends complete, otherwise the first failed field is named |
| `Requests.HashResponse.Receive` | src/requests.cpp:133-137 | holds the decoded 40-byte frame exactly when all three fields arrive, otherwise the first missing field is named |
| `RequestsHeader.InitRequest.SetValues` | includes/requests.h:38-41 | the struct then holds type 1 and `n` |
| `RequestsHeader.InitRequest.SendTo` | includes/requests.h:43-46 | two sends; the encoding is on the stream exactly when both complete |
| `RequestsHeader.InitRequest.Receive` | includes/requests.h:48-50 | one 8-byte `receiveAny`: completes exactly when 8 bytes are gathered, then holds the decoded frame |
| `RequestsHeader.AckResponse.SetValues` | includes/requests.h:58-61 | the struct then holds `type` and `length` as `uint32_t` |
| `RequestsHeader.AckResponse.SendTo` | includes/requests.h:63-66 | two sends; the encoding is on the stream exactly when both complete |
| `RequestsHeader.AckResponse.Receive` | includes/requests.h:68-70 | one 8-byte `receiveAny` that, on success, holds the decoded frame |
| `RequestsHeader.HashRequest.Resize` | includes/requests.h:96 | `Payload.resize(n)` keeps the prefix and zero-fills the rest |
| `RequestsHeader.HashRequest.SetValues` | includes/requests.h:79-85 | type 3 and the length; a negative length throws from `resize`; success exactly when the file has at least `length` bytes left, and the payload is then those bytes |
| `RequestsHeader.HashRequest.SendTo` | includes/requests.h:87-91 | type, length and payload are sent; the stream gains them exactly when all three sends complete |
| `RequestsHeader.HashRequest.ReceiveHeader` | includes/requests.h:94-95 | the two header fields arrive in order or the first missing one is named |
| `RequestsHeader.HashRequest.ReceivePayload` | includes/requests.h:96-97 | the payload is resized to `Length` and filled with exactly the next `Length` stream bytes |
| `RequestsHeader.HashRequest.Receive` | includes/requests.h:93-98 | on success `Payload.size() == ntohl(Length)` and the struct holds the frame decoded from the stream |
| `RequestsHeader.ReceiveAfterSendTo` | includes/requests.h:87-98 | a `HashRequest` that `sendTo` encoded is read back whole when each `recv` returns a whole field; no third `recv` is needed for an empty payload |
| `RequestsHeader.HashResponse.SetValues` | includes/requests.h:108-111 | the struct then holds type and index, and the hash is untouched |
| `RequestsHeader.HashResponse.SendTo` | includes/requests.h:113-117 | the 40-byte encoding is on the stream exactly when all three sends complete |
| `RequestsHeader.HashResponse.Receive` | includes/requests.h:119-123 | holds the decoded 40-byte frame exactly when all three fields arrive |
| `ArgCheck.IsNumber` | src/parser_client.cpp:10-15 | true exactly when every character is a decimal digit, so the empty string passes; `src/parser_server.cpp:10-16` is the same function |
| `ArgCheck.DecimalRoundTrip` | src/parser_client.cpp:32 | `atoi` reads back the decimal digits of every number |
| `ArgCheck.LeadingZero` | src/parser_client.cpp:41 | a leading zero does not change what `atoi` reads |
| `ArgCheck.DecimalValueBound` | src/parser_client.cpp:50 | side fact about the `atoi` model: `k` digits stand for less than `10^k`, so a digit string of at most nine characters always fits an `int` |
| `ArgCheck.PortText` | src/parser_client.cpp:28-36 | the decimal text of every port in 1025..65535, with or without a leading zero, passes `isNumber`, fits an `int` and reads back as that port, so `-p` accepts it |
| `ParserClient.FirstFailure` | src/parser_client.cpp:66-83 | the reported message belongs to a failing check with none failing before it, and nothing is reported exactly when no check fails |
| `ParserClient.FirstFailureIs` | src/parser_client.cpp:66-83 | the first failing check decides the message |
| `ParserClient.CompleteIff` | includes/parser_client.h:24-35 | the end checks pass exactly when address, port, `-n`, `--smin`, `--smax` (at least `--smin`), the file name and an opened file are all present |
| `ParserClient.CompleteArgumentsInRange` | includes/parser_client.h:26-29 | a record that passes has port in 1025..65535, `hashnum >= 0` and `1 <= smin <= smax <= 2^24` |
| `ParserClient.SmaxRequiredUnreachable` | src/parser_client.cpp:73-78 | "Option --smax is required!" is never reported: a missing `--smax` is reported by the `smax < smin` check or earlier |
| `ParserClient.ClientArguments.constructor` | includes/parser_client.h:10-17 | `client_arguments args{}`: all zero, empty or null except `hashnum == -1` |
| `ParserClient.ClientArguments.Parse` | src/parser_client.cpp:17-89 | each key changes only its own fields and gives its reply; unknown keys change nothing and answer `ARGP_ERR_UNKNOWN`; accepted options keep the record's bounds |
| `ParserClient.ClientArguments.ParseAddress` | src/parser_client.cpp:21-27 | a rejected address changes nothing; an accepted one sets the address and `AF_INET` |
| `ParserClient.ClientArguments.ParsePort` | src/parser_client.cpp:28-36 | only digit strings naming 1025..65535 are accepted, stored in network order |
| `ParserClient.ClientArguments.ParseHashreq` | src/parser_client.cpp:37-45 | digit strings are accepted and stored; the `< 0` check never fires |
| `ParserClient.ClientArguments.ParseSmin` | src/parser_client.cpp:46-53 | digit strings are stored, and values below 1 are reported |
| `ParserClient.ClientArguments.ParseSmax` | src/parser_client.cpp:54-61 | digit strings are stored, and values above 2^24 are reported |
| `ParserClient.ClientArguments.CheckComplete` | src/parser_client.cpp:66-83 | the reply is that of the first failing end check, in source order |
| `ParserServer.ServerArguments.constructor` | src/server.cpp:32 | `server_arguments args{}`: no port, empty salt |
| `ParserServer.ServerArguments.Parse` | src/parser_server.cpp:18-46 | `-p` as for the client, stored as an `int`; `-s` stores the salt with its length; the end check fails exactly when no port was given; unknown keys change nothing |

## Left out

- `src/server.cpp` and `src/client.cpp` are left out: sockets, `bind`/`listen`/`accept`/`connect`, `main`, and the client's `rand()` choice of payload size.
- Console output is not modelled, and neither are `argp_parse` itself or its help text.
- SHA-256 and OpenSSL are not modelled. The digest is an uninterpreted function of the absorbed bytes.
- The failure of `EVP_MD_CTX_new` is not modelled, because the source never checks it. The same holds for the ignored return value of `EVP_DigestInit_ex`.
- `hash.h`, `parser_server.h` and the header that declares the `MessageType` enum of the `.cpp` revision are not part of this model.
  - `UPDATE_PAYLOAD_SIZE` is some positive constant.
  - The `MessageType` codes of the `.cpp` revision are uninterpreted constants. Only the literals 1 and 3 of the header revision are fixed.
- Byte counts are unbounded naturals. `size_t`/`ssize_t` wrap-around does not arise within the modelled sizes. A `Length` field is a `uint32_t`.
- Exceptions are results. Where they are caught (in `main`) is not modelled.
- A `bad_alloc` from resizing to a huge non-negative length is not modelled.
- The negative-length `length_error` message is libstdc++'s `vector::_M_default_append`.
- `atoi` is modelled only on digit strings whose value fits in an `int`. Overflow on longer strings is excluded by a precondition.
- After an `argp_error` the program exits, so the record's state after an `Error` reply is not constrained beyond what each method states.
- Requests.HashRequest.Resize: the payload always moves to a fresh array. The model does not capture a `vector` that keeps its storage when it shrinks.
- RequestsHeader.HashRequest.Resize: the same.
- `receiveHash` declares `char buffer[CHUNK]` without initialising it. Its contents are a parameter, `stale`, of the as-written members.
- Streaming.ReceiveHash: the `recv` script is finite. Where the program would keep reading 0 from a closed connection forever, the modelled loop runs out of script and ends with `errMsg` (`Streaming.PeerClosedCutOff`). `Streaming.PeerClosedRepeats` states the endless loop itself.
- Requests.HashRequest.Receive: follows the code as written, including the stale-buffer, empty-payload and closed-connection behaviour. It does not restate where the connection stands after the payload, which `Streaming.ReceiveHash` states.
- Messages are modelled as written:
  - `HashResponse` in the header revision reuses the `HashRequest` wording in its messages.
  - The client's `--smax` "not a number" message speaks of the minimum size.
- Messages that can never be reported are kept as written, because they never affect any outcome: the `-n` "must be >= 0" check and "Option --smax is required!".

## Findings

| source | as written | input that shows it | evidently intended | confidence | as-written member | corrected member |
|---|---|---|---|---|---|---|
| src/hash.cpp:41-48 | the error path frees the struct and the salt copy but not the EVP context from `EVP_MD_CTX_new` | a non-empty salt whose copy cannot be allocated, or whose salt update fails | the error path also calls `EVP_MD_CTX_free`, so a failed creation leaks nothing | high, not executed | `Checksum.ChecksumCtx.CreateAsWritten` | `Checksum.ChecksumCtx.Create` |
| src/requests.cpp:48-57 | every `recv` writes to the start of `buffer`, but `checksum_update` always hashes all `UPDATE_PAYLOAD_SIZE` bytes, so a short read before the end hashes stale bytes | a full-size payload whose first `recv` returns 1 byte and whose second returns the rest | hash exactly the received payload, as `compute_checksum` does | high, not executed | `Streaming.StaleBufferOnShortRead` | `Streaming.ReceiveHashFixed` |
| src/requests.cpp:35-46 | with `size == 0` the loop never runs and the all-zero `digest{}` is returned instead of a digest | a `HashRequest` with `Length` 0 | SHA-256 of the salt alone, which is what `compute_checksum` returns for an empty payload | medium, not executed | `Streaming.ReceiveHash` | `Requests.HashRequest.ReceiveFixed` |
| src/requests.cpp:46-60 | a `recv` that returns 0 because the peer closed the connection is not an error: `total` does not grow, and the loop repeats forever, hashing the stale buffer each time | a peer that closes the connection while payload bytes are still due | fail with `errMsg`, as `receiveAny` does when `recv` returns 0 | high, not executed | `Streaming.PeerClosedRepeats` | `Streaming.ReceiveHashFixed` |
