# ReactiveRcon protocol core in Dafny

This project models the core of a Java client for Valve's Source RCON remote-console
protocol. It has two parts:

- **The frame codec of `RconPacket`** (module `RconPacket`, with the byte helpers in
  `Int32`). A packet is `Packet(requestId, packetType, body)`. Its frame is a little-endian
  int32 length equal to `10 + |body|`, the request id, the type, the body bytes and two zero
  bytes. This follows the "Basic Packet Structure" section of Valve's Source RCON Protocol.
  - `getAsByteArray` is the imperative method `GetAsByteArray`. It fills a fresh buffer
    with `PutInt`/`Put` the way `ByteBuffer` does. It is proved equal to the reference
    layout `Encode`.
  - `createFromStream` is the imperative method `CreateFromStream`. It reads from the input
    stream, modelled as a `seq<byte>`. It is proved equal to the reference decoder
    `Decode`.
  - Both round trips are proved: decode after encode, with any bytes following the frame;
    and encode after decode, for a decoded frame whose length field is at least 10, whose two
    terminator bytes are present and zero, and whose body is at most 2^31 - 15 bytes.
- **The protocol state of `RconConnection`** (module `RconConnection`). The class
  `Connection` has these fields:
  - `isAuthenticated`;
  - `connected`, which stands for `socket != null && socket.isConnected()`;
  - `emitters`, the `observableEmitterMap` from request id to waiting emitter;
  - the ghost logs `output` (bytes written to the socket), `deliveries` (signals sent to
    emitters) and `registeredUnder` (the id each emitter was registered with).

  Its invariant `Valid()` says:
  - every delivery went to the emitter registered under the packet's id;
  - no emitter is signalled twice;
  - no pending emitter has been signalled.

  Every method keeps this invariant. The per-tick handler is also the pure transition
  `React`. `Run` folds `React` over a run of the poll loop. Lemmas about `Run` prove the
  handshake and the correlation properties for any sequence of packets.

Request ids and emitter ids are arbitrary caller-supplied values. The source draws request
ids from `Random.nextInt()`, so nothing rules out `-1` or two commands sharing an id. The
model does not assume otherwise. Emitter ids must be fresh, because RxJava creates a new
emitter for every subscription.

Socket I/O becomes parameters:
- the input stream is a `seq<byte>`;
- `socketOpens` says whether `new Socket` succeeds;
- `closeSucceeds` says whether `socket.close()` succeeds.

Points of the code worth knowing, which the model follows:
- The code checks only that a socket is connected, not that the client is authenticated,
  before `sendCommand`/`sendCommandExpectingResponse` write.
- `disconnect` clears the emitter table only when closing the socket does not throw. Cleared
  emitters get no cancellation signal.
- A frame written as `[0E 00 00 00 | 01 00 00 00 | 02 00 00 00 | "hi" | 00 00]` has length
  field 14, which announces a 4-byte body: the code decodes the body as `"hi" 00 00`
  (`DecodeExampleWithLength14`). The length field is 10 + body length, so the frame of
  `{id 1, type 2, body "hi"}` has length field 12 (`DecodeExample`).

The findings below are modelled both ways:
- `DecodeAsWritten` and `BodyLengthAsWritten` follow the code literally. `Decode` and
  `BodyLength` are the corrected definitions that `CreateFromStream` and the rest of the model
  use. `DecodeAgreesWithAsWritten` proves that the two decoders differ only on the inputs the
  first two findings name.
- `RejectedLoginAsWritten` runs a connection through a rejected login with a disposer that does
  nothing, as the code's does. `RejectedLoginThenDisconnect` runs the same steps with the
  intended disposer, which runs `Disconnect`.

## Model

| member | source | states |
|---|---|---|
| `Int32.FromToLittleEndian` | src/main/java/com/westplay/reactivercon/RconPacket.java:80-83 | reading back (`getInt`) the four little-endian bytes `putInt` wrote gives the original int |
| `Int32.ToFromLittleEndian` | src/main/java/com/westplay/reactivercon/RconPacket.java:52-57 | every four bytes are the `putInt` image of the value `getInt` reads, so the two are inverse bijections |
| `Int32.Wrap` | src/main/java/com/westplay/reactivercon/RconPacket.java:59 | Java int arithmetic: the result is congruent to the exact value modulo 2^32 and equals it when it fits in an int |
| `Int32.ToLittleEndian` | src/main/java/com/westplay/reactivercon/RconPacket.java:80-83 | `putInt` in little-endian order writes exactly four bytes |
| `Int32.FromLittleEndian` | src/main/java/com/westplay/reactivercon/RconPacket.java:52-57 | `getInt` in little-endian order reads the four bytes as a two's-complement int, congruent modulo 2^32 to their unsigned value |
| `RconPacket.Encode` | src/main/java/com/westplay/reactivercon/RconPacket.java:74-93 | the reference frame of a packet is 14 + body length bytes; it fails with IllegalArgument when the frame size overflows an int |
| `RconPacket.Decode` | src/main/java/com/westplay/reactivercon/RconPacket.java:45-72 | the reference decoder fails only with EndOfStream, and a decoded packet consumes its 12 header bytes and its body, at most 2 terminator bytes more, and no more than the stream holds |
| `RconPacket.BodyLengthAsWritten` | src/main/java/com/westplay/reactivercon/RconPacket.java:59-60 | as written, the body length equals the clamped one for length fields from -2^31 + 10 on, and is 2^32 + length - 10 for the ten below |
| `RconPacket.DecodeAsWritten` | src/main/java/com/westplay/reactivercon/RconPacket.java:45-72 | createFromStream as written fails only with EndOfStream and never consumes more than the stream holds |
| `RconPacket.PacketBodyLength` | src/main/java/com/westplay/reactivercon/RconPacket.java:99-101 | the length-field value is 10 + body length whenever that fits in an int |
| `RconPacket.PacketLength` | src/main/java/com/westplay/reactivercon/RconPacket.java:95-97 | the frame size is 4 + the length-field value whenever that fits in an int |
| `RconPacket.FrameSizeOverflows` | src/main/java/com/westplay/reactivercon/RconPacket.java:75-77 | the buffer size Java computes is negative exactly when the body is longer than 2^31 - 15 bytes, and is 14 + body length otherwise |
| `RconPacket.PutInt` | src/main/java/com/westplay/reactivercon/RconPacket.java:80-83 | appends the four little-endian bytes of an int at the buffer position and advances it by 4 |
| `RconPacket.Put` | src/main/java/com/westplay/reactivercon/RconPacket.java:86-90 | appends the given bytes verbatim at the buffer position and advances it by their count |
| `RconPacket.GetAsByteArray` | src/main/java/com/westplay/reactivercon/RconPacket.java:74-93 | the filled buffer equals the reference frame `Encode(p)`, and allocation fails when the frame size overflows |
| `RconPacket.EncodeLayout` | src/main/java/com/westplay/reactivercon/RconPacket.java:74-93 | the frame is 14 + body length bytes: bytes 0-3 read back as 10 + body length, 4-7 as the request id, 8-11 as the type, then the body verbatim and two zero bytes |
| `RconPacket.EncodeFailsIff` | src/main/java/com/westplay/reactivercon/RconPacket.java:75-77 | encoding fails, with IllegalArgument, if and only if the body is longer than 2^31 - 15 bytes |
| `RconPacket.BodyLength` | src/main/java/com/westplay/reactivercon/RconPacket.java:59-60 | the body length is the length field minus 10 when positive and 0 otherwise, and it never exceeds a non-negative field |
| `RconPacket.CreateFromStream` | src/main/java/com/westplay/reactivercon/RconPacket.java:45-72 | reading the header, the announced body (failing at end of stream) and the terminator gives exactly the reference decoder `Decode` |
| `RconPacket.DecodeEncode` | src/main/java/com/westplay/reactivercon/RconPacket.java:45-93 | round trip: decoding a frame followed by any bytes yields the same id, type and body and consumes exactly 14 + body length bytes |
| `RconPacket.EncodeDecode` | src/main/java/com/westplay/reactivercon/RconPacket.java:45-93 | converse round trip: a decoded frame whose length field is at least 10, whose two terminator bytes are present and zero, and whose body is at most 2^31 - 15 bytes is the encoding of its packet |
| `RconPacket.DecodeFollowsLengthField` | src/main/java/com/westplay/reactivercon/RconPacket.java:59-69 | decoding fails at end of stream before the header or the announced body is complete, and otherwise takes BodyLength(length) body bytes and 12 + BodyLength + 2 bytes in all when the terminator is present |
| `RconPacket.DecodeExample` | src/main/java/com/westplay/reactivercon/RconPacket.java:45-93 | the packet {id 1, type 2, body "hi"} encodes to [0C 00 00 00 01 00 00 00 02 00 00 00 'h' 'i' 00 00], which decodes back to it |
| `RconPacket.DecodeExampleWithLength14` | src/main/java/com/westplay/reactivercon/RconPacket.java:59-66 | with length field 14 the same bytes decode to the body "hi" 00 00, since the field announces 4 body bytes |
| `RconPacket.PhantomPacketAtEndOfStream` | src/main/java/com/westplay/reactivercon/RconPacket.java:47-57 | as written, an empty stream decodes to a packet with id 0, type 0 and an empty body, while the reference decoder fails |
| `RconPacket.BodyLengthWrapsAsWritten` | src/main/java/com/westplay/reactivercon/RconPacket.java:59-60 | as written, the length field -2^31 announces a body of 2^31 - 10 bytes, while the clamped length is 0 |
| `RconPacket.DecodeAgreesWithAsWritten` | src/main/java/com/westplay/reactivercon/RconPacket.java:45-72 | the reference decoder equals the code as written on every stream of at least 12 bytes whose length field is at least -2^31 + 10 |
| `RconConnection.React` | src/main/java/com/westplay/reactivercon/RconConnection.java:88-107 | one tick passes the packet on unless it fails, fails only with AuthenticationFailed before authentication, never loses authentication, only removes table entries, and delivers only to the emitter registered under the packet's id, whose entry it removes |
| `RconConnection.Run` | src/main/java/com/westplay/reactivercon/RconConnection.java:84-108 | the poll loop over successive packets, stopping at the first failing tick, sends at most one signal per packet read |
| `RconConnection.ReactAcceptsAuthReply` | src/main/java/com/westplay/reactivercon/RconConnection.java:90-92 | before authentication, the packet with the auth request id and type AUTH_RESPONSE authenticates, leaves the table alone, delivers nothing and is passed on |
| `RconConnection.ReactRejectsLogin` | src/main/java/com/westplay/reactivercon/RconConnection.java:93-95 | before authentication, a packet with id -1 that is not the auth reply fails the tick with AuthenticationFailed and leaves the client unauthenticated |
| `RconConnection.ReactIgnoresBeforeAuth` | src/main/java/com/westplay/reactivercon/RconConnection.java:90-97 | before authentication, any other packet changes neither the flag nor the table, even if its id is registered, and is passed on |
| `RconConnection.ReactDispatches` | src/main/java/com/westplay/reactivercon/RconConnection.java:98-107 | after authentication, a registered id is delivered to its emitter and only that key is removed; an unregistered id changes nothing; the tick returns the packet |
| `RconConnection.RunKeepsCorrelation` | src/main/java/com/westplay/reactivercon/RconConnection.java:86-108 | over any run of ticks, each delivery hands a read packet to the emitter registered under its id, no id is delivered twice, entries are only removed, and a run fails only on a rejected login |
| `RconConnection.RunResolvesAnswered` | src/main/java/com/westplay/reactivercon/RconConnection.java:98-104 | after authentication, a run never fails, an emitter stays pending if and only if no packet carries its id, and each answered emitter receives a packet with its own id |
| `RconConnection.RunBeforeAuthentication` | src/main/java/com/westplay/reactivercon/RconConnection.java:90-97 | until the auth reply arrives, nothing is delivered and nothing changes, and the run fails with AuthenticationFailed if and only if some packet has id -1 |
| `RconConnection.RunHandshake` | src/main/java/com/westplay/reactivercon/RconConnection.java:90-97 | packets before the auth reply that are neither it nor a rejection are discarded, and the run continues as an authenticated run with the same table |
| `RconConnection.Connection.constructor` | src/main/java/com/westplay/reactivercon/RconConnection.java:29-38 | a new connection is unauthenticated, has no socket and has an empty emitter table |
| `RconConnection.Connection.SendPacket` | src/main/java/com/westplay/reactivercon/RconConnection.java:184-191 | with no connected socket the send fails with NotConnected and writes nothing; otherwise the packet's frame is appended to the output |
| `RconConnection.Connection.Connect` | src/main/java/com/westplay/reactivercon/RconConnection.java:58-75 | with a socket already connected it fails with AlreadyConnected and changes nothing; otherwise it opens the socket and writes the AUTH frame carrying the password |
| `RconConnection.Connection.SendCommand` | src/main/java/com/westplay/reactivercon/RconConnection.java:128-137 | writes the EXECCOMMAND frame and answers its request id, or fails as sendPacket fails |
| `RconConnection.Connection.SendCommandExpectingResponse` | src/main/java/com/westplay/reactivercon/RconConnection.java:143-152 | writes the frame first and only then maps the id to the emitter; a colliding id overwrites the earlier entry, which is never signalled; a failed send registers nothing |
| `RconConnection.Connection.HandlePacket` | src/main/java/com/westplay/reactivercon/RconConnection.java:88-107 | the new flag, table and delivery log are exactly those of `React`, and the invariant (no cross-delivery, at most once) is kept |
| `RconConnection.Connection.Tick` | src/main/java/com/westplay/reactivercon/RconConnection.java:86-108 | reads one packet with `Decode` and handles it; a failed read changes nothing and ends the tick with its failure |
| `RconConnection.Connection.CloseSocket` | src/main/java/com/westplay/reactivercon/RconConnection.java:201-208 | a failing close leaves the table as it was; otherwise the table is cleared, without signalling the cleared emitters |
| `RconConnection.Connection.Disconnect` | src/main/java/com/westplay/reactivercon/RconConnection.java:155-171 | afterwards the client is unauthenticated and has no socket even if closing failed, which is reported as IOFailure; the table is cleared only when closing succeeded |
| `RconConnection.RejectedLoginAsWritten` | src/main/java/com/westplay/reactivercon/RconConnection.java:114-121 | as written, after a rejected login ends the stream, the waiter registered before stays pending and authenticating again fails with AlreadyConnected |
| `RconConnection.RejectedLoginThenDisconnect` | src/main/java/com/westplay/reactivercon/RconConnection.java:155-171 | with the disposer running disconnect, the same steps leave no waiter pending when closing succeeds, and authenticating again succeeds |

## Findings

| source | as written | input that shows it | evidently intended | confidence | as-written member | corrected member |
|---|---|---|---|---|---|---|
| src/main/java/com/westplay/reactivercon/RconPacket.java:50 | `inputStream.read(header)` ignores the count it returns, so at end of stream the header stays all zero and decoding succeeds | an empty input stream (the server closed the socket) decodes to Packet(0, 0, []) and consumes nothing, so every later tick yields the same phantom packet | end of stream before a full header is an I/O failure that ends the poll loop | not executed | `RconPacket.PhantomPacketAtEndOfStream` | `RconPacket.Decode` |
| src/main/java/com/westplay/reactivercon/RconPacket.java:59-60 | `length - 4 - 4 - 2` is int arithmetic and wraps for the ten most negative length fields, so the clamp at 0 does not apply | length field 0x80000000 announces a body of 2^31 - 10 bytes, and the client allocates a 2 GiB array | a length field below 10 announces an empty body | not executed | `RconPacket.BodyLengthWrapsAsWritten` | `RconPacket.BodyLength` |
| src/main/java/com/westplay/reactivercon/RconConnection.java:114-121 | the disposer of `Observable.using` calls `disconnect()` and discards the Observable it returns; that Observable is cold, so the close, the reset of `isAuthenticated` and `socket`, and the clear of the table never run | the server answers the AUTH packet with id -1 (or a read fails, or the caller cancels): the socket stays open and connected, waiters stay pending, and the next `authenticate` fails with IllegalStateException at :62-63 | the disposer subscribes to `disconnect()`, so the socket is released and the state is reset on every exit path | not executed | `RconConnection.RejectedLoginAsWritten` | `RconConnection.RejectedLoginThenDisconnect` |

## Left out

- Socket I/O is not modelled: `new Socket`, `getOutputStream().write/flush`, `getInputStream()`. Opening and closing outcomes are boolean parameters. Written bytes go to a ghost log. The input is a byte sequence.
- Write failures of the output stream (an IOException from `write` or `flush`) are not modelled: a write to a connected socket never fails; the send still fails with IllegalArgument when the frame size overflows an int.
- Short reads are not modelled. `read(header)` at RconPacket.java:50 and the terminator `read` at :69 may return fewer bytes than asked while more are still coming. The model reads everything the stream still holds, up to the amount asked. A real socket's partial reads would desynchronise the framing; the model does not show this.
- RxJava plumbing is not modelled: `Observable.using`, `Observable.interval`, the 5 ms tick and the emitter lifecycle. The poll loop is the function `Run`, and one tick is `Connection.Tick`. The `using` disposer (RconConnection.java:114-121) runs nothing of `disconnect`, since it never subscribes to the Observable that `disconnect()` returns; the two scenario methods `RejectedLoginAsWritten` and `RejectedLoginThenDisconnect` show the effect, and `Disconnect` models what a subscription to `disconnect()` runs. `authenticate` (RconConnection.java:44-52) only wires these together.
- Concurrency is not modelled. The unsynchronised `HashMap` is shared between the poll thread and callers; the model is sequential.
- `Random` request-id generation (RconConnection.java:173-175) is not modelled. Ids are method parameters.
- Charset conversion is not modelled: `String.getBytes()` with the platform charset, `getBodyAsString` in UTF-8, and `toString`. Bodies, passwords and commands are byte sequences. The String constructor (RconPacket.java:33-37) is therefore the same as the byte[] one.
- The byte[] constructor and the getters (RconPacket.java:39-43, 103-113) are the datatype constructor `Packet` and its fields. Java's aliasing of the body array between the caller and the packet is not modelled.
- `RconPacket.GetAsByteArray`, `RconConnection.Connection.SendPacket` and the methods that call it require bodies of at most 2^31 - 1 bytes, the largest array Java can allocate.
- RconPacket.BodyLengthAsWritten: the allocation of the huge array it can announce is not modelled. The model asks the stream for that many bytes, and an OutOfMemoryError is not modelled.
- `Main.java` is I/O glue that prints, so it is left out. `NotConnectedException` is the error variant `NotConnected`.
