# Upstream client connection: frame codec, reaction logic, session table

A Dafny model of the parts of the tic-tac-toe server that carry logic:

- the wire frame (`Data`, `to_bytes`). A frame is a 4-byte little-endian payload length, a 2-byte big-endian service id, then the UTF-8 payload.
- `AppCodec`. Its encoder appends bytes. Its decoder is resumable: it takes nothing until a whole frame is buffered, then takes exactly `6 + length` bytes, and only after that checks the payload for UTF-8.
- the reaction logic of `Connection`. Heartbeat frames (service 1) are echoed. Authentication replies (service 2) either reset the failure counter or increment it and send a new login request. From a count of 10 on, that request uses the alternate username. A successful connect stores the transport and sends a login request.
- `Switchboard`, a session table with upsert semantics.

Everything is pure: immutable datatypes, functions and lemmas. The connection is a state `(running, transport present, count)`. One inbound event gives the next state plus the messages handed to the transport, or a panic of the handler task.

Modules, one per concern:

- `Bytes`: fixed-width integers and the LE32/BE16 layouts.
- `Utf8`: two definitions of UTF-8 validity, proved equal. One is the RFC 3629 section 4 grammar; the other is a lead-byte-first scanner, the way Rust's `String::from_utf8` validates.
- `Frames`: `data.rs`.
- `Codec`: `io.rs`.
- `Protocol`: `connection.rs`.
- `Sessions`: `switchboard.rs`.
- `Wrappers`: `Option` and `Result`.

The model follows the code, including where it departs from what a reader of the code might expect:

- There is no lifecycle phase. Heartbeats and service-2 replies are handled the same way whatever happened before. The program only reads frames after a successful connect has set the transport (src/network/connection.rs:129-139), and never clears it. `Protocol.Step` also accepts a `Received` event before any connect, an order the program never produces; there the reply is simply not sent.
- `transport_tx` is never reset to `None` after the read stream ends. After a disconnect, `send` still writes to the old transport (`Protocol.TransportNeverReset`).
- A payload that is not UTF-8 is consumed before the decoder reports the error; it is not left in the buffer (`Codec.InvalidPayloadIsConsumed`).
- A service-2 payload that is not JSON makes `unwrap` panic. The model gives a `PayloadNotJson` panic for this case.
- Frames with any other service id are ignored; they are not passed anywhere.

Abstractions:

- The JSON parse of a service-2 payload is an input to `OnDataReceived`: `JsonView = NotJson | Json(r: Option<i64>)`. `Some` means `r` is an integer that fits an i64, as with `as_i64`.
- The heartbeat and login payloads are rendered as JSON text with keys in declaration order. serde_json's real key order depends on crate features that are not part of this model. The model relies only on the payloads being short ASCII text, the login payloads differing between the two profiles, and the profiles differing only in `username`.
- `count += 1` on a `u32` is modelled as in a debug build: at `u32::MAX` it panics with cause `CountOverflow`.
- A panic ends the task spawned at src/network/connection.rs:112, and with it the connect loop, so the client never reconnects; `Protocol.Run` stops at the first panic. The panic does not take back what was already written: `Protocol.Run` keeps the messages sent before the panicking event.

## Model

| member | source | states |
|---|---|---|
| Bytes.TruncateU32 | src/network/io/data.rs:12 | `len as u32` keeps the value below 2^32, changes it from 2^32 on, and is congruent to it modulo 2^32 |
| Bytes.LeBytes32 | src/network/io/data.rs:14 | `write_u32_le` writes four bytes that `u32::from_le_bytes` reads back as the same value |
| Bytes.LeBytes32Inverse | src/network/io/io.rs:26-29 | every four header bytes are the little-endian layout of the length `from_le_bytes` reads from them |
| Bytes.BeBytes16 | src/network/io/data.rs:15 | `write_u16` writes two bytes that `u16::from_be_bytes` reads back as the same service id |
| Bytes.BeBytes16Inverse | src/network/io/io.rs:31-33 | every two service bytes are the big-endian layout of the id read from them |
| Utf8.CharWidth | src/network/io/io.rs:42 | the lead byte fixes the character length: at most one prefix of 1 to 4 bytes is a well-formed RFC 3629 character, and the result is its length (0 if none) |
| Utf8.ValidUtf8IsGrammar | src/network/io/io.rs:42-49 | the character-by-character scanner accepts exactly the byte strings derived by the UTF8-octets grammar of RFC 3629 |
| Utf8.RejectsMalformed | src/network/io/io.rs:42-49 | a lone 0xFF, a stray continuation byte, an overlong C0 80, a surrogate ED A0 80 and F4 90 80 80 above U+10FFFF are not UTF-8 |
| Frames.ToBytes | src/network/io/data.rs:10-18 | the frame is 6 bytes longer than the payload: bytes 0-3 read little-endian as the payload length modulo 2^32, bytes 4-5 big-endian as the service, the rest is the payload |
| Frames.LengthFieldExact | src/network/io/data.rs:12-14 | the length field equals the payload length if and only if the payload is shorter than 2^32 bytes |
| Frames.ToBytesInjective | src/network/io/data.rs:10-18 | two frames with the same serialisation are the same frame |
| Codec.Encode | src/network/io/io.rs:12-15 | `encode` never fails and leaves `dst` followed by exactly `item` |
| Codec.Transmit | src/network/io/io.rs:12-15 | encoding frames one after another leaves the earlier content followed by their serialisations, in order |
| Codec.Decode | src/network/io/io.rs:21-51 | `Ok(None)` exactly when no whole frame is buffered, and then nothing is consumed; otherwise exactly `6 + length` bytes are consumed; a decoded frame re-serialises to exactly the consumed bytes; `Err` only for a payload that is not UTF-8 |
| Codec.DecodeRoundTrip | src/network/io/io.rs:21-43 | decoding `to_bytes(d) ++ rest` yields `d` and leaves `rest`, for every payload below 2^32 bytes |
| Codec.DecodeStrictPrefix | src/network/io/io.rs:22-37 | every strict prefix of a serialised frame yields `Ok(None)` and is left untouched |
| Codec.InvalidPayloadIsConsumed | src/network/io/io.rs:39-49 | a frame whose one-byte payload is 0xFF yields the error, yet its seven bytes are already removed from the buffer |
| Codec.DecodeAll | src/network/io/io.rs:21-43 | decoding repeatedly terminates; the frames it yields all have payloads below 2^32 bytes and serialise to a prefix of the buffer; if it stops for lack of data, what remains is exactly the bytes after them and holds no whole frame; if it stops at an invalid payload, decoding the bytes after the frames gives that error and leaves exactly the recorded rest |
| Codec.FramesTakeHeaderBytes | src/network/io/io.rs:35-40 | repeated decoding yields at most one frame per 6 bytes of the buffer, since each frame consumes its 6-byte header besides the payload |
| Codec.DecodeAllWire | src/network/io/io.rs:21-43 | serialised frames followed by bytes holding no whole frame decode back to exactly those frames, leaving exactly those bytes |
| Protocol.Credentials | src/network/connection.rs:84-104 | the two login profiles agree on every field but `username`, which is `"username"` for the escalated profile and `"u"` otherwise |
| Protocol.ToData | src/network/connection.rs:58-107 | the heartbeat goes out as service 1 and a login request as service 2, each with a payload short enough for the length field |
| Protocol.ToDataInjective | src/network/connection.rs:85-103 | the heartbeat and the two login requests are three distinct frames on the wire |
| Protocol.Send | src/network/connection.rs:39-53 | for any frame, the handler's own or a caller's: it reaches the transport if and only if one is set, at most once, and nothing else is sent; write errors are swallowed |
| Protocol.SendDecodes | src/network/connection.rs:39-45 | a frame with a payload below 2^32 bytes that any caller sends, such as the service-3 request of the test at lines 174-176, is decoded by the peer as exactly that frame when a transport is set; without one the peer receives no bytes |
| Protocol.Auth | src/network/connection.rs:82-109 | sends at most one message, a login request, and does so exactly when a transport is set; it is escalated exactly when `count >= 10` |
| Protocol.AuthFailed | src/network/connection.rs:69-71 | a rejection increments `count` and then sends the request chosen by the incremented count; at `u32::MAX` the increment panics |
| Protocol.OnDataReceived | src/network/connection.rs:55-80 | service 1: echo the heartbeat, state unchanged; service 2 with `r == 0`: `count := 0`, nothing sent; service 2 with `r` missing, not an i64 or non-zero: `count + 1` and one login request for the new count; service 2 not JSON: panic; other services: nothing changes |
| Protocol.OnConnect | src/network/connection.rs:127-131 | a new connection sets the transport and sends one login request chosen by the unchanged `count` |
| Protocol.NewThenConnect | src/network/connection.rs:25-29 | `new` starts running, without a transport, at count 0, so the first successful connect sends the default login request |
| Protocol.TransportNeverReset | src/network/connection.rs:35-37 | once a transport is set, no sequence of events clears it |
| Protocol.RunningNeverChanges | src/network/connection.rs:114-116 | as long as no handler panics, no event changes `running`, so the check at lines 114-116 never ends the connect loop; only a panic of the handler task does |
| Protocol.CountSurvivesReconnect | src/network/connection.rs:127-155 | after the read stream ends, a failed attempt and a successful reconnect, the login request is chosen by the count from before the disconnect |
| Protocol.RejectionsCountUp | src/network/connection.rs:68-78 | any `n` consecutive service-2 rejections, mixing a missing `r`, an `r` that is not an i64 and different non-zero values, raise `count` from `k` to `k+n` and send, in order, the requests for counts `k+1` to `k+n` |
| Protocol.EscalationAtTenthRejection | src/network/connection.rs:70-71 | from count 0, for any ten rejections, the first nine are answered with the default request; the tenth, arriving at count 9, is answered with the escalated one |
| Protocol.SentFramesDecode | src/network/connection.rs:41-45 | whatever the handler sends, the peer's decoder recovers exactly those frames, in order, with nothing left over |
| Sessions.New | src/switchboard.rs:23-28 | a new table holds no session, counts 0 and keeps the configuration |
| Sessions.InsertNewSession | src/switchboard.rs:30-37 | the session is stored under its id, replacing any earlier one; other ids keep their sessions; the count grows by one exactly when the id was new |
| Sessions.InsertIdempotent | src/switchboard.rs:30-37 | inserting the same session twice is the same as inserting it once |
| Sessions.InsertIgnoresConfig | src/switchboard.rs:19 | the stored limits play no part in an insert, which never rejects |
| Sessions.InsertAllIsLastWriteWins | src/switchboard.rs:30-41 | a table built by inserts maps each id to the last session inserted under it, and counts the distinct ids inserted |

## Left out

- The reconnect loop's I/O (src/network/connection.rs:111-159): task spawn, TCP connect to a fixed address, splitting into framed halves, the mutex, the 5-second sleep. Only its effect on the state is kept (`Protocol.Step`): a connect attempt, an inbound frame, the end of the read stream.
- JSON serialisation and parsing (serde_json). The parse is given as a `JsonView`; the payload text and its key order are representative.
- `LockedSwitchboard` (src/switchboard.rs:44-67): only an `RwLock` around the table.
- The HTTP handlers and server start-up (src/message_handler/http_route.rs, src/main.rs). src/main.rs does not declare the `network` or `error` modules, so the codec and connection are not reachable from the binary.
- src/error/error.rs: a decode failure is the single value `InvalidData`.
- src/conf.rs: a plain record, kept as `SwitchboardConfig`.
- Logging, and the test at src/network/connection.rs:162-181, which needs a live server.
- `FramedRead`'s end-of-stream handling (`decode_eof`). The model stops at the decoder's own answers.
- Codec.Decode: assumes a 64-bit `usize`. On a 32-bit target `length + 6` overflows for lengths of 2^32 - 6 or more, which panics in a debug build and, in a release build, wraps and then panics at the slice.
- Protocol.AuthFailed: models the debug-build overflow check; a release build would wrap `count` to 0 instead of panicking.
- Sessions.SessionsCount: returns an unbounded count; `usize` width is not modelled.
