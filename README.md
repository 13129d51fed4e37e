# restbed WebSocket chat example, modelled in Dafny

restbed's `web_socket` example is a small chat relay. A client opens it with an HTTP GET on
`/socket` that asks for an upgrade. The server answers with the RFC 6455 handshake headers
and then keeps a registry of open WebSockets, keyed by each connection's key. A text or
binary message from one client is relayed to every other registered client. Pings are
answered with pongs, and a close frame removes the sender. A keepalive sweep runs on a
timer: it pings every open socket, and it closes and erases every socket that is no longer
open.

The project has four modules:

- `Base64` (`base64.dfy`) is the base64 encoding of section 4 of RFC 4648. It has an
  encoder and a strict, canonical decoder. The proofs show that each inverts the other, in
  both directions, and fix the length and padding of every encoding.
- `Handshake` (`handshake.dfy`) builds the handshake response of sections 1.3 and 4.2.2 of
  RFC 6455. This covers `base64_encode` as the example writes it: OpenSSL's base64 filter
  breaks lines every 64 characters, and the example drops the final byte. It also covers the
  header lookup, the `Sec-WebSocket-Accept` value and the three response headers. SHA-1 is a
  parameter `sha1: string -> Digest`, whose result is 20 octets.
- `HandshakeExample` (`handshake_example.dfy`) works the example of section 1.3 of RFC 6455.
  For the key `dGhlIHNhbXBsZSBub25jZQ==` whose digest the RFC gives, the accept value is
  `s3pPLMBiTxaQ9kYGzzhZRbK+xOo=`.
- `Chat` (`chat.dfy`) models the relay:
  - The class `WebSocket` stands in for restbed's socket. It records its key, whether it is
    open, every frame handed to `send`, the number of `close` calls, and whether the
    example's handlers are attached.
  - The class `ChatServer` holds the global registry `sockets` and the log of timer delays
    the sweep is armed with.
  - Each handler of the example is a method of `ChatServer`. Its contract states the new
    registry and the new state of every socket it touches.
  - The sweep and the relay loop over a snapshot of the registry's keys. Their loop
    invariants state which keys have been handled so far.

## Model

| member | source | states |
|---|---|---|
| Base64.Encode | example/web_socket/source/example.cpp:37-56 | The encoding of n octets has 4·⌈n/3⌉ characters. |
| Base64.DecodeEncode | example/web_socket/source/example.cpp:37-56 | Every octet string is recovered from its base64 encoding: `Decode(Encode(b)) == Some(b)`. |
| Base64.EncodeDecode | example/web_socket/source/example.cpp:37-56 | Whatever the decoder accepts is exactly the encoder's output for the octets it yields, so encodings are canonical. |
| Base64.DecodeIffEncode | example/web_socket/source/example.cpp:37-56 | `Decode(s) == Some(b)` holds if and only if `Encode(b) == s`. |
| Base64.EncodeShape | example/web_socket/source/example.cpp:37-56 | An encoding is alphabet characters followed by exactly 0, 1 or 2 '=' characters, as the input length mod 3 dictates. |
| Handshake.BioLines | example/web_socket/source/example.cpp:42-47 | The filter's buffer is empty exactly when the encoding is empty. A non-empty buffer ends in '\n'. An encoding of at most 64 characters gets just one trailing '\n'. |
| Handshake.UnwrapBioLines | example/web_socket/source/example.cpp:42-47 | The filter adds nothing but line breaks: once they are removed, the buffer is the encoding. |
| Handshake.Base64Encode | example/web_socket/source/example.cpp:37-56 | With its line breaks removed, `base64_encode` returns the RFC 4648 encoding of its input. For inputs of up to 48 octets it is that encoding exactly, since the cut-off final byte is the only line break. |
| Handshake.DigestEncoding | example/web_socket/source/example.cpp:63-69 | The encoding of a 20-octet digest has 28 characters: 27 alphabet characters and a single final '='. |
| Handshake.GetHeader | example/web_socket/source/example.cpp:60 | The value of the first header with the given name, or "" when the request has none. |
| Handshake.AcceptValue | example/web_socket/source/example.cpp:60-69 | The accept value decodes to exactly `sha1(key ++ "258EAFA5-E914-47DA-95CA-C5AB0DC85B11")`. It has 28 characters and ends in a single '='. |
| Handshake.BuildResponseHeaders | example/web_socket/source/example.cpp:58-72 | There are exactly three headers, in the multimap's key order: `Upgrade: websocket`, `Connection: Upgrade`, and `Sec-WebSocket-Accept` set to the accept value of the request's key. |
| Handshake.ResponseDependsOnlyOnKey | example/web_socket/source/example.cpp:58-72 | Two requests with the same `Sec-WebSocket-Key` get the same headers, so the response is deterministic in the key. |
| Handshake.MissingKeyIsNotRejected | example/web_socket/source/example.cpp:166-170 | The header checks are commented out. A request without a key is still answered, with the accept value computed from the GUID alone. |
| HandshakeExample.Rfc6455Example | example/web_socket/source/example.cpp:58-72 | The example of section 1.3 of RFC 6455: if SHA-1 maps the key and GUID to the digest the RFC gives, the accept value is `s3pPLMBiTxaQ9kYGzzhZRbK+xOo=`. |
| Chat.WebSocket.constructor | example/web_socket/source/example.cpp:172-174 | A socket starts with its key and open flag, no frames sent, no close calls and no handlers attached. |
| Chat.WebSocket.Send | example/web_socket/source/example.cpp:147 | `send` appends the frame to the socket's log and changes nothing else. |
| Chat.WebSocket.Close | example/web_socket/source/example.cpp:101 | `close` leaves the socket not open, counts one more close, and sends nothing. |
| Chat.WebSocket.AttachHandlers | example/web_socket/source/example.cpp:176-178 | The close, error and message handlers are attached, and nothing else changes. |
| Chat.DeliveredOnce | example/web_socket/source/example.cpp:147 | One `send` of m adds exactly one m to the log. The count of every other frame, the open flag and the close count are unchanged. |
| Chat.SweptCounts | example/web_socket/source/example.cpp:95-103 | A sweep gives an open socket exactly one more ping, and it stays open and unclosed. A socket that is not open gets no frame and exactly one more close. |
| Chat.CountAppend | example/web_socket/source/example.cpp:147 | Appending a frame to a log raises that frame's count by one and leaves every other count as it was. |
| Chat.ChatServer.constructor | example/web_socket/source/example.cpp:35 | At start-up the registry is empty and one sweep is armed, 5000 seconds (5,000,000 ms) ahead, as `main` does at line 210. |
| Chat.ChatServer.CloseHandler | example/web_socket/source/example.cpp:74-80 | Exactly the socket's key is erased. Every other entry is unchanged, and an absent key leaves the registry as it was, so a second call is a no-op. |
| Chat.ChatServer.ErrorHandler | example/web_socket/source/example.cpp:82-86 | The registry, the timers and the socket are unchanged. |
| Chat.ChatServer.UpgradeHandler | example/web_socket/source/example.cpp:172-192 | An open socket gets the handlers and exactly one welcome text. It is registered only if its welcome send completed and its key was absent, so `map::insert` never overwrites. A socket that is not open is untouched and never registered. |
| Chat.ChatServer.GetMethodHandler | example/web_socket/source/example.cpp:162-197 | The response headers are the handshake headers of the request, whatever it holds. The socket and the registry then change as in the upgrade continuation: an open socket gets the handlers and one welcome text, and is registered only if the welcome send completed and its key was absent. |
| Chat.ChatServer.SweepStep | example/web_socket/source/example.cpp:92-103 | One iteration of the sweep keeps the sweep invariant: visited keys are swept, and pending keys are untouched and still registered. |
| Chat.ChatServer.PingEntry | example/web_socket/source/example.cpp:95-98 | An open socket is sent one ping and stays registered, and the sweep invariant is kept. |
| Chat.ChatServer.DropEntry | example/web_socket/source/example.cpp:99-103 | A socket that is not open is closed once and its key erased, and the sweep invariant is kept. |
| Chat.ChatServer.Sweep | example/web_socket/source/example.cpp:90-104 | Every entry present at entry is visited once. The registry keeps exactly the open sockets' entries, and each socket ends in its swept state: one more ping if it was open, otherwise one close. |
| Chat.ChatServer.PingHandler | example/web_socket/source/example.cpp:88-107 | The registry becomes the old registry restricted to open sockets, and each socket is swept. The handler re-arms itself with 5000 ms whatever the registry held, including when it was empty. |
| Chat.ChatServer.Relay | example/web_socket/source/example.cpp:132-150 | Every registered socket whose key differs from the source's gets the message once, unchanged. The source gets nothing, and the registry is unchanged. |
| Chat.ChatServer.MessageHandler | example/web_socket/source/example.cpp:109-160 | PING: exactly one pong, to the source only. PONG: nothing changes. CLOSE: the source's key is erased and nothing is sent. Any other frame is relayed to every other key. The registry changes only for CLOSE. |

## Left out

- SHA-1 (OpenSSL's `SHA1`) is a foreign call. It is a parameter of the handshake functions,
  constrained only to return 20 octets.
- The BIO and `BUF_MEM` plumbing and the `malloc` in `base64_encode`, whose buffer is never
  freed, are not modelled. Only what the filter leaves in its memory buffer is modelled:
  the encoding, with a '\n' after every 64 characters.
- Handshake.Base64Encode: requires a non-empty input. For an empty input the C code would
  copy `length - 1` bytes from an empty buffer. The example only ever passes the 20-octet
  digest.
- Handshake.GetHeader: takes the first header whose name matches exactly. restbed's own
  header matching and its case rules are not part of this model.
- The restbed transport is not modelled: `Service`, `Session::upgrade`, and the
  `WebSocket` internals, including framing, masking and I/O. A socket is its open flag, its
  log of frames handed to `send`, its count of `close` calls, and whether its handlers are
  attached.
- Asynchrony is modelled as ordinary sequential steps. Chat.ChatServer.UpgradeHandler: the
  completion of the welcome send is its `delivered` parameter. Sends in the model always
  complete.
- Timers are recorded only as the delays they are armed with, in `schedule`. Their firing
  is not modelled.
- Logging (`fprintf`, `String::format`) and the commented-out frame dumps are left out.
- Start-up is left out: the port 1984, the path `/socket` and `service->start`.
- Chat.ChatServer.Sweep: visits the keys of a snapshot taken at entry, in an unspecified
  order. The C++ loop erases from `sockets` while range-iterating it, which invalidates its
  iterator and is undefined behaviour. The model states the evident intent.
- Chat.ChatServer.MessageHandler: its CLOSE branch models the code, which calls
  `close_handler` directly and never calls `socket->close()`. The socket's own open flag is
  therefore left as it was.
- Chat.ChatServer.DropEntry: folds two steps into one erase. In restbed, `socket->close()` at
  example.cpp:101 itself invokes `close_handler`, as the comment at line 130 notes. That call
  already erases the key and logs, so the erase at line 102 finds nothing left to remove. The
  model's `WebSocket.Close` touches only the socket, and the erase of line 102 stands for both.
  The registry ends the same either way.
- Some behaviour is not in the code, so the model does not have it either. A missing or
  invalid key is never rejected. There is no duplicate-key error, since `map::insert`
  silently keeps the existing entry. An error does not remove a socket.
- Message payloads are strings of characters. Binary payloads and the encoding of text
  frames are not distinguished.
