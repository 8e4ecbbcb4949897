# sockssl protocol core in Dafny

sockssl tunnels SOCKS5 connections through TLS. An **initiator** (the
client) accepts SOCKS5 CONNECT requests from local applications. For each
request it connects to a **relay node** (the server) and sends it an
*injector handshake frame*:

    0x01 | n | secret | m | host | port (big-endian)

The relay node checks the frame. If the frame is good, it connects to the
requested destination and echoes the frame back. Otherwise, to look like an
ordinary server, it connects to a configured *decoy* and forwards what it
received, byte for byte.

This project models the protocol core of both ends and proves properties
about it.

| file | module | models |
|---|---|---|
| `wire.dfy` | `Wire` | Bytes and the errors a read or pack raises. Also the pack functions and a read cursor (`Reader`), in the role the bitstring `pack` and `BitStream.read` play. |
| `utf8.dfy` | `Utf8` | `str.encode()` and strict `bytes.decode('utf-8')`. The codec is proved to be a bijection between strings and valid byte sequences. |
| `ipv4.dfy` | `Ipv4` | `inet_ntop` and `inet_pton` for `AF_INET`. Dotted-decimal text is proved to be a bijection with 4 bytes. |
| `text.dfy` | `Text` | The length-prefixed text field both codecs share. The prefix is the character count, and the pack demands exactly that many bytes. |
| `socks.dfy` | `Socks` | `socks.py`: the greeting and method reply, the request decoder and the reply encoder. |
| `injector.dfy` | `Injector` | `injector.py`: the frame encoder and decoder. |
| `net.dfy` | `Net` | Connections (`recv` and `sendall`) and the network (`base.connect`). |
| `client.dfy` | `Client` | `client/main.py`: the three handshake handlers. |
| `server.dfy` | `Server` | `server/main.py`: the authenticate-or-disguise handler. |

Each codec operation appears twice:

- as a specification function on bytes (`DecodeRequest`, `EncodeFrame`, and so on);
- as a method that does what the Python implementation does. It appends one `pack` after another, or advances a cursor one `read` at a time, and it ensures that it computes the specification function.

The properties are lemmas about the specification functions.

A raised exception is an `Err` result in the codecs. In the session handlers it is an early return.

A session is also described twice:

- as a pure trace function of what each `recv` yields (a buffer, or an exception), the configuration, and which endpoints accept a connection (`Client.Session`, `Server.Session`);
- as handler methods on `Connection` and `Network` objects whose postconditions tie the new state to that trace.

## Model

| member | source | states |
|---|---|---|
| Wire.Uint16Be | src/_shared/protocol/socks.py:104 | the two bytes are the high and low byte of the value |
| Wire.Uint16RoundTrip | src/_shared/protocol/socks.py:80 | reading back the two bytes of a packed port gives the port |
| Wire.Reader.ReadUint8 | src/_shared/protocol/socks.py:65-68 | `read('uint8')` returns the byte under the cursor and advances it by one; at the end it raises and the cursor stays |
| Wire.Reader.ReadBytes | src/_shared/protocol/socks.py:71 | `read('bytesN')` returns the next N bytes and advances the cursor by N, or raises when fewer than N remain |
| Wire.Reader.ReadUint16 | src/_shared/protocol/socks.py:80 | `read('uint16')` returns the big-endian value of the next two bytes, or raises when fewer than two remain |
| Utf8.EncodeLength | src/_shared/protocol/injector.py:12-14 | a string's UTF-8 encoding is never shorter than its character count; it is exactly that long iff every character is ASCII, and then it is the characters' codes |
| Utf8.DecodeLength | src/_shared/protocol/injector.py:30 | a decoded string has at most as many characters as there were bytes; exactly as many iff every byte is below 0x80, which is also when the string is ASCII |
| Utf8.DecodeEncode | src/_shared/protocol/injector.py:14 | decoding the encoding of any string gives the string back |
| Utf8.EncodeDecode | src/_shared/protocol/injector.py:30 | whatever decodes, encodes back to the same bytes |
| Utf8.DecodeAsciiEncodes | src/_shared/protocol/injector.py:30-31 | an ASCII string decoded from bytes encodes back to those bytes |
| Ipv4.ParseFormat | src/_shared/protocol/socks.py:71 | parsing the dotted-decimal text `inet_ntop` prints for 4 bytes gives the 4 bytes back |
| Ipv4.FormatParse | src/_shared/protocol/socks.py:94 | any text `inet_pton` accepts is the printed form of the 4 bytes it parses to |
| Text.ReadText | src/_shared/protocol/injector.py:30 | the cursor step for one field, `read('bytes' + str(read('uint8'))).decode('utf-8')`, computes `DecodePrefixedAt` and leaves the cursor just after the field |
| Text.PrefixedTextShape | src/_shared/protocol/injector.py:12-14 | the field encodes iff the string has at most 255 characters and each is a single UTF-8 byte (iff it is ASCII); it is then the count followed by the bytes; otherwise OutOfRange for over 255 and LengthMismatch for non-ASCII |
| Text.PrefixedRoundTrip | src/_shared/protocol/injector.py:12-14 | a field decodes back to its string at any offset, whatever follows it |
| Text.PrefixedCut | src/_shared/protocol/injector.py:30 | a field decodes the same from any prefix of the buffer that contains it, and it fails with a read past the end from any shorter one |
| Text.PrefixedExtend | src/_shared/protocol/injector.py:30 | appending bytes to the buffer does not change a decoded field |
| Text.PrefixedEcho | src/_shared/protocol/injector.py:30 | re-encoding a decoded field gives back its bytes, and it fails exactly when those bytes are not all ASCII |
| Socks.GetHandshake | src/_shared/protocol/socks.py:42-49 | the method (reads in a loop) computes `DecodeGreeting`: VER is the first byte; the methods are the next N bytes, N being the second byte; a buffer shorter than 2 + N raises |
| Socks.ReplyHandshake | src/_shared/protocol/socks.py:52-58 | the reply is exactly `[0x05, m]`, and it raises when `m` is not a byte |
| Socks.GreetingRoundTrip | src/_shared/protocol/socks.py:42-49 | a greeting laid out as VER, NMETHODS, METHODS decodes to itself, whatever follows |
| Socks.GreetingIsPrefix | src/_shared/protocol/socks.py:42-49 | every buffer that decodes starts with the layout of the greeting it decodes to |
| Socks.DecodeAddress | src/_shared/protocol/socks.py:70-78 | the address takes at most the remaining bytes; ATYP 1 and 3 give a textual host |
| Socks.DecodeRequest | src/_shared/protocol/socks.py:61-82 | a decoded request with ATYP 1 or 3 has a textual host |
| Socks.RequestLength | src/_shared/protocol/socks.py:61-82 | a decoded request never occupies more bytes than the buffer has |
| Socks.GetRequest | src/_shared/protocol/socks.py:61-82 | the cursor method computes `DecodeRequest`: VER, CMD, skipped RSV, ATYP; then 4 bytes as dotted text, or a length-prefixed UTF-8 name, or 16 bytes; then a big-endian port; a short buffer or bad UTF-8 raises |
| Socks.UnknownAtypRejected | src/_shared/protocol/socks.py:77-78 | any ATYP other than 1, 3, 4 raises with that ATYP |
| Socks.AddressRoundTrip | src/_shared/protocol/socks.py:93-100 | an encoded address field decodes to the same host and length, whatever follows |
| Socks.AddressEcho | src/_shared/protocol/socks.py:70-100 | re-encoding a decoded address gives back the bytes it came from; it fails only for a non-ASCII domain name |
| Socks.ReplyRequest | src/_shared/protocol/socks.py:85-106 | the appending method computes `EncodeReply`: `[5, rep, 0, atyp] + address + port`, or the error of the first failing pack |
| Socks.ReplyFailures | src/_shared/protocol/socks.py:95-104 | the reply raises for an unknown ATYP, for a domain over 255 characters, for a domain whose UTF-8 length differs from its character count, and for a port over 16 bits |
| Socks.ReplyRoundTrip | src/_shared/protocol/socks.py:61-106 | every reply decodes, as a request, to VER 5, CMD = rep, and the same ATYP, host and port, whatever follows |
| Socks.DomainReplyRoundTrip | src/_shared/protocol/socks.py:95-98 | for an ASCII name of at most 255 characters and a 16-bit port, the ATYP 3 reply exists and decodes to that name and port |
| Socks.RequestEcho | src/_shared/protocol/socks.py:61-106 | a reply built from a decoded request is `[5, rep, 0, atyp]` followed by the request's own address and port bytes; it exists iff a domain name's bytes are ASCII |
| Injector.DoHandshake | src/_shared/protocol/injector.py:7-22 | the appending method computes `EncodeFrame` |
| Injector.GetHandshake | src/_shared/protocol/injector.py:25-34 | the cursor method computes `DecodeFrame`: version, length-prefixed secret, length-prefixed host, port, in that order; the first short read or bad UTF-8 raises |
| Injector.FrameLength | src/_shared/protocol/injector.py:25-34 | a decoded frame occupies between 5 bytes and the whole buffer |
| Injector.EncodeFrameShape | src/_shared/protocol/injector.py:7-22 | a frame is built iff the secret and host have at most 255 characters, each one byte in UTF-8, and the port fits 16 bits; it is then `[1, len(pw)] + pw + [len(host)] + host + port`, `5 + len(pw) + len(host)` bytes starting with 0x01; an over-long secret raises OutOfRange and a non-ASCII one LengthMismatch |
| Injector.FrameRoundTrip | src/_shared/protocol/injector.py:7-34 | every frame decodes to version 1 with the same secret, host and port, whatever follows, and occupies exactly its own length |
| Injector.DecodeIsPrefix | src/_shared/protocol/injector.py:27-32 | appending bytes to a decodable buffer changes neither the decoded frame nor its length |
| Injector.DecodeTruncated | src/_shared/protocol/injector.py:29-32 | cutting a frame anywhere before the end its own length bytes announce makes decoding fail with a read past the end |
| Injector.DecodeInvalidUtf8 | src/_shared/protocol/injector.py:30-31 | a secret, or else a host, that is not valid UTF-8 makes decoding fail with a decode error |
| Injector.EchoExact | src/_shared/protocol/injector.py:7-34 | re-encoding a decoded frame's fields gives back the frame byte for byte (with version 1); it fails exactly when the secret or host bytes are not all ASCII |
| Net.Connection.Recv | src/server/main.py:34 | `recv` yields the next outcome and consumes it: a buffer the peer sent, the empty buffer once the peer has closed, or an exception (a timeout or a reset) |
| Net.Connection.SendAll | src/server/main.py:48 | `sendall` appends the data to what was written |
| Net.Network.Connect | src/_shared/base.py:118-122 | `connect` records the attempt; it gives a new connection exactly when the endpoint accepts, and otherwise it raises |
| Client.HandleInjectorHandshake | src/client/main.py:78-103 | writes `do_handshake(password, host, port)` to the relay node, reads one answer, and relays iff that recv returns a buffer that decodes to version 1 with the same password, host and port (`InjectorStage`) |
| Client.HandleSocksRequest | src/client/main.py:38-76 | does one recv, and ends there if it raises; writes exactly the reply and dials exactly the relay node that `RequestStage` prescribes for it; returns the relay connection carrying the frame |
| Client.HandleSocksHandshake | src/client/main.py:21-36 | reads the greeting, and then the request only if the greeting is accepted; the writes, dials, relay-node traffic and outcome are those of `Session` |
| Client.BadGreetingAbortsSilently | src/client/main.py:25-33 | a recv of the greeting that raises, or a greeting that does not decode, or is not version 5, or does not offer method 0, ends the session with nothing written and nothing dialled |
| Client.GreetingAcceptedRepliesNoAuth | src/client/main.py:35-36 | an acceptable greeting is answered with exactly `[0x05, 0x00]` before the second buffer, the request, is read |
| Client.BadRequestAbortsSilently | src/client/main.py:42-46 | a recv of the request that raises, or a request that does not decode, or is not version 5, ends the session with nothing written and nothing dialled |
| Client.UnsupportedCommandRejected | src/client/main.py:48-52 | a command other than CONNECT gets reply 0x07 echoing the request's address and port bytes (if it can be encoded), and nothing is dialled; this is checked before the address type |
| Client.UnsupportedAtypRejected | src/client/main.py:54-58 | a CONNECT to an IPv6 address gets reply 0x08 echoing the request, and nothing is dialled |
| Client.RelayDownRefused | src/client/main.py:60-72 | when the relay node does not accept, it is the only endpoint dialled, and the reply is 0x05 echoing the request |
| Client.ConnectedRepliesSucceeded | src/client/main.py:60-76 | once the relay node accepts, reply 0x00 echoing the request is written, and only then the frame built from the configured secret and the request's host and port |
| Client.FrameCarriesRequest | src/client/main.py:82 | the frame sent is `do_handshake(password, dst_addr, dst_port)` of the parsed request, and it decodes back to exactly those |
| Client.RelayingRequiresExactEcho | src/client/main.py:85-103 | relaying starts only if the recv on the relay connection returns a buffer that begins with exactly the frame that was sent |
| Client.ExactEchoAccepted | src/client/main.py:85-103 | an answer that begins with the frame that was sent is accepted, whatever follows it |
| Client.RelayingImpliesSucceededReply | src/client/main.py:21-103 | relaying implies a CONNECT to IPv4 or a domain name, the relay node as the only endpoint dialled, and `[5, 0]` then reply 0x00 echoing the request as the bytes written locally |
| Server.HandleInjectorHandshake | src/server/main.py:30-55 | one `recv`, before the try block, so a recv that raises ends the handler; the echo to the peer, the endpoints dialled, and the connection relayed with and what it was sent are those of `Session`: the try block, then the except branch on any failure in it |
| Server.RecvFailureEndsSilently | src/server/main.py:33-36 | nothing is dialled exactly when the one recv raises, and then nothing is written back, forwarded or relayed; any buffer, even an empty one, leads to a connect |
| Server.AuthenticationRule | src/server/main.py:36-53 | the first endpoint dialled is the destination a buffer names when it decodes to a frame of version 1 with the configured secret; for every other buffer the decoy is the only endpoint dialled |
| Server.AuthenticatedPathChosen | src/server/main.py:36-53 | the peer gets an echo iff the buffer authenticates, its destination accepts, and its fields re-encode; the session then relays with that destination, the only one dialled; otherwise the last endpoint dialled is the decoy |
| Server.AuthenticatedPathEchoesFrame | src/server/main.py:37-48 | the echo is the received frame byte for byte, and nothing is forwarded, so bytes after the frame go nowhere |
| Server.DisguiseForwardsVerbatim | src/server/main.py:50-53 | a buffer that does not authenticate is forwarded unchanged to the decoy, the only endpoint dialled, and nothing is written back |
| Server.WrongSecretIndistinguishable | src/server/main.py:36-53 | a wrong secret and a malformed buffer cause the same dials, the same (empty) answer and the same relay choice; each forwards only itself |
| Server.ForeignProtocolIsDisguised | src/server/main.py:36-53 | a buffer that is empty, or does not start with 0x01, takes the disguise path |
| Server.ConnectFailureDiverts | src/server/main.py:47-53 | when an authenticated destination cannot be reached, the decoy is dialled next and is given the whole buffer |
| Server.NonAsciiAuthenticatedFallsBack | src/server/main.py:47-53 | an authenticated frame with a non-ASCII host cannot be echoed, so it also takes the disguise path after its destination was dialled |
| Server.DecoyDownEndsSession | src/server/main.py:52 | when the decoy cannot be reached, a session without an echo ends without relaying or forwarding |
| Server.HonestInitiatorAccepted | src/server/main.py:36-48 | a frame built with the configured secret, for a reachable destination, is echoed byte for byte; the echo decodes to exactly what the initiator checks for before relaying |

## Left out

- The relay loop `exchange` (src/_shared/base.py:100-115) is not modelled. It is socket I/O; a session ends at "relaying with connection X".
- The session counter, the threading server, and `run`/`start`/`stop` (src/_shared/base.py:7-62, 92-97) are not modelled. They are about concurrency, not protocol logic.
- TLS setup (`SSLContext`, `wrap_socket`, `load_cert_chain`) is not modelled. A successful wrap is part of a successful connect.
- The length of socket timeouts (`settimeout`) is not modelled. A `recv` that times out, or fails in any other way, is a `recv` that raises (`None` in `Net.Received`). The connection's queue decides where that happens.
- `sendall` failures are not modelled. `sendall` is assumed never to raise.
- The configuration modules are replaced by values (`ClientConfig`, `ServerConfig`). `src/client/config.py` and `src/server/config.py` are not part of this model.
- Logging is not modelled.
- `recv(buffer_size)` is not split by size. A connection delivers the chunks its peer sends, one per `recv`, and `buffer_size` does not appear.
- Socks.Host: IPv6 text (`inet_ntop` and `inet_pton` for `AF_INET6`) is kept as its 16 raw bytes. A reply therefore fails for ATYP 4 with a textual host, and for ATYP 1 or 3 with an IPv6 host, where the Python implementation would try to parse or encode the text.
- Utf8.Encode: Python strings can hold lone surrogates, for example from the environment. Dafny strings cannot, so such a secret cannot be the password of a `ClientConfig` or a `ServerConfig`. Such an initiator's frame fails to encode, so it never relays. A relay node with such a secret only compares it with decoded secrets, which never contain a lone surrogate, so every session takes the disguise path. The model cannot show either case.
- Net.Network.Connect: whether an endpoint accepts is fixed for the whole session (`reachable`). A connect that fails and a later connect to the same endpoint that succeeds is not represented. An example is a frame that names the decoy: the destination connect fails, then the decoy connect succeeds.
- The bitstring library is replaced by `Wire`. `pack('bytesN', v)` is taken to raise when `v` does not have exactly N bytes, and `'bytes0'` packs and reads nothing. Reading past the end raises.
- Socks.CmdUdp: sockssl numbers UDP ASSOCIATE 0x04, where RFC 1928 section 4 uses 0x03. No decision depends on this constant.
