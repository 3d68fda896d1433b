# RakNet proxy connection: address encoding and handshake rewriting

This project models the byte-level core of a transparent UDP proxy for the
RakNet handshake (racknet-proxy, `lib/proxy/proxy_connection.go`). Each
proxied client gets a connection that precomputes two 6-byte address bodies:
one for the client, one for the real server. Each body is the four IPv4
octets one's-complemented, followed by the port as a big-endian unsigned
16-bit integer. That is the IPv4 form of the RakNet offline-message
"address" type, without its leading version byte.

Payloads are forwarded unchanged in both directions, except for four
handshake packets. When their embedded address says IPv4, its 6-byte body
is overwritten:

| packet | direction | version byte | body | replaced by |
|---|---|---|---|---|
| OpenConnectionRequest2 (0x07) | client → server | 17 | [18, 24) | server body |
| NewIncomingConnection (0x13) | client → server | 1 | [2, 8) | server body |
| OpenConnectionReply2 (0x08) | server → client | 25 | [26, 32) | client body |
| ConnectionRequestAccepted (0x10) | server → client | 1 | [2, 8) | client body |

Modules, one per concern:

- `GoSlices` (`go_slices.dfy`): the Go slice semantics the rewrites rely on.
  A payload is its visible bytes plus its capacity. Indexing past the
  length panics. Slicing past the capacity panics. `copy` writes
  min(len dst, len src) bytes. Panics are a `Result.Panic` outcome, not a
  precondition.
- `AddressCodec` (`address_codec.dfy`): Go's `net.IP.To4`, the address
  body encoding, its decoder, and the loop that builds the body the way
  the constructor does.
- `PacketRewriter` (`packet_rewriter.dfy`): the four rewrites and the two
  per-direction dispatchers, keyed on the leading type byte.
- `ProxyConnection` (`proxy_connection.dfy`): connection creation and the
  datagram each relay writes.

Constants: the source declares the packet-type constants and `ipv4` in a
file that is not part of this model. The model uses the customary RakNet
values 0x07, 0x08, 0x10, 0x13 and 4.

Behaviour of the code worth knowing before reading the model:

- Short payloads. The code checks no length. Reading the version byte
  past the end panics. The slice `payload[k:k+6]` panics only when it
  reaches past the capacity. When the capacity is larger (the server
  direction reads into a `MaxUDPSize` buffer and sends `b[0:n]`), the copy
  goes ahead. It overwrites any visible bytes in the window, and the rest
  lands in the invisible tail of the buffer. So a short IPv4 handshake
  whose window passes the capacity panics. With spare capacity, the
  visible bytes of its window are overwritten and the rest lands in the
  tail. A short handshake whose version byte is not IPv4 passes through.
  `PacketRewriter.ShortConnectionRequestAccepted` shows these outcomes on
  2- and 3-byte packets.
- Non-IPv4 peers. An address with no IPv4 form encodes as four zero
  bytes, then the port. Encoding never fails.
- Dial failure. `newProxyConnection` always returns a nil error; the dial
  happens later inside `run`, where a failure calls `log.Fatalf`.
- Comments. The comments at lines 176 and 206 give stale offsets. The
  model follows the slice expressions at lines 178 and 207.

## Model

| member | source | states |
|---|---|---|
| AddressCodec.To4 | lib/proxy/proxy_connection.go:32 | a 4-byte address is its own 4-byte form; a 16-byte address has one exactly when it starts with the ::ffff: prefix, and it is the last four bytes; other lengths have none (Go's `IP.To4`) |
| AddressCodec.Complement | lib/proxy/proxy_connection.go:32-34 | every output byte is the bitwise complement of the input byte at the same position |
| AddressCodec.ComplementInvolutive | lib/proxy/proxy_connection.go:33 | complementing twice gives back the octets, so the encoding loses no information |
| AddressCodec.PortBytes | lib/proxy/proxy_connection.go:29-30 | two bytes whose big-endian value is the port modulo 65536 (`uint16(Port)` then `PutUint16`) |
| AddressCodec.IpBytes | lib/proxy/proxy_connection.go:31-34 | the address part of the body is 4 bytes: the complemented IPv4 octets, or four zero bytes when there is no IPv4 form |
| AddressCodec.EncodeAddr | lib/proxy/proxy_connection.go:29-43 | the body has 6 bytes; byte i < 4 is the complement of IPv4 octet i; with no IPv4 form the first 4 bytes are zero; bytes 4-5 are the port modulo 65536, big-endian |
| AddressCodec.BuildAddrBytes | lib/proxy/proxy_connection.go:29-35 | the zeroed buffer, the complement loop over `To4()` and the appended port bytes produce exactly the encoded body |
| AddressCodec.DecodeAddr | lib/proxy/proxy_connection.go:164 | reading a body back gives 4 octets and a port below 65536 |
| AddressCodec.DecodeEncode | lib/proxy/proxy_connection.go:164 | decoding an encoded peer recovers its IPv4 octets (all 0xff when it has no IPv4 form) and its port modulo 65536 |
| AddressCodec.EncodeDecode | lib/proxy/proxy_connection.go:164 | every 6-byte body is the encoding of the endpoint it decodes to, so every body is some peer's encoding |
| AddressCodec.EncodeInjective | lib/proxy/proxy_connection.go:29-35 | two 4-byte addresses with ports below 65536 and equal encodings are the same endpoint |
| AddressCodec.PortTruncation | lib/proxy/proxy_connection.go:37-38 | two ports equal modulo 65536 give the same body; reducing the port first changes nothing |
| AddressCodec.EncodeExample | lib/proxy/proxy_connection.go:29-35 | 1.2.3.4:19132 encodes as FE FD FC FB 4A BC, in 4-byte and in IPv4-mapped 16-byte form |
| AddressCodec.EncodeWithoutIPv4 | lib/proxy/proxy_connection.go:31-35 | a 16-byte address that is not IPv4-mapped leaves the loop unrun: four zero bytes, then the port |
| GoSlices.CopyAt | lib/proxy/proxy_connection.go:178 | `copy` keeps the length, changes no byte outside the window, and puts source byte j at position lo + j |
| GoSlices.CopyAtIdempotent | lib/proxy/proxy_connection.go:178 | copying the same bytes to the same place twice equals copying once |
| GoSlices.CopyAtSplice | lib/proxy/proxy_connection.go:178 | a window inside the visible bytes is a splice: prefix and suffix unchanged, window equal to the source |
| PacketRewriter.RewriteAddress | lib/proxy/proxy_connection.go:173-180 | panics exactly when the version byte is past the end or, for IPv4, the window passes the capacity; otherwise keeps the length, changes only the window, and changes nothing unless the version is IPv4 |
| PacketRewriter.RewriteAddressSplice | lib/proxy/proxy_connection.go:175-178 | with the window inside the payload, the result is the payload with the 6-byte address spliced in, or the payload itself for a non-IPv4 version |
| PacketRewriter.RewriteAddressIdempotent | lib/proxy/proxy_connection.go:173-178 | a second rewrite reads the same version byte and yields the same payload |
| PacketRewriter.UpdateOpenConnectionRequest2 | lib/proxy/proxy_connection.go:168-181 | panics iff length <= 17, or version IPv4 and capacity < 24; bytes outside [18, 24) unchanged; for IPv4 with a 6-byte server body, every visible byte of [18, 24) is the server body's byte there, even when the payload is shorter than 24; a non-IPv4 version leaves the payload unchanged |
| PacketRewriter.UpdateNewIncomingConnection | lib/proxy/proxy_connection.go:184-194 | panics iff length <= 1, or version IPv4 and capacity < 8; bytes outside [2, 8) unchanged; for IPv4 with a 6-byte server body, every visible byte of [2, 8) is the server body's byte there, even when the payload is shorter than 8; a non-IPv4 version leaves the payload unchanged |
| PacketRewriter.UpdateOpenConnectionReply2 | lib/proxy/proxy_connection.go:197-210 | panics iff length <= 25, or version IPv4 and capacity < 32; bytes outside [26, 32) unchanged; for IPv4 with a 6-byte client body, every visible byte of [26, 32) is the client body's byte there, even when the payload is shorter than 32; a non-IPv4 version leaves the payload unchanged |
| PacketRewriter.UpdateConnectionRequestAccepted | lib/proxy/proxy_connection.go:213-226 | panics iff length <= 1, or version IPv4 and capacity < 8; bytes outside [2, 8) unchanged; for IPv4 with a 6-byte client body, every visible byte of [2, 8) is the client body's byte there, even when the payload is shorter than 8; a non-IPv4 version leaves the payload unchanged |
| PacketRewriter.UpdatePayloadFromClient | lib/proxy/proxy_connection.go:144-153 | an empty payload panics; other types pass through; length and type byte never change; every changed byte belongs to an IPv4 client handshake's window and holds the server body's byte there; the visible window bytes of an IPv4 client handshake that does not panic are the server body's, whatever the payload length |
| PacketRewriter.UpdatePayloadFromServer | lib/proxy/proxy_connection.go:133-142 | an empty payload panics; other types pass through; length and type byte never change; every changed byte belongs to an IPv4 server handshake's window and holds the client body's byte there; the visible window bytes of an IPv4 server handshake that does not panic are the client body's, whatever the payload length |
| PacketRewriter.ClientIdempotent | lib/proxy/proxy_connection.go:144-194 | rewriting an already rewritten client payload returns it unchanged |
| PacketRewriter.ServerIdempotent | lib/proxy/proxy_connection.go:197-226 | rewriting an already rewritten server payload returns it unchanged |
| PacketRewriter.ClientHandshakeSplice | lib/proxy/proxy_connection.go:146-149 | a long-enough OpenConnectionRequest2 or NewIncomingConnection becomes the payload with the server body spliced at 18 or 2 when IPv4, and stays unchanged otherwise |
| PacketRewriter.ServerHandshakeSplice | lib/proxy/proxy_connection.go:135-138 | a long-enough OpenConnectionReply2 or ConnectionRequestAccepted becomes the payload with the client body spliced at 26 or 2 when IPv4, and stays unchanged otherwise |
| PacketRewriter.ClientPanics | lib/proxy/proxy_connection.go:168-194 | the exact panic condition of the client direction, and no panic once the payload covers its type's window (1, 24 or 8 bytes) |
| PacketRewriter.ServerPanics | lib/proxy/proxy_connection.go:197-226 | the exact panic condition of the server direction, and no panic once the payload covers its type's window (1, 32 or 8 bytes) |
| PacketRewriter.ShortConnectionRequestAccepted | lib/proxy/proxy_connection.go:219-224 | a 3-byte IPv4 ConnectionRequestAccepted panics with capacity 3 and, with spare capacity, gets byte 2 set to the first byte of the client body; a 2-byte IPv4 one with spare capacity and a 3-byte non-IPv4 one come out unchanged |
| ProxyConnection.NewProxyConnection | lib/proxy/proxy_connection.go:26-53 | the connection keeps both endpoints and two 6-byte bodies that decode to the client's and the server's endpoint |
| ProxyConnection.ProxyPayloadFromClient | lib/proxy/proxy_connection.go:120-124 | the datagram sent to the server has the received length, and non-handshake payloads go out unchanged |
| ProxyConnection.ProxyPayloadFromServer | lib/proxy/proxy_connection.go:126-131 | the datagram sent to the client has the received length, and non-handshake payloads go out unchanged |
| ProxyConnection.ClientHandshakeNamesServer | lib/proxy/proxy_connection.go:168-194 | an IPv4 client handshake reaches the server carrying the server's own endpoint |
| ProxyConnection.ServerHandshakeNamesClient | lib/proxy/proxy_connection.go:197-226 | an IPv4 server handshake reaches the client carrying the client's own endpoint |
| ProxyConnection.DirectionsAreSeparate | lib/proxy/proxy_connection.go:120-131 | the datagram sent to the server does not depend on the client body, and the datagram sent to the client does not depend on the server body |

## Left out

- `run` (lines 71-100): dialing the server and the `ReadFromUDP` loop are socket I/O. The `log.Fatalf` on a dial failure ends the process.
- `handlePayloadsFromClient` / `handlePayloadsFromServer` and their capacity-1 channels (lines 13-14, 46-47, 102-118): goroutine concurrency and backpressure. The read buffer reused for every datagram (lines 88, 95, 98) is an aliasing concern of that concurrency.
- The socket writes in `proxyPayloadFromClient` / `proxyPayloadFromServer` (lines 123, 129-130): foreign network calls. The model returns the datagram that would be written.
- `logf`, `log` and the hex trace output (lines 61-69 and throughout): logging only.
- The `error` result of the six update functions: each one returns nil on every path that does not panic, and the callers discard it (lines 121, 127). The model returns only the payload or the panic.
- Bytes that `copy` writes past the visible length into the backing array: the model drops them. The datagram being forwarded never contains them. They can only show up through the buffer reuse listed above, when a late `copy` past `n` lands inside the next datagram read into the same buffer.
- The IPv6 address branch: the code rewrites nothing for it. This is covered by "version byte ≠ IPv4 ⇒ payload unchanged".
- The `Zone` field of `net.UDPAddr`: the encoding never reads it.
