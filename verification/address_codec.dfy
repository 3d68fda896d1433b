/**
 The on-wire IPv4 address body of the RakNet offline-message "address"
 type, as the proxy builds it for each peer when a connection is created:
 the four octets of the IPv4 address, each one's-complemented, followed by
 the port as a big-endian unsigned 16-bit integer. The leading version byte
 of the wire "address" is not part of the body; the packets already carry it.
 */
module AddressCodec {

  datatype Option<T> = None | Some(value: T)

  const IPv4Len: nat := 4
  const IPv6Len: nat := 16
  /** Length of the encoded body: 4 address bytes and 2 port bytes. */
  const AddrLen: nat := 6

  /** The 12-byte prefix of an IPv4 address held in 16-byte form (::ffff:a.b.c.d). */
  const V4InV6Prefix: seq<bv8> := [0, 0, 0, 0, 0, 0, 0, 0, 0, 0, 0xff, 0xff]

  /**
   Go's `net.IP.To4`: the 4-byte form of an address, which exists for a
   4-byte address and for a 16-byte IPv4-mapped one; `None` stands for nil.
   */
  function To4(ip: seq<bv8>): (r: Option<seq<bv8>>)
    ensures r.Some? ==> |r.value| == IPv4Len && |ip| >= IPv4Len && r.value == ip[|ip| - IPv4Len..]
    ensures |ip| != IPv4Len && |ip| != IPv6Len ==> r.None?
    ensures |ip| == IPv4Len ==> r == Some(ip)
    ensures |ip| == IPv6Len ==> (r.Some? <==> ip[..12] == V4InV6Prefix)
  {
    if |ip| == IPv4Len then Some(ip)
    else if |ip| == IPv6Len && ip[..12] == V4InV6Prefix then Some(ip[12..])
    else None
  }

  /** Bitwise complement of every byte. */
  function Complement(v: seq<bv8>): (r: seq<bv8>)
    ensures |r| == |v|
    ensures forall i :: 0 <= i < |v| ==> r[i] == !v[i]
  {
    if v == [] then [] else [!v[0]] + Complement(v[1..])
  }

  /** Complementing twice gives back the original bytes. */
  lemma {:induction false} ComplementInvolutive(v: seq<bv8>)
    ensures Complement(Complement(v)) == v
  {
    if v != [] {
      ComplementInvolutive(v[1..]);
      assert Complement(Complement(v)) == [!!v[0]] + Complement(Complement(v[1..]));
    }
  }

  /** The value of two bytes read as a big-endian unsigned 16-bit integer. */
  function Uint16BE(hi: bv8, lo: bv8): nat
  {
    hi as nat * 256 + lo as nat
  }

  /**
   `binary.BigEndian.PutUint16(b, uint16(port))`: the conversion to uint16
   keeps the low 16 bits of the two's-complement port, which is the
   port modulo 65536.
   */
  function PortBytes(port: int): (r: seq<bv8>)
    ensures |r| == 2
    ensures Uint16BE(r[0], r[1]) == port % 0x1_0000
  {
    var u := port % 0x1_0000;
    var hi, lo := u / 0x100, u % 0x100;
    ByteCast(hi);
    ByteCast(lo);
    [hi as bv8, lo as bv8]
  }

  /** Casting a value below 256 to a byte and back loses nothing. */
  lemma ByteCast(x: int)
    requires 0 <= x < 0x100
    ensures (x as bv8) as int == x
  {
  }

  /**
   The four address bytes: the complemented IPv4 octets, or four zero bytes
   when the address has no IPv4 form (the copy loop then runs zero times).
   */
  function IpBytes(ip: seq<bv8>): (r: seq<bv8>)
    ensures |r| == IPv4Len
    ensures To4(ip).Some? ==> forall i :: 0 <= i < IPv4Len ==> r[i] == !To4(ip).value[i]
    ensures To4(ip).None? ==> r == [0, 0, 0, 0]
  {
    match To4(ip)
    case Some(v4) => Complement(v4)
    case None => [0, 0, 0, 0]
  }

  /** The encoded address body of the peer `ip:port`. */
  function EncodeAddr(ip: seq<bv8>, port: int): (r: seq<bv8>)
    ensures |r| == AddrLen
    ensures To4(ip).Some? ==> forall i :: 0 <= i < IPv4Len ==> r[i] == !To4(ip).value[i]
    ensures To4(ip).None? ==> r[..IPv4Len] == [0, 0, 0, 0]
    ensures Uint16BE(r[4], r[5]) == port % 0x1_0000
  {
    IpBytes(ip) + PortBytes(port)
  }

  /**
   The same encoding built the way the connection constructor builds it:
   a zeroed 4-byte buffer, a loop storing the complement of each byte of
   `To4()`, then the two port bytes appended.
   */
  method BuildAddrBytes(ip: seq<bv8>, port: int) returns (addrBytes: seq<bv8>)
    ensures addrBytes == EncodeAddr(ip, port)
  {
    var portBytes := PortBytes(port);
    addrBytes := [0, 0, 0, 0];
    var v4 := To4(ip);
    var octets: seq<bv8> := if v4.Some? then v4.value else [];
    var i := 0;
    while i < |octets|
      invariant |octets| <= IPv4Len
      invariant 0 <= i <= |octets|
      invariant |addrBytes| == IPv4Len
      invariant forall j :: 0 <= j < i ==> addrBytes[j] == !octets[j]
      invariant forall j :: i <= j < IPv4Len ==> addrBytes[j] == 0
    {
      addrBytes := addrBytes[i := !octets[i]];
      i := i + 1;
    }
    addrBytes := addrBytes + portBytes;
  }

  /** A decoded IPv4 address body: the four octets and the port. */
  datatype Endpoint = Endpoint(octets: seq<bv8>, port: nat)

  /** Reads an address body back: undoes the complement and the big-endian port. */
  function DecodeAddr(b: seq<bv8>): (e: Endpoint)
    requires |b| == AddrLen
    ensures |e.octets| == IPv4Len && e.port < 0x1_0000
  {
    Endpoint(Complement(b[..IPv4Len]), Uint16BE(b[4], b[5]))
  }

  /**
   What an encoding stands for: the IPv4 octets (all 0xff when the address
   has no IPv4 form, since its zero bytes are their complement) and the
   port reduced modulo 65536.
   */
  function Represented(ip: seq<bv8>, port: int): Endpoint
  {
    match To4(ip)
    case Some(v4) => Endpoint(v4, port % 0x1_0000)
    case None => Endpoint([0xff, 0xff, 0xff, 0xff], port % 0x1_0000)
  }

  /** Decoding an encoding recovers the IPv4 octets and the truncated port. */
  lemma DecodeEncode(ip: seq<bv8>, port: int)
    ensures DecodeAddr(EncodeAddr(ip, port)) == Represented(ip, port)
  {
    var r := EncodeAddr(ip, port);
    assert r[..IPv4Len] == IpBytes(ip);
    match To4(ip)
    case Some(v4) =>
      ComplementInvolutive(v4);
    case None =>
      assert Complement([0, 0, 0, 0]) == [0xff, 0xff, 0xff, 0xff];
  }

  /** Every 6-byte body is the encoding of the endpoint it decodes to. */
  lemma EncodeDecode(b: seq<bv8>)
    requires |b| == AddrLen
    ensures EncodeAddr(DecodeAddr(b).octets, DecodeAddr(b).port) == b
  {
    var e := DecodeAddr(b);
    ComplementInvolutive(b[..IPv4Len]);
    assert IpBytes(e.octets) == b[..IPv4Len];
    PortBytesOfUint16(b[4], b[5]);
    assert EncodeAddr(e.octets, e.port) == b[..IPv4Len] + b[4..];
  }

  /**
   Distinct IPv4 endpoints get distinct bodies: two 4-byte addresses with
   ports below 65536 and equal encodings are the same endpoint.
   */
  lemma EncodeInjective(ip1: seq<bv8>, port1: int, ip2: seq<bv8>, port2: int)
    requires |ip1| == IPv4Len && |ip2| == IPv4Len
    requires 0 <= port1 < 0x1_0000 && 0 <= port2 < 0x1_0000
    requires EncodeAddr(ip1, port1) == EncodeAddr(ip2, port2)
    ensures ip1 == ip2 && port1 == port2
  {
    DecodeEncode(ip1, port1);
    DecodeEncode(ip2, port2);
  }

  /** The port bytes of a 16-bit value are its big-endian bytes. */
  lemma PortBytesOfUint16(hi: bv8, lo: bv8)
    ensures PortBytes(Uint16BE(hi, lo)) == [hi, lo]
  {
    var u := Uint16BE(hi, lo);
    assert u % 0x1_0000 == u;
    assert u / 0x100 == hi as int && u % 0x100 == lo as int;
    ByteRoundTrip(hi);
    ByteRoundTrip(lo);
  }

  /** Casting a byte to an integer and back loses nothing. */
  lemma ByteRoundTrip(b: bv8)
    ensures (b as int) as bv8 == b
  {
  }

  /** Only the port modulo 65536 reaches the wire. */
  lemma PortTruncation(ip: seq<bv8>, port: int, other: int)
    requires port % 0x1_0000 == other % 0x1_0000
    ensures EncodeAddr(ip, port) == EncodeAddr(ip, other)
    ensures EncodeAddr(ip, port % 0x1_0000) == EncodeAddr(ip, port)
  {
    assert PortBytes(port) == PortBytes(other);
    assert (port % 0x1_0000) % 0x1_0000 == port % 0x1_0000;
    assert PortBytes(port % 0x1_0000) == PortBytes(port);
  }

  /** 1.2.3.4:19132 encodes as FE FD FC FB 4A BC. */
  lemma EncodeExample()
    ensures EncodeAddr([1, 2, 3, 4], 19132) == [0xfe, 0xfd, 0xfc, 0xfb, 0x4a, 0xbc]
    ensures EncodeAddr(V4InV6Prefix + [1, 2, 3, 4], 19132) == [0xfe, 0xfd, 0xfc, 0xfb, 0x4a, 0xbc]
  {
    assert Uint16BE(0x4a, 0xbc) == 19132;
    PortBytesOfUint16(0x4a, 0xbc);
    assert (V4InV6Prefix + [1, 2, 3, 4])[..12] == V4InV6Prefix;
    assert (V4InV6Prefix + [1, 2, 3, 4])[12..] == [1, 2, 3, 4];
  }

  /** An address with no IPv4 form keeps four zero address bytes; the body is still 6 bytes. */
  lemma EncodeWithoutIPv4(ip: seq<bv8>, port: int)
    requires |ip| == IPv6Len && ip[..12] != V4InV6Prefix
    ensures EncodeAddr(ip, port) == [0, 0, 0, 0] + PortBytes(port)
  {
  }
}
