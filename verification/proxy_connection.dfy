/**
 One proxied client: both peers' endpoints and the address bodies computed
 for them when the connection is created, and the rewrite each relay
 applies before forwarding a datagram. The channels, sockets and goroutines
 that move the datagrams are not modelled; only what is written matters.
 */
module ProxyConnection {
  import opened GoSlices
  import opened AddressCodec
  import opened PacketRewriter

  /** A UDP endpoint as Go's `net.UDPAddr` holds it: the IP in 4- or 16-byte form and an `int` port. */
  datatype UdpAddr = UdpAddr(ip: seq<bv8>, port: int)

  /** The state of a proxy connection that the rewrites read. */
  datatype Connection = Connection(
    clientAddr: UdpAddr,
    serverAddr: UdpAddr,
    clientAddrBytes: seq<bv8>,
    serverAddrBytes: seq<bv8>)

  /**
   Creates the connection for `clientAddr`. The two address bodies are
   fixed here and describe the two peers.
   */
  function NewProxyConnection(clientAddr: UdpAddr, serverAddr: UdpAddr): (c: Connection)
    ensures c.clientAddr == clientAddr && c.serverAddr == serverAddr
    ensures |c.clientAddrBytes| == AddrLen && |c.serverAddrBytes| == AddrLen
    ensures DecodeAddr(c.clientAddrBytes) == Represented(clientAddr.ip, clientAddr.port)
    ensures DecodeAddr(c.serverAddrBytes) == Represented(serverAddr.ip, serverAddr.port)
  {
    DecodeEncode(clientAddr.ip, clientAddr.port);
    DecodeEncode(serverAddr.ip, serverAddr.port);
    Connection(
      clientAddr,
      serverAddr,
      EncodeAddr(clientAddr.ip, clientAddr.port),
      EncodeAddr(serverAddr.ip, serverAddr.port))
  }

  /**
   The datagram written to the server for a payload received from the
   client, or the panic raised while rewriting it. The rewrite's error
   result is discarded by the caller and always nil.
   */
  function ProxyPayloadFromClient(c: Connection, payload: seq<bv8>, cap: nat): (sent: Result<seq<bv8>>)
    requires |payload| <= cap
    ensures sent.Ok? ==> |sent.value| == |payload|
    ensures |payload| > 0 && payload[0] != OpenConnectionRequest2 && payload[0] != NewIncomingConnection ==>
      sent == Ok(payload)
  {
    UpdatePayloadFromClient(payload, cap, c.serverAddrBytes)
  }

  /**
   The datagram written to the client for a payload received from the
   server, or the panic raised while rewriting it.
   */
  function ProxyPayloadFromServer(c: Connection, payload: seq<bv8>, cap: nat): (sent: Result<seq<bv8>>)
    requires |payload| <= cap
    ensures sent.Ok? ==> |sent.value| == |payload|
    ensures |payload| > 0 && payload[0] != OpenConnectionReply2 && payload[0] != ConnectionRequestAccepted ==>
      sent == Ok(payload)
  {
    UpdatePayloadFromServer(payload, cap, c.clientAddrBytes)
  }

  /**
   An IPv4 client handshake long enough for its window reaches the server
   naming the server's own endpoint (IPv4 octets and port modulo 65536).
   */
  lemma ClientHandshakeNamesServer(clientAddr: UdpAddr, serverAddr: UdpAddr, payload: seq<bv8>, cap: nat)
    requires |payload| <= cap
    ensures var sent := ProxyPayloadFromClient(NewProxyConnection(clientAddr, serverAddr), payload, cap);
      |payload| >= 24 && payload[0] == OpenConnectionRequest2 && payload[17] == IPv4 ==>
        sent.Ok? && DecodeAddr(sent.value[18..24]) == Represented(serverAddr.ip, serverAddr.port)
    ensures var sent := ProxyPayloadFromClient(NewProxyConnection(clientAddr, serverAddr), payload, cap);
      |payload| >= 8 && payload[0] == NewIncomingConnection && payload[1] == IPv4 ==>
        sent.Ok? && DecodeAddr(sent.value[2..8]) == Represented(serverAddr.ip, serverAddr.port)
  {
    var c := NewProxyConnection(clientAddr, serverAddr);
    ClientHandshakeSplice(payload, cap, c.serverAddrBytes);
    var sent := ProxyPayloadFromClient(c, payload, cap);
    if |payload| >= 24 && payload[0] == OpenConnectionRequest2 && payload[17] == IPv4 {
      assert sent.value[18..24] == c.serverAddrBytes;
    }
    if |payload| >= 8 && payload[0] == NewIncomingConnection && payload[1] == IPv4 {
      assert sent.value[2..8] == c.serverAddrBytes;
    }
  }

  /**
   An IPv4 server handshake long enough for its window reaches the client
   naming the client's own endpoint (IPv4 octets and port modulo 65536).
   */
  lemma ServerHandshakeNamesClient(clientAddr: UdpAddr, serverAddr: UdpAddr, payload: seq<bv8>, cap: nat)
    requires |payload| <= cap
    ensures var sent := ProxyPayloadFromServer(NewProxyConnection(clientAddr, serverAddr), payload, cap);
      |payload| >= 32 && payload[0] == OpenConnectionReply2 && payload[25] == IPv4 ==>
        sent.Ok? && DecodeAddr(sent.value[26..32]) == Represented(clientAddr.ip, clientAddr.port)
    ensures var sent := ProxyPayloadFromServer(NewProxyConnection(clientAddr, serverAddr), payload, cap);
      |payload| >= 8 && payload[0] == ConnectionRequestAccepted && payload[1] == IPv4 ==>
        sent.Ok? && DecodeAddr(sent.value[2..8]) == Represented(clientAddr.ip, clientAddr.port)
  {
    var c := NewProxyConnection(clientAddr, serverAddr);
    ServerHandshakeSplice(payload, cap, c.clientAddrBytes);
    var sent := ProxyPayloadFromServer(c, payload, cap);
    if |payload| >= 32 && payload[0] == OpenConnectionReply2 && payload[25] == IPv4 {
      assert sent.value[26..32] == c.clientAddrBytes;
    }
    if |payload| >= 8 && payload[0] == ConnectionRequestAccepted && payload[1] == IPv4 {
      assert sent.value[2..8] == c.clientAddrBytes;
    }
  }

  /**
   Each direction writes only its own peer's address body: what goes to the
   server never depends on the client's body, and what goes to the client
   never depends on the server's.
   */
  lemma DirectionsAreSeparate(c: Connection, payload: seq<bv8>, cap: nat, other: seq<bv8>)
    requires |payload| <= cap
    ensures ProxyPayloadFromClient(c.(clientAddrBytes := other), payload, cap) == ProxyPayloadFromClient(c, payload, cap)
    ensures ProxyPayloadFromServer(c.(serverAddrBytes := other), payload, cap) == ProxyPayloadFromServer(c, payload, cap)
  {
  }
}
