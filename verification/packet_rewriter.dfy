/**
 The in-flight rewrite of the four RakNet handshake packets that embed a
 peer address. Dispatch is on the leading packet-type byte; each rewrite
 reads the IP-version byte of the embedded address and, for IPv4 only,
 copies a 6-byte address body over the bytes that follow it.

 Payloads are Go slices (see `GoSlices`): `payload` is the visible bytes and
 `cap` the capacity. Reading the version byte past the visible end, or a
 window that reaches past the capacity, panics.
 */
module PacketRewriter {
  import opened GoSlices
  import AddressCodec

  const OpenConnectionRequest2: bv8 := 0x07
  const OpenConnectionReply2: bv8 := 0x08
  const ConnectionRequestAccepted: bv8 := 0x10
  const NewIncomingConnection: bv8 := 0x13

  /** The IP-version byte of an IPv4 "address" field. */
  const IPv4: bv8 := 4

  /** Width of the IPv4 address body that a rewrite overwrites: one encoded address body. */
  const Window: nat := AddressCodec.AddrLen

  /**
   The shape shared by the four rewrites: read the version byte at `ver`;
   if it is IPv4, `copy(payload[ver+1:ver+7], addr)`. Go's `copy` moves
   min(6, |addr|) bytes.
   */
  function RewriteAddress(payload: seq<bv8>, cap: nat, ver: nat, addr: seq<bv8>): (r: Result<seq<bv8>>)
    requires |payload| <= cap
    ensures r.Panic? <==> |payload| <= ver || (payload[ver] == IPv4 && cap < ver + 1 + Window)
    ensures r.Ok? ==> |r.value| == |payload|
    ensures r.Ok? ==> forall i :: 0 <= i < |payload| && !(ver + 1 <= i < ver + 1 + Window) ==> r.value[i] == payload[i]
    ensures r.Ok? && payload[ver] != IPv4 ==> r.value == payload
    ensures r.Ok? && payload[ver] == IPv4 ==>
      forall i :: ver + 1 <= i < Min(|payload|, ver + 1 + Min(Window, |addr|)) ==> r.value[i] == addr[i - (ver + 1)]
    ensures r.Ok? && payload[ver] == IPv4 ==>
      forall i :: ver + 1 + |addr| <= i < |payload| ==> r.value[i] == payload[i]
  {
    if |payload| <= ver then Panic(IndexOutOfRange)
    else if payload[ver] != IPv4 then Ok(payload)
    else if cap < ver + 1 + Window then Panic(SliceBoundsOutOfRange)
    else Ok(CopyAt(payload, ver + 1, addr[..Min(Window, |addr|)]))
  }

  /** A rewrite whose window lies inside the payload, with a full 6-byte address, is a splice. */
  lemma RewriteAddressSplice(payload: seq<bv8>, cap: nat, ver: nat, addr: seq<bv8>)
    requires |payload| <= cap
    requires ver + 1 + Window <= |payload| && |addr| == Window
    ensures RewriteAddress(payload, cap, ver, addr) ==
      Ok(if payload[ver] == IPv4 then payload[..ver + 1] + addr + payload[ver + 1 + Window..] else payload)
  {
    var r := RewriteAddress(payload, cap, ver, addr);
    if payload[ver] == IPv4 {
      var spliced := payload[..ver + 1] + addr + payload[ver + 1 + Window..];
      assert |r.value| == |spliced|;
      forall i | 0 <= i < |payload|
        ensures r.value[i] == spliced[i]
      {
        if ver + 1 <= i < ver + 1 + Window {
          assert r.value[i] == addr[i - (ver + 1)];
        }
      }
      assert r.value == spliced;
    }
  }

  /** A second rewrite reads the same version byte and writes the same bytes. */
  lemma RewriteAddressIdempotent(payload: seq<bv8>, cap: nat, ver: nat, addr: seq<bv8>)
    requires |payload| <= cap
    ensures RewriteAddress(payload, cap, ver, addr).Ok? ==>
      RewriteAddress(RewriteAddress(payload, cap, ver, addr).value, cap, ver, addr) == RewriteAddress(payload, cap, ver, addr)
  {
    var r := RewriteAddress(payload, cap, ver, addr);
    if r.Ok? && payload[ver] == IPv4 {
      CopyAtIdempotent(payload, ver + 1, addr[..Min(Window, |addr|)]);
    }
  }

  // Client to server

  /**
   OpenConnectionRequest2: type byte, 16 magic bytes, then the server
   address whose version byte is at 17 and whose IPv4 body is [18, 24).
   */
  function UpdateOpenConnectionRequest2(payload: seq<bv8>, cap: nat, serverAddr: seq<bv8>): (r: Result<seq<bv8>>)
    requires |payload| <= cap
    ensures r.Panic? <==> |payload| <= 17 || (payload[17] == IPv4 && cap < 24)
    ensures r.Ok? ==> |r.value| == |payload|
    ensures r.Ok? ==> forall i :: 0 <= i < |payload| && !(18 <= i < 24) ==> r.value[i] == payload[i]
    ensures r.Ok? && payload[17] != IPv4 ==> r.value == payload
    ensures r.Ok? && payload[17] == IPv4 && |serverAddr| == Window ==>
      forall i :: 18 <= i < Min(|payload|, 24) ==> r.value[i] == serverAddr[i - 18]
    ensures |payload| >= 24 && |serverAddr| == Window ==>
      r.Ok? && r.value[18..24] == (if payload[17] == IPv4 then serverAddr else payload[18..24])
  {
    RewriteAddress(payload, cap, 17, serverAddr)
  }

  /**
   NewIncomingConnection: type byte, then the server address whose version
   byte is at 1 and whose IPv4 body is [2, 8).
   */
  function UpdateNewIncomingConnection(payload: seq<bv8>, cap: nat, serverAddr: seq<bv8>): (r: Result<seq<bv8>>)
    requires |payload| <= cap
    ensures r.Panic? <==> |payload| <= 1 || (payload[1] == IPv4 && cap < 8)
    ensures r.Ok? ==> |r.value| == |payload|
    ensures r.Ok? ==> forall i :: 0 <= i < |payload| && !(2 <= i < 8) ==> r.value[i] == payload[i]
    ensures r.Ok? && payload[1] != IPv4 ==> r.value == payload
    ensures r.Ok? && payload[1] == IPv4 && |serverAddr| == Window ==>
      forall i :: 2 <= i < Min(|payload|, 8) ==> r.value[i] == serverAddr[i - 2]
    ensures |payload| >= 8 && |serverAddr| == Window ==>
      r.Ok? && r.value[2..8] == (if payload[1] == IPv4 then serverAddr else payload[2..8])
  {
    RewriteAddress(payload, cap, 1, serverAddr)
  }

  // Server to client

  /**
   OpenConnectionReply2: type byte, 16 magic bytes, the 8-byte server GUID,
   then the client address whose version byte is at 25 and whose IPv4 body
   is [26, 32).
   */
  function UpdateOpenConnectionReply2(payload: seq<bv8>, cap: nat, clientAddr: seq<bv8>): (r: Result<seq<bv8>>)
    requires |payload| <= cap
    ensures r.Panic? <==> |payload| <= 25 || (payload[25] == IPv4 && cap < 32)
    ensures r.Ok? ==> |r.value| == |payload|
    ensures r.Ok? ==> forall i :: 0 <= i < |payload| && !(26 <= i < 32) ==> r.value[i] == payload[i]
    ensures r.Ok? && payload[25] != IPv4 ==> r.value == payload
    ensures r.Ok? && payload[25] == IPv4 && |clientAddr| == Window ==>
      forall i :: 26 <= i < Min(|payload|, 32) ==> r.value[i] == clientAddr[i - 26]
    ensures |payload| >= 32 && |clientAddr| == Window ==>
      r.Ok? && r.value[26..32] == (if payload[25] == IPv4 then clientAddr else payload[26..32])
  {
    RewriteAddress(payload, cap, 25, clientAddr)
  }

  /**
   ConnectionRequestAccepted: type byte, then the client address whose
   version byte is at 1 and whose IPv4 body is [2, 8).
   */
  function UpdateConnectionRequestAccepted(payload: seq<bv8>, cap: nat, clientAddr: seq<bv8>): (r: Result<seq<bv8>>)
    requires |payload| <= cap
    ensures r.Panic? <==> |payload| <= 1 || (payload[1] == IPv4 && cap < 8)
    ensures r.Ok? ==> |r.value| == |payload|
    ensures r.Ok? ==> forall i :: 0 <= i < |payload| && !(2 <= i < 8) ==> r.value[i] == payload[i]
    ensures r.Ok? && payload[1] != IPv4 ==> r.value == payload
    ensures r.Ok? && payload[1] == IPv4 && |clientAddr| == Window ==>
      forall i :: 2 <= i < Min(|payload|, 8) ==> r.value[i] == clientAddr[i - 2]
    ensures |payload| >= 8 && |clientAddr| == Window ==>
      r.Ok? && r.value[2..8] == (if payload[1] == IPv4 then clientAddr else payload[2..8])
  {
    RewriteAddress(payload, cap, 1, clientAddr)
  }

  /** Where the IPv4 address body of a client-to-server packet of type `t` starts. */
  function ClientAddrOffset(t: bv8): nat
  {
    if t == OpenConnectionRequest2 then 18 else 2
  }

  /** Where the IPv4 address body of a server-to-client packet of type `t` starts. */
  function ServerAddrOffset(t: bv8): nat
  {
    if t == OpenConnectionReply2 then 26 else 2
  }

  /**
   Rewrites a payload travelling from the client to the server. Only the two
   client handshakes change, and every byte that changes now holds the
   server's address body at that position.
   */
  function UpdatePayloadFromClient(payload: seq<bv8>, cap: nat, serverAddr: seq<bv8>): (r: Result<seq<bv8>>)
    requires |payload| <= cap
    ensures |payload| == 0 ==> r == Panic(IndexOutOfRange)
    ensures |payload| > 0 && payload[0] != OpenConnectionRequest2 && payload[0] != NewIncomingConnection ==>
      r == Ok(payload)
    ensures r.Ok? ==> |r.value| == |payload| && r.value[0] == payload[0]
    ensures r.Ok? ==> forall i :: 0 <= i < |payload| && r.value[i] != payload[i] ==>
      var off := ClientAddrOffset(payload[0]);
      && (payload[0] == OpenConnectionRequest2 || payload[0] == NewIncomingConnection)
      && off <= i < off + Window
      && payload[off - 1] == IPv4
      && i - off < |serverAddr|
      && r.value[i] == serverAddr[i - off]
    ensures r.Ok? && (payload[0] == OpenConnectionRequest2 || payload[0] == NewIncomingConnection) && |serverAddr| == Window ==>
      var off := ClientAddrOffset(payload[0]);
      off - 1 < |payload| && payload[off - 1] == IPv4 ==> forall i :: off <= i < Min(|payload|, off + Window) ==> r.value[i] == serverAddr[i - off]
  {
    if |payload| == 0 then Panic(IndexOutOfRange)
    else if payload[0] == OpenConnectionRequest2 then UpdateOpenConnectionRequest2(payload, cap, serverAddr)
    else if payload[0] == NewIncomingConnection then UpdateNewIncomingConnection(payload, cap, serverAddr)
    else Ok(payload)
  }

  /**
   Rewrites a payload travelling from the server to the client. Only the two
   server handshakes change, and every byte that changes now holds the
   client's address body at that position.
   */
  function UpdatePayloadFromServer(payload: seq<bv8>, cap: nat, clientAddr: seq<bv8>): (r: Result<seq<bv8>>)
    requires |payload| <= cap
    ensures |payload| == 0 ==> r == Panic(IndexOutOfRange)
    ensures |payload| > 0 && payload[0] != OpenConnectionReply2 && payload[0] != ConnectionRequestAccepted ==>
      r == Ok(payload)
    ensures r.Ok? ==> |r.value| == |payload| && r.value[0] == payload[0]
    ensures r.Ok? ==> forall i :: 0 <= i < |payload| && r.value[i] != payload[i] ==>
      var off := ServerAddrOffset(payload[0]);
      && (payload[0] == OpenConnectionReply2 || payload[0] == ConnectionRequestAccepted)
      && off <= i < off + Window
      && payload[off - 1] == IPv4
      && i - off < |clientAddr|
      && r.value[i] == clientAddr[i - off]
    ensures r.Ok? && (payload[0] == OpenConnectionReply2 || payload[0] == ConnectionRequestAccepted) && |clientAddr| == Window ==>
      var off := ServerAddrOffset(payload[0]);
      off - 1 < |payload| && payload[off - 1] == IPv4 ==> forall i :: off <= i < Min(|payload|, off + Window) ==> r.value[i] == clientAddr[i - off]
  {
    if |payload| == 0 then Panic(IndexOutOfRange)
    else if payload[0] == OpenConnectionReply2 then UpdateOpenConnectionReply2(payload, cap, clientAddr)
    else if payload[0] == ConnectionRequestAccepted then UpdateConnectionRequestAccepted(payload, cap, clientAddr)
    else Ok(payload)
  }

  /** Rewriting a client payload a second time changes nothing. */
  lemma ClientIdempotent(payload: seq<bv8>, cap: nat, serverAddr: seq<bv8>)
    requires |payload| <= cap
    ensures var r := UpdatePayloadFromClient(payload, cap, serverAddr);
      r.Ok? ==> UpdatePayloadFromClient(r.value, cap, serverAddr) == r
  {
    if |payload| > 0 {
      if payload[0] == OpenConnectionRequest2 {
        RewriteAddressIdempotent(payload, cap, 17, serverAddr);
      } else if payload[0] == NewIncomingConnection {
        RewriteAddressIdempotent(payload, cap, 1, serverAddr);
      }
    }
  }

  /** Rewriting a server payload a second time changes nothing. */
  lemma ServerIdempotent(payload: seq<bv8>, cap: nat, clientAddr: seq<bv8>)
    requires |payload| <= cap
    ensures var r := UpdatePayloadFromServer(payload, cap, clientAddr);
      r.Ok? ==> UpdatePayloadFromServer(r.value, cap, clientAddr) == r
  {
    if |payload| > 0 {
      if payload[0] == OpenConnectionReply2 {
        RewriteAddressIdempotent(payload, cap, 25, clientAddr);
      } else if payload[0] == ConnectionRequestAccepted {
        RewriteAddressIdempotent(payload, cap, 1, clientAddr);
      }
    }
  }

  /**
   A client handshake long enough for its address window gets the server's
   6-byte address body spliced in when its version byte says IPv4, and is
   forwarded as is otherwise.
   */
  lemma ClientHandshakeSplice(payload: seq<bv8>, cap: nat, serverAddr: seq<bv8>)
    requires |payload| <= cap && |serverAddr| == Window
    ensures |payload| >= 24 && payload[0] == OpenConnectionRequest2 ==>
      UpdatePayloadFromClient(payload, cap, serverAddr) ==
      Ok(if payload[17] == IPv4 then payload[..18] + serverAddr + payload[24..] else payload)
    ensures |payload| >= 8 && payload[0] == NewIncomingConnection ==>
      UpdatePayloadFromClient(payload, cap, serverAddr) ==
      Ok(if payload[1] == IPv4 then payload[..2] + serverAddr + payload[8..] else payload)
  {
    if |payload| >= 24 && payload[0] == OpenConnectionRequest2 {
      RewriteAddressSplice(payload, cap, 17, serverAddr);
    }
    if |payload| >= 8 && payload[0] == NewIncomingConnection {
      RewriteAddressSplice(payload, cap, 1, serverAddr);
    }
  }

  /**
   A server handshake long enough for its address window gets the client's
   6-byte address body spliced in when its version byte says IPv4, and is
   forwarded as is otherwise.
   */
  lemma ServerHandshakeSplice(payload: seq<bv8>, cap: nat, clientAddr: seq<bv8>)
    requires |payload| <= cap && |clientAddr| == Window
    ensures |payload| >= 32 && payload[0] == OpenConnectionReply2 ==>
      UpdatePayloadFromServer(payload, cap, clientAddr) ==
      Ok(if payload[25] == IPv4 then payload[..26] + clientAddr + payload[32..] else payload)
    ensures |payload| >= 8 && payload[0] == ConnectionRequestAccepted ==>
      UpdatePayloadFromServer(payload, cap, clientAddr) ==
      Ok(if payload[1] == IPv4 then payload[..2] + clientAddr + payload[8..] else payload)
  {
    if |payload| >= 32 && payload[0] == OpenConnectionReply2 {
      RewriteAddressSplice(payload, cap, 25, clientAddr);
    }
    if |payload| >= 8 && payload[0] == ConnectionRequestAccepted {
      RewriteAddressSplice(payload, cap, 1, clientAddr);
    }
  }

  /** The minimum visible length under which a client payload of type `t` is rewritten without a panic. */
  function ClientSafeLength(t: bv8): nat
  {
    if t == OpenConnectionRequest2 then 24
    else if t == NewIncomingConnection then 8
    else 1
  }

  /** The minimum visible length under which a server payload of type `t` is rewritten without a panic. */
  function ServerSafeLength(t: bv8): nat
  {
    if t == OpenConnectionReply2 then 32
    else if t == ConnectionRequestAccepted then 8
    else 1
  }

  /**
   No length is checked: a client payload panics exactly when it is empty,
   when its version byte lies past the end, or when it says IPv4 and the
   address window reaches past the capacity. A payload at least as long as
   its type's window never panics.
   */
  lemma ClientPanics(payload: seq<bv8>, cap: nat, serverAddr: seq<bv8>)
    requires |payload| <= cap
    ensures UpdatePayloadFromClient(payload, cap, serverAddr).Panic? <==>
      || |payload| == 0
      || (payload[0] == OpenConnectionRequest2 && (|payload| <= 17 || (payload[17] == IPv4 && cap < 24)))
      || (payload[0] == NewIncomingConnection && (|payload| <= 1 || (payload[1] == IPv4 && cap < 8)))
    ensures |payload| > 0 && |payload| >= ClientSafeLength(payload[0]) ==>
      UpdatePayloadFromClient(payload, cap, serverAddr).Ok?
  {
  }

  /**
   A server payload panics exactly when it is empty, when its version byte
   lies past the end, or when it says IPv4 and the address window reaches
   past the capacity.
   */
  lemma ServerPanics(payload: seq<bv8>, cap: nat, clientAddr: seq<bv8>)
    requires |payload| <= cap
    ensures UpdatePayloadFromServer(payload, cap, clientAddr).Panic? <==>
      || |payload| == 0
      || (payload[0] == OpenConnectionReply2 && (|payload| <= 25 || (payload[25] == IPv4 && cap < 32)))
      || (payload[0] == ConnectionRequestAccepted && (|payload| <= 1 || (payload[1] == IPv4 && cap < 8)))
    ensures |payload| > 0 && |payload| >= ServerSafeLength(payload[0]) ==>
      UpdatePayloadFromServer(payload, cap, clientAddr).Ok?
  {
  }

  /**
   Short ConnectionRequestAccepted packets. A 3-byte one that says IPv4
   panics when its capacity is 3; with a larger backing buffer its byte 2
   is set to the first client address byte. A 2-byte one that says IPv4
   has no visible window byte and comes out unchanged, and a 3-byte one
   whose version is not IPv4 passes through.
   */
  lemma ShortConnectionRequestAccepted(clientAddr: seq<bv8>)
    requires |clientAddr| == Window
    ensures UpdatePayloadFromServer([ConnectionRequestAccepted, IPv4, 0], 3, clientAddr).Panic?
    ensures UpdatePayloadFromServer([ConnectionRequestAccepted, IPv4, 0], 1500, clientAddr) ==
      Ok([ConnectionRequestAccepted, IPv4, clientAddr[0]])
    ensures UpdatePayloadFromServer([ConnectionRequestAccepted, IPv4], 1500, clientAddr) ==
      Ok([ConnectionRequestAccepted, IPv4])
    ensures UpdatePayloadFromServer([ConnectionRequestAccepted, 6, 0], 3, clientAddr) ==
      Ok([ConnectionRequestAccepted, 6, 0])
  {
    var r := UpdatePayloadFromServer([ConnectionRequestAccepted, IPv4, 0], 1500, clientAddr);
    assert r.value[2] == clientAddr[0];
    assert r.value == [ConnectionRequestAccepted, IPv4, clientAddr[0]];
  }
}
