// httpio_connection_open_socks5: a connection tunnelled through a SOCKS5
// proxy (RFC 1928), with the greeting, the CONNECT request and the reply
// checks in the order and with the outcomes of libhttpio, on a
// little-endian machine (see SendConnect).

module Socks5 {
  import opened CText
  import opened Transport

  /** Version 5, one method offered: 0, no authentication (section 3 of RFC 1928). */
  const Greeting: seq<byte> := [0x05, 0x01, 0x00]

  /** Version 5, command CONNECT, reserved byte, address type DOMAINNAME
      (section 4 of RFC 1928). */
  const ConnectCommand: seq<byte> := [0x05, 0x01, 0x00, 0x03]

  const IPv4AddressType: byte := 0x01
  const DomainNameAddressType: byte := 0x03
  const IPv6AddressType: byte := 0x04

  /** The longest host name the one-byte length field can describe. */
  const MaxHostLength: nat := 0xFF

  /** The target port for a service name: only "http" and "https" are known. */
  function ServicePort(service: string): (r: Option<int>)
    ensures r == Some(80) <==> service == "http"
    ensures r == Some(443) <==> service == "https"
    ensures r.None? <==> service != "http" && service != "https"
  {
    if service == "http" then Some(80)
    else if service == "https" then Some(443)
    else None
  }

  /** A port in network byte order (htons), as it sits in memory: read
      back as a big-endian number, the two bytes give the port. */
  function PortBytes(port: int): (b: seq<byte>)
    requires 0 <= port < 0x1_0000
    ensures |b| == 2 && b[0] as int * 0x100 + b[1] as int == port
  {
    var high, low := port / 0x100, port % 0x100;
    [high as byte, low as byte]
  }

  /** The whole CONNECT request: command, host length, host, port. */
  function ConnectRequest(host: seq<byte>, port: int): seq<byte>
    requires |host| <= MaxHostLength && 0 <= port < 0x1_0000
  {
    ConnectCommand + [|host| as byte] + host + PortBytes(port)
  }

  /** The target a proxy reads out of a CONNECT request with a domain name. */
  function ParseConnectRequest(request: seq<byte>): (r: Option<(seq<byte>, int)>)
    ensures r.Some? ==> |r.value.0| <= MaxHostLength && 0 <= r.value.1 < 0x1_0000
  {
    if |request| < 5 || request[..4] != ConnectCommand then None
    else
      var length := request[4] as int;
      if |request| != 5 + length + 2 then None
      else Some((request[5..5 + length], request[5 + length] as int * 0x100 + request[6 + length] as int))
  }

  /** The proxy recovers the host and the port from the request. */
  lemma ConnectRequestRoundTrip(host: seq<byte>, port: int)
    requires |host| <= MaxHostLength && 0 <= port < 0x1_0000
    ensures ParseConnectRequest(ConnectRequest(host, port)) == Some((host, port))
  {
    var request := ConnectRequest(host, port);
    assert request[..4] == ConnectCommand;
    assert request[4] as int == |host|;
    assert request[5..5 + |host|] == host;
    assert request[5 + |host|] == PortBytes(port)[0] && request[6 + |host|] == PortBytes(port)[1];
  }

  /** A reply (section 6 of RFC 1928) whose status byte is 1 to 8 reports a failure. */
  predicate StatusFails(status: byte) {
    0x01 <= status <= 0x08
  }

  /** Whether the 4-byte head of the CONNECT reply lets negotiation go on:
      version 5, a status that is not a listed failure, and an address type
      that the code knows how to skip. */
  predicate HeadAccepted(head: seq<byte>)
    requires |head| == 4
  {
    head[0] == 0x05 && !StatusFails(head[1]) &&
    (head[3] == IPv4AddressType || head[3] == DomainNameAddressType || head[3] == IPv6AddressType)
  }

  /** Status bytes the code does not list (9 to 255) are taken as success. */
  lemma UnlistedStatusAccepted(head: seq<byte>)
    requires |head| == 4 && head[0] == 0x05 && head[3] == IPv4AddressType
    ensures HeadAccepted(head) <==> head[1] == 0x00 || head[1] >= 0x09
  {
  }

  /** The size of the bound address field that follows the reply head:
      4 bytes for IPv4, a length byte and that many bytes for a domain
      name, 16 bytes for IPv6. */
  function BoundAddressSize(addressType: byte, first: byte): nat {
    if addressType == IPv4AddressType then 4
    else if addressType == DomainNameAddressType then 1 + first as int
    else if addressType == IPv6AddressType then 16
    else 0
  }

  /** The bytes httpio_write is called with, in order, when negotiation
      reaches the CONNECT request; an empty host is a write of size 0. */
  function RequestWrites(host: seq<byte>, port: int): seq<seq<byte>>
    requires |host| <= MaxHostLength && 0 <= port < 0x1_0000
  {
    [Greeting, ConnectCommand, [|host| as byte]] + (if host == [] then [] else [host]) + [PortBytes(port)]
  }

  /** The writes after the greeting carry exactly one CONNECT request. */
  lemma RequestWritesSpellRequest(host: seq<byte>, port: int)
    requires |host| <= MaxHostLength && 0 <= port < 0x1_0000
    ensures var w := RequestWrites(host, port);
      w[0] == Greeting && w[1] + w[2] + (if host == [] then [] else w[3]) + w[|w| - 1] == ConnectRequest(host, port)
  {
  }

  /** The bound address and port were consumed exactly: the address type is
      one the code knows, and from `start` to `end` lie the address field and
      the 2-byte port. */
  predicate Skipped(input: seq<byte>, start: nat, end: nat, addressType: byte) {
    && (addressType == IPv4AddressType || addressType == DomainNameAddressType ||
        addressType == IPv6AddressType)
    && start < |input|
    && end == start + BoundAddressSize(addressType, input[start]) + 2
  }

  /** The port read that follows an address field read of `size` bytes; it
      is made only when the field read returned exactly `size`. */
  function PortAfter(field: Received, size: nat, handler: bool): (r: Yield<bool>)
    requires field.peer.Valid()
  {
    if field.result != size then Yield(false, field.peer)
    else
      var port := ReadStep(field.peer, 2, handler);
      Yield(port.result == 2, port.peer)
  }

  /** The reads that skip the bound address and port, and whether each
      returned exactly its count. */
  function BoundRead(p: Peer, handler: bool, addressType: byte): (r: Yield<bool>)
    requires p.Valid()
    ensures r.peer.Valid() && r.peer.input == p.input && p.cursor <= r.peer.cursor
    ensures r.peer.calls == p.calls && r.peer.sent == p.sent
  {
    if addressType == IPv4AddressType then PortAfter(ReadStep(p, 4, handler), 4, handler)
    else if addressType == DomainNameAddressType then
      var first := ReadStep(p, 1, handler);
      if first.result != 1 then Yield(false, first.peer)
      else
        var length := first.bytes[0] as nat;
        PortAfter(ReadStep(first.peer, length, handler), length, handler)
    else if addressType == IPv6AddressType then PortAfter(ReadStep(p, 16, handler), 16, handler)
    else Yield(false, p)
  }

  /** The skip succeeds exactly when the address type is known and the
      cursor moved over the whole address field and the port: a short or
      failed read always leaves it short of that. */
  lemma BoundReadSkipped(p: Peer, handler: bool, addressType: byte)
    requires p.Valid()
    ensures var r := BoundRead(p, handler, addressType);
      r.value <==> Skipped(p.input, p.cursor, r.peer.cursor, addressType)
  {
    if addressType == DomainNameAddressType {
      var first := ReadStep(p, 1, handler);
      if first.result == 1 {
        assert first.bytes[0] == p.input[p.cursor];
      }
    }
  }

  /** The method-selection reply: a 2-byte answer must be 05 00; any other
      read result skips the check. reply is the answer when 2 bytes came. */
  method ReadMethodReply(link: Link) returns (ok: bool, ghost reply: Option<seq<byte>>)
    requires link.peer.Valid()
    modifies link`peer
    ensures var step := ReadStep(old(link.peer), 2, link.errorHandler);
      && link.peer == step.peer
      && (reply.Some? <==> step.result == 2)
      && (reply.Some? ==> reply.value == step.bytes)
    ensures reply.Some? ==> link.peer.cursor == old(link.peer.cursor) + 2 &&
                            reply.value == link.peer.input[old(link.peer.cursor)..link.peer.cursor]
    ensures ok <==> reply.None? || reply.value == [0x05, 0x00]
  {
    var result, response := link.Read(2);
    if result == 2 {
      reply := Some(response);
      ok := response[0] == 0x05 && response[1] == 0x00;
      assert ok <==> response == [0x05, 0x00];
    } else {
      reply := None;
      ok := true;
    }
  }

  /** Reads the bound address and port after an accepted reply head; each
      read must return exactly the requested count. */
  method SkipBoundAddress(link: Link, addressType: byte) returns (ok: bool)
    requires link.peer.Valid()
    modifies link`peer
    ensures Yield(ok, link.peer) == BoundRead(old(link.peer), link.errorHandler, addressType)
    ensures ok <==> Skipped(link.peer.input, old(link.peer.cursor), link.peer.cursor, addressType)
  {
    BoundReadSkipped(link.peer, link.errorHandler, addressType);
    var result, response;
    if addressType == IPv4AddressType {
      result, response := link.Read(4);
      if result != 4 {
        return false;
      }
    } else if addressType == DomainNameAddressType {
      result, response := link.Read(1);
      if result != 1 {
        return false;
      }
      var length := response[0] as int;
      result, response := link.Read(length);
      if result != length {
        return false;
      }
    } else if addressType == IPv6AddressType {
      result, response := link.Read(16);
      if result != 16 {
        return false;
      }
    } else {
      return false;
    }
    result, response := link.Read(2);
    ok := result == 2;
  }

  /** The CONNECT reply: when its 4-byte head arrives it must be accepted
      and the bound address and port must follow; any other read result
      for the head skips all checks. */
  method ReadConnectReply(link: Link) returns (ok: bool, ghost head: Option<seq<byte>>)
    requires link.peer.Valid()
    modifies link`peer
    ensures var step := ReadStep(old(link.peer), 4, link.errorHandler);
      && (head.Some? <==> step.result == 4)
      && (head.None? ==> ok && link.peer == step.peer)
      && (head.Some? ==> head.value == step.bytes)
      && (head.Some? && !HeadAccepted(head.value) ==> !ok && link.peer == step.peer)
      && (head.Some? && HeadAccepted(head.value) ==>
            Yield(ok, link.peer) == BoundRead(step.peer, link.errorHandler, head.value[3]))
    ensures head.Some? ==>
      && |head.value| == 4
      && head.value == link.peer.input[old(link.peer.cursor)..old(link.peer.cursor) + 4]
      && (ok <==> HeadAccepted(head.value) &&
                  Skipped(link.peer.input, old(link.peer.cursor) + 4, link.peer.cursor, head.value[3]))
  {
    var result, response := link.Read(4);
    if result != 4 {
      return true, None;
    }
    head := Some(response);
    if response[0] != 0x05 || StatusFails(response[1]) {
      return false, head;
    }
    ok := SkipBoundAddress(link, response[3]);
  }

  /** Writes the CONNECT request as the code does: command, length byte,
      host and port in four separate writes.  The length byte is the first
      byte in memory of an ssize_t, which is its low byte on a little-endian
      machine; that is the byte written here. */
  method SendConnect(link: Link, host: seq<byte>, port: int)
    requires |host| <= MaxHostLength && 0 <= port < 0x1_0000
    modifies link`peer
    ensures link.peer.calls == old(link.peer.calls) + RequestWrites(host, port)[1..]
    ensures link.peer.input == old(link.peer.input) && link.peer.cursor == old(link.peer.cursor)
  {
    var _ := link.Write(ConnectCommand);
    var _ := link.Write([|host| as byte]);
    var _ := link.Write(host);
    var _ := link.Write(PortBytes(port));
  }

  /** The greeting and the method-selection reply that answers it. */
  method Greet(link: Link) returns (ok: bool, ghost reply: Option<seq<byte>>)
    requires link.peer.Valid()
    modifies link`peer
    ensures var greeted := WriteStep(old(link.peer), Greeting, link.secure, link.errorHandler).peer;
      && greeted.Valid()
      && var step := ReadStep(greeted, 2, link.errorHandler);
      && link.peer == step.peer
      && (reply.Some? <==> step.result == 2)
      && (reply.Some? ==> reply.value == step.bytes)
    ensures link.peer.calls == old(link.peer.calls) + [Greeting]
    ensures link.peer.input == old(link.peer.input) && old(link.peer.cursor) <= link.peer.cursor
    ensures reply.Some? ==> link.peer.cursor == old(link.peer.cursor) + 2 &&
                            reply.value == link.peer.input[old(link.peer.cursor)..link.peer.cursor]
    ensures ok <==> reply.None? || reply.value == [0x05, 0x00]
  {
    var _ := link.Write(Greeting);
    ok, reply := ReadMethodReply(link);
  }

  /** The CONNECT request and the reply that answers it. */
  method Request(link: Link, host: seq<byte>, port: int) returns (ok: bool, ghost head: Option<seq<byte>>)
    requires |host| <= MaxHostLength && 0 <= port < 0x1_0000 && link.peer.Valid()
    modifies link`peer
    ensures link.peer.Valid() && link.peer.input == old(link.peer.input)
    ensures link.peer.calls == old(link.peer.calls) + RequestWrites(host, port)[1..]
    ensures old(link.peer.cursor) <= link.peer.cursor
    ensures head.Some? ==>
      && |head.value| == 4
      && old(link.peer.cursor) + 4 <= link.peer.cursor
      && head.value == link.peer.input[old(link.peer.cursor)..old(link.peer.cursor) + 4]
    ensures ok <==> head.None? || (HeadAccepted(head.value) &&
                    Skipped(link.peer.input, old(link.peer.cursor) + 4, link.peer.cursor, head.value[3]))
  {
    SendConnect(link, host, port);
    ok, head := ReadConnectReply(link);
  }

  /** Whether both replies let negotiation go on: the method reply, when
      its 2 bytes came, is 05 00; the CONNECT reply head, when its 4 bytes
      came at `mid`, is accepted and the bound address and port were
      skipped up to `end`. */
  predicate RepliesPass(methodReply: Option<seq<byte>>, connectHead: Option<seq<byte>>,
                        input: seq<byte>, mid: nat, end: nat)
  {
    && (methodReply.None? || methodReply.value == [0x05, 0x00])
    && (connectHead.Some? ==>
          |connectHead.value| == 4 && HeadAccepted(connectHead.value) &&
          Skipped(input, mid + 4, end, connectHead.value[3]))
  }

  /** The negotiation on a connected link: greeting, method reply, CONNECT
      request and reply. mid is where the CONNECT reply starts. */
  method Negotiate(link: Link, host: seq<byte>, port: int)
    returns (ok: bool, ghost methodReply: Option<seq<byte>>, ghost connectHead: Option<seq<byte>>,
             ghost mid: nat)
    requires |host| <= MaxHostLength && 0 <= port < 0x1_0000 && link.peer.Valid()
    modifies link`peer
    ensures link.peer.Valid() && link.peer.input == old(link.peer.input)
    ensures old(link.peer.cursor) <= mid <= link.peer.cursor
    ensures methodReply.Some? ==>
      mid == old(link.peer.cursor) + 2 && methodReply.value == link.peer.input[old(link.peer.cursor)..mid]
    ensures connectHead.Some? ==>
      |connectHead.value| == 4 && mid + 4 <= link.peer.cursor &&
      connectHead.value == link.peer.input[mid..mid + 4]
    ensures ok <==> RepliesPass(methodReply, connectHead, link.peer.input, mid, link.peer.cursor)
    ensures ok ==> link.peer.calls == old(link.peer.calls) + RequestWrites(host, port)
  {
    connectHead := None;
    ok, methodReply := Greet(link);
    mid := link.peer.cursor;
    if !ok {
      return;
    }
    ok, connectHead := Request(link, host, port);
  }

  /** httpio_connection_open_socks5: connect to the proxy, then ask it to
      connect to host:service. Everything that httpio_connect needs to
      know about the proxy connection is passed through. mid and end are
      where the CONNECT reply starts and where negotiation stopped reading. */
  method OpenSocks5(host: string, service: string, proxy: Proxy, remote: Peer,
                    socketFd: int, keepAlive: bool, addresses: seq<Address>, tlsOk: bool)
    returns (link: Link?, ghost methodReply: Option<seq<byte>>, ghost connectHead: Option<seq<byte>>,
             ghost mid: nat, ghost end: nat)
    requires IsCString(host) && remote.Valid()
    ensures remote.cursor <= mid <= end <= |remote.input|
    ensures methodReply.Some? ==>
      mid == remote.cursor + 2 && methodReply.value == remote.input[remote.cursor..mid]
    ensures connectHead.Some? ==>
      |connectHead.value| == 4 && mid + 4 <= end && connectHead.value == remote.input[mid..mid + 4]
    ensures link != null <==>
      && |Decimal(proxy.port)| < 16
      && ServicePort(service).Some?
      && |host| <= MaxHostLength
      && Dial(socketFd, keepAlive, addresses, tlsOk) != -1
      && RepliesPass(methodReply, connectHead, remote.input, mid, end)
    ensures link != null ==>
      fresh(link) && link.host == host && link.service == Decimal(proxy.port) &&
      link.peer.calls == remote.calls + RequestWrites(Bytes(host), ServicePort(service).value) &&
      link.peer.input == remote.input && link.peer.Valid() && link.peer.cursor == end
  {
    link, methodReply, connectHead, mid, end := null, None, None, remote.cursor, remote.cursor;
    var proxyPort := Decimal(proxy.port);
    if |proxyPort| >= 16 {
      return;
    }
    var port := ServicePort(service);
    if port.None? {
      return;
    }
    if |host| > MaxHostLength {
      return;
    }
    link := Connect(proxy.host, proxyPort, remote, socketFd, keepAlive, addresses, tlsOk);
    if link == null {
      return;
    }
    var ok;
    ok, methodReply, connectHead, mid := Negotiate(link, Bytes(host), port.value);
    end := link.peer.cursor;
    if !ok {
      link := null;
      return;
    }
    link.host := host;
  }
}
