// The connection object of libhttpio (struct httpio) and the policy of its
// read and write calls. Sockets, TLS and readiness polls are not modelled:
// the far side of a connection is a Peer value that says, call by call,
// what those system facilities answer.

module Transport {
  import opened CText

  /** DEFAULT_TIMEOUT, in nanoseconds. */
  const DefaultTimeout: int := 1_000_000_000_000

  /** httpio_create_socket keeps at most this many resolved addresses. */
  const MaxAddresses: nat := 32

  /** How one recv or send call (plain or TLS) behaves: a positive limit
      moves at most that many bytes, 0 means the peer has closed the
      connection and a negative limit is an error (-1). errno is the value
      the call leaves behind. */
  datatype Transfer = Transfer(limit: int, errno: int)

  /** The far side of a connection and everything the program has told it.
      input is every byte the peer will ever send and cursor how many of
      them have been read; readable and writable are the successive answers
      of the readiness polls; recvs and sends the successive behaviours of
      the transfer calls. A poll or transfer list that runs out answers
      "not ready" or "closed". calls logs the data of every httpio_write
      call that got past the size check, sent the bytes the peer accepted,
      and reported the errno of every call of the error handler. */
  datatype Peer = Peer(
    input: seq<byte>, cursor: nat,
    readable: seq<bool>, writable: seq<bool>,
    recvs: seq<Transfer>, sends: seq<Transfer>,
    calls: seq<seq<byte>>, sent: seq<byte>, reported: seq<int>)
  {
    predicate Valid() { cursor <= |input| }

    /** The bytes not read yet. */
    function Unread(): seq<byte>
      requires Valid()
    {
      input[cursor..]
    }
  }

  function Head(answers: seq<bool>): bool { |answers| > 0 && answers[0] }

  function Tail<T>(s: seq<T>): seq<T> { if |s| == 0 then [] else s[1..] }

  function NextTransfer(transfers: seq<Transfer>): Transfer {
    if |transfers| == 0 then Transfer(0, 0) else transfers[0]
  }

  /** What recv or send returns for a request of `size` bytes when
      `available` bytes can move. */
  function Moved(size: nat, t: Transfer, available: nat): (r: int)
    ensures -1 <= r <= size && r <= available
    ensures r > 0 <==> t.limit > 0 && size > 0 && available > 0
  {
    if t.limit > 0 then Min(Min(t.limit, size), available)
    else if t.limit == 0 then 0
    else -1
  }

  /** The value httpio_read and httpio_write return. */
  function Outcome(size: nat, ready: bool, moved: int): int {
    if size == 0 then 0
    else if !ready then -1
    else if moved == 0 then -1
    else moved
  }

  /** Whether the error handler is called after a transfer. */
  predicate Notifies(size: nat, ready: bool, moved: int, errno: int, handler: bool) {
    size != 0 && ready && moved != 0 && errno != 0 && handler
  }

  /** The errno values a call of the error handler adds to the report log. */
  function Report(notify: bool, errno: int): seq<int> {
    if notify then [errno] else []
  }

  /** The result policy: a request of 0 bytes is answered with 0, a link
      that is not ready with -1, a transfer that moved nothing with -1, and
      anything else with what the transfer returned. */
  lemma OutcomePolicy(size: nat, ready: bool, moved: int)
    requires -1 <= moved <= size
    ensures Outcome(size, ready, moved) == 0 <==> size == 0
    ensures size > 0 && !ready ==> Outcome(size, ready, moved) == -1
    ensures size > 0 && ready && moved == 0 ==> Outcome(size, ready, moved) == -1
    ensures size > 0 && ready && moved != 0 ==> Outcome(size, ready, moved) == moved
    ensures -1 <= Outcome(size, ready, moved) <= size
  {
  }

  /** Ports on which httpio_create_socket opens a TLS session. */
  predicate IsTlsPort(port: int) {
    port == 443 || port == 993 || port == 6984
  }

  /** What one httpio_read call returns, the bytes it stores and the peer
      after it. */
  datatype Received = Received(result: int, bytes: seq<byte>, peer: Peer)

  /** httpio_read of `size` bytes: the readiness poll, then one transfer. */
  function ReadStep(p: Peer, size: nat, handler: bool): (r: Received)
    requires p.Valid()
    ensures r.peer.Valid() && r.peer.input == p.input
    ensures -1 <= r.result <= size
    ensures r.result == 0 <==> size == 0
    ensures r.result > 0 ==> r.peer.cursor == p.cursor + r.result && r.bytes == p.input[p.cursor..r.peer.cursor]
    ensures r.result <= 0 ==> r.peer.cursor == p.cursor && r.bytes == []
    ensures size == 0 ==> r.peer == p
    ensures r.peer.writable == p.writable && r.peer.sends == p.sends
    ensures r.peer.calls == p.calls && r.peer.sent == p.sent
  {
    if size == 0 then Received(0, [], p)
    else
      var ready := Head(p.readable);
      var polled := p.(readable := Tail(p.readable));
      if !ready then Received(-1, [], polled)
      else
        var t := NextTransfer(p.recvs);
        var moved := Moved(size, t, |p.input| - p.cursor);
        var taken := if moved > 0 then moved else 0;
        Received(Outcome(size, ready, moved), p.input[p.cursor..p.cursor + taken],
                 polled.(recvs := Tail(p.recvs), cursor := p.cursor + taken,
                         reported := p.reported + Report(Notifies(size, ready, moved, t.errno, handler), t.errno)))
  }

  /** What one httpio_write call returns and the peer after it. */
  datatype Delivered = Delivered(result: int, peer: Peer)

  /** httpio_write of `data`: the readiness poll (skipped under TLS), then
      one transfer. */
  function WriteStep(p: Peer, data: seq<byte>, secure: bool, handler: bool): (r: Delivered)
    ensures -1 <= r.result <= |data|
    ensures r.result == 0 <==> |data| == 0
    ensures r.peer.calls == p.calls + (if |data| == 0 then [] else [data])
    ensures r.result > 0 ==> r.peer.sent == p.sent + data[..r.result]
    ensures r.result <= 0 ==> r.peer.sent == p.sent
    ensures r.peer.input == p.input && r.peer.cursor == p.cursor
    ensures r.peer.readable == p.readable && r.peer.recvs == p.recvs
    ensures secure ==> r.peer.writable == p.writable
    ensures |data| > 0 && secure && NextTransfer(p.sends).limit >= |data| ==> r.result == |data|
  {
    if |data| == 0 then Delivered(0, p)
    else
      var logged := p.(calls := p.calls + [data]);
      var ready := secure || Head(p.writable);
      var polled := if secure then logged else logged.(writable := Tail(p.writable));
      if !ready then Delivered(-1, polled)
      else
        var t := NextTransfer(p.sends);
        var moved := Moved(|data|, t, |data|);
        var taken := if moved > 0 then moved else 0;
        Delivered(Outcome(|data|, ready, moved),
                  polled.(sends := Tail(p.sends), sent := p.sent + data[..taken],
                          reported := p.reported + Report(Notifies(|data|, ready, moved, t.errno, handler), t.errno)))
  }

  /** After a read the error handler has run at most once, with the errno
      the transfer left behind; it runs exactly when a handler is
      installed, the poll answered ready and the transfer returned
      something other than 0 with errno set. */
  lemma ReadReports(p: Peer, size: nat, handler: bool)
    requires p.Valid()
    ensures var r := ReadStep(p, size, handler); var t := NextTransfer(p.recvs);
      && (r.peer.reported == p.reported || r.peer.reported == p.reported + [t.errno])
      && (r.peer.reported != p.reported <==>
            handler && size > 0 && Head(p.readable) && t.errno != 0 &&
            (t.limit < 0 || (t.limit > 0 && p.cursor < |p.input|)))
  {
  }

  /** The same policy for a write of non-empty data; under TLS the poll
      is skipped. */
  lemma WriteReports(p: Peer, data: seq<byte>, secure: bool, handler: bool)
    ensures var r := WriteStep(p, data, secure, handler); var t := NextTransfer(p.sends);
      && (r.peer.reported == p.reported || r.peer.reported == p.reported + [t.errno])
      && (r.peer.reported != p.reported <==>
            handler && |data| > 0 && (secure || Head(p.writable)) && t.errno != 0 && t.limit != 0)
  {
  }

  /** The error handler only watches: with or without it a read returns the
      same value, stores the same bytes and leaves the peer in the same
      state, except that a handler that is called records the errno. */
  lemma {:induction false} ReadHandlerObserves(p: Peer, size: nat)
    requires p.Valid()
    ensures var with := ReadStep(p, size, true); var without := ReadStep(p, size, false);
      with.result == without.result && with.bytes == without.bytes &&
      with.peer.(reported := without.peer.reported) == without.peer &&
      (with.peer.reported == without.peer.reported ||
       (with.result != 0 && with.peer.reported == without.peer.reported + [NextTransfer(p.recvs).errno] &&
        NextTransfer(p.recvs).errno != 0))
  {
  }

  /** The same for writes. */
  lemma {:induction false} WriteHandlerObserves(p: Peer, data: seq<byte>, secure: bool)
    ensures var with := WriteStep(p, data, secure, true); var without := WriteStep(p, data, secure, false);
      with.result == without.result &&
      with.peer.(reported := without.peer.reported) == without.peer &&
      (with.peer.reported == without.peer.reported ||
       (with.result != 0 && with.peer.reported == without.peer.reported + [NextTransfer(p.sends).errno] &&
        NextTransfer(p.sends).errno != 0))
  {
  }

  /** A resolved address of the host and whether connect() succeeds on it. */
  datatype Address = Address(port: int, connects: bool)

  /** The index of the first address that connects. */
  function FirstConnecting(addresses: seq<Address>): (r: Option<nat>)
    ensures r.Some? ==> r.value < |addresses| && addresses[r.value].connects
    ensures r.Some? ==> forall j :: 0 <= j < r.value ==> !addresses[j].connects
    ensures r.None? ==> forall j :: 0 <= j < |addresses| ==> !addresses[j].connects
  {
    if addresses == [] then None
    else if addresses[0].connects then Some(0)
    else match FirstConnecting(addresses[1..]) {
      case None => None
      case Some(i) => Some(i + 1)
    }
  }

  /** The addresses httpio_create_socket tries. */
  function Attempted(addresses: seq<Address>): (r: seq<Address>)
    ensures |r| <= MaxAddresses && r <= addresses
    ensures |addresses| <= MaxAddresses ==> r == addresses
  {
    addresses[..Min(|addresses|, MaxAddresses)]
  }

  /** The value httpio_create_socket returns: the socket when socket()
      gave one, keep-alive could be set, some tried address connects and,
      on a TLS port, the TLS session could be created; -1 otherwise. */
  function Dial(socketFd: int, keepAlive: bool, addresses: seq<Address>, tlsOk: bool): (r: int)
    ensures r == -1 || r == socketFd
  {
    if socketFd == -1 || !keepAlive then -1
    else match FirstConnecting(Attempted(addresses)) {
      case None => -1
      case Some(i) => if IsTlsPort(addresses[i].port) && !tlsOk then -1 else socketFd
    }
  }

  /** A dial succeeds exactly when the first tried address that connects
      is on a plain port, or on a TLS port with a TLS session; connecting
      addresses after it are never considered. */
  lemma {:induction false} DialFirstWins(socketFd: int, keepAlive: bool, addresses: seq<Address>, tlsOk: bool, i: nat)
    requires socketFd != -1 && keepAlive
    requires i < |addresses| && i < MaxAddresses && addresses[i].connects
    requires forall j :: 0 <= j < i ==> !addresses[j].connects
    ensures Dial(socketFd, keepAlive, addresses, tlsOk) == socketFd <==> !IsTlsPort(addresses[i].port) || tlsOk
  {
    var tried := Attempted(addresses);
    assert tried[i].connects;
    assert forall j :: 0 <= j < i ==> tried[j] == addresses[j];
  }

  /** A proxy to tunnel through (struct httpio_proxy); port is a C short. */
  datatype Proxy = Proxy(host: string, port: int)

  /** httpio_socks5_tor_proxy: the local Tor daemon. */
  const TorProxy: Proxy := Proxy("127.0.0.1", 9050)

  /** The two bytes "\r\n". */
  const CrLf: seq<byte> := [0x0D, 0x0A]

  /** A connection (struct httpio). secure stands for `ssl != NULL`; the
      handler flags say whether a handler is installed. */
  class Link {
    var host: string
    var service: string
    var socket: int
    var port: int
    var secure: bool
    var errorHandler: bool
    var onClose: bool
    var onError: bool
    var peer: Peer

    /** The part of httpio_connect before the socket is created. */
    constructor (host: string, service: string, remote: Peer)
      ensures this.host == host && this.service == service && peer == remote
      ensures socket == -1 && port == 0 && !secure
      ensures !errorHandler && !onClose && !onError
    {
      this.host := host;
      this.service := service;
      socket := -1;
      port := 0;
      secure := false;
      errorHandler := false;
      onClose := false;
      onError := false;
      peer := remote;
    }

    /** httpio_create_socket: socket() gives socketFd, keep-alive setting
        succeeds iff keepAlive, name resolution gives addresses, and a TLS
        session can be created iff tlsOk. */
    method CreateSocket(socketFd: int, keepAlive: bool, addresses: seq<Address>, tlsOk: bool) returns (fd: int)
      modifies this`socket, this`port, this`secure
      ensures fd == Dial(socketFd, keepAlive, addresses, tlsOk)
      ensures socket == socketFd
      ensures var first := FirstConnecting(Attempted(addresses));
        if socketFd != -1 && keepAlive && first.Some? then
          port == addresses[first.value].port && (secure <==> IsTlsPort(port) && tlsOk)
        else
          port == old(port) && secure == old(secure)
      ensures fd != -1 ==> (secure <==> IsTlsPort(port))
    {
      socket := socketFd;
      if socket == -1 {
        return -1;
      }
      if !keepAlive {
        return -1;
      }
      var tried := Attempted(addresses);
      var index := 0;
      while index < |tried|
        invariant 0 <= index <= |tried|
        invariant forall j :: 0 <= j < index ==> !tried[j].connects
        invariant port == old(port) && secure == old(secure)
      {
        if tried[index].connects {
          assert FirstConnecting(tried) == Some(index);
          port := tried[index].port;
          if IsTlsPort(port) {
            secure := tlsOk;
            if !tlsOk {
              return -1;
            }
          } else {
            secure := false;
          }
          return socket;
        }
        index := index + 1;
      }
      return -1;
    }

    /** httpio_has_data: one read-readiness poll. */
    method HasData() returns (ready: bool)
      modifies this`peer
      ensures ready == Head(old(peer.readable))
      ensures peer == old(peer).(readable := Tail(old(peer.readable)))
    {
      ready := Head(peer.readable);
      peer := peer.(readable := Tail(peer.readable));
    }

    /** httpio_wants_data: always true under TLS, otherwise one
        write-readiness poll. */
    method WantsData() returns (ready: bool)
      modifies this`peer
      ensures ready == (secure || Head(old(peer.writable)))
      ensures peer == if secure then old(peer) else old(peer).(writable := Tail(old(peer.writable)))
    {
      if secure {
        return true;
      }
      ready := Head(peer.writable);
      peer := peer.(writable := Tail(peer.writable));
    }

    /** httpio_read into a buffer of `size` bytes. */
    method Read(size: nat) returns (result: int, bytes: seq<byte>)
      requires peer.Valid()
      modifies this`peer
      ensures Received(result, bytes, peer) == ReadStep(old(peer), size, errorHandler)
    {
      if size == 0 {
        return 0, [];
      }
      var ready := HasData();
      if !ready {
        return -1, [];
      }
      var t := NextTransfer(peer.recvs);
      var moved := Moved(size, t, |peer.input| - peer.cursor);
      var taken := if moved > 0 then moved else 0;
      bytes := peer.input[peer.cursor..peer.cursor + taken];
      result := moved;
      if result == 0 {
        result := -1;
      }
      var notify := moved != 0 && t.errno != 0 && errorHandler;
      peer := peer.(recvs := Tail(peer.recvs), cursor := peer.cursor + taken,
                    reported := peer.reported + Report(notify, t.errno));
    }

    /** httpio_write of `data`. */
    method Write(data: seq<byte>) returns (result: int)
      modifies this`peer
      ensures Delivered(result, peer) == WriteStep(old(peer), data, secure, errorHandler)
    {
      if |data| == 0 {
        return 0;
      }
      peer := peer.(calls := peer.calls + [data]);
      var ready := WantsData();
      if !ready {
        return -1;
      }
      var t := NextTransfer(peer.sends);
      var moved := Moved(|data|, t, |data|);
      var taken := if moved > 0 then moved else 0;
      result := moved;
      if result == 0 {
        result := -1;
      }
      var notify := moved != 0 && t.errno != 0 && errorHandler;
      peer := peer.(sends := Tail(peer.sends), sent := peer.sent + data[..taken],
                    reported := peer.reported + Report(notify, t.errno));
    }

    /** httpio_vwrite_line with the formatted text: nothing is written
        unless the link is writable; otherwise the text and then CRLF are
        written, and the result is the text's write result. */
    method WriteLine(text: seq<byte>) returns (result: int)
      modifies this`peer
      ensures !(secure || Head(old(peer.writable))) ==>
        result == -1 && peer.calls == old(peer.calls) && peer.sent == old(peer.sent)
      ensures secure || Head(old(peer.writable)) ==>
        peer.calls == old(peer.calls) + (if |text| == 0 then [] else [text]) + [CrLf]
      ensures var polled := if secure then old(peer) else old(peer).(writable := Tail(old(peer.writable)));
        var first := WriteStep(polled, text, secure, errorHandler);
        secure || Head(old(peer.writable)) ==>
          result == first.result && peer == WriteStep(first.peer, CrLf, secure, errorHandler).peer
      ensures secure || Head(old(peer.writable)) ==> -1 <= result <= |text| && (result == 0 <==> |text| == 0)
    {
      var ready := WantsData();
      if !ready {
        return -1;
      }
      result := Write(text);
      var _ := Write(CrLf);
    }

    /** httpio_write_newline. */
    method WriteNewline() returns (result: int)
      modifies this`peer
      ensures Delivered(result, peer) == WriteStep(old(peer), CrLf, secure, errorHandler)
      ensures result != 0 && peer.calls == old(peer.calls) + [CrLf]
    {
      result := Write(CrLf);
    }

    /** httpio_set_error_handler. */
    method SetErrorHandler(installed: bool)
      modifies this`errorHandler
      ensures errorHandler == installed
    {
      errorHandler := installed;
    }

    /** httpio_connection_set_websocket_onclose_handler. */
    method SetOnCloseHandler(installed: bool)
      modifies this`onClose
      ensures onClose == installed
    {
      onClose := installed;
    }

    /** httpio_connection_set_websocket_onerror_handler. */
    method SetOnErrorHandler(installed: bool)
      modifies this`onError
      ensures onError == installed
    {
      onError := installed;
    }
  }

  /** httpio_connect: a new link to host:service, or null when the socket
      could not be created and connected. remote is the peer the link will
      talk to. */
  method Connect(host: string, service: string, remote: Peer,
                 socketFd: int, keepAlive: bool, addresses: seq<Address>, tlsOk: bool)
    returns (link: Link?)
    ensures link == null <==> Dial(socketFd, keepAlive, addresses, tlsOk) == -1
    ensures link != null ==> (fresh(link) && link.host == host && link.service == service &&
      link.socket == socketFd && link.peer == remote &&
      !link.errorHandler && !link.onClose && !link.onError && (link.secure <==> IsTlsPort(link.port)))
  {
    link := new Link(host, service, remote);
    var fd := link.CreateSocket(socketFd, keepAlive, addresses, tlsOk);
    link.socket := fd;
    if fd == -1 {
      link := null;
    }
  }

  /** httpio_connection_reconnect: -1 for a null link, otherwise 1 when a
      new socket could be created and connected and 0 when not. */
  method Reconnect(link: Link?, socketFd: int, keepAlive: bool, addresses: seq<Address>, tlsOk: bool)
    returns (r: int)
    modifies link
    ensures link == null ==> r == -1
    ensures link != null ==> (r == 1 <==> Dial(socketFd, keepAlive, addresses, tlsOk) != -1)
    ensures link != null ==> (r == 0 <==> Dial(socketFd, keepAlive, addresses, tlsOk) == -1)
    ensures link != null ==> link.socket == socketFd && link.peer == old(link.peer)
    ensures link != null ==> var first := FirstConnecting(Attempted(addresses));
      if socketFd != -1 && keepAlive && first.Some? then
        link.port == addresses[first.value].port && (link.secure <==> IsTlsPort(link.port) && tlsOk)
      else
        link.port == old(link.port) && link.secure == old(link.secure)
    ensures link != null && r == 1 ==> (link.secure <==> IsTlsPort(link.port))
    ensures link != null ==>
      && link.host == old(link.host) && link.service == old(link.service)
      && link.errorHandler == old(link.errorHandler) && link.onClose == old(link.onClose)
      && link.onError == old(link.onError)
  {
    if link == null {
      return -1;
    }
    var fd := link.CreateSocket(socketFd, keepAlive, addresses, tlsOk);
    r := if fd != -1 then 1 else 0;
  }

  /** A value computed from what a peer sends, and the peer after it. */
  datatype Yield<T> = Yield(value: T, peer: Peer)

  /** httpio_read of a single byte: the byte, or None when the read fails. */
  function ReadOne(p: Peer, handler: bool): (r: Yield<Option<byte>>)
    requires p.Valid()
    ensures r.peer.Valid() && r.peer.input == p.input && r.peer.calls == p.calls && r.peer.sent == p.sent
    ensures r.value.None? <==> ReadStep(p, 1, handler).result < 0
    ensures r.value.None? ==> r.peer.cursor == p.cursor
    ensures r.value.Some? ==> p.cursor < |p.input| && r.peer.cursor == p.cursor + 1 && r.value.value == p.input[p.cursor]
  {
    var s := ReadStep(p, 1, handler);
    Yield(if s.result < 0 then None else Some(s.bytes[0]), s.peer)
  }

  /** What a byte-at-a-time reader makes of one more byte: go on in a new
      state, finish with a value, or stop without one. */
  datatype Turn<S, T> = Continue(state: S) | Finish(value: T) | Stop

  /** A reader that reads one byte per httpio_read and feeds each byte to
      `step`: a failed read or a Stop gives None, a Finish gives its value. */
  function Bytewise<S, T>(p: Peer, handler: bool, state: S, step: (S, byte) -> Turn<S, T>): (r: Yield<Option<T>>)
    requires p.Valid()
    ensures r.peer.Valid() && r.peer.input == p.input && r.peer.calls == p.calls && r.peer.sent == p.sent
    ensures p.cursor <= r.peer.cursor
    decreases |p.input| - p.cursor
  {
    var read := ReadOne(p, handler);
    if read.value.None? then Yield(None, read.peer)
    else match step(state, read.value.value)
      case Continue(next) => Bytewise(read.peer, handler, next, step)
      case Finish(v) => Yield(Some(v), read.peer)
      case Stop => Yield(None, read.peer)
  }

  /** The same reader run over a byte sequence: the turn it ends on (a
      Continue when the bytes run out first) and how many bytes it used. */
  datatype Ran<S, T> = Ran(turn: Turn<S, T>, used: nat)

  function Run<S, T>(bytes: seq<byte>, state: S, step: (S, byte) -> Turn<S, T>): (r: Ran<S, T>)
    ensures r.used <= |bytes|
    ensures r.turn.Continue? ==> r.used == |bytes|
  {
    if |bytes| == 0 then Ran(Continue(state), 0)
    else match step(state, bytes[0])
      case Continue(next) => var rest := Run(bytes[1..], next, step); Ran(rest.turn, rest.used + 1)
      case Finish(v) => Ran(Finish(v), 1)
      case Stop => Ran(Stop, 1)
  }

  /** On a peer that serves every read, the reader does exactly what the
      run over the unread input does, and stops right after the bytes it
      used. */
  lemma {:induction false} BytewiseServed<S, T>(p: Peer, handler: bool, state: S, step: (S, byte) -> Turn<S, T>, least: nat)
    requires Serves(p, least)
    ensures var r := Bytewise(p, handler, state, step);
      var ran := Run(p.input[p.cursor..], state, step);
      && r.value == (if ran.turn.Finish? then Some(ran.turn.value) else None)
      && r.peer.cursor == p.cursor + ran.used
      && Serves(r.peer, least)
    decreases |p.input| - p.cursor
  {
    var rest := p.input[p.cursor..];
    if p.cursor == |p.input| {
      assert rest == [];
      ServedEnd(p, handler, least);
    } else {
      var read := ReadOne(p, handler);
      ServedByte(p, handler, least);
      assert rest[0] == p.input[p.cursor] && rest[1..] == read.peer.input[read.peer.cursor..];
      match step(state, p.input[p.cursor])
      case Continue(next) =>
        BytewiseServed(read.peer, handler, next, step, least);
      case Finish(v) =>
      case Stop =>
    }
  }

  /** Whatever the peer does, the reader's outcome is the run over the
      bytes it consumed: it finishes with a value exactly when that run
      does, and the run uses every consumed byte. */
  lemma {:induction false} BytewiseRan<S, T>(p: Peer, handler: bool, state: S, step: (S, byte) -> Turn<S, T>)
    requires p.Valid()
    ensures var r := Bytewise(p, handler, state, step);
      var ran := Run(p.input[p.cursor..r.peer.cursor], state, step);
      && ran.used == r.peer.cursor - p.cursor
      && (r.value.Some? <==> ran.turn.Finish?)
      && (r.value.Some? ==> r.value.value == ran.turn.value)
    decreases |p.input| - p.cursor
  {
    var read := ReadOne(p, handler);
    var r := Bytewise(p, handler, state, step);
    var consumed := p.input[p.cursor..r.peer.cursor];
    if read.value.None? {
      assert consumed == [];
    } else {
      var q := read.peer;
      assert consumed[0] == p.input[p.cursor];
      match step(state, p.input[p.cursor])
      case Continue(next) =>
        BytewiseRan(q, handler, next, step);
        assert consumed[1..] == q.input[q.cursor..r.peer.cursor];
      case Finish(v) =>
        assert |consumed| == 1;
      case Stop =>
        assert |consumed| == 1;
    }
  }

  /** Every readiness poll still to come answers "ready", every transfer
      still to come moves at least `least` bytes, and there are at least as
      many of each as bytes left to send: since a read from such a peer
      takes at least one byte, it never runs out of answers before input. */
  predicate Serves(p: Peer, least: nat) {
    && p.Valid() && least > 0
    && |p.readable| >= |p.input| - p.cursor && |p.recvs| >= |p.input| - p.cursor
    && AllReady(p.readable) && AllMoving(p.recvs, least)
  }

  predicate AllReady(answers: seq<bool>) {
    |answers| == 0 || (answers[0] && AllReady(answers[1..]))
  }

  predicate AllMoving(transfers: seq<Transfer>, least: nat) {
    |transfers| == 0 || (transfers[0].limit >= least && AllMoving(transfers[1..], least))
  }

  /** A read from a peer that serves it, with input left to send, moves at
      least one byte (every byte asked for and available, when the transfer
      limit allows it), and the peer still serves reads after it. */
  lemma ServedRead(p: Peer, size: nat, handler: bool, least: nat)
    requires Serves(p, least) && size > 0 && p.cursor < |p.input|
    ensures var r := ReadStep(p, size, handler);
      && 1 <= r.result == Min(Min(p.recvs[0].limit, size), |p.input| - p.cursor)
      && (least >= size ==> r.result == Min(size, |p.input| - p.cursor))
      && r.peer.cursor == p.cursor + r.result && r.bytes == p.input[p.cursor..r.peer.cursor]
      && Serves(r.peer, least)
  {
  }

  /** The same, told only by how far the cursor moves. */
  lemma ServedMove(p: Peer, size: nat, handler: bool, least: nat)
    requires Serves(p, least) && size > 0 && p.cursor < |p.input|
    ensures var r := ReadStep(p, size, handler);
      r.result > 0 && Serves(r.peer, least)
  {
    ServedRead(p, size, handler, least);
  }

  /** A one-byte read from a peer that serves it, with input left to send,
      returns the next byte and moves the cursor past it. */
  lemma ServedByte(p: Peer, handler: bool, least: nat)
    requires Serves(p, least) && p.cursor < |p.input|
    ensures var r := ReadOne(p, handler);
      && r.value == Some(p.input[p.cursor]) && r.peer.cursor == p.cursor + 1
      && r.peer.input == p.input && Serves(r.peer, least)
  {
    ServedRead(p, 1, handler, least);
  }

  /** A one-byte read from a peer that serves reads but has nothing left
      to send fails, and the peer still serves reads after it. */
  lemma ServedEnd(p: Peer, handler: bool, least: nat)
    requires Serves(p, least) && p.cursor == |p.input|
    ensures var r := ReadOne(p, handler); r.value.None? && Serves(r.peer, least)
  {
  }

  /** The first m bytes of a sequence are its first k and then the first
      m - k of the rest. */
  lemma PrefixSplit(u: seq<byte>, k: nat, m: nat)
    requires k <= m <= |u|
    ensures u[..m] == u[..k] + u[k..][..m - k]
  {
  }

  /** httpio_read of a single byte into a one-byte buffer. */
  method ReadByte(link: Link) returns (value: Option<byte>)
    requires link.peer.Valid()
    modifies link`peer
    ensures Yield(value, link.peer) == ReadOne(old(link.peer), link.errorHandler)
    ensures link.peer.input[old(link.peer.cursor)..link.peer.cursor] == if value.Some? then [value.value] else []
  {
    var result, bytes := link.Read(1);
    if result == -1 {
      return None;
    }
    return Some(bytes[0]);
  }
}
