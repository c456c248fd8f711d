/** WebSocket framing as src/http-websockets.c implements it (RFC 6455):
    the one text frame the client sends, the frames it reads back and
    reassembles, the random handshake secret and the accept key. */
module WebSocket {
  import opened CText
  import opened Transport
  import opened ByteStreams
  import opened Base64
  import opened ResponseBody

  // enum httpio_websocket_frame_type
  const ContinuationFrame: int := 0x00
  const TextFrame: int := 0x01
  const BinaryFrame: int := 0x02
  const ConnectionCloseFrame: int := 0x08
  const PingFrame: int := 0x09
  const PongFrame: int := 0x0A
  const InvalidFrame: int := 0x0B

  // ---- masking (section 5.3 of RFC 6455) ----

  function Pow2(n: nat): nat {
    if n == 0 then 1 else 2 * Pow2(n - 1)
  }

  /** The low n bits of a ^ b, bit by bit from the least significant. */
  function XorBits(a: nat, b: nat, n: nat): (r: nat)
    ensures r < Pow2(n)
  {
    if n == 0 then 0 else (a % 2 + b % 2) % 2 + 2 * XorBits(a / 2, b / 2, n - 1)
  }

  /** a ^ b on unsigned chars. */
  function Xor(a: byte, b: byte): byte {
    assert Pow2(8) == 0x100;
    XorBits(a as nat, b as nat, 8) as byte
  }

  /** Xor-ing the low n bits with the same key twice gives them back. */
  lemma {:induction false} XorBitsTwice(a: nat, k: nat, n: nat)
    requires a < Pow2(n)
    ensures XorBits(XorBits(a, k, n), k, n) == a
  {
    if n > 0 {
      var ab, kb, half := a % 2, k % 2, a / 2;
      var bit, low := (ab + kb) % 2, XorBits(half, k / 2, n - 1);
      var c := XorBits(a, k, n);
      assert c == bit + 2 * low;
      Digit(c, bit, low);
      assert half < Pow2(n - 1);
      XorBitsTwice(half, k / 2, n - 1);
      BitCancel(ab, kb);
      assert XorBits(c, k, n) == (bit + kb) % 2 + 2 * XorBits(low, k / 2, n - 1);
      assert a == ab + 2 * half;
    }
  }

  lemma Digit(c: nat, bit: nat, rest: nat)
    requires bit < 2 && c == bit + 2 * rest
    ensures c % 2 == bit && c / 2 == rest
  {
  }

  lemma BitCancel(ab: nat, kb: nat)
    requires ab < 2 && kb < 2
    ensures ((ab + kb) % 2 + kb) % 2 == ab
  {
  }

  /** Xor with the same byte twice gives the byte back. */
  lemma XorTwice(a: byte, k: byte)
    ensures Xor(Xor(a, k), k) == a
  {
    assert Pow2(8) == 0x100;
    XorBitsTwice(a as nat, k as nat, 8);
  }

  /** Payload byte i xor-ed with byte i mod 4 of the masking key. */
  function Mask(message: seq<byte>, key: seq<byte>): (r: seq<byte>)
    requires |key| == 4
    ensures |r| == |message|
    ensures forall i :: 0 <= i < |message| ==> r[i] == Xor(message[i], key[i % 4])
  {
    seq(|message|, i requires 0 <= i < |message| => Xor(message[i], key[i % 4]))
  }

  /** Masking twice with the same key restores the message: the receiver
      unmasks what the sender masked. */
  lemma MaskTwice(message: seq<byte>, key: seq<byte>)
    requires |key| == 4
    ensures Mask(Mask(message, key), key) == message
  {
    var once := Mask(message, key);
    forall i | 0 <= i < |message| ensures Mask(once, key)[i] == message[i] {
      XorTwice(message[i], key[i % 4]);
    }
  }

  /** The masking loop of httpio_websocket_send_string, filling `masked`
      up to the message's terminator. */
  method MaskInto(message: seq<byte>, key: seq<byte>) returns (masked: array<byte>)
    requires |key| == 4
    ensures fresh(masked) && masked[..] == Mask(message, key)
  {
    masked := new byte[|message|];
    for index := 0 to |message|
      invariant forall j :: 0 <= j < index ==> masked[j] == Xor(message[j], key[j % 4])
    {
      masked[index] := Xor(message[index], key[index % 4]);
    }
  }

  // ---- the frame header (section 5.2 of RFC 6455) ----

  /** The header of httpio_websocket_send_string: FIN and the text opcode,
      then the mask bit with the payload length when it is below 126, 126
      when it is 126 and 127 above. No extended length is written. */
  function SendHeader(length: nat): (r: seq<byte>)
    ensures |r| == 2 && r[0] == 0x81 && r[1] >= 0x80
  {
    [0x81, 0x80 + (if length < 126 then length else if length < 127 then 126 else 127) as byte]
  }

  /** What a frame header says: the FIN bit, the opcode, the mask bit and
      the payload length. */
  datatype FrameHead = FrameHead(fin: bool, opcode: nat, masked: bool, length: nat)

  /** The bytes of an unsigned number, most significant first. */
  function BigEndian(bytes: seq<byte>): nat {
    if bytes == [] then 0 else BigEndian(bytes[..|bytes| - 1]) * 0x100 + bytes[|bytes| - 1] as nat
  }

  /** How many extended-length bytes httpio_websocket_get_frame reads after
      a 7-bit length: 2 for 126, and only 4 (not the 8 of RFC 6455) for 127. */
  function ExtendedSize(length7: nat): nat {
    if length7 == 126 then 2 else if length7 == 127 then 4 else 0
  }

  /** The header as the reader decodes it from its two bytes and the
      extended length bytes read after them. */
  function HeadOf(b0: byte, b1: byte, extended: seq<byte>): FrameHead {
    var length7 := (b1 % 0x80) as nat;
    FrameHead(b0 >= 0x80, (b0 % 0x10) as nat, b1 >= 0x80,
              if ExtendedSize(length7) == 0 then length7 else BigEndian(extended))
  }

  /** A short header of the client's own frames decodes to FIN, the text
      opcode, the mask bit and the length. */
  lemma SendHeaderDecodes(length: nat)
    requires length < 126
    ensures var h := SendHeader(length); HeadOf(h[0], h[1], []) == FrameHead(true, TextFrame, true, length)
  {
  }

  /** n written as k bytes, most significant first. */
  function BigEndianBytes(n: nat, k: nat): (r: seq<byte>)
    ensures |r| == k
  {
    if k == 0 then [] else BigEndianBytes(n / 0x100, k - 1) + [(n % 0x100) as byte]
  }

  function Pow256(k: nat): nat {
    if k == 0 then 1 else 0x100 * Pow256(k - 1)
  }

  /** Writing a number that fits in k bytes and reading it back gives the number. */
  lemma {:induction false} BigEndianRoundTrip(n: nat, k: nat)
    requires n < Pow256(k)
    ensures BigEndian(BigEndianBytes(n, k)) == n
  {
    if k > 0 {
      var r := BigEndianBytes(n, k);
      assert r[..k - 1] == BigEndianBytes(n / 0x100, k - 1);
      BigEndianRoundTrip(n / 0x100, k - 1);
    }
  }

  /** The header of an unmasked frame as a server would send it for this
      reader: the 7-bit length, or 126 and two length bytes, or 127 and
      four length bytes. */
  function ServerHeader(fin: bool, opcode: nat, length: nat): (r: seq<byte>)
    requires opcode < 0x10 && length < 0x1_0000_0000
  {
    var b0 := (if fin then 0x80 else 0) + opcode;
    if length < 126 then [b0 as byte, length as byte]
    else if length < 0x1_0000 then [b0 as byte, 126] + BigEndianBytes(length, 2)
    else [b0 as byte, 127] + BigEndianBytes(length, 4)
  }

  /** The reader decodes such a header back to its fields. */
  lemma ServerHeaderDecodes(fin: bool, opcode: nat, length: nat)
    requires opcode < 0x10 && length < 0x1_0000_0000
    ensures var h := ServerHeader(fin, opcode, length);
      2 <= |h| && |h| == 2 + ExtendedSize((h[1] % 0x80) as nat) &&
      HeadOf(h[0], h[1], h[2..]) == FrameHead(fin, opcode, false, length)
  {
    var h := ServerHeader(fin, opcode, length);
    FirstByteDecodes(fin, opcode);
    if length >= 0x1_0000 {
      Pow256Values();
      assert h[2..] == BigEndianBytes(length, 4);
      BigEndianRoundTrip(length, 4);
    } else if length >= 126 {
      Pow256Values();
      assert h[2..] == BigEndianBytes(length, 2);
      BigEndianRoundTrip(length, 2);
    }
  }

  /** The first header byte gives back FIN and the opcode. */
  lemma FirstByteDecodes(fin: bool, opcode: nat)
    requires opcode < 0x10
    ensures var b0 := ((if fin then 0x80 else 0) + opcode) as byte;
      (b0 >= 0x80 <==> fin) && (b0 % 0x10) as nat == opcode
  {
  }

  lemma Pow256Values()
    ensures Pow256(2) == 0x1_0000 && Pow256(4) == 0x1_0000_0000
  {
    assert Pow256(2) == 0x1_0000;
  }

  // ---- httpio_websocket_send_string ----

  /** httpio_websocket_send_string with `key` the four bytes of the random
      mask in memory order: nothing is written for a null link or an empty
      or NULL message; otherwise the header, the key and the masked
      payload are written in that order, stopping after a header or key
      write that did not move all its bytes. A failed payload write gives
      false, a short one true. */
  method SendString(link: Link?, message: Option<string>, key: seq<byte>) returns (sent: bool)
    requires |key| == 4
    requires message.Some? ==> IsCString(message.value)
    modifies link
    ensures link != null ==> link.secure == old(link.secure) && link.errorHandler == old(link.errorHandler)
    ensures link != null ==>
      && link.host == old(link.host) && link.service == old(link.service)
      && link.socket == old(link.socket) && link.port == old(link.port)
      && link.onClose == old(link.onClose) && link.onError == old(link.onError)
    ensures link == null || message.None? || message.value == [] ==>
      !sent && (link != null ==> link.peer == old(link.peer))
    ensures link != null && message.Some? && message.value != [] ==>
      Transmitted(old(link.peer), link.peer, Bytes(message.value), key, link.secure, link.errorHandler, sent)
    ensures sent ==> (link != null && message.Some? &&
      link.peer.calls == old(link.peer.calls) + [SendHeader(|message.value|), key, Mask(Bytes(message.value), key)])
  {
    if link == null || message.None? {
      return false;
    }
    var length := |message.value|;
    if length == 0 {
      return false;
    }
    sent := SendPayload(link, Bytes(message.value), key);
  }

  /** The three writes of a message: the header, the masking key, then the
      masked payload; each stops the send unless it wrote everything (the
      last one only when it fails). */
  ghost predicate Transmitted(before: Peer, after: Peer, payload: seq<byte>, key: seq<byte>,
                              secure: bool, handler: bool, sent: bool)
    requires |key| == 4
  {
    var header := WriteStep(before, SendHeader(|payload|), secure, handler);
    var masking := WriteStep(header.peer, key, secure, handler);
    var data := WriteStep(masking.peer, Mask(payload, key), secure, handler);
    if header.result != 2 then !sent && after == header.peer
    else if masking.result != 4 then !sent && after == masking.peer
    else after == data.peer && (sent <==> data.result >= 0)
  }

  method SendPayload(link: Link, payload: seq<byte>, key: seq<byte>) returns (sent: bool)
    requires |key| == 4 && |payload| > 0
    modifies link`peer
    ensures Transmitted(old(link.peer), link.peer, payload, key, link.secure, link.errorHandler, sent)
    ensures sent ==> link.peer.calls == old(link.peer.calls) + [SendHeader(|payload|), key, Mask(payload, key)]
  {
    var result := link.Write(SendHeader(|payload|));
    if result != 2 {
      return false;
    }
    result := link.Write(key);
    if result != 4 {
      return false;
    }
    var masked := MaskInto(payload, key);
    result := link.Write(masked[..]);
    sent := result >= 0;
  }

  // ---- httpio_websocket_get_frame ----

  /** The bytes one frame took from the link: the answer of the two-byte
      header read, the extended length read after it, and the payload. */
  datatype Piece = Piece(head: FrameHead, header: seq<byte>, extended: seq<byte>, payload: seq<byte>)

  function PieceBytes(p: Piece): seq<byte> {
    p.header + p.extended + p.payload
  }

  /** When both header reads returned every byte asked for, the header is
      the one those bytes spell. (A short read leaves the rest of the
      buffer as it was, and the header is then made of older bytes.) */
  predicate Decodes(p: Piece) {
    |p.header| == 2 && |p.extended| == ExtendedSize((p.header[1] % 0x80) as nat) ==>
      p.head == HeadOf(p.header[0], p.header[1], p.extended)
  }

  function Flatten(pieces: seq<Piece>): seq<byte> {
    if pieces == [] then [] else Flatten(pieces[..|pieces| - 1]) + PieceBytes(pieces[|pieces| - 1])
  }

  function Payloads(pieces: seq<Piece>): seq<byte> {
    if pieces == [] then [] else Payloads(pieces[..|pieces| - 1]) + pieces[|pieces| - 1].payload
  }

  /** Frames read whole and unmasked, none of them final: the loop goes on. */
  predicate Continuing(pieces: seq<Piece>) {
    forall i :: 0 <= i < |pieces| ==>
      !pieces[i].head.fin && !pieces[i].head.masked && |pieces[i].payload| == pieces[i].head.length
  }

  /** A message: frames read whole and unmasked up to the first final one. */
  predicate Complete(pieces: seq<Piece>) {
    |pieces| > 0 && Continuing(pieces[..|pieces| - 1]) &&
    var last := pieces[|pieces| - 1];
    last.head.fin && !last.head.masked && |last.payload| == last.head.length
  }

  /** Why httpio_websocket_get_frame stopped. */
  datatype Ending = Returned | ReadFailed | MaskedFrame | EmptyMessage

  /** struct httpio_websocket_frame. */
  class Frame {
    var data: Option<seq<byte>>
    var kind: int
    var length: int

    constructor (data: Option<seq<byte>>, kind: int, length: int)
      ensures this.data == data && this.kind == kind && this.length == length
    {
      this.data := data;
      this.kind := kind;
      this.length := length;
    }
  }

  /** The bytes of a read copied over the start of a buffer. */
  function Overwrite(buffer: seq<byte>, bytes: seq<byte>): (r: seq<byte>)
    requires |bytes| <= |buffer|
    ensures |r| == |buffer| && r[..|bytes|] == bytes
  {
    bytes + buffer[|bytes|..]
  }

  /** What the header reads give: the header, or None after a failed
      read; the buffer they leave; the peer after them. */
  datatype HeadYield = HeadYield(head: Option<FrameHead>, buffer: seq<byte>, peer: Peer)

  /** The header reads on a peer, over a 4-byte buffer that holds `buffer`:
      two bytes, then two or four more when the 7-bit length is 126 or
      127. Each read lands at the start of the buffer; a short read leaves
      the rest of it as it was. FIN, the opcode and the mask bit come from
      the first read, the length from the buffer after the second. */
  function HeadRead(p: Peer, handler: bool, buffer: seq<byte>): (r: HeadYield)
    requires p.Valid() && |buffer| == 4
    ensures r.peer.Valid() && r.peer.input == p.input && r.peer.calls == p.calls && r.peer.sent == p.sent
    ensures |r.buffer| == 4 && p.cursor <= r.peer.cursor
    ensures r.head.Some? ==> p.cursor < r.peer.cursor
  {
    var first := ReadStep(p, 2, handler);
    if first.result <= 0 then HeadYield(None, buffer, first.peer)
    else
      var b := Overwrite(buffer, first.bytes);
      var size := ExtendedSize((b[1] % 0x80) as nat);
      if size == 0 then HeadYield(Some(HeadOf(b[0], b[1], [])), b, first.peer)
      else ExtendedRead(first.peer, handler, b, size)
  }

  /** The header reads told step by step: the first read, the buffer after
      it and the extended size it announces. */
  lemma HeadSteps(p: Peer, handler: bool, buffer: seq<byte>) returns (first: Received, b: seq<byte>, size: nat)
    requires p.Valid() && |buffer| == 4
    ensures first == ReadStep(p, 2, handler)
    ensures first.result <= 0 ==> HeadRead(p, handler, buffer) == HeadYield(None, buffer, first.peer)
    ensures first.result > 0 ==>
      && b == Overwrite(buffer, first.bytes) && size == ExtendedSize((b[1] % 0x80) as nat)
      && HeadRead(p, handler, buffer) ==
         if size == 0 then HeadYield(Some(HeadOf(b[0], b[1], [])), b, first.peer)
         else ExtendedRead(first.peer, handler, b, size)
  {
    first := ReadStep(p, 2, handler);
    if first.result > 0 {
      b := Overwrite(buffer, first.bytes);
      size := ExtendedSize((b[1] % 0x80) as nat);
    } else {
      b, size := buffer, 0;
    }
  }

  /** The extended-length read of `size` bytes over a buffer that holds
      the first two header bytes. */
  function ExtendedRead(p: Peer, handler: bool, b: seq<byte>, size: nat): (r: HeadYield)
    requires p.Valid() && |b| == 4 && (size == 2 || size == 4)
    ensures r.peer.Valid() && r.peer.input == p.input && r.peer.calls == p.calls && r.peer.sent == p.sent
    ensures |r.buffer| == 4 && p.cursor <= r.peer.cursor
  {
    var second := ReadStep(p, size, handler);
    if second.result <= 0 then HeadYield(None, b, second.peer)
    else
      var e := Overwrite(b, second.bytes);
      HeadYield(Some(HeadOf(b[0], b[1], e[..size])), e, second.peer)
  }

  /** The bytes the header reads take from the input: the answer of the
      two-byte read, then that of the extended-length read. When both
      returned every byte asked for, the header is the one they spell. */
  lemma HeadBytes(p: Peer, handler: bool, buffer: seq<byte>) returns (header: seq<byte>, extended: seq<byte>)
    requires p.Valid() && |buffer| == 4
    ensures var r := HeadRead(p, handler, buffer);
      && p.input[p.cursor..r.peer.cursor] == header + extended
      && (|header| == 2 && |extended| == ExtendedSize((header[1] % 0x80) as nat) ==>
            r.head == Some(HeadOf(header[0], header[1], extended)))
  {
    var first, b, size := HeadSteps(p, handler, buffer);
    header, extended := first.bytes, [];
    if first.result > 0 && size != 0 {
      var second := ReadStep(first.peer, size, handler);
      extended := second.bytes;
      Slices(p.input, p.cursor, first.peer.cursor, second.peer.cursor);
    } else if first.result > 0 {
      assert header + extended == header;
    }
  }

  /** A message as the frame loop assembles it: the opcode of its last
      frame and the payloads of all its frames. */
  datatype Message = Message(kind: nat, payload: seq<byte>)

  /** The frame loop on a peer: frame after frame until one has FIN set.
      A failed read or a masked frame gives None. */
  function FramesRead(p: Peer, handler: bool, buffer: seq<byte>): (r: Yield<Option<Message>>)
    requires p.Valid() && |buffer| == 4
    ensures r.peer.Valid() && r.peer.input == p.input && r.peer.calls == p.calls && r.peer.sent == p.sent
    ensures p.cursor <= r.peer.cursor
  {
    FramesFrom([], p, handler, buffer)
  }

  /** The frame loop from where it is, with the payload kept so far. */
  function FramesFrom(kept: seq<byte>, p: Peer, handler: bool, buffer: seq<byte>): (r: Yield<Option<Message>>)
    requires p.Valid() && |buffer| == 4
    ensures r.peer.Valid() && r.peer.input == p.input && r.peer.calls == p.calls && r.peer.sent == p.sent
    ensures p.cursor <= r.peer.cursor
    decreases |p.input| - p.cursor, 1
  {
    FramesAfter(kept, p, handler, HeadRead(p, handler, buffer))
  }

  /** The frame loop after the header reads of a frame. */
  function FramesAfter(kept: seq<byte>, p: Peer, handler: bool, read: HeadYield): (r: Yield<Option<Message>>)
    requires p.Valid() && read.peer.Valid() && read.peer.input == p.input && |read.buffer| == 4
    requires read.peer.calls == p.calls && read.peer.sent == p.sent && p.cursor <= read.peer.cursor
    requires read.head.Some? ==> p.cursor < read.peer.cursor
    ensures r.peer.Valid() && r.peer.input == p.input && r.peer.calls == p.calls && r.peer.sent == p.sent
    ensures p.cursor <= r.peer.cursor
    decreases |p.input| - p.cursor, 0
  {
    if read.head.None? || read.head.value.masked then Yield(None, read.peer)
    else
      var head := read.head.value;
      var data := Gather(read.peer, handler, DefaultSize, head.length);
      if !data.value then Yield(None, data.peer)
      else
        var payload := p.input[read.peer.cursor..data.peer.cursor];
        if head.fin then Yield(Some(Message(head.opcode, kept + payload)), data.peer)
        else FramesFrom(kept + payload, data.peer, handler, read.buffer)
  }

  /** One turn of the frame loop seen from the loop's result: after the
      header reads `read` and the payload reads `data`, the loop gives
      nothing, the message, or the rest of the loop. */
  lemma FramesOnce(p: Peer, handler: bool, buffer: seq<byte>, kept: seq<byte>, read: HeadYield, data: Yield<bool>)
    requires p.Valid() && |buffer| == 4 && HeadRead(p, handler, buffer) == read
    requires read.head.Some? && !read.head.value.masked ==>
      Gather(read.peer, handler, DefaultSize, read.head.value.length) == data
    ensures read.head.None? || read.head.value.masked ==>
      FramesFrom(kept, p, handler, buffer) == Yield(None, read.peer)
    ensures read.head.Some? && !read.head.value.masked && !data.value ==>
      FramesFrom(kept, p, handler, buffer) == Yield(None, data.peer)
    ensures read.head.Some? && !read.head.value.masked && data.value && read.head.value.fin ==>
      FramesFrom(kept, p, handler, buffer) ==
      Yield(Some(Message(read.head.value.opcode, kept + p.input[read.peer.cursor..data.peer.cursor])), data.peer)
    ensures read.head.Some? && !read.head.value.masked && data.value && !read.head.value.fin ==>
      FramesFrom(kept, p, handler, buffer) ==
      FramesFrom(kept + p.input[read.peer.cursor..data.peer.cursor], data.peer, handler, read.buffer)
  {
    assert FramesFrom(kept, p, handler, buffer) == FramesAfter(kept, p, handler, read);
  }

  /** httpio_websocket_get_frame. Frames are read until one has FIN set;
      their payloads, in order, are the message, stored with a NUL after
      it; the type is the opcode of the last frame. A failed read, a
      masked frame or an empty message gives NULL. `stale` is what the
      4-byte header buffer holds before anything is read into it. */
  method GetFrame(link: Link, stale: seq<byte>) returns (frame: Frame?, ghost pieces: seq<Piece>, ghost ending: Ending)
    requires link.peer.Valid() && |stale| == 4
    modifies link`peer
    ensures old(link.peer.cursor) <= link.peer.cursor <= |link.peer.input|
    ensures link.peer.input[old(link.peer.cursor)..link.peer.cursor] == Flatten(pieces)
    ensures Ended(pieces, ending)
    ensures frame != null <==> ending == Returned
    ensures ending == Returned ==>
      && fresh(frame) && frame.data == Some(Payloads(pieces) + [0]) && frame.length == |Payloads(pieces)|
      && frame.kind == pieces[|pieces| - 1].head.opcode
    ensures var m := FramesRead(old(link.peer), link.errorHandler, stale);
      && link.peer == m.peer
      && (frame != null <==> m.value.Some? && m.value.value.payload != [])
      && (frame != null ==> frame.data == Some(m.value.value.payload + [0]) &&
                            frame.length == |m.value.value.payload| && frame.kind == m.value.value.kind)
  {
    var stream := new ByteStream.Start();
    var buffer := new byte[4];
    buffer[0], buffer[1], buffer[2], buffer[3] := stale[0], stale[1], stale[2], stale[3];
    assert buffer[..] == stale;
    var ok, kind;
    ok, kind, pieces, ending := FrameLoop(link, buffer, stream, stale);
    if !ok || stream.length == 0 {
      return null, pieces, ending;
    }
    ghost var after := link.peer;
    stream.Append([0], true);
    assert link.peer == after;
    frame := new Frame(Some(stream.Contents()), kind, stream.length - 1);
  }

  /** How the frames read end, for each reason the loop stops: every
      header is the one its bytes spell, the frames before the last are
      whole, unmasked and not final, and the last one is final (Returned,
      EmptyMessage), masked (MaskedFrame) or cut short (ReadFailed). */
  predicate Ended(pieces: seq<Piece>, ending: Ending) {
    && (forall i :: 0 <= i < |pieces| ==> Decodes(pieces[i]))
    && (ending == Returned ==> Complete(pieces) && Payloads(pieces) != [])
    && (ending == EmptyMessage ==> Complete(pieces) && Payloads(pieces) == [])
    && (ending == MaskedFrame ==>
          && |pieces| > 0 && Continuing(pieces[..|pieces| - 1])
          && pieces[|pieces| - 1].head.masked && pieces[|pieces| - 1].payload == [])
    && (ending == ReadFailed ==> |pieces| > 0 && Continuing(pieces[..|pieces| - 1]))
  }

  /** The loop of httpio_websocket_get_frame: frames until one has FIN
      set, their payloads appended to `stream`. ok is false after a failed
      read or on a masked frame. */
  method FrameLoop(link: Link, buffer: array<byte>, stream: ByteStream, ghost stale: seq<byte>)
    returns (ok: bool, kind: nat, ghost pieces: seq<Piece>, ghost ending: Ending)
    requires link.peer.Valid() && buffer.Length == 4 && buffer[..] == stale
    requires stream.Valid() && stream.Contents() == [] && stream.data != buffer
    modifies link`peer, buffer, stream, stream.data
    ensures stream.Valid() && (stream.data == old(stream.data) || fresh(stream.data))
    ensures old(link.peer.cursor) <= link.peer.cursor <= |link.peer.input|
    ensures link.peer.input[old(link.peer.cursor)..link.peer.cursor] == Flatten(pieces)
    ensures Ended(pieces, ending)
    ensures ok <==> ending == Returned || ending == EmptyMessage
    ensures ok ==> kind == pieces[|pieces| - 1].head.opcode && stream.Contents() == Payloads(pieces)
    ensures var m := FramesRead(old(link.peer), link.errorHandler, stale);
      && link.peer == m.peer && (ok <==> m.value.Some?)
      && (ok ==> m.value.value == Message(kind, stream.Contents()))
  {
    ghost var start := link.peer.cursor;
    var final := false;
    kind := 0;
    pieces := [];
    assert link.peer.input[start..link.peer.cursor] == [];
    ghost var goal := FramesRead(link.peer, link.errorHandler, stale);
    while !final
      invariant link.errorHandler == old(link.errorHandler)
      invariant link.peer.Valid() && link.peer.input == old(link.peer.input)
      invariant start <= link.peer.cursor
      invariant stream.Valid() && (stream.data == old(stream.data) || fresh(stream.data))
      invariant link.peer.input[start..link.peer.cursor] == Flatten(pieces)
      invariant stream.Contents() == Payloads(pieces)
      invariant Progress(pieces, final, kind)
      invariant final ==> Yield(Some(Message(kind, stream.Contents())), link.peer) == goal
      invariant !final ==> FramesFrom(stream.Contents(), link.peer, link.errorHandler, buffer[..]) == goal
      decreases |link.peer.input| - link.peer.cursor, !final
    {
      var head;
      ghost var piece;
      ghost var at := link.peer.cursor;
      ok, head, piece := NextPiece(link, buffer, stream, stream.Contents(), goal);
      Slices(link.peer.input, start, at, link.peer.cursor);
      PieceAdded(pieces, kind, piece, ok);
      pieces := pieces + [piece];
      if !ok {
        ending := if head.masked then MaskedFrame else ReadFailed;
        return false, kind, pieces, ending;
      }
      final, kind := head.fin, head.opcode;
    }
    ProgressEnded(pieces, kind);
    ok := true;
    ending := if Payloads(pieces) == [] then EmptyMessage else Returned;
  }

  /** The frame loop's invariant on the frames read so far: each header
      is the one its bytes spell; before a final frame every frame is
      whole, unmasked and not final; once one is final they form a
      message whose type is the last opcode. */
  predicate Progress(pieces: seq<Piece>, final: bool, kind: nat) {
    && (forall i :: 0 <= i < |pieces| ==> Decodes(pieces[i]))
    && (if final then Complete(pieces) && kind == pieces[|pieces| - 1].head.opcode else Continuing(pieces))
  }

  /** The frame loop's invariant after one more frame. */
  lemma PieceAdded(pieces: seq<Piece>, kind: nat, piece: Piece, ok: bool)
    requires Progress(pieces, false, kind) && Decodes(piece)
    requires ok ==> !piece.head.masked && |piece.payload| == piece.head.length
    requires !ok && piece.head.masked ==> piece.payload == []
    ensures var more := pieces + [piece];
      && Flatten(more) == Flatten(pieces) + PieceBytes(piece)
      && Payloads(more) == Payloads(pieces) + piece.payload
      && (ok ==> Progress(more, piece.head.fin, piece.head.opcode))
      && (!ok ==> Ended(more, if piece.head.masked then MaskedFrame else ReadFailed))
  {
    var more := pieces + [piece];
    assert more[..|pieces|] == pieces;
  }

  /** How the frame loop ends once a final frame has been read. */
  lemma ProgressEnded(pieces: seq<Piece>, kind: nat)
    requires Progress(pieces, true, kind)
    ensures Ended(pieces, if Payloads(pieces) == [] then EmptyMessage else Returned)
    ensures kind == pieces[|pieces| - 1].head.opcode
  {
  }

  /** One turn of the frame loop: the header, then, for an unmasked frame,
      its payload read into the stream in pieces of at most DefaultSize
      bytes. ok is false after a failed read or on a masked frame. */
  method NextPiece(link: Link, buffer: array<byte>, stream: ByteStream, ghost kept: seq<byte>, ghost goal: Yield<Option<Message>>)
    returns (ok: bool, head: FrameHead, ghost piece: Piece)
    requires link.peer.Valid() && buffer.Length == 4 && stream.Valid() && stream.data != buffer
    requires stream.Contents() == kept && FramesFrom(kept, link.peer, link.errorHandler, buffer[..]) == goal
    modifies link`peer, buffer, stream, stream.data
    ensures link.peer.Valid() && link.peer.input == old(link.peer.input)
    ensures link.peer.calls == old(link.peer.calls) && link.peer.sent == old(link.peer.sent)
    ensures stream.Valid() && (stream.data == old(stream.data) || fresh(stream.data))
    ensures old(link.peer.cursor) <= link.peer.cursor
    ensures link.peer.input[old(link.peer.cursor)..link.peer.cursor] == PieceBytes(piece)
    ensures stream.Contents() == kept + piece.payload
    ensures piece.head == head && Decodes(piece)
    ensures ok ==> old(link.peer.cursor) < link.peer.cursor && !head.masked && |piece.payload| == head.length
    ensures !ok && head.masked ==> piece.payload == []
    ensures ok && head.fin ==> Yield(Some(Message(head.opcode, kept + piece.payload)), link.peer) == goal
    ensures ok && !head.fin ==> FramesFrom(kept + piece.payload, link.peer, link.errorHandler, buffer[..]) == goal
    ensures !ok ==> Yield(None, link.peer) == goal
  {
    ghost var at, stale := link.peer, buffer[..];
    ok, head := ReadHead(link, buffer);
    ghost var read := HeadYield(if ok then Some(head) else None, buffer[..], link.peer);
    if ok && !head.masked {
      ok := ReadInto(link, stream, head.length);
    } else {
      ok := false;
      assert link.peer.input[link.peer.cursor..link.peer.cursor] == [];
    }
    piece := PieceRead(at, link.errorHandler, stale, kept, read, head, ok, link.peer);
  }

  /** One turn of the frame loop on values: from the peer `at` and the
      buffer `stale`, the header reads give `read` and the payload reads
      end at `end` with `ok`. The bytes taken are those of one frame, and
      the loop's result is the message or the rest of the loop. */
  lemma PieceRead(at: Peer, handler: bool, stale: seq<byte>, kept: seq<byte>, read: HeadYield, head: FrameHead, ok: bool, end: Peer)
    returns (piece: Piece)
    requires at.Valid() && |stale| == 4 && HeadRead(at, handler, stale) == read
    requires read.head.Some? ==> read.head.value == head
    requires read.head.Some? && !head.masked ==> Gather(read.peer, handler, DefaultSize, head.length) == Yield(ok, end)
    requires read.head.None? || head.masked ==> end == read.peer && !ok
    ensures end.Valid() && end.input == at.input && end.calls == at.calls && end.sent == at.sent
    ensures at.cursor <= read.peer.cursor <= end.cursor
    ensures at.input[at.cursor..end.cursor] == PieceBytes(piece)
    ensures piece.payload == at.input[read.peer.cursor..end.cursor]
    ensures piece.head == head && Decodes(piece)
    ensures ok ==> at.cursor < end.cursor && !head.masked && |piece.payload| == head.length
    ensures !ok && head.masked ==> piece.payload == []
    ensures ok && head.fin ==> Yield(Some(Message(head.opcode, kept + piece.payload)), end) == FramesFrom(kept, at, handler, stale)
    ensures ok && !head.fin ==> FramesFrom(kept + piece.payload, end, handler, read.buffer) == FramesFrom(kept, at, handler, stale)
    ensures !ok ==> Yield(None, end) == FramesFrom(kept, at, handler, stale)
  {
    var header, extended := HeadBytes(at, handler, stale);
    FramesOnce(at, handler, stale, kept, read, Yield(ok, end));
    piece := Piece(head, header, extended, at.input[read.peer.cursor..end.cursor]);
    Slices(at.input, at.cursor, read.peer.cursor, end.cursor);
  }

  /** The header reads: two bytes into the buffer, then two or four more
      over its start when the 7-bit length says 126 or 127. The extended
      length is read most significant byte first; the or of fields with no
      bit in common is their sum. */
  method ReadHead(link: Link, buffer: array<byte>) returns (ok: bool, head: FrameHead)
    requires link.peer.Valid() && buffer.Length == 4
    modifies link`peer, buffer
    ensures HeadRead(old(link.peer), link.errorHandler, old(buffer[..])) ==
      HeadYield(if ok then Some(head) else None, buffer[..], link.peer)
    ensures !ok ==> head == FrameHead(false, 0, false, 0)
  {
    head := FrameHead(false, 0, false, 0);
    ghost var first, b, size := HeadSteps(link.peer, link.errorHandler, buffer[..]);
    var result, bytes := link.Read(2);
    if result <= 0 {
      return false, head;
    }
    Overlay(buffer, bytes);
    ok, head := HeadFields(link, buffer);
  }

  /** The switch on the 7-bit length after the first header read: the
      fields come from the first two bytes of the buffer, and 126 or 127
      reads the extended length first. */
  method HeadFields(link: Link, buffer: array<byte>) returns (ok: bool, head: FrameHead)
    requires link.peer.Valid() && buffer.Length == 4
    modifies link`peer, buffer
    ensures var b := old(buffer[..]);
      var size := ExtendedSize((b[1] % 0x80) as nat);
      && (size == 0 ==> ok && head == HeadOf(b[0], b[1], []) && buffer[..] == b && link.peer == old(link.peer))
      && (size != 0 ==> ExtendedRead(old(link.peer), link.errorHandler, b, size) ==
                        HeadYield(if ok then Some(head) else None, buffer[..], link.peer))
      && (!ok ==> head == FrameHead(false, 0, false, 0))
  {
    var b0, b1 := buffer[0], buffer[1];
    var length: nat := (b1 % 0x80) as nat;
    if length == 126 || length == 127 {
      ok, length := ReadExtended(link, buffer, ExtendedSize(length));
      if !ok {
        return false, FrameHead(false, 0, false, 0);
      }
    }
    head := FrameHead(b0 >= 0x80, (b0 % 0x10) as nat, b1 >= 0x80, length);
    ok := true;
  }

  /** The extended length: `size` bytes (2 or 4) read over the start of
      the buffer, then the buffer read most significant byte first. The or
      of shifted bytes with no bit in common is their sum. */
  method ReadExtended(link: Link, buffer: array<byte>, size: nat) returns (ok: bool, length: nat)
    requires link.peer.Valid() && buffer.Length == 4 && (size == 2 || size == 4)
    modifies link`peer, buffer
    ensures var b := old(buffer[..]);
      ExtendedRead(old(link.peer), link.errorHandler, b, size) ==
      HeadYield(if ok then Some(HeadOf(b[0], b[1], buffer[..size])) else None, buffer[..], link.peer)
    ensures ok ==> length == BigEndian(buffer[..size])
  {
    var result, bytes := link.Read(size);
    if result <= 0 {
      return false, 0;
    }
    Overlay(buffer, bytes);
    length := Assemble(buffer, size);
    ok := true;
  }

  /** memcpy of a read's bytes to the start of the buffer. */
  method Overlay(buffer: array<byte>, bytes: seq<byte>)
    requires |bytes| <= buffer.Length
    modifies buffer
    ensures buffer[..] == Overwrite(old(buffer[..]), bytes)
  {
    Put(buffer, 0, bytes);
    assert buffer[..|bytes|] == bytes;
    assert buffer[..] == buffer[..|bytes|] + buffer[|bytes|..];
  }

  /** The buffer after the extended-length read, as a number. */
  method Assemble(buffer: array<byte>, size: nat) returns (length: nat)
    requires buffer.Length == 4 && (size == 2 || size == 4)
    ensures length == BigEndian(buffer[..size])
  {
    if size == 2 {
      length := buffer[0] as nat * 0x100 + buffer[1] as nat;
      BigEndianTwo(buffer[..size]);
    } else {
      length := buffer[0] as nat * 0x100_0000 + buffer[1] as nat * 0x1_0000 + buffer[2] as nat * 0x100 + buffer[3] as nat;
      BigEndianFour(buffer[..size]);
    }
  }

  lemma BigEndianTwo(e: seq<byte>)
    requires |e| == 2
    ensures BigEndian(e) == e[0] as nat * 0x100 + e[1] as nat
  {
    var one := e[..1];
    assert one[..0] == [];
    assert BigEndian(one) == e[0] as nat;
    assert e[..|e| - 1] == one;
  }

  lemma BigEndianFour(e: seq<byte>)
    requires |e| == 4
    ensures BigEndian(e) == e[0] as nat * 0x100_0000 + e[1] as nat * 0x1_0000 + e[2] as nat * 0x100 + e[3] as nat
  {
    var two, three := e[..2], e[..3];
    assert three[..2] == two && e[..|e| - 1] == three;
    BigEndianTwo(two);
    assert BigEndian(three) == BigEndian(two) * 0x100 + e[2] as nat;
  }

  // ---- what the frame loop makes of a server's frames ----

  /** A frame as a server sends it to this reader: unmasked, with FIN, an
      opcode and a payload whose length the header can carry. */
  datatype Outgoing = Outgoing(fin: bool, opcode: nat, payload: seq<byte>)

  predicate Sendable(f: Outgoing) {
    f.opcode < 0x10 && |f.payload| < 0x1_0000_0000
  }

  function OutgoingBytes(f: Outgoing): seq<byte>
    requires Sendable(f)
  {
    ServerHeader(f.fin, f.opcode, |f.payload|) + f.payload
  }

  /** A message as a server sends it: frames without FIN, then one with FIN. */
  predicate Fragmented(frames: seq<Outgoing>) {
    && |frames| > 0
    && forall i :: 0 <= i < |frames| ==> Sendable(frames[i]) && (frames[i].fin <==> i == |frames| - 1)
  }

  function OutgoingAll(frames: seq<Outgoing>): seq<byte>
    requires forall i :: 0 <= i < |frames| ==> Sendable(frames[i])
  {
    if frames == [] then [] else OutgoingBytes(frames[0]) + OutgoingAll(frames[1..])
  }

  function OutgoingPayloads(frames: seq<Outgoing>): seq<byte> {
    if frames == [] then [] else frames[0].payload + OutgoingPayloads(frames[1..])
  }

  /** Unread input that starts with `u` starts with its first k bytes,
      and the k bytes after those continue it. */
  lemma UnreadParts(p: Peer, u: seq<byte>, k: nat)
    requires p.Valid() && u <= p.Unread() && k <= |u|
    ensures p.cursor + |u| <= |p.input|
    ensures p.input[p.cursor..p.cursor + k] == u[..k] && p.input[p.cursor + k..p.cursor + |u|] == u[k..]
  {
    assert p.input[p.cursor..p.cursor + |u|] == u;
  }

  /** The header reads on a peer that serves reads of four bytes or more
      and has a server's frame header next give that header, and leave
      the cursor after it. */
  lemma HeadServed(p: Peer, handler: bool, buffer: seq<byte>, f: Outgoing, least: nat)
    returns (b: seq<byte>, q: Peer)
    requires Serves(p, least) && least >= 4 && |buffer| == 4 && Sendable(f)
    requires ServerHeader(f.fin, f.opcode, |f.payload|) <= p.Unread()
    ensures HeadRead(p, handler, buffer) == HeadYield(Some(FrameHead(f.fin, f.opcode, false, |f.payload|)), b, q)
    ensures q.input == p.input && q.cursor == p.cursor + |ServerHeader(f.fin, f.opcode, |f.payload|)|
    ensures Serves(q, least) && |b| == 4
  {
    var h := ServerHeader(f.fin, f.opcode, |f.payload|);
    ServerHeaderDecodes(f.fin, f.opcode, |f.payload|);
    var first, b1, size := HeadSteps(p, handler, buffer);
    ServedRead(p, 2, handler, least);
    UnreadParts(p, h, 2);
    assert b1[..2] == h[..2];
    assert b1[0] == h[0] && b1[1] == h[1];
    if size == 0 {
      assert h[2..] == [];
      b, q := b1, first.peer;
    } else {
      assert h == h[..2] + h[2..];
      UnreadAfter(p, first.peer, h[..2], h[2..]);
      b, q := ExtendedServed(first.peer, handler, b1, size, h[2..], least);
    }
  }

  /** The extended-length read on a peer that serves reads of four bytes
      or more and has the length bytes next. */
  lemma ExtendedServed(p: Peer, handler: bool, b: seq<byte>, size: nat, extended: seq<byte>, least: nat)
    returns (e: seq<byte>, q: Peer)
    requires Serves(p, least) && least >= 4 && |b| == 4 && (size == 2 || size == 4)
    requires |extended| == size && extended <= p.Unread()
    ensures ExtendedRead(p, handler, b, size) == HeadYield(Some(HeadOf(b[0], b[1], extended)), e, q)
    ensures q.input == p.input && q.cursor == p.cursor + size && Serves(q, least) && |e| == 4
  {
    ServedRead(p, size, handler, least);
    var second := ReadStep(p, size, handler);
    assert second.bytes == extended;
    e, q := Overwrite(b, second.bytes), second.peer;
  }

  /** One turn of the frame loop on a peer that serves reads of four
      bytes or more and has a server's frame next: the message when the
      frame has FIN set, the rest of the loop after its payload otherwise. */
  lemma FrameServed(kept: seq<byte>, p: Peer, handler: bool, buffer: seq<byte>, f: Outgoing, least: nat)
    returns (b: seq<byte>, r: Peer)
    requires Serves(p, least) && least >= 4 && |buffer| == 4
    requires Sendable(f) && OutgoingBytes(f) <= p.Unread()
    ensures r.input == p.input && r.cursor == p.cursor + |OutgoingBytes(f)| && Serves(r, least) && |b| == 4
    ensures f.fin ==> FramesFrom(kept, p, handler, buffer) == Yield(Some(Message(f.opcode, kept + f.payload)), r)
    ensures !f.fin ==> FramesFrom(kept, p, handler, buffer) == FramesFrom(kept + f.payload, r, handler, b)
  {
    var h := ServerHeader(f.fin, f.opcode, |f.payload|);
    assert h <= p.Unread();
    var q;
    b, q := HeadServed(p, handler, buffer, f, least);
    UnreadAfter(p, q, h, f.payload);
    GatherServed(q, handler, DefaultSize, |f.payload|, least);
    var data := Gather(q, handler, DefaultSize, |f.payload|);
    assert q.input[q.cursor..data.peer.cursor] == f.payload;
    r := data.peer;
    assert FramesFrom(kept, p, handler, buffer) ==
      FramesAfter(kept, p, handler, HeadYield(Some(FrameHead(f.fin, f.opcode, false, |f.payload|)), b, q));
  }

  /** Frame by frame: the frame loop on a peer that serves reads of four
      bytes or more and has a server's message next returns that message,
      the opcode of its last frame and its payloads in order, after the
      payload kept so far; the cursor ends after the message. */
  lemma {:induction false} FramesServed(kept: seq<byte>, p: Peer, handler: bool, buffer: seq<byte>,
                                        frames: seq<Outgoing>, least: nat)
    requires Serves(p, least) && least >= 4 && |buffer| == 4
    requires Fragmented(frames) && OutgoingAll(frames) <= p.Unread()
    ensures var r := FramesFrom(kept, p, handler, buffer);
      && r.value == Some(Message(frames[|frames| - 1].opcode, kept + OutgoingPayloads(frames)))
      && r.peer.cursor == p.cursor + |OutgoingAll(frames)|
      && Serves(r.peer, least)
    decreases |frames|
  {
    var f, rest := frames[0], frames[1..];
    assert OutgoingAll(frames) == OutgoingBytes(f) + OutgoingAll(rest);
    var b, q := FrameServed(kept, p, handler, buffer, f, least);
    if f.fin {
      assert |frames| == 1 && rest == [];
      assert kept + OutgoingPayloads(frames) == kept + f.payload;
    } else {
      assert Fragmented(rest) by {
        forall i | 0 <= i < |rest|
          ensures Sendable(rest[i]) && (rest[i].fin <==> i == |rest| - 1)
        {
          assert rest[i] == frames[i + 1];
        }
      }
      UnreadAfter(p, q, OutgoingBytes(f), OutgoingAll(rest));
      FramesServed(kept + f.payload, q, handler, b, rest, least);
      assert kept + f.payload + OutgoingPayloads(rest) == kept + OutgoingPayloads(frames);
    }
  }

  /** httpio_websocket_get_frame on a server's message: a frame holding
      its payloads, in order, and the opcode of its last frame, whenever
      the payloads are not all empty; the cursor ends after the message. */
  lemma MessageServed(p: Peer, handler: bool, stale: seq<byte>, frames: seq<Outgoing>, least: nat)
    requires Serves(p, least) && least >= 4 && |stale| == 4
    requires Fragmented(frames) && OutgoingAll(frames) <= p.Unread()
    ensures var m := FramesRead(p, handler, stale);
      && m.value == Some(Message(frames[|frames| - 1].opcode, OutgoingPayloads(frames)))
      && m.peer.cursor == p.cursor + |OutgoingAll(frames)|
  {
    FramesServed([], p, handler, stale, frames, least);
    assert [] + OutgoingPayloads(frames) == OutgoingPayloads(frames);
  }

  /** httpio_websocket_frame_type: WebSocketInvalidFrame for NULL. */
  function FrameType(frame: Frame?): (r: int)
    reads frame
    ensures frame == null ==> r == InvalidFrame
    ensures frame != null ==> r == frame.kind
  {
    if frame == null then InvalidFrame else frame.kind
  }

  /** httpio_websocket_frame_data: NULL for NULL. */
  function FrameData(frame: Frame?): (r: Option<seq<byte>>)
    reads frame
    ensures frame == null ==> r.None?
    ensures frame != null ==> r == frame.data
  {
    if frame == null then None else frame.data
  }

  /** httpio_websocket_frame_length: 0 for NULL, the int64 length as a size_t otherwise. */
  function FrameLength(frame: Frame?): (r: nat)
    reads frame
    ensures frame == null ==> r == 0
    ensures frame != null ==> r < 0x1_0000_0000_0000_0000
    ensures frame != null && 0 <= frame.length < 0x1_0000_0000_0000_0000 ==> r == frame.length
  {
    if frame == null then 0 else SizeT(frame.length)
  }

  // ---- httpio_websocket_secret ----

  const SecretLetters: string := "abcdefghijklmnopqrstuvwxyz"
  const SecretDigits: string := "0123456789"
  /** SecretSource: the characters the secret is drawn from. */
  const SecretSource: string := SecretLetters + SecretDigits
  const SecretLength: nat := 16

  /** The character at position i of SecretSource. */
  function SourceChar(i: nat): char
    requires i < 36
  {
    if i < 26 then ('a' as int + i) as char else ('0' as int + i - 26) as char
  }

  lemma SourceChars()
    ensures |SecretSource| == 36
    ensures forall i :: 0 <= i < 36 ==> SecretSource[i] == SourceChar(i)
  {
    assert SecretLetters == seq(26, i requires 0 <= i < 26 => ('a' as int + i) as char);
    assert SecretDigits == seq(10, i requires 0 <= i < 10 => ('0' as int + i) as char);
  }

  predicate Distinct(s: string) {
    forall i, j :: 0 <= i < j < |s| ==> s[i] != s[j]
  }

  /** No character appears twice in SecretSource. */
  lemma SourceDistinct()
    ensures Distinct(SecretSource)
  {
    SourceChars();
  }

  /** The exchange of positions i and j. */
  function Swapped(s: string, i: nat, j: nat): (r: string)
    requires i < |s| && j < |s|
    ensures |r| == |s|
  {
    s[i := s[j]][j := s[i]]
  }

  /** The position whose character lands at k when i and j are exchanged. */
  function SwapSource(k: nat, i: nat, j: nat): nat {
    if k == i then j else if k == j then i else k
  }

  /** An exchange moves characters and changes none. */
  lemma SwappedPermutes(s: string, i: nat, j: nat)
    requires i < |s| && j < |s|
    ensures multiset(Swapped(s, i, j)) == multiset(s)
  {
  }

  /** Distinct characters stay distinct when two are exchanged. */
  lemma SwappedDistinct(s: string, i: nat, j: nat)
    requires i < |s| && j < |s| && Distinct(s)
    ensures Distinct(Swapped(s, i, j))
  {
    var r := Swapped(s, i, j);
    forall k | 0 <= k < |s| ensures r[k] == s[SwapSource(k, i, j)] {
    }
    forall a, b | 0 <= a < b < |s| ensures r[a] != r[b] {
      assert SwapSource(a, i, j) != SwapSource(b, i, j);
    }
  }

  /** A lower-case letter or a digit: a character of SecretSource. */
  predicate Alphanumeric(c: char) {
    'a' <= c <= 'z' || '0' <= c <= '9'
  }

  /** The position a random number picks: the int is converted to size_t
      for the `%` by the 36 source characters, so a negative value wraps
      around modulo 2^64 before it is reduced and still names a character. */
  function Position(random: int): (p: nat)
    ensures p < 36
    ensures 0 <= random < 0x8000_0000 ==> p == random % 36
    ensures -0x8000_0000 <= random < 0 ==> p == (random + 0x1_0000_0000_0000_0000) % 36
  {
    SizeT(random) % 36
  }

  /** A negative random still swaps within the buffer: -1 becomes
      2^64 - 1, which picks position 15. */
  lemma NegativePosition()
    ensures Position(-1) == 15 && Position(-0x8000_0000) == 32
  {
  }

  /** The secret buffer after swapping position k with Position(randoms[k])
      for each k in turn. */
  function Shuffle(randoms: seq<int>): (r: string)
    requires |randoms| <= 36
    ensures |r| == 36 && forall i :: 0 <= i < |r| ==> Alphanumeric(r[i])
  {
    if randoms == [] then SourceChars(); SecretSource
    else
      var k := |randoms| - 1;
      var s := Shuffle(randoms[..k]);
      var r := Swapped(s, k, Position(randoms[k]));
      assert forall i :: 0 <= i < |r| ==> r[i] == s[SwapSource(i, k, Position(randoms[k]))];
      r
  }

  /** The shuffle is a permutation of SecretSource. */
  lemma {:induction false} ShufflePermutes(randoms: seq<int>)
    requires |randoms| <= 36
    ensures multiset(Shuffle(randoms)) == multiset(SecretSource)
  {
    if randoms != [] {
      var k := |randoms| - 1;
      ShufflePermutes(randoms[..k]);
      SwappedPermutes(Shuffle(randoms[..k]), k, Position(randoms[k]));
    }
  }

  /** No character appears twice in the shuffle. */
  lemma {:induction false} ShuffleDistinct(randoms: seq<int>)
    requires |randoms| <= 36
    ensures Distinct(Shuffle(randoms))
  {
    if randoms == [] {
      SourceDistinct();
    } else {
      var k := |randoms| - 1;
      ShuffleDistinct(randoms[..k]);
      SwappedDistinct(Shuffle(randoms[..k]), k, Position(randoms[k]));
    }
  }

  /** The 16 characters the secret keeps, as the bytes base64 encodes. */
  function Chosen(randoms: seq<int>): (r: seq<byte>)
    requires |randoms| == SecretLength
    ensures |r| == SecretLength
  {
    var chosen := Shuffle(randoms)[..SecretLength];
    assert IsByteString(chosen) by {
      forall i | 0 <= i < |chosen| ensures chosen[i] as int < 256 {
        assert Alphanumeric(Shuffle(randoms)[i]);
      }
    }
    Bytes(chosen)
  }

  /** httpio_websocket_secret with `randoms` the 16 values of
      httpio_safe_random: the first 16 characters of the shuffled buffer,
      base64-encoded. */
  method Secret(randoms: seq<int>) returns (r: string)
    requires |randoms| == SecretLength
    requires forall k :: 0 <= k < |randoms| ==> -0x8000_0000 <= randoms[k] < 0x8000_0000
    ensures r == Encode(Chosen(randoms))
  {
    var secret := Shuffled(randoms);
    secret[SecretLength] := '\0';
    var chosen := secret[..SecretLength];
    assert chosen == Shuffle(randoms)[..SecretLength];
    r := EncodeBytes(Bytes(chosen));
  }

  /** The buffer SecretSource with its terminator, after the swap loop. */
  method Shuffled(randoms: seq<int>) returns (secret: array<char>)
    requires |randoms| == SecretLength
    requires forall k :: 0 <= k < |randoms| ==> -0x8000_0000 <= randoms[k] < 0x8000_0000
    ensures fresh(secret) && secret.Length == 37 && secret[..36] == Shuffle(randoms)
  {
    SourceChars();
    secret := new char[37](i => if 0 <= i < 36 then SourceChar(i) else '\0');
    assert secret[..36] == Shuffle(randoms[..0]) by {
      assert randoms[..0] == [];
    }
    for index := 0 to SecretLength
      invariant secret[..36] == Shuffle(randoms[..index])
    {
      var position := SizeT(randoms[index]) % 36;
      SwapInto(secret, randoms, index, position);
    }
    assert randoms[..SecretLength] == randoms;
  }

  /** One exchange of the shuffle loop, in the buffer. */
  method SwapInto(secret: array<char>, randoms: seq<int>, index: nat, position: nat)
    requires secret.Length == 37 && index < |randoms| <= 36
    requires position == Position(randoms[index])
    requires secret[..36] == Shuffle(randoms[..index])
    modifies secret
    ensures secret[..36] == Shuffle(randoms[..index + 1])
  {
    ghost var prefix := randoms[..index + 1];
    assert prefix[..index] == randoms[..index];
    var stored := secret[index];
    secret[index] := secret[position];
    secret[position] := stored;
  }

  /** The secret keeps 16 distinct letters and digits. */
  lemma SecretChosen(randoms: seq<int>)
    requires |randoms| == SecretLength
    ensures var chosen := Shuffle(randoms)[..SecretLength];
      Distinct(chosen) && forall i :: 0 <= i < |chosen| ==> Alphanumeric(chosen[i])
  {
    ShuffleDistinct(randoms);
    var s := Shuffle(randoms);
    var chosen := s[..SecretLength];
    forall i, j | 0 <= i < j < |chosen| ensures chosen[i] != chosen[j] {
      assert chosen[i] == s[i] && chosen[j] == s[j];
    }
  }

  /** The secret is 24 base64 characters, and decoding them gives the 16
      chosen bytes back. */
  lemma SecretShape(randoms: seq<int>)
    requires |randoms| == SecretLength
    ensures |Encode(Chosen(randoms))| == 24
    ensures DecodeDefined(Encode(Chosen(randoms))) && Base64.Decoded(Encode(Chosen(randoms))) == Chosen(randoms)
  {
    var x := Chosen(randoms);
    EncodeShape(x);
    DecodeEncode(x);
  }

  // ---- the accept key (section 4.2.2 of RFC 6455) ----

  /** WebSocketMagic, the GUID the accept key appends to the key. */
  const Magic: string := "258EAFA5-E914-47DA-95CA-C5AB0DC85B11"

  /** SHA1 writes SHA_DIGEST_LENGTH bytes. */
  type Digest = d: seq<byte> | |d| == 20
    witness [0, 0, 0, 0, 0, 0, 0, 0, 0, 0, 0, 0, 0, 0, 0, 0, 0, 0, 0, 0]

  lemma MagicBytes()
    ensures IsByteString(Magic) && |Magic| == 36
  {
  }

  /** httpio_websocket_key_accept: the base64 encoding of the SHA-1 digest
      of the key followed by the GUID; 28 characters, the last one '='. */
  function KeyAccept(source: string, sha1: seq<byte> -> Digest): (r: string)
    requires IsCString(source)
    ensures |r| == 28 && r[27] == '=' && forall i :: 0 <= i < 27 ==> InAlphabet(r[i])
  {
    MagicBytes();
    var digest := sha1(Bytes(source) + Bytes(Magic));
    EncodeShape(digest);
    Encode(digest)
  }

  /** httpio_websocket_check_key: whether the server's key is the accept
      key of the secret (strcmp of two C strings). */
  function CheckKey(key: string, secret: string, sha1: seq<byte> -> Digest): bool
    requires IsCString(secret)
  {
    KeyAccept(secret, sha1) == key
  }

  /** The accept key of a secret passes the check, and a key that passes
      decodes to the SHA-1 digest of the secret and the GUID. */
  lemma CheckKeyDecodes(key: string, secret: string, sha1: seq<byte> -> Digest)
    requires IsCString(secret)
    ensures CheckKey(KeyAccept(secret, sha1), secret, sha1)
    ensures CheckKey(key, secret, sha1) ==>
      DecodeDefined(key) && Base64.Decoded(key) == sha1(Bytes(secret) + Bytes(Magic))
  {
    MagicBytes();
    DecodeEncode(sha1(Bytes(secret) + Bytes(Magic)));
  }
}
