/** The body of an HTTP/1.1 response as src/http-protocol.c reads it: the
    framing decision between Content-Length and chunked transfer coding
    (section 3.3.3 of RFC 7230), the exact-length reader, the chunked
    decoder (section 4.1 of RFC 7230), and the finishing step that unpacks
    gzip content and terminates textual bodies with a NUL. */
module ResponseBody {
  import opened CText
  import opened Headers
  import opened Transport
  import opened ByteStreams
  import opened ResponseHead

  // ---- httpio_content_length ----

  /** The Content-Length value: -1 without the header, 0 when anything
      follows the digits, otherwise what strtol reads. */
  function ContentLength(source: Option<string>): int {
    match source
    case None => -1
    case Some(text) =>
      var parsed := StrToL(text, 10);
      if parsed.end < |text| then 0 else parsed.value
  }

  /** A decimal Content-Length is read as the number it spells. */
  lemma ContentLengthDecimal(n: nat)
    requires n <= LongMax
    ensures ContentLength(Some(Digits(n))) == n
  {
    StrToLDecimal(Digits(n));
  }

  /** Anything after the digits, a trailing space included, makes the
      length 0, and so leaves the response without a sized body. */
  lemma ContentLengthTrailing(n: nat, junk: char)
    requires n <= LongMax && !('0' <= junk <= '9')
    ensures ContentLength(Some(Digits(n) + [junk])) == 0
  {
    var text := Digits(n) + [junk];
    var parsed := StrToL(text, 10);
    assert SpaceRun(text, 0) == 0;
    assert DigitRun(text, 0, 10) == |Digits(n)| by {
      assert text[|Digits(n)|] == junk;
    }
    assert parsed.end == |Digits(n)|;
  }

  // ---- the framing decision of httpio_get_response_body ----

  /** struct httpio_content: the declared length (-1 when a
      Transfer-Encoding header is present), Content-Type and
      Content-Encoding. */
  datatype Content = Content(length: int, contentType: Option<string>, encoding: Option<string>)

  function ContentOf(list: Option<seq<Header>>): Content {
    var transferEncoding := Lookup(list, "transfer-encoding");
    Content(if transferEncoding.Some? then -1 else ContentLength(Lookup(list, "content-length")),
            Lookup(list, "content-type"), Lookup(list, "content-encoding"))
  }

  datatype Framing = Sized(length: nat) | Chunked | Unframed

  /** A positive length reads that many bytes; otherwise the body is
      chunked when Transfer-Encoding is "chunked", ignoring case; otherwise
      there is no body. */
  function FramingOf(list: Option<seq<Header>>): Framing {
    var length := ContentOf(list).length;
    var transferEncoding := Lookup(list, "transfer-encoding");
    if length > 0 then Sized(length)
    else if transferEncoding.Some? && CaseCmp(transferEncoding.value, "chunked") == 0 then Chunked
    else Unframed
  }

  /** Any Transfer-Encoding header overrides Content-Length, and only a
      Transfer-Encoding of "chunked", in any case, selects the chunked
      decoder. */
  lemma TransferEncodingWins(list: Option<seq<Header>>)
    ensures Lookup(list, "transfer-encoding").Some? ==> !FramingOf(list).Sized?
    ensures FramingOf(list) == Chunked <==>
      Lookup(list, "transfer-encoding").Some? && CaseEq(Lookup(list, "transfer-encoding").value, "chunked")
  {
  }

  /** Without Transfer-Encoding the body is sized exactly when the
      Content-Length value is a positive number with nothing after it. */
  lemma SizedByContentLength(list: Option<seq<Header>>, n: nat)
    requires Lookup(list, "transfer-encoding").None?
    ensures FramingOf(list) == Sized(n) <==> n > 0 && ContentLength(Lookup(list, "content-length")) == n
    ensures FramingOf(list) != Chunked
  {
  }

  // ---- httpio_response_read_content_length ----

  /** The largest `int`: httpio_read takes its size as an `int`. */
  const IntMax: nat := 0x7FFF_FFFF

  /** The size the content-length loop asks httpio_read for, as written:
      the `ssize_t` remainder passed to an `int` parameter. */
  function RequestAsWritten(remaining: nat): int {
    Int32(remaining)
  }

  /** A remainder of 2^32 bytes reaches httpio_read as 0, which returns 0
      without reading: the remainder never shrinks and the loop does not
      end. */
  lemma TruncatedRequestStalls(p: Peer, handler: bool)
    requires p.Valid()
    ensures RequestAsWritten(0x1_0000_0000) == 0
    ensures ReadStep(p, 0, handler) == Received(0, [], p)
  {
  }

  /** The size requested instead: the remainder, capped at the largest
      `int`. */
  function Request(remaining: nat): (r: nat)
    ensures remaining > 0 ==> 0 < r <= remaining
    ensures r <= IntMax && (remaining <= IntMax ==> r == RequestAsWritten(remaining))
  {
    Min(remaining, IntMax)
  }

  /** A read loop that wants `pending` more bytes, asking for at most
      `cap` at a time: false after a failed read, true once nothing is
      pending. The bytes it gathers are the input the cursor moved over. */
  function Gather(p: Peer, handler: bool, cap: nat, pending: nat): (r: Yield<bool>)
    requires p.Valid() && cap > 0
    ensures r.peer.Valid() && r.peer.input == p.input && r.peer.calls == p.calls && r.peer.sent == p.sent
    ensures p.cursor <= r.peer.cursor <= p.cursor + pending
    ensures r.value <==> r.peer.cursor == p.cursor + pending
    decreases pending, 1
  {
    if pending == 0 then Yield(true, p)
    else GatherFrom(ReadStep(p, Min(pending, cap), handler), handler, cap, pending)
  }

  /** The same loop once a read of at most `pending` bytes has returned
      `step`: a failure ends it, anything else leaves less pending. */
  function GatherFrom(step: Received, handler: bool, cap: nat, pending: nat): (r: Yield<bool>)
    requires step.peer.Valid() && cap > 0 && step.result != 0 && step.result <= pending
    decreases pending, 0
  {
    if step.result < 0 then Yield(false, step.peer)
    else Gather(step.peer, handler, cap, pending - step.result)
  }

  /** One turn of the gathering loop: the read, then either the failure or
      the rest of the loop. */
  lemma GatherOnce(p: Peer, handler: bool, cap: nat, pending: nat)
    requires p.Valid() && cap > 0 && pending > 0
    ensures var step := ReadStep(p, Min(pending, cap), handler);
      step.result < 0 ==> Gather(p, handler, cap, pending) == Yield(false, step.peer)
    ensures var step := ReadStep(p, Min(pending, cap), handler);
      step.result > 0 ==> Gather(p, handler, cap, pending) == Gather(step.peer, handler, cap, pending - step.result)
  {
  }

  /** One read of the loop told by what it returned and the peer after it. */
  lemma GatherStep(p: Peer, handler: bool, cap: nat, pending: nat, result: int, q: Peer, goal: Yield<bool>)
    requires p.Valid() && cap > 0 && pending > 0 && Gather(p, handler, cap, pending) == goal
    requires ReadStep(p, Min(pending, cap), handler).result == result
    requires ReadStep(p, Min(pending, cap), handler).peer == q
    ensures result < 0 ==> Yield(false, q) == goal
    ensures result >= 0 ==> 0 < result <= pending && Gather(q, handler, cap, pending - result) == goal
  {
    GatherOnce(p, handler, cap, pending);
  }

  /** One turn of the gathering loop on a peer that serves reads: the read
      moves some bytes, and the rest of the loop starts from a peer that
      still serves reads and still has the bytes. */
  lemma GatherAdvance(p: Peer, handler: bool, cap: nat, pending: nat, least: nat) returns (q: Peer, rest: nat)
    requires Serves(p, least) && cap > 0 && 0 < pending <= |p.input| - p.cursor
    ensures Serves(q, least) && rest < pending && rest <= |q.input| - q.cursor
    ensures Gather(p, handler, cap, pending) == Gather(q, handler, cap, rest)
  {
    var step := ReadStep(p, Min(pending, cap), handler);
    ServedMove(p, Min(pending, cap), handler, least);
    GatherOnce(p, handler, cap, pending);
    q, rest := step.peer, pending - step.result;
  }

  /** A peer that serves reads and has the bytes delivers all `pending` of
      them, whatever each transfer moves, and still serves reads after. */
  lemma {:induction false} GatherServed(p: Peer, handler: bool, cap: nat, pending: nat, least: nat)
    requires Serves(p, least) && cap > 0 && pending <= |p.input| - p.cursor
    ensures var r := Gather(p, handler, cap, pending); r.value && Serves(r.peer, least)
    decreases pending
  {
    if pending > 0 {
      var q, rest := GatherAdvance(p, handler, cap, pending, least);
      GatherServed(q, handler, cap, rest, least);
    }
  }

  /** The read loop of httpio_response_read_content_length with the capped
      request: it succeeds exactly when the next `length` input bytes were
      consumed, and then returns them, however the reads were split. */
  method ReadExactly(link: Link, length: nat) returns (data: Option<seq<byte>>)
    requires link.peer.Valid()
    modifies link`peer
    ensures Yield(data.Some?, link.peer) == Gather(old(link.peer), link.errorHandler, IntMax, length)
    ensures data.Some? ==> data.value == link.peer.input[old(link.peer.cursor)..link.peer.cursor]
  {
    ghost var start := link.peer.cursor;
    ghost var goal := Gather(link.peer, link.errorHandler, IntMax, length);
    var received: seq<byte> := [];
    var remaining: nat := length;
    while remaining > 0
      invariant link.errorHandler == old(link.errorHandler)
      invariant link.peer.Valid() && link.peer.input == old(link.peer.input)
      invariant start <= link.peer.cursor && received == link.peer.input[start..link.peer.cursor]
      invariant Gather(link.peer, link.errorHandler, IntMax, remaining) == goal
      decreases remaining
    {
      ghost var at := link.peer;
      var result, bytes := link.Read(Request(remaining));
      GatherStep(at, link.errorHandler, IntMax, remaining, result, link.peer, goal);
      if result < 0 {
        return None;
      }
      Grown(link.peer.input, start, at.cursor, link.peer.cursor, received, bytes);
      received := received + bytes;
      remaining := remaining - result;
    }
    data := Some(received);
  }

  // ---- the chunk-size line ----

  const Semicolon: byte := 0x3B

  /** At most this many characters of a size line are kept. */
  const SizeDigitsMax: nat := 15

  /** The state of the size-line reader: whether a ';' has been seen, and
      the characters kept so far. */
  datatype Scan = Scan(eon: bool, kept: seq<byte>)

  /** One byte through the reader: a ';' ends the number, and a byte is kept
      while fewer than 15 are kept, the number has not ended and it is not
      a CR. */
  function ScanStep(s: Scan, b: byte): Scan {
    var eon := s.eon || b == Semicolon;
    Scan(eon, if |s.kept| < SizeDigitsMax && !eon && b != CR then s.kept + [b] else s.kept)
  }

  /** The scanner run over bytes from state `s`, front to back. */
  function ScanFrom(s: Scan, bytes: seq<byte>): (r: Scan)
    ensures |s.kept| <= SizeDigitsMax ==> |r.kept| <= SizeDigitsMax
    decreases |bytes|
  {
    if bytes == [] then s else ScanFrom(ScanStep(s, bytes[0]), bytes[1..])
  }

  /** The scanner state after a whole line. */
  function ScanOf(line: seq<byte>): (s: Scan)
    ensures |s.kept| <= SizeDigitsMax
  {
    ScanFrom(Scan(false, []), line)
  }

  function SizeDigits(line: seq<byte>): seq<byte> {
    ScanOf(line).kept
  }

  /** One more byte at the end is one more scanner step. */
  lemma ScanExtended(line: seq<byte>, b: byte)
    ensures ScanOf(line + [b]) == ScanStep(ScanOf(line), b)
  {
    ScanFromSnoc(Scan(false, []), line, b);
  }

  lemma {:induction false} ScanFromSnoc(s: Scan, line: seq<byte>, b: byte)
    ensures ScanFrom(s, line + [b]) == ScanStep(ScanFrom(s, line), b)
    decreases |line|
  {
    if line == [] {
      assert line + [b] == [b] && [b][1..] == [];
    } else {
      assert (line + [b])[0] == line[0] && (line + [b])[1..] == line[1..] + [b];
      ScanFromSnoc(ScanStep(s, line[0]), line[1..], b);
    }
  }

  /** The bytes before the first `stop`, or all of them. */
  function Before(bytes: seq<byte>, stop: byte): (r: seq<byte>)
    ensures |r| <= |bytes| && r == bytes[..|r|] && stop !in r
    ensures |r| < |bytes| ==> bytes[|r|] == stop
  {
    if bytes == [] || bytes[0] == stop then [] else [bytes[0]] + Before(bytes[1..], stop)
  }

  function Take(bytes: seq<byte>, n: nat): seq<byte> {
    if |bytes| <= n then bytes else bytes[..n]
  }

  /** Before is the prefix that holds no `stop` and is followed by one,
      or is everything. */
  lemma {:induction false} BeforeIs(bytes: seq<byte>, stop: byte, n: nat)
    requires n <= |bytes| && stop !in bytes[..n] && (n == |bytes| || bytes[n] == stop)
    ensures Before(bytes, stop) == bytes[..n]
  {
    if n > 0 {
      assert bytes[0] == bytes[..n][0];
      assert bytes[1..][..n - 1] == bytes[1..n];
      assert forall k :: 0 <= k < n - 1 ==> bytes[1..n][k] == bytes[..n][k + 1];
      BeforeIs(bytes[1..], stop, n - 1);
      assert bytes[..n] == [bytes[0]] + bytes[1..][..n - 1];
    }
  }

  lemma {:induction false} BeforeAtLeast(bytes: seq<byte>, stop: byte, n: nat)
    requires n <= |bytes| && stop !in bytes[..n]
    ensures |Before(bytes, stop)| >= n
  {
    if n > 0 {
      assert bytes[0] == bytes[..n][0];
      assert bytes[1..][..n - 1] == bytes[1..n];
      assert forall k :: 0 <= k < n - 1 ==> bytes[1..n][k] == bytes[..n][k + 1];
      BeforeAtLeast(bytes[1..], stop, n - 1);
    }
  }

  lemma BeforeExtended(bytes: seq<byte>, b: byte, stop: byte)
    ensures Before(bytes + [b], stop) == if stop in bytes || b == stop then Before(bytes, stop) else bytes + [b]
  {
    var longer := bytes + [b];
    var r := Before(bytes, stop);
    assert longer[..|bytes|] == bytes;
    if stop in bytes {
      assert |r| < |bytes|;
      assert longer[..|r|] == r && longer[|r|] == stop;
      BeforeIs(longer, stop, |r|);
    } else if b == stop {
      BeforeIs(longer, stop, |bytes|);
      BeforeIs(bytes, stop, |bytes|);
    } else {
      assert longer[..|longer|] == longer;
      BeforeIs(longer, stop, |longer|);
    }
  }

  /** The reader has seen a ';' exactly when the line holds one, and keeps
      the first 15 bytes before the first ';' of a line without CR. */
  lemma {:induction false} SizeDigitsBeforeSemicolon(line: seq<byte>)
    requires CR !in line
    ensures ScanOf(line).eon == (Semicolon in line)
    ensures SizeDigits(line) == Take(Before(line, Semicolon), SizeDigitsMax)
  {
    if line != [] {
      var init := line[..|line| - 1];
      var b := line[|line| - 1];
      assert line == init + [b];
      SizeDigitsBeforeSemicolon(init);
      ScanExtended(init, b);
      ScanKeepsBefore(init, b, ScanOf(init));
    }
  }

  /** One byte other than CR keeps the reader's state equal to the first
      15 bytes before the first ';'. */
  lemma ScanKeepsBefore(init: seq<byte>, b: byte, s: Scan)
    requires b != CR && s.eon == (Semicolon in init)
    requires s.kept == Take(Before(init, Semicolon), SizeDigitsMax)
    ensures ScanStep(s, b).eon == (Semicolon in init + [b])
    ensures ScanStep(s, b).kept == Take(Before(init + [b], Semicolon), SizeDigitsMax)
  {
    BeforeExtended(init, b, Semicolon);
    if Semicolon !in init && b != Semicolon {
      assert init[..|init|] == init;
      BeforeIs(init, Semicolon, |init|);
      if |init| >= SizeDigitsMax {
        assert (init + [b])[..SizeDigitsMax] == init[..SizeDigitsMax];
      }
    }
  }

  /** strtol base 16 of the stored characters read as a C string: SIZE_MAX
      when anything follows the digits, otherwise the value cast to size_t. */
  function SizeValue(digits: seq<byte>): nat {
    var text := Text(CString(digits));
    var parsed := StrToL(text, 16);
    if parsed.end < |text| then SizeMax else SizeT(parsed.value)
  }

  function ChunkSize(line: seq<byte>): nat {
    SizeValue(SizeDigits(line))
  }

  lemma SizeDigitsOfExtended(size: seq<byte>, extension: seq<byte>)
    requires Semicolon !in size && CR !in size && CR !in extension
    ensures SizeDigits(size + [Semicolon] + extension) == SizeDigits(size)
  {
    var line := size + [Semicolon] + extension;
    SizeDigitsBeforeSemicolon(line);
    SizeDigitsBeforeSemicolon(size);
    assert line[..|size|] == size && line[|size|] == Semicolon;
    BeforeIs(line, Semicolon, |size|);
    assert size[..|size|] == size;
    BeforeIs(size, Semicolon, |size|);
  }

  /** A chunk extension after ';' does not change the size. */
  lemma ExtensionIgnored(size: seq<byte>, extension: seq<byte>)
    requires Semicolon !in size && CR !in size && CR !in extension
    ensures ChunkSize(size + [Semicolon] + extension) == ChunkSize(size)
  {
    SizeDigitsOfExtended(size, extension);
  }

  lemma SizeDigitsOfLong(line: seq<byte>)
    requires |line| >= SizeDigitsMax && Semicolon !in line[..SizeDigitsMax] && CR !in line
    ensures SizeDigits(line) == SizeDigits(line[..SizeDigitsMax])
  {
    var head := line[..SizeDigitsMax];
    SizeDigitsBeforeSemicolon(line);
    SizeDigitsBeforeSemicolon(head);
    assert head[..SizeDigitsMax] == head;
    BeforeIs(head, Semicolon, SizeDigitsMax);
    var cut := Before(line, Semicolon);
    BeforeAtLeast(line, Semicolon, SizeDigitsMax);
    assert cut[..SizeDigitsMax] == head;
  }

  /** Characters past the fifteenth are dropped. */
  lemma LongSizeCut(line: seq<byte>)
    requires |line| >= SizeDigitsMax && Semicolon !in line[..SizeDigitsMax] && CR !in line
    ensures ChunkSize(line) == ChunkSize(line[..SizeDigitsMax])
  {
    SizeDigitsOfLong(line);
  }

  /** An empty size line reads as the last chunk. */
  lemma EmptySizeLine()
    ensures ChunkSize([]) == 0
  {
    assert Text(CString([])) == "";
  }

  function Pow16(n: nat): nat {
    if n == 0 then 1 else 16 * Pow16(n - 1)
  }

  lemma {:induction false} HexValueBound(s: string)
    requires forall i :: 0 <= i < |s| ==> IsDigitIn(s[i], 16)
    ensures DigitsValue(s, 16) < Pow16(|s|)
  {
    if s != [] {
      HexValueBound(s[..|s| - 1]);
    }
  }

  /** strtol base 16 reads a plain run of at most 15 hexadecimal digits
      completely. */
  lemma HexStrToL(s: string)
    requires 0 < |s| <= SizeDigitsMax && forall i :: 0 <= i < |s| ==> IsDigitIn(s[i], 16)
    ensures StrToL(s, 16) == Parsed(DigitsValue(s, 16), |s|)
  {
    HexValueSmall(s);
    HexRuns(s);
    StrToLPlain(s, 16);
  }

  /** A string of hex digits has no leading space, sign or "0x" prefix, and
      its digit run is the whole string. */
  lemma HexRuns(s: string)
    requires 0 < |s| && forall i :: 0 <= i < |s| ==> IsDigitIn(s[i], 16)
    ensures SpaceRun(s, 0) == 0 && s[0] != '-' && s[0] != '+'
    ensures 1 < |s| ==> s[1] != 'x' && s[1] != 'X'
    ensures DigitRun(s, 0, 16) == |s|
  {
    assert !IsSpace(s[0]);
    assert 1 < |s| ==> IsDigitIn(s[1], 16);
  }

  lemma HexValueSmall(s: string)
    requires |s| <= SizeDigitsMax && forall i :: 0 <= i < |s| ==> IsDigitIn(s[i], 16)
    ensures DigitsValue(s, 16) < 0x1000_0000_0000_0000
  {
    HexValueBound(s);
    Pow16Grows(|s|, SizeDigitsMax);
    Pow16Fifteen();
  }

  lemma Pow16Fifteen()
    ensures Pow16(15) == 0x1000_0000_0000_0000
  {
    assert Pow16(1) == 0x10;
    assert Pow16(2) == 0x100;
    assert Pow16(3) == 0x1000;
    assert Pow16(4) == 0x10000;
    assert Pow16(5) == 0x100000;
    assert Pow16(6) == 0x1000000;
    assert Pow16(7) == 0x10000000;
    assert Pow16(8) == 0x100000000;
    assert Pow16(9) == 0x1000000000;
    assert Pow16(10) == 0x10000000000;
    assert Pow16(11) == 0x100000000000;
    assert Pow16(12) == 0x1000000000000;
    assert Pow16(13) == 0x10000000000000;
    assert Pow16(14) == 0x100000000000000;
    assert Pow16(15) == 0x1000000000000000;
  }

  /** A line of at most 15 bytes without ';' is stored whole. */
  lemma PlainSizeDigits(line: seq<byte>)
    requires |line| <= SizeDigitsMax && Semicolon !in line && CR !in line
    ensures SizeDigits(line) == line
  {
    SizeDigitsBeforeSemicolon(line);
    assert line[..|line|] == line;
    BeforeIs(line, Semicolon, |line|);
  }

  predicate IsHexLine(line: seq<byte>) {
    forall i :: 0 <= i < |line| ==> IsDigitIn(ToChar(line[i]), 16)
  }

  /** A size line of up to 15 hexadecimal digits is read as the number
      they spell. */
  lemma HexChunkSize(line: seq<byte>)
    requires 0 < |line| <= SizeDigitsMax && IsHexLine(line)
    ensures ChunkSize(line) == DigitsValue(Text(line), 16)
  {
    HexLineBytes(line);
    PlainSizeDigits(line);
    CStringWhole(line);
    var s := Text(line);
    assert forall i :: 0 <= i < |s| ==> IsDigitIn(s[i], 16) by {
      forall i | 0 <= i < |s| ensures IsDigitIn(s[i], 16) {
        assert s[i] == ToChar(line[i]);
      }
    }
    HexStrToL(s);
  }

  /** Hexadecimal digits are neither ';', NUL nor CR. */
  lemma HexLineBytes(line: seq<byte>)
    requires IsHexLine(line)
    ensures Semicolon !in line && 0 !in line && CR !in line
  {
    forall i | 0 <= i < |line| ensures line[i] != Semicolon && line[i] != 0 && line[i] != CR {
      assert IsDigitIn(ToChar(line[i]), 16);
    }
  }

  lemma {:induction false} Pow16Grows(m: nat, n: nat)
    requires m <= n
    ensures Pow16(m) <= Pow16(n)
    decreases n
  {
    if m < n {
      Pow16Grows(m, n - 1);
    }
  }

  /** What the size-line reader consumed when it returns a size: a line
      without CR, then CR LF. */
  /** No CR before the last two bytes. */
  predicate NoEarlyCR(consumed: seq<byte>) {
    forall k :: 0 <= k < |consumed| - 2 ==> consumed[k] != CR
  }

  predicate SizeLine(consumed: seq<byte>) {
    |consumed| >= 2 && consumed[|consumed| - 2] == CR && consumed[|consumed| - 1] == LF
    && CR !in consumed[..|consumed| - 2]
  }

  /** The chunk length told by what the size-line reader consumed: the size
      its line gives when it is a size line, SIZE_MAX otherwise. */
  predicate SizedBy(consumed: seq<byte>, length: nat) {
    && (SizeLine(consumed) ==> length == ChunkSize(consumed[..|consumed| - 2]))
    && (!SizeLine(consumed) ==> length == SizeMax)
  }

  /** Where the size-line reader is: scanning the line, or after its CR
      with the characters kept from it. */
  datatype SizeState = Scanning(scan: Scan) | AfterCR(kept: seq<byte>)

  /** One turn of the size-line reader after its read: the first CR hands
      over to the LF check, any other byte goes through the scanner; after
      the CR, an LF finishes with the kept characters and anything else
      stops the reader. */
  function SizeTurn(state: SizeState, b: byte): Turn<SizeState, seq<byte>> {
    match state
    case Scanning(s) => if b == CR then Continue(AfterCR(s.kept)) else Continue(Scanning(ScanStep(s, b)))
    case AfterCR(kept) => if b == LF then Finish(kept) else Stop
  }

  /** The size-line loop on a peer, from a scanner state: a failed read
      gives None, and the first CR hands over to the LF check. */
  function SizeRead(p: Peer, handler: bool, s: Scan): (r: Yield<Option<seq<byte>>>)
    requires p.Valid()
  {
    Bytewise(p, handler, Scanning(s), SizeTurn)
  }

  /** The byte after the CR: the kept characters when it is LF, None when
      the read fails or it is anything else. */
  function EndRead(p: Peer, handler: bool, kept: seq<byte>): (r: Yield<Option<seq<byte>>>)
    requires p.Valid()
  {
    Bytewise(p, handler, AfterCR(kept), SizeTurn)
  }

  /** One turn of the size-line loop on a peer. */
  lemma SizeOnce(p: Peer, handler: bool, s: Scan)
    requires p.Valid()
    ensures var read := ReadOne(p, handler);
      read.value.None? ==> SizeRead(p, handler, s) == Yield(None, read.peer)
    ensures var read := ReadOne(p, handler);
      read.value == Some(CR) ==> SizeRead(p, handler, s) == EndRead(read.peer, handler, s.kept)
    ensures var read := ReadOne(p, handler);
      read.value.Some? && read.value.value != CR ==>
        SizeRead(p, handler, s) == SizeRead(read.peer, handler, ScanStep(s, read.value.value))
  {
  }

  /** The LF check on a peer. */
  lemma EndOnce(p: Peer, handler: bool, kept: seq<byte>)
    requires p.Valid()
    ensures var read := ReadOne(p, handler);
      EndRead(p, handler, kept) == Yield(if read.value == Some(LF) then Some(kept) else None, read.peer)
  {
  }

  /** The chunk length read from a peer: SIZE_MAX when the size line fails. */
  function ChunkRead(p: Peer, handler: bool): (r: Yield<nat>)
    requires p.Valid()
    ensures r.peer.Valid() && r.peer.input == p.input && r.peer.calls == p.calls && r.peer.sent == p.sent
    ensures p.cursor <= r.peer.cursor
  {
    var digits := SizeRead(p, handler, Scan(false, []));
    Yield(if digits.value.None? then SizeMax else SizeValue(digits.value.value), digits.peer)
  }

  /** A peer that serves every read and sends a line without CR and then
      CR LF gives the characters the reader keeps from the line, and the
      reader stops right after the LF. */
  lemma SizeServed(p: Peer, handler: bool, line: seq<byte>, least: nat)
    requires CR !in line && Serves(p, least) && line + [CR, LF] <= p.Unread()
    ensures var r := SizeRead(p, handler, Scan(false, []));
      && r.value == Some(SizeDigits(line)) && r.peer.cursor == p.cursor + |line| + 2
      && Serves(r.peer, least)
  {
    var u := p.input[p.cursor..];
    var rest := u[|line| + 2..];
    assert u == line + [CR, LF] + rest;
    BytewiseServed(p, handler, Scanning(Scan(false, [])), SizeTurn, least);
    SizeRun(Scan(false, []), line, rest);
  }

  /** Over bytes that hold a line without CR and then CR LF, the reader
      finishes with what the scanner keeps from the line and uses the line
      and the CR LF. */
  lemma {:induction false} SizeRun(s: Scan, line: seq<byte>, rest: seq<byte>)
    requires CR !in line
    ensures Run(line + [CR, LF] + rest, Scanning(s), SizeTurn).turn == Finish(ScanFrom(s, line).kept)
    ensures Run(line + [CR, LF] + rest, Scanning(s), SizeTurn).used == |line| + 2
    decreases |line|
  {
    var bytes := line + [CR, LF] + rest;
    if line == [] {
      assert bytes == [CR] + ([LF] + rest);
      SizeAtCR(s, [LF] + rest);
    } else {
      assert bytes == [line[0]] + (line[1..] + [CR, LF] + rest);
      assert line[0] in line;
      SizeRun(ScanStep(s, line[0]), line[1..], rest);
    }
  }

  /** What the size-line loop consumed decides its outcome: no CR before
      its last two bytes, a result exactly when it is a size line, and then
      the characters the scanner keeps from the line before the CR. */
  lemma SizeConsumed(p: Peer, handler: bool)
    requires p.Valid()
    ensures var r := SizeRead(p, handler, Scan(false, []));
      var consumed := p.input[p.cursor..r.peer.cursor];
      && NoEarlyCR(consumed)
      && (r.value.Some? <==> SizeLine(consumed))
      && (r.value.Some? ==> r.value.value == SizeDigits(consumed[..|consumed| - 2]))
  {
    var r := SizeRead(p, handler, Scan(false, []));
    var consumed := p.input[p.cursor..r.peer.cursor];
    BytewiseRan(p, handler, Scanning(Scan(false, [])), SizeTurn);
    SizeRunFrom(Scan(false, []), consumed);
  }

  /** The run of the size-line reader from a scanner state: when it uses
      all the bytes, there is no CR before their last two, and it finishes
      exactly when they are a size line, with what the scanner keeps from
      the bytes before the CR. */
  lemma {:induction false} SizeRunFrom(s: Scan, bytes: seq<byte>)
    ensures var ran := Run(bytes, Scanning(s), SizeTurn);
      ran.used == |bytes| ==> NoEarlyCR(bytes)
    ensures var ran := Run(bytes, Scanning(s), SizeTurn);
      ran.used == |bytes| ==> (ran.turn.Finish? <==> SizeLine(bytes))
    ensures var ran := Run(bytes, Scanning(s), SizeTurn);
      ran.used == |bytes| && ran.turn.Finish? ==> ran.turn.value == ScanFrom(s, bytes[..|bytes| - 2]).kept
    decreases |bytes|
  {
    if bytes == [] {
    } else if bytes[0] != CR {
      var b, rest := bytes[0], bytes[1..];
      SizeRunFrom(ScanStep(s, b), rest);
      SizeLineAfter(s, b, rest, bytes);
    } else {
      assert bytes == [CR] + bytes[1..];
      SizeAtCR(s, bytes[1..]);
      if |bytes| == 2 {
        assert bytes[..0] == [];
      }
    }
  }

  /** A byte other than CR in front of some bytes: no early CR and a size
      line on both or neither, and the scanner keeps the same from the line. */
  lemma SizeLineAfter(s: Scan, b: byte, rest: seq<byte>, bytes: seq<byte>)
    requires b != CR && bytes == [b] + rest
    ensures NoEarlyCR(rest) ==> NoEarlyCR(bytes)
    ensures SizeLine(bytes) <==> SizeLine(rest)
    ensures SizeLine(rest) ==> ScanFrom(s, bytes[..|bytes| - 2]) == ScanFrom(ScanStep(s, b), rest[..|rest| - 2])
  {
    if NoEarlyCR(rest) {
      forall k | 0 <= k < |bytes| - 2
        ensures bytes[k] != CR
      {
        if k > 0 {
          assert bytes[k] == rest[k - 1];
        }
      }
    }
    if |rest| >= 2 {
      assert bytes[..|bytes| - 2] == [b] + rest[..|rest| - 2];
      assert ([b] + rest[..|rest| - 2])[1..] == rest[..|rest| - 2];
    }
  }

  /** At the CR the run uses at most one more byte, and finishes with the
      kept characters exactly when that byte is LF. */
  lemma SizeAtCR(s: Scan, rest: seq<byte>)
    ensures var ran := Run([CR] + rest, Scanning(s), SizeTurn);
      ran.used == Min(|rest|, 1) + 1
    ensures var ran := Run([CR] + rest, Scanning(s), SizeTurn);
      (ran.turn.Finish? <==> |rest| > 0 && rest[0] == LF)
    ensures var ran := Run([CR] + rest, Scanning(s), SizeTurn);
      ran.turn.Finish? ==> ran.turn.value == s.kept
  {
    var bytes := [CR] + rest;
    assert bytes[0] == CR && bytes[1..] == rest;
    var after := Run(rest, AfterCR(s.kept), SizeTurn);
    assert Run(bytes, Scanning(s), SizeTurn) == Ran(after.turn, after.used + 1);
    AfterCRRun(s.kept, rest);
  }

  /** After the CR the run uses one byte, if there is one, and finishes
      with the kept characters exactly when it is LF. */
  lemma AfterCRRun(kept: seq<byte>, rest: seq<byte>)
    ensures Run(rest, AfterCR(kept), SizeTurn).used == Min(|rest|, 1)
    ensures Run(rest, AfterCR(kept), SizeTurn).turn
      == if rest == [] then Continue(AfterCR(kept)) else if rest[0] == LF then Finish(kept) else Stop
  {
  }

  /** The chunk-length reader: the size line is read, and the size is
      strtol base 16 of the kept characters cast to size_t. A failed read, a
      CR without LF, or junk after the digits gives SIZE_MAX. */
  method ChunkLength(link: Link) returns (length: nat)
    requires link.peer.Valid()
    modifies link`peer
    ensures Yield(length, link.peer) == ChunkRead(old(link.peer), link.errorHandler)
    ensures link.peer.Valid() && link.peer.input == old(link.peer.input)
    ensures link.peer.calls == old(link.peer.calls) && link.peer.sent == old(link.peer.sent)
    ensures old(link.peer.cursor) <= link.peer.cursor
    ensures var consumed := link.peer.input[old(link.peer.cursor)..link.peer.cursor];
      NoEarlyCR(consumed) && SizedBy(consumed, length)
  {
    var digits := ScanSizeLine(link);
    if digits.None? {
      return SizeMax;
    }
    return SizeValue(digits.value);
  }

  /** The reading half of the chunk-length reader: bytes are read one at a
      time up to the first CR, which must be followed by LF; the characters
      kept from the line before the CR are returned, or None when a read
      fails or the CR is not followed by LF. */
  method ScanSizeLine(link: Link) returns (digits: Option<seq<byte>>)
    requires link.peer.Valid()
    modifies link`peer
    ensures Yield(digits, link.peer) == SizeRead(old(link.peer), link.errorHandler, Scan(false, []))
    ensures link.peer.Valid() && link.peer.input == old(link.peer.input)
    ensures link.peer.calls == old(link.peer.calls) && link.peer.sent == old(link.peer.sent)
    ensures old(link.peer.cursor) <= link.peer.cursor
    ensures var consumed := link.peer.input[old(link.peer.cursor)..link.peer.cursor];
      && NoEarlyCR(consumed)
      && (digits.Some? <==> SizeLine(consumed))
      && (digits.Some? ==> digits.value == SizeDigits(consumed[..|consumed| - 2]))
  {
    var eon := false;
    var kept: seq<byte> := [];
    SizeConsumed(link.peer, link.errorHandler);
    while true
      invariant link.errorHandler == old(link.errorHandler)
      invariant link.peer.Valid() && link.peer.input == old(link.peer.input)
      invariant SizeRead(link.peer, link.errorHandler, Scan(eon, kept)) == SizeRead(old(link.peer), link.errorHandler, Scan(false, []))
      decreases |link.peer.input| - link.peer.cursor
    {
      SizeOnce(link.peer, link.errorHandler, Scan(eon, kept));
      var value := ReadByte(link);
      if value.None? {
        return None;
      }
      if value.value == CR {
        digits := SizeLineEnd(link, kept);
        return;
      }
      if !eon && value.value == Semicolon {
        eon := true;
      }
      if |kept| < SizeDigitsMax && !eon {
        kept := kept + [value.value];
      }
    }
  }

  /** The size reader after a CR: the next byte must be LF. */
  method SizeLineEnd(link: Link, kept: seq<byte>) returns (digits: Option<seq<byte>>)
    requires link.peer.Valid()
    modifies link`peer
    ensures Yield(digits, link.peer) == EndRead(old(link.peer), link.errorHandler, kept)
  {
    EndOnce(link.peer, link.errorHandler, kept);
    var next := ReadByte(link);
    if next.None? || next.value != LF {
      return None;
    }
    return Some(kept);
  }

  /** What the size reader has consumed when it stops: a line without CR
      and at most two more bytes; it is a size line exactly when those are
      CR LF. */
  lemma Consumed(line: seq<byte>, tail: seq<byte>)
    requires CR !in line && |tail| <= 2
    ensures NoEarlyCR(line + tail)
    ensures SizeLine(line + tail) <==> tail == [CR, LF]
    ensures tail == [CR, LF] ==> (line + tail)[..|line + tail| - 2] == line
  {
    var consumed := line + tail;
    forall k | 0 <= k < |consumed| - 2
      ensures consumed[k] != CR
    {
      assert consumed[k] == line[k];
    }
    if tail == [CR, LF] {
      assert consumed[..|consumed| - 2] == line;
    }
  }

  // ---- httpio_response_read_chunked_transfer_encoding ----

  /** The data of one chunk and the two-byte read after it: reads of at
      most DefaultSize bytes until `size` bytes are in, None after a failed
      read; then two bytes are read whatever happens to them. */
  function DataRead(p: Peer, handler: bool, size: nat): (r: Yield<Option<seq<byte>>>)
    requires p.Valid()
    ensures r.peer.Valid() && r.peer.input == p.input && r.peer.calls == p.calls && r.peer.sent == p.sent
    ensures p.cursor <= r.peer.cursor
    ensures r.value.Some? ==> p.cursor + size <= |p.input| && r.value.value == p.input[p.cursor..p.cursor + size]
    ensures r.value.Some? ==> p.cursor + size <= r.peer.cursor <= p.cursor + size + 2
  {
    var data := Gather(p, handler, DefaultSize, size);
    if !data.value then Yield(None, data.peer)
    else Yield(Some(p.input[p.cursor..data.peer.cursor]), ReadStep(data.peer, 2, handler).peer)
  }

  /** One turn of the chunked loop on a peer: the chunk length, then the
      data; the data, or None after a failed data read. */
  function RoundRead(p: Peer, handler: bool): (r: Yield<Option<seq<byte>>>)
    requires p.Valid()
    ensures r.peer.Valid() && r.peer.input == p.input && r.peer.calls == p.calls && r.peer.sent == p.sent
    ensures p.cursor <= r.peer.cursor
    ensures r.value.Some? ==> p.cursor + |r.value.value| <= r.peer.cursor
  {
    var length := ChunkRead(p, handler);
    DataRead(length.peer, handler, length.value)
  }

  /** The chunked loop on a peer: rounds until one carries no data; the
      data of all rounds, or None once a data read fails. */
  function ChunksRead(p: Peer, handler: bool): (r: Yield<Option<seq<byte>>>)
    requires p.Valid()
    ensures r.peer.Valid() && r.peer.input == p.input && r.peer.calls == p.calls && r.peer.sent == p.sent
    ensures p.cursor <= r.peer.cursor
    decreases |p.input| - p.cursor, 1
  {
    ChunksAfter(p, RoundRead(p, handler), handler)
  }

  /** The chunked loop after its first round gave `round`. */
  function ChunksAfter(p: Peer, round: Yield<Option<seq<byte>>>, handler: bool): (r: Yield<Option<seq<byte>>>)
    requires p.Valid() && round == RoundRead(p, handler)
    ensures r.peer.Valid() && r.peer.input == p.input && r.peer.calls == p.calls && r.peer.sent == p.sent
    ensures p.cursor <= r.peer.cursor
    decreases |p.input| - p.cursor, 0
  {
    if round.value.None? then Yield(None, round.peer)
    else if round.value.value == [] then Yield(Some([]), round.peer)
    else
      Prefixed(round.value.value, ChunksRead(round.peer, handler))
  }

  /** `prefix` in front of the data a read gave; a failure stays a failure. */
  function Prefixed(prefix: seq<byte>, y: Yield<Option<seq<byte>>>): Yield<Option<seq<byte>>> {
    Yield(if y.value.None? then None else Some(prefix + y.value.value), y.peer)
  }

  lemma PrefixedTwice(a: seq<byte>, b: seq<byte>, y: Yield<Option<seq<byte>>>)
    ensures Prefixed(a, Prefixed(b, y)) == Prefixed(a + b, y)
  {
    if y.value.Some? {
      assert a + (b + y.value.value) == (a + b) + y.value.value;
    }
  }

  lemma PrefixedNothing(y: Yield<Option<seq<byte>>>)
    ensures Prefixed([], y) == y
  {
    if y.value.Some? {
      assert [] + y.value.value == y.value.value;
    }
  }

  /** One turn of the chunked loop on a peer: a failed round ends it with
      None, a round without data ends it with nothing more, and a round with
      data is followed by the rest of the loop. */
  lemma ChunksOnce(p: Peer, handler: bool)
    requires p.Valid()
    ensures var round := RoundRead(p, handler);
      round.value.None? ==> ChunksRead(p, handler) == Yield(None, round.peer)
    ensures var round := RoundRead(p, handler);
      round.value == Some([]) ==> ChunksRead(p, handler) == Yield(Some([]), round.peer)
    ensures var round := RoundRead(p, handler);
      round.value.Some? && round.value.value != [] ==>
        ChunksRead(p, handler) == Prefixed(round.value.value, ChunksRead(round.peer, handler))
  {
  }


  /** One turn of the chunked loop: the size line, the chunk data, and what
      the two-byte read after the data consumed. */
  datatype Round = Round(line: seq<byte>, payload: seq<byte>, trailer: seq<byte>)

  function RoundBytes(r: Round): seq<byte> {
    r.line + [CR, LF] + r.payload + r.trailer
  }

  function Flatten(rounds: seq<Round>): seq<byte> {
    if rounds == [] then [] else Flatten(rounds[..|rounds| - 1]) + RoundBytes(rounds[|rounds| - 1])
  }

  function Payloads(rounds: seq<Round>): seq<byte> {
    if rounds == [] then [] else Payloads(rounds[..|rounds| - 1]) + rounds[|rounds| - 1].payload
  }

  /** A size line holds no CR and at most two bytes follow the data. */
  predicate RoundOk(r: Round) {
    CR !in r.line && |r.trailer| <= 2
  }

  /** Every round's data is as long as its size line says. */
  predicate Measured(rounds: seq<Round>) {
    rounds == [] ||
    (Measured(rounds[..|rounds| - 1]) && MeasuredRound(rounds[|rounds| - 1]))
  }

  /** A round whose data is as long as its size line says. */
  predicate MeasuredRound(r: Round) {
    ChunkSize(r.line) == |r.payload|
  }

  /** Well-formed rounds that all carried data: the loop goes on after
      each of them. */
  predicate Going(rounds: seq<Round>) {
    rounds == [] ||
    (Going(rounds[..|rounds| - 1]) && RoundOk(rounds[|rounds| - 1]) && rounds[|rounds| - 1].payload != [])
  }

  /** A chunked body: nonempty chunks closed by a chunk of size zero. */
  predicate Framed(rounds: seq<Round>) {
    && |rounds| > 0
    && Going(rounds[..|rounds| - 1])
    && RoundOk(rounds[|rounds| - 1])
    && rounds[|rounds| - 1].payload == []
  }

  lemma {:induction false} GoingAll(rounds: seq<Round>)
    ensures Going(rounds) <==> forall i :: 0 <= i < |rounds| ==> RoundOk(rounds[i]) && rounds[i].payload != []
  {
    if rounds != [] {
      var init := rounds[..|rounds| - 1];
      GoingAll(init);
      assert forall i :: 0 <= i < |init| ==> init[i] == rounds[i];
    }
  }

  /** Framed spelled out: every round is well formed, all but the last
      carry data and the last is empty. */
  lemma FramedAll(rounds: seq<Round>)
    ensures Framed(rounds) <==>
      && |rounds| > 0
      && (forall i :: 0 <= i < |rounds| ==> RoundOk(rounds[i]))
      && (forall i :: 0 <= i < |rounds| - 1 ==> rounds[i].payload != [])
      && rounds[|rounds| - 1].payload == []
  {
    if |rounds| > 0 {
      var init := rounds[..|rounds| - 1];
      GoingAll(init);
      assert forall i :: 0 <= i < |init| ==> init[i] == rounds[i];
    }
  }

  lemma Slices(s: seq<byte>, a: nat, b: nat, c: nat)
    requires a <= b <= c <= |s|
    ensures s[a..c] == s[a..b] + s[b..c]
  {
  }

  /** A size line that gives a size below SIZE_MAX is the line text without
      CR, then CR LF, and the text gives that size. */
  lemma SizeLineSplit(consumed: seq<byte>, size: nat) returns (line: seq<byte>)
    requires SizedBy(consumed, size) && size < SizeMax
    ensures consumed == line + [CR, LF] && CR !in line && ChunkSize(line) == size
  {
    line := consumed[..|consumed| - 2];
    assert consumed == line + consumed[|consumed| - 2..];
  }

  /** One turn of the chunked loop as a round: the size reader consumed
      `consumed`, which gave `size`; `size` bytes of data followed, then at
      most two more bytes. */
  lemma RoundOf(consumed: seq<byte>, size: nat, data: seq<byte>, trailer: seq<byte>) returns (r: Round)
    requires SizedBy(consumed, size) && size < SizeMax && |data| == size && |trailer| <= 2
    ensures RoundBytes(r) == consumed + data + trailer && r.payload == data
    ensures RoundOk(r) && MeasuredRound(r)
  {
    var line := SizeLineSplit(consumed, size);
    r := Round(line, data, trailer);
  }

  lemma RoundIn(input: seq<byte>, lineStart: nat, dataStart: nat, size: nat, end: nat) returns (r: Round)
    requires lineStart <= dataStart && dataStart + size <= end <= dataStart + size + 2 && end <= |input| < SizeMax
    requires SizedBy(input[lineStart..dataStart], size)
    ensures RoundBytes(r) == input[lineStart..end] && r.payload == input[dataStart..dataStart + size]
    ensures RoundOk(r) && MeasuredRound(r)
  {
    r := RoundOf(input[lineStart..dataStart], size, input[dataStart..dataStart + size], input[dataStart + size..end]);
    Thirds(input, lineStart, dataStart, dataStart + size, end);
  }

  /** A stretch of the input cut in three. */
  lemma Thirds(input: seq<byte>, a: nat, b: nat, c: nat, e: nat)
    requires a <= b <= c <= e <= |input|
    ensures input[a..e] == input[a..b] + input[b..c] + input[c..e]
  {
    Slices(input, a, b, e);
    Slices(input, b, c, e);
  }

  /** Every round ends with CR LF after its data. */
  predicate Terminated(rounds: seq<Round>) {
    forall i :: 0 <= i < |rounds| ==> rounds[i].trailer == [CR, LF]
  }

  /** Measured rounds, told from the front. */
  lemma {:induction false} MeasuredFront(rounds: seq<Round>)
    requires |rounds| > 0
    ensures Measured(rounds) <==> MeasuredRound(rounds[0]) && Measured(rounds[1..])
    decreases |rounds|
  {
    if |rounds| == 1 {
      assert rounds[..0] == [] && rounds[1..] == [];
    } else {
      var init := rounds[..|rounds| - 1];
      MeasuredFront(init);
      assert init[0] == rounds[0] && init[1..] == rounds[1..][..|rounds| - 2];
      assert rounds[1..][|rounds| - 2] == rounds[|rounds| - 1];
    }
  }

  /** The bytes of rounds, told from the front. */
  lemma {:induction false} FlattenFront(rounds: seq<Round>)
    requires |rounds| > 0
    ensures Flatten(rounds) == RoundBytes(rounds[0]) + Flatten(rounds[1..])
    decreases |rounds|
  {
    if |rounds| == 1 {
      assert rounds[..0] == [] && rounds[1..] == [];
    } else {
      var init := rounds[..|rounds| - 1];
      FlattenFront(init);
      assert init[0] == rounds[0] && init[1..] == rounds[1..][..|rounds| - 2];
      assert rounds[1..][|rounds| - 2] == rounds[|rounds| - 1];
    }
  }

  /** The data of rounds, told from the front. */
  lemma {:induction false} PayloadsFront(rounds: seq<Round>)
    requires |rounds| > 0
    ensures Payloads(rounds) == rounds[0].payload + Payloads(rounds[1..])
    decreases |rounds|
  {
    if |rounds| == 1 {
      assert rounds[..0] == [] && rounds[1..] == [];
    } else {
      var init := rounds[..|rounds| - 1];
      PayloadsFront(init);
      assert init[0] == rounds[0] && init[1..] == rounds[1..][..|rounds| - 2];
      assert rounds[1..][|rounds| - 2] == rounds[|rounds| - 1];
    }
  }

  /** A peer that serves reads of two bytes and more and sends a round
      whose size line gives the length of its data and which ends with
      CR LF: the round gives that data and the reader stops right after it. */
  lemma RoundServed(p: Peer, handler: bool, r: Round, least: nat)
    requires Serves(p, least) && least >= 2
    requires RoundOk(r) && r.trailer == [CR, LF] && MeasuredRound(r)
    requires RoundBytes(r) <= p.Unread()
    ensures var round := RoundRead(p, handler);
      && round.value == Some(r.payload) && round.peer.cursor == p.cursor + |RoundBytes(r)|
      && Serves(round.peer, least)
  {
    var head, tail := r.line + [CR, LF], r.payload + [CR, LF];
    assert RoundBytes(r) == head + tail;
    var q := LengthServed(p, handler, r.line, |r.payload|, least);
    UnreadAfter(p, q, head, tail);
    DataServed(q, handler, r.payload, least);
  }

  /** The chunk length read from a peer that serves every read and sends a
      size line and CR LF: the size the line gives, right after the LF. */
  lemma LengthServed(p: Peer, handler: bool, line: seq<byte>, size: nat, least: nat) returns (q: Peer)
    requires CR !in line && ChunkSize(line) == size && Serves(p, least) && line + [CR, LF] <= p.Unread()
    ensures ChunkRead(p, handler) == Yield(size, q)
    ensures q.input == p.input && q.cursor == p.cursor + |line| + 2 && Serves(q, least)
  {
    SizeServed(p, handler, line, least);
    q := ChunkRead(p, handler).peer;
  }

  /** The data read of a round from a peer that serves reads of two bytes
      and more and sends the data and then two more bytes: it gives the data
      and the reader stops after the two bytes. */
  lemma DataServed(p: Peer, handler: bool, data: seq<byte>, least: nat)
    requires Serves(p, least) && least >= 2 && data + [CR, LF] <= p.Unread()
    ensures var r := DataRead(p, handler, |data|);
      && r.value == Some(data) && r.peer.cursor == p.cursor + |data| + 2
      && Serves(r.peer, least)
  {
    GatherServed(p, handler, DefaultSize, |data|, least);
    var gathered := Gather(p, handler, DefaultSize, |data|);
    assert p.input[p.cursor..gathered.peer.cursor] == data;
    ServedRead(gathered.peer, 2, handler, least);
  }

  /** A peer that serves reads of two bytes and more and sends a chunked
      body (nonempty chunks closed by an empty one, each size line giving
      the length of its data, each chunk ending with CR LF): the chunked
      loop gives the concatenated data and stops right after the body. */
  lemma {:induction false} ChunksServed(p: Peer, handler: bool, rounds: seq<Round>, least: nat)
    requires Serves(p, least) && least >= 2
    requires Framed(rounds) && Measured(rounds) && Terminated(rounds)
    requires Flatten(rounds) <= p.Unread()
    ensures var r := ChunksRead(p, handler);
      && r.value == Some(Payloads(rounds)) && r.peer.cursor == p.cursor + |Flatten(rounds)|
      && Serves(r.peer, least)
    decreases |rounds|
  {
    var rest := rounds[1..];
    RoundsFront(rounds);
    FlattenFront(rounds);
    PayloadsFront(rounds);
    assert RoundBytes(rounds[0]) <= p.Unread();
    var q := ChunksStep(p, handler, rounds[0], least);
    if |rounds| == 1 {
      assert rest == [];
    } else {
      UnreadAfter(p, q, RoundBytes(rounds[0]), Flatten(rest));
      ChunksServed(q, handler, rest, least);
    }
  }

  /** Whatever the peer sends, a round that gives data took a size line
      without CR and CR LF, data as long as the line says and at most two
      bytes more, when the input is shorter than SIZE_MAX bytes. */
  lemma RoundFramed(p: Peer, handler: bool) returns (r: Round)
    requires p.Valid() && |p.input| < SizeMax
    ensures var round := RoundRead(p, handler);
      round.value.Some? ==>
        && RoundBytes(r) == p.input[p.cursor..round.peer.cursor]
        && RoundOk(r) && MeasuredRound(r) && r.payload == round.value.value
  {
    var q, size, value, end := RoundParts(p, handler);
    if value.Some? {
      r := RoundIn(p.input, p.cursor, q.cursor, size, end.cursor);
    } else {
      r := Round([], [], []);
    }
  }

  /** One round read from a peer, in the positions it passed: the size line
      ends at q and gives `size`, and the data starts there. */
  lemma RoundParts(p: Peer, handler: bool) returns (q: Peer, size: nat, value: Option<seq<byte>>, end: Peer)
    requires p.Valid()
    ensures RoundRead(p, handler) == Yield(value, end)
    ensures end.input == p.input && p.cursor <= q.cursor <= |p.input|
    ensures SizedBy(p.input[p.cursor..q.cursor], size)
    ensures value.Some? ==> q.cursor + size <= end.cursor <= q.cursor + size + 2 && end.cursor <= |p.input|
    ensures value.Some? ==> value.value == p.input[q.cursor..q.cursor + size]
  {
    q, size := ChunkConsumed(p, handler);
    var data := DataRead(q, handler, size);
    value, end := data.value, data.peer;
  }

  /** The chunk length read from a peer, told by what the size-line loop
      consumed: the size its line gives when it is a size line, SIZE_MAX
      otherwise. */
  lemma ChunkConsumed(p: Peer, handler: bool) returns (q: Peer, size: nat)
    requires p.Valid()
    ensures ChunkRead(p, handler) == Yield(size, q)
    ensures q.Valid() && q.input == p.input && p.cursor <= q.cursor
    ensures var consumed := p.input[p.cursor..q.cursor];
      SizedBy(consumed, size)
  {
    SizeConsumed(p, handler);
    var length := ChunkRead(p, handler);
    q, size := length.peer, length.value;
  }

  /** Whatever the peer sends, a chunked loop that gives data took a chunked
      body: nonempty chunks closed by an empty one, each as long as its size
      line says, whose data concatenated is the result. */
  lemma {:induction false} ChunksFramed(p: Peer, handler: bool) returns (rounds: seq<Round>)
    requires p.Valid() && |p.input| < SizeMax
    ensures var chunks := ChunksRead(p, handler);
      chunks.value.Some? ==>
        && Framed(rounds) && Measured(rounds)
        && p.input[p.cursor..chunks.peer.cursor] == Flatten(rounds)
        && chunks.value.value == Payloads(rounds)
    decreases |p.input| - p.cursor
  {
    var round := RoundRead(p, handler);
    var r := RoundFramed(p, handler);
    ChunksOnce(p, handler);
    if round.value.None? {
      rounds := [];
    } else if round.value.value == [] {
      rounds := [r];
      FramedAll(rounds);
      MeasuredFront(rounds);
      FlattenFront(rounds);
      PayloadsFront(rounds);
      assert rounds[1..] == [];
    } else {
      var more := ChunksFramed(round.peer, handler);
      rounds := [r] + more;
      RoundsAdded(r, more);
      if Framed(more) {
        FramedAdded(r, more);
      }
      var chunks := ChunksRead(p, handler);
      if chunks.value.Some? {
        Slices(p.input, p.cursor, round.peer.cursor, chunks.peer.cursor);
      }
    }
  }

  /** A nonempty well-formed round in front of framed rounds. */
  lemma RoundsAdded(r: Round, more: seq<Round>)
    requires RoundOk(r) && r.payload != []
    ensures var rounds := [r] + more;
      && (Measured(more) && MeasuredRound(r) ==> Measured(rounds))
      && Flatten(rounds) == RoundBytes(r) + Flatten(more)
      && Payloads(rounds) == r.payload + Payloads(more)
  {
    var rounds := [r] + more;
    assert rounds[0] == r && rounds[1..] == more;
    FlattenFront(rounds);
    PayloadsFront(rounds);
    MeasuredFront(rounds);
  }

  /** A nonempty well-formed round in front of a chunked body is one. */
  lemma FramedAdded(r: Round, more: seq<Round>)
    requires RoundOk(r) && r.payload != [] && Framed(more)
    ensures Framed([r] + more)
  {
    var rounds := [r] + more;
    FramedAll(more);
    FramedAll(rounds);
    assert forall i :: 0 < i < |rounds| ==> rounds[i] == more[i - 1];
  }

  /** What is left to send once a peer has sent `a` of `a + b`. */
  lemma UnreadAfter(p: Peer, q: Peer, a: seq<byte>, b: seq<byte>)
    requires p.Valid() && q.Valid() && q.input == p.input && q.cursor == p.cursor + |a|
    requires a + b <= p.Unread()
    ensures b <= q.Unread()
  {
    assert q.Unread() == p.Unread()[|a|..];
    assert (a + b)[|a|..] == b;
  }

  /** The first round of framed, measured, terminated rounds, and the rest. */
  lemma RoundsFront(rounds: seq<Round>)
    requires Framed(rounds) && Measured(rounds) && Terminated(rounds)
    ensures RoundOk(rounds[0]) && MeasuredRound(rounds[0]) && rounds[0].trailer == [CR, LF]
    ensures |rounds| == 1 ==> rounds[0].payload == []
    ensures |rounds| > 1 ==>
      rounds[0].payload != [] && Framed(rounds[1..]) && Measured(rounds[1..]) && Terminated(rounds[1..])
  {
    FramedFront(rounds);
    MeasuredFront(rounds);
  }

  /** Framed rounds, told from the front. */
  lemma FramedFront(rounds: seq<Round>)
    requires Framed(rounds)
    ensures RoundOk(rounds[0])
    ensures |rounds| == 1 ==> rounds[0].payload == []
    ensures |rounds| > 1 ==> rounds[0].payload != [] && Framed(rounds[1..])
  {
    FramedAll(rounds);
    if |rounds| > 1 {
      var rest := rounds[1..];
      FramedAll(rest);
      assert forall i :: 0 <= i < |rest| ==> rest[i] == rounds[i + 1];
    }
  }

  /** One turn of the chunked loop over a served round: the loop ends there
      when the round has no data, and goes on with the peer right after the
      round otherwise. */
  lemma ChunksStep(p: Peer, handler: bool, r: Round, least: nat) returns (q: Peer)
    requires Serves(p, least) && least >= 2
    requires RoundOk(r) && r.trailer == [CR, LF] && MeasuredRound(r) && RoundBytes(r) <= p.Unread()
    ensures q.input == p.input && q.cursor == p.cursor + |RoundBytes(r)| && Serves(q, least)
    ensures r.payload == [] ==> ChunksRead(p, handler) == Yield(Some([]), q)
    ensures r.payload != [] ==> ChunksRead(p, handler) == Prefixed(r.payload, ChunksRead(q, handler))
  {
    RoundServed(p, handler, r, least);
    ChunksOnce(p, handler);
    q := RoundRead(p, handler).peer;
  }

  /** Where the chunked loop stands: after its last round, with the data
      kept so far; or before a round, with the data kept so far in front of
      what the rest of the loop gives. */
  function ChunksLeft(finish: bool, kept: seq<byte>, p: Peer, handler: bool): Yield<Option<seq<byte>>>
    requires p.Valid()
  {
    if finish then Yield(Some(kept), p) else Prefixed(kept, ChunksRead(p, handler))
  }

  /** One turn of the chunked loop: the loop state it leaves is the one it
      found, one round further on. */
  method NextRound(link: Link, stream: ByteStream) returns (size: nat, ok: bool)
    requires link.peer.Valid() && stream.Valid()
    modifies link`peer, stream, stream.data
    ensures stream.Valid() && (stream.data == old(stream.data) || fresh(stream.data))
    ensures link.peer.Valid() && link.peer.input == old(link.peer.input) && old(link.peer.cursor) <= link.peer.cursor
    ensures ok && size != 0 ==> old(link.peer.cursor) < link.peer.cursor
    ensures ok ==>
      ChunksLeft(size == 0, stream.Contents(), link.peer, link.errorHandler)
        == ChunksLeft(false, old(stream.Contents()), old(link.peer), link.errorHandler)
    ensures !ok ==> Yield(None, link.peer) == ChunksLeft(false, old(stream.Contents()), old(link.peer), link.errorHandler)
  {
    ghost var before := stream.Contents();
    ghost var round := RoundRead(link.peer, link.errorHandler);
    ChunksOnce(link.peer, link.errorHandler);
    size, ok := ReadRound(link, stream);
    if ok {
      PrefixedTwice(before, round.value.value, ChunksRead(link.peer, link.errorHandler));
    }
  }

  /** One turn of the chunked loop: the size line, the data appended to the
      stream, and a two-byte read whose result is ignored. */
  method ReadRound(link: Link, stream: ByteStream) returns (size: nat, ok: bool)
    requires link.peer.Valid() && stream.Valid()
    modifies link`peer, stream, stream.data
    ensures stream.Valid() && (stream.data == old(stream.data) || fresh(stream.data))
    ensures var round := RoundRead(old(link.peer), link.errorHandler);
      && ok == round.value.Some? && link.peer == round.peer
      && (ok ==> size == |round.value.value| && stream.Contents() == old(stream.Contents()) + round.value.value)
  {
    size := ChunkLength(link);
    ok := ReadData(link, stream, size);
  }

  /** The rest of a turn once the size line is read: the data, then the
      two-byte read. */
  method ReadData(link: Link, stream: ByteStream, size: nat) returns (ok: bool)
    requires link.peer.Valid() && stream.Valid()
    modifies link`peer, stream, stream.data
    ensures stream.Valid() && (stream.data == old(stream.data) || fresh(stream.data))
    ensures var data := DataRead(old(link.peer), link.errorHandler, size);
      && ok == data.value.Some? && link.peer == data.peer
      && (ok ==> stream.Contents() == old(stream.Contents()) + data.value.value)
  {
    ok := ReadInto(link, stream, size);
    if ok {
      Discard(link, 2);
    }
  }

  /** httpio_read of `size` bytes whose result is ignored. */
  method Discard(link: Link, size: nat)
    requires link.peer.Valid()
    modifies link`peer
    ensures link.peer.Valid() && link.peer.input == old(link.peer.input)
    ensures link.peer.calls == old(link.peer.calls) && link.peer.sent == old(link.peer.sent)
    ensures old(link.peer.cursor) <= link.peer.cursor <= old(link.peer.cursor) + size
    ensures link.peer == ReadStep(old(link.peer), size, link.errorHandler).peer
  {
    var result, bytes := link.Read(size);
  }

  /** The data of one chunk: reads of at most DefaultSize bytes appended to
      the stream until `size` bytes are in; a failed read stops it. */
  method ReadInto(link: Link, stream: ByteStream, size: nat) returns (ok: bool)
    requires link.peer.Valid() && stream.Valid()
    modifies link`peer, stream, stream.data
    ensures stream.Valid() && (stream.data == old(stream.data) || fresh(stream.data))
    ensures Yield(ok, link.peer) == Gather(old(link.peer), link.errorHandler, DefaultSize, size)
    ensures stream.Contents() == old(stream.Contents()) + link.peer.input[old(link.peer.cursor)..link.peer.cursor]
  {
    ghost var start := link.peer.cursor;
    ghost var goal := Gather(link.peer, link.errorHandler, DefaultSize, size);
    var pending: nat := size;
    while pending > 0
      invariant link.errorHandler == old(link.errorHandler)
      invariant link.peer.Valid() && link.peer.input == old(link.peer.input) && start <= link.peer.cursor
      invariant stream.Valid() && (stream.data == old(stream.data) || fresh(stream.data))
      invariant stream.Contents() == old(stream.Contents()) + link.peer.input[start..link.peer.cursor]
      invariant Gather(link.peer, link.errorHandler, DefaultSize, pending) == goal
      decreases pending
    {
      var length := ReadPiece(link, stream, start, old(stream.Contents()), pending, goal);
      if length < 0 {
        return false;
      }
      pending := pending - length;
    }
    return true;
  }

  /** One read of the data loop, at most DefaultSize bytes, appended to
      the stream. */
  method ReadPiece(link: Link, stream: ByteStream, ghost start: nat, ghost base: seq<byte>, pending: nat, ghost goal: Yield<bool>)
    returns (length: int)
    requires link.peer.Valid() && stream.Valid() && pending > 0
    requires Gather(link.peer, link.errorHandler, DefaultSize, pending) == goal
    requires start <= link.peer.cursor && stream.Contents() == base + link.peer.input[start..link.peer.cursor]
    modifies link`peer, stream, stream.data
    ensures link.peer.Valid() && link.peer.input == old(link.peer.input) && old(link.peer.cursor) <= link.peer.cursor
    ensures stream.Valid() && (stream.data == old(stream.data) || fresh(stream.data))
    ensures stream.Contents() == base + link.peer.input[start..link.peer.cursor]
    ensures length >= 0 ==> 0 < length <= pending
    ensures length < 0 ==> Yield(false, link.peer) == goal
    ensures length >= 0 ==> Gather(link.peer, link.errorHandler, DefaultSize, pending - length) == goal
  {
    ghost var at := link.peer;
    var chunk;
    length, chunk := link.Read(Min(pending, DefaultSize));
    GatherStep(at, link.errorHandler, DefaultSize, pending, length, link.peer, goal);
    if length < 0 {
      return;
    }
    stream.Append(chunk, true);
    Slices(link.peer.input, start, at.cursor, link.peer.cursor);
  }

  /** The chunked loop: chunk after chunk is read into a byte stream until a
      size of zero; two bytes are read and dropped after every chunk; any
      failed data read gives NULL. On success the consumed input splits into
      well-formed rounds whose data, concatenated, is the result; for that
      the input is taken to be shorter than SIZE_MAX bytes, so that a
      SIZE_MAX size can never be satisfied. */
  method ReadChunks(link: Link) returns (payload: Option<seq<byte>>, ghost rounds: seq<Round>)
    requires link.peer.Valid() && |link.peer.input| < SizeMax
    modifies link`peer
    ensures Yield(payload, link.peer) == ChunksRead(old(link.peer), link.errorHandler)
    ensures payload.Some? ==>
      && Framed(rounds)
      && Measured(rounds)
      && link.peer.input[old(link.peer.cursor)..link.peer.cursor] == Flatten(rounds)
      && payload.value == Payloads(rounds)
  {
    ghost var start := link.peer;
    var stream := new ByteStream.Start();
    var finish := false;
    PrefixedNothing(ChunksRead(link.peer, link.errorHandler));
    while !finish
      invariant link.errorHandler == old(link.errorHandler)
      invariant link.peer.Valid() && link.peer.input == start.input && start.cursor <= link.peer.cursor
      invariant fresh(stream) && fresh(stream.data) && stream.Valid()
      invariant ChunksLeft(finish, stream.Contents(), link.peer, link.errorHandler) == ChunksRead(start, link.errorHandler)
      decreases |start.input| - link.peer.cursor, !finish
    {
      var size: nat, ok: bool;
      size, ok := NextRound(link, stream);
      if !ok {
        return None, [];
      }
      finish := size == 0;
    }
    payload := Some(stream.Contents());
    rounds := ChunksFramed(start, link.errorHandler);
  }

  /** A body sent as one chunk with a hexadecimal size line, then the zero
      chunk, each followed by CR LF, is framed and decodes to its data. */
  lemma OneChunkBody(size: seq<byte>, data: seq<byte>)
    requires 0 < |size| <= SizeDigitsMax && IsHexLine(size)
    requires DigitsValue(Text(size), 16) == |data| > 0
    ensures var rounds := [Round(size, data, [CR, LF]), Round([0x30], [], [CR, LF])];
      Framed(rounds) && Measured(rounds) && Payloads(rounds) == data
  {
    HexChunkSize(size);
    HexLineBytes(size);
    ZeroChunkSize();
    TwoRounds(Round(size, data, [CR, LF]), Round([0x30], [], [CR, LF]));
  }

  /** The size line "0" announces the last chunk. */
  lemma ZeroChunkSize()
    ensures ChunkSize([0x30]) == 0 && CR !in [0x30 as byte]
  {
    ZeroLine([0x30]);
  }

  /** The same for a line that is not a literal to the solver. */
  lemma ZeroLine(line: seq<byte>)
    requires line == [0x30]
    ensures ChunkSize(line) == 0 && CR !in line
  {
    assert IsHexLine(line) by {
      assert ToChar(line[0]) == '0';
    }
    HexChunkSize(line);
    ZeroDigits(Text(line));
  }

  lemma ZeroDigits(s: string)
    requires s == "0"
    ensures DigitsValue(s, 16) == 0
  {
    assert s[..0] == [];
  }

  /** A data round followed by a closing round. */
  lemma TwoRounds(r0: Round, r1: Round)
    requires RoundOk(r0) && r0.payload != [] && RoundOk(r1) && r1.payload == []
    requires ChunkSize(r0.line) == |r0.payload| && ChunkSize(r1.line) == 0
    ensures Framed([r0, r1]) && Measured([r0, r1]) && Payloads([r0, r1]) == r0.payload
  {
    var rounds := [r0, r1];
    assert rounds[..1] == [r0] && [r0][..0] == [];
    assert Payloads([r0]) == r0.payload;
  }

  // ---- httpio_response_body_istext ----

  ghost predicate Mentions(text: string, word: string) {
    exists i :: IsAt(text, word, i)
  }

  /** A body is text unless its Content-Type names none of text, html, xml
      or json. */
  function IsText(contentType: Option<string>): bool {
    match contentType
    case None => true
    case Some(t) => Contains(t, "text") || Contains(t, "html") || Contains(t, "xml") || Contains(t, "json")
  }

  lemma ContainsMentions(t: string, word: string)
    ensures Contains(t, word) <==> Mentions(t, word)
  {
    if Mentions(t, word) {
      var i :| IsAt(t, word, i);
      ContainsAt(t, word, i);
    }
  }

  /** IsText as a statement about where the words occur. */
  lemma TextTypes(t: string)
    ensures IsText(Some(t)) <==>
      Mentions(t, "text") || Mentions(t, "html") || Mentions(t, "xml") || Mentions(t, "json")
  {
    ContainsMentions(t, "text");
    ContainsMentions(t, "html");
    ContainsMentions(t, "xml");
    ContainsMentions(t, "json");
  }

  // ---- httpio_response_body_gunzip and httpio_response_body_create ----

  /** The gzip magic-byte precheck: at least ten bytes, starting 1F 8B. */
  predicate GzipMagic(data: seq<byte>) {
    |data| >= 10 && data[0] == 0x1F && data[1] == 0x8B
  }

  /** Gunzip after the precheck; inflating is the `inflate` parameter. */
  function Gunzip(data: seq<byte>, inflate: seq<byte> -> Option<seq<byte>>): (r: Option<seq<byte>>)
    ensures !GzipMagic(data) ==> r.None?
  {
    if GzipMagic(data) then inflate(data) else None
  }

  /** The body's payload before finishing: gunzipped when Content-Encoding
      mentions gzip, as received otherwise. NULL after a failed gunzip. */
  function Decoded(content: Content, payload: seq<byte>, inflate: seq<byte> -> Option<seq<byte>>): Option<seq<byte>> {
    if content.encoding.Some? && Contains(content.encoding.value, "gzip") then Gunzip(payload, inflate)
    else Some(payload)
  }

  /** struct httpio_body: the buffer (or NULL) and the payload length. */
  class Body {
    var data: Option<seq<byte>>
    var length: nat

    constructor (data: Option<seq<byte>>, length: nat)
      ensures this.data == data && this.length == length
    {
      this.data := data;
      this.length := length;
    }
  }

  /** The stored buffer and length of a finished body. */
  datatype Stored = Stored(data: Option<seq<byte>>, length: nat)

  /** httpio_response_body_create: the decoded payload and its length; a
      text body gets a NUL stored one past the length (realloc of a NULL
      buffer gives a buffer holding just the NUL). */
  function Finished(content: Content, payload: seq<byte>, inflate: seq<byte> -> Option<seq<byte>>): Stored {
    var decoded := Decoded(content, payload, inflate);
    var length := if decoded.Some? then |decoded.value| else 0;
    if IsText(content.contentType) then
      Stored(Some((if decoded.Some? then decoded.value else []) + [0]), length)
    else Stored(decoded, length)
  }

  /** A finished body holds the decoded bytes and their length; a text
      body has exactly one NUL after them; without gzip the decoded bytes
      are the received ones. */
  lemma FinishedShape(content: Content, payload: seq<byte>, inflate: seq<byte> -> Option<seq<byte>>)
    ensures var s := Finished(content, payload, inflate);
      var decoded := Decoded(content, payload, inflate);
      && (decoded.Some? ==> s.data.Some? && s.length == |decoded.value| && s.data.value[..s.length] == decoded.value)
      && (IsText(content.contentType) <==> s.data.Some? && |s.data.value| == s.length + 1)
      && (IsText(content.contentType) ==> s.data.value[s.length] == 0)
      && (decoded.None? ==> s.length == 0)
    ensures content.encoding.None? ==> Decoded(content, payload, inflate) == Some(payload)
  {
  }

  /** A gzip body whose bytes fail the precheck becomes an empty body: a
      lone NUL when it is text, NULL otherwise. */
  lemma GzipRejected(content: Content, payload: seq<byte>, inflate: seq<byte> -> Option<seq<byte>>)
    requires content.encoding.Some? && Contains(content.encoding.value, "gzip") && !GzipMagic(payload)
    ensures Finished(content, payload, inflate) ==
      Stored(if IsText(content.contentType) then Some([0]) else None, 0)
  {
    assert [] + [0 as byte] == [0];
  }

  method BodyCreate(content: Content, payload: seq<byte>, inflate: seq<byte> -> Option<seq<byte>>) returns (body: Body)
    ensures fresh(body)
    ensures Stored(body.data, body.length) == Finished(content, payload, inflate)
  {
    var decoded := Decoded(content, payload, inflate);
    var length := if decoded.Some? then |decoded.value| else 0;
    if IsText(content.contentType) {
      var buffer := if decoded.Some? then decoded.value else [];
      body := new Body(Some(buffer + [0]), length);
    } else {
      body := new Body(decoded, length);
    }
  }

  // ---- httpio_get_response_body ----

  /** httpio_get_response_body: the framing decides between reading the
      declared length, decoding chunks, and no body at all. */
  method GetResponseBody(list: Option<seq<Header>>, link: Link, inflate: seq<byte> -> Option<seq<byte>>)
    returns (body: Body?)
    requires link.peer.Valid() && |link.peer.input| < SizeMax
    modifies link`peer
    ensures link.peer.Valid() && link.peer.input == old(link.peer.input)
    ensures link.peer.calls == old(link.peer.calls) && link.peer.sent == old(link.peer.sent)
    ensures old(link.peer.cursor) <= link.peer.cursor
    ensures body != null ==> fresh(body)
    ensures FramingOf(list) == Unframed ==> body == null && link.peer == old(link.peer)
    ensures FramingOf(list).Sized? ==>
      var n := FramingOf(list).length;
      && Yield(body != null, link.peer) == Gather(old(link.peer), link.errorHandler, IntMax, n)
      && (body != null <==> link.peer.cursor == old(link.peer.cursor) + n)
      && (body != null ==>
            Stored(body.data, body.length) ==
            Finished(ContentOf(list), link.peer.input[old(link.peer.cursor)..link.peer.cursor], inflate))
    ensures FramingOf(list) == Chunked ==>
      var chunks := ChunksRead(old(link.peer), link.errorHandler);
      && link.peer == chunks.peer && (body != null <==> chunks.value.Some?)
      && (body != null ==> Stored(body.data, body.length) == Finished(ContentOf(list), chunks.value.value, inflate))
    ensures FramingOf(list) == Chunked && body != null ==>
      exists rounds :: Framed(rounds) && Measured(rounds) &&
        link.peer.input[old(link.peer.cursor)..link.peer.cursor] == Flatten(rounds) &&
        Stored(body.data, body.length) == Finished(ContentOf(list), Payloads(rounds), inflate)
  {
    var transferEncoding := Lookup(list, "transfer-encoding");
    var contentLength := Lookup(list, "content-length");
    var length := if transferEncoding.Some? then -1 else ContentLength(contentLength);
    var content := Content(length, Lookup(list, "content-type"), Lookup(list, "content-encoding"));
    if content.length > 0 {
      var data := ReadExactly(link, content.length);
      if data.None? {
        return null;
      }
      body := BodyCreate(content, data.value, inflate);
    } else if transferEncoding.Some? && CaseCmp(transferEncoding.value, "chunked") == 0 {
      var payload, rounds := ReadChunks(link);
      if payload.None? {
        return null;
      }
      body := BodyCreate(content, payload.value, inflate);
    } else {
      body := null;
    }
  }

  // ---- accessors ----

  /** httpio_response_body_get_data: NULL for a NULL body. */
  function BodyData(body: Body?): (r: Option<seq<byte>>)
    reads body
    ensures body == null ==> r.None?
    ensures body != null ==> r == body.data
  {
    if body == null then None else body.data
  }

  /** httpio_response_body_length: 0 for a NULL body. */
  function BodyLength(body: Body?): (r: nat)
    reads body
    ensures body == null ==> r == 0
    ensures body != null ==> r == body.length
  {
    if body == null then 0 else body.length
  }

  /** httpio_response_body_take_data: the buffer passes to the caller and
      the body is left empty. */
  method TakeData(body: Body?) returns (taken: Option<seq<byte>>)
    modifies body
    ensures body == null ==> taken.None?
    ensures body != null ==> taken == old(body.data) && body.data.None? && body.length == 0
  {
    if body == null {
      return None;
    }
    taken := body.data;
    body.data := None;
    body.length := 0;
  }
}
