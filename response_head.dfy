/** The head of an HTTP/1.1 response as src/http-protocol.c reads it: the
    status line through the CR/LF line reader and the status-line splitter,
    then the header block up to the first empty line. */
module ResponseHead {
  import opened CText
  import opened StringUtil
  import opened Headers
  import opened Transport
  import opened ByteStreams

  const CR: byte := 0x0D
  const LF: byte := 0x0A

  // ---- httpio_connection_readline ----

  /** enum httpio_readline_state, plus the `goto invalid` exit. The reader
      starts in ExpectingFormFeed, which waits for a CR. */
  datatype LineState = ExpectingFormFeed | ExpectingNewLine | DoneReadingLine | InvalidLine

  predicate Pending(state: LineState) {
    state == ExpectingFormFeed || state == ExpectingNewLine
  }

  /** One byte through the state machine: a CR is accepted only while
      waiting for one, an LF ends the line after a CR and is dropped
      otherwise, and every other byte leaves the state alone. */
  function NextState(state: LineState, b: byte): LineState {
    if !Pending(state) then state
    else if b == CR then (if state == ExpectingFormFeed then ExpectingNewLine else InvalidLine)
    else if b == LF then (if state == ExpectingNewLine then DoneReadingLine else ExpectingFormFeed)
    else state
  }

  /** The state after the given bytes. */
  function StateAfter(bytes: seq<byte>): LineState {
    if bytes == [] then ExpectingFormFeed
    else NextState(StateAfter(bytes[..|bytes| - 1]), bytes[|bytes| - 1])
  }

  /** The bytes the reader stores: all but CR and LF. */
  function Kept(bytes: seq<byte>): (r: seq<byte>)
    ensures CR !in r && LF !in r
  {
    if bytes == [] then []
    else
      var b := bytes[|bytes| - 1];
      Kept(bytes[..|bytes| - 1]) + (if b == CR || b == LF then [] else [b])
  }

  /** The line was still open before each of the bytes was read. */
  predicate Reading(bytes: seq<byte>) {
    bytes == [] || (Reading(bytes[..|bytes| - 1]) && Pending(StateAfter(bytes[..|bytes| - 1])))
  }

  lemma Extend(bytes: seq<byte>, b: byte)
    ensures (bytes + [b])[..|bytes|] == bytes
    ensures StateAfter(bytes + [b]) == NextState(StateAfter(bytes), b)
    ensures Kept(bytes + [b]) == Kept(bytes) + (if b == CR || b == LF then [] else [b])
    ensures Reading(bytes + [b]) <==> Reading(bytes) && Pending(StateAfter(bytes))
  {
    assert (bytes + [b])[..|bytes|] == bytes;
  }

  /** The readline state and the bytes kept so far. */
  datatype Line = Line(state: LineState, kept: seq<byte>)

  /** One turn of the readline loop after its read: a second CR stops the
      reader, the LF after a CR finishes the line with the kept bytes, and
      any other byte moves the state and is kept unless it is CR or LF. */
  function LineTurn(line: Line, b: byte): Turn<Line, seq<byte>> {
    var next := NextState(line.state, b);
    if next == InvalidLine then Stop
    else if next == DoneReadingLine then Finish(line.kept)
    else Continue(Line(next, line.kept + (if b == CR || b == LF then [] else [b])))
  }

  /** The readline loop on a peer, from a pending state and the bytes kept
      so far: a failed read or a second CR gives None, the LF after a CR
      gives the kept bytes. */
  function LineRead(p: Peer, handler: bool, state: LineState, kept: seq<byte>): (r: Yield<Option<seq<byte>>>)
    requires p.Valid()
  {
    Bytewise(p, handler, Line(state, kept), LineTurn)
  }

  /** One turn of the readline loop: the read, then the outcome or the
      rest of the loop. */
  lemma LineOnce(p: Peer, handler: bool, state: LineState, kept: seq<byte>)
    requires p.Valid()
    ensures var read := ReadOne(p, handler);
      read.value.None? ==> LineRead(p, handler, state, kept) == Yield(None, read.peer)
    ensures var read := ReadOne(p, handler);
      read.value.Some? ==>
        var b := read.value.value;
        var next := NextState(state, b);
        LineRead(p, handler, state, kept)
        == if next == InvalidLine then Yield(None, read.peer)
           else if next == DoneReadingLine then Yield(Some(kept), read.peer)
           else LineRead(read.peer, handler, next, kept + (if b == CR || b == LF then [] else [b]))
  {
  }

  /** A peer that serves every read and sends text and then CR LF gives
      the text as the line, and the reader stops right after the LF. */
  lemma LineServed(p: Peer, handler: bool, text: seq<byte>, least: nat)
    requires CR !in text && LF !in text && Serves(p, least)
    requires text + [CR, LF] <= p.Unread()
    ensures var r := LineRead(p, handler, ExpectingFormFeed, []);
      r.value == Some(text) && r.peer.cursor == p.cursor + |text| + 2
  {
    var u := p.input[p.cursor..];
    var rest := u[|text| + 2..];
    assert u == text + [CR, LF] + rest;
    BytewiseServed(p, handler, Line(ExpectingFormFeed, []), LineTurn, least);
    LineRun(text, rest, []);
    assert [] + text == text;
  }

  /** Over bytes that hold text without CR or LF and then CR LF, the
      reader keeps the text and uses the text and the CR LF. */
  lemma {:induction false} LineRun(text: seq<byte>, rest: seq<byte>, kept: seq<byte>)
    requires CR !in text && LF !in text
    ensures Run(text + [CR, LF] + rest, Line(ExpectingFormFeed, kept), LineTurn)
      == Ran(Finish(kept + text), |text| + 2)
  {
    var bytes := text + [CR, LF] + rest;
    if text == [] {
      assert bytes[0] == CR && bytes[1..][0] == LF;
      assert kept + [] == kept && kept + text == kept;
    } else {
      assert bytes[0] == text[0] && bytes[1..] == text[1..] + [CR, LF] + rest;
      assert text[0] in text;
      assert forall b :: b in text[1..] ==> b in text;
      LineRun(text[1..], rest, kept + [text[0]]);
      assert kept + [text[0]] + text[1..] == kept + text;
    }
  }

  /** httpio_connection_readline: bytes are read one at a time until the
      line is done; the consumed bytes decide the outcome, whatever the
      readiness polls and transfers did in between. The line is returned
      without its CR and LF bytes. */
  method ReadLine(link: Link) returns (line: Option<seq<byte>>)
    requires link.peer.Valid()
    modifies link`peer
    ensures Yield(line, link.peer) == LineRead(old(link.peer), link.errorHandler, ExpectingFormFeed, [])
    ensures link.peer.Valid() && link.peer.input == old(link.peer.input)
    ensures link.peer.calls == old(link.peer.calls) && link.peer.sent == old(link.peer.sent)
    ensures old(link.peer.cursor) <= link.peer.cursor
    ensures var consumed := link.peer.input[old(link.peer.cursor)..link.peer.cursor];
      Reading(consumed) &&
      (line.Some? <==> StateAfter(consumed) == DoneReadingLine) &&
      (line.Some? ==> line.value == Kept(consumed))
  {
    var state := ExpectingFormFeed;
    var kept: seq<byte> := [];
    while state != DoneReadingLine
      invariant link.errorHandler == old(link.errorHandler)
      invariant link.peer.Valid() && link.peer.input == old(link.peer.input)
      invariant state != InvalidLine
      invariant state != DoneReadingLine ==>
        LineRead(link.peer, link.errorHandler, state, kept) == LineRead(old(link.peer), link.errorHandler, ExpectingFormFeed, [])
      invariant state == DoneReadingLine ==>
        Yield(Some(kept), link.peer) == LineRead(old(link.peer), link.errorHandler, ExpectingFormFeed, [])
      decreases |link.peer.input| - link.peer.cursor
    {
      var stop;
      stop, state, kept := LineByte(link, state, kept);
      if stop {
        line := None;
        LineConsumed(old(link.peer), link.errorHandler);
        return;
      }
    }
    line := Some(kept);
    LineConsumed(old(link.peer), link.errorHandler);
  }

  /** One turn of the readline loop: a failed read or a second CR ends
      the line without a result; any other byte moves the state machine. */
  method LineByte(link: Link, state: LineState, kept: seq<byte>)
    returns (stop: bool, next: LineState, more: seq<byte>)
    requires link.peer.Valid() && Pending(state)
    modifies link`peer
    ensures link.peer.Valid() && link.peer.input == old(link.peer.input)
    ensures !stop ==> old(link.peer.cursor) < link.peer.cursor && next != InvalidLine
    ensures LineRead(old(link.peer), link.errorHandler, state, kept) ==
      if stop then Yield(None, link.peer)
      else if next == DoneReadingLine then Yield(Some(more), link.peer)
      else LineRead(link.peer, link.errorHandler, next, more)
  {
    LineOnce(link.peer, link.errorHandler, state, kept);
    var read := ReadByte(link);
    if read.None? {
      return true, state, kept;
    }
    stop, next, more := LineSwitch(state, kept, read.value);
    assert kept + [] == kept;
  }

  /** What the readline loop consumed decides its outcome: the line was
      open before each consumed byte, it gives a line exactly when the
      consumed bytes end it, and that line is the bytes kept from them. */
  lemma LineConsumed(p: Peer, handler: bool)
    requires p.Valid()
    ensures var r := LineRead(p, handler, ExpectingFormFeed, []);
      var consumed := p.input[p.cursor..r.peer.cursor];
      && Reading(consumed)
      && (r.value.Some? <==> StateAfter(consumed) == DoneReadingLine)
      && (r.value.Some? ==> r.value.value == Kept(consumed))
  {
    var r := LineRead(p, handler, ExpectingFormFeed, []);
    var consumed := p.input[p.cursor..r.peer.cursor];
    BytewiseRan(p, handler, Line(ExpectingFormFeed, []), LineTurn);
    LineRunFrom([], consumed);
    assert [] + consumed == consumed;
  }

  /** The run over bytes that follow an open line: when it uses all of
      them, the line stays open before each, and it finishes exactly when
      they end the line, with the kept bytes. */
  lemma {:induction false} LineRunFrom(before: seq<byte>, bytes: seq<byte>)
    requires Reading(before) && Pending(StateAfter(before))
    ensures var ran := Run(bytes, Line(StateAfter(before), Kept(before)), LineTurn);
      ran.used == |bytes| ==>
        && Reading(before + bytes)
        && (ran.turn.Finish? <==> StateAfter(before + bytes) == DoneReadingLine)
        && (ran.turn.Finish? ==> ran.turn.value == Kept(before + bytes))
    decreases |bytes|
  {
    if bytes == [] {
      assert before + bytes == before;
    } else {
      var b, rest := bytes[0], bytes[1..];
      assert bytes == [b] + rest;
      var after := before + [b];
      LineTurnAfter(before, b);
      Regroup(before, b, rest, bytes);
      if Pending(StateAfter(after)) {
        LineRunFrom(after, rest);
      } else if |bytes| == 1 {
        assert after == before + bytes;
      }
    }
  }

  /** One byte through the reader, told by the state and kept bytes of
      the whole input so far. */
  lemma LineTurnAfter(before: seq<byte>, b: byte)
    requires Reading(before) && Pending(StateAfter(before))
    ensures Reading(before + [b])
    ensures var after := before + [b];
      Pending(StateAfter(after)) ==> LineTurn(Line(StateAfter(before), Kept(before)), b) == Continue(Line(StateAfter(after), Kept(after)))
    ensures var after := before + [b];
      StateAfter(after) == DoneReadingLine ==> LineTurn(Line(StateAfter(before), Kept(before)), b) == Finish(Kept(after))
    ensures var after := before + [b];
      StateAfter(after) == InvalidLine ==> LineTurn(Line(StateAfter(before), Kept(before)), b) == Stop
  {
    var state, kept := StateAfter(before), Kept(before);
    Extend(before, b);
    if b == CR || b == LF {
      assert kept + [] == kept;
    }
  }

  lemma Regroup(before: seq<byte>, b: byte, rest: seq<byte>, bytes: seq<byte>)
    requires bytes == [b] + rest
    ensures before + [b] + rest == before + bytes
  {
  }

  /** Input read after a prefix extends it. */
  lemma Grown(input: seq<byte>, start: nat, at: nat, end: nat, before: seq<byte>, after: seq<byte>)
    requires start <= at <= end <= |input| && input[start..at] == before && input[at..end] == after
    ensures input[start..end] == before + after
  {
    assert input[start..end] == input[start..at] + input[at..end];
  }

  /** The switch on the byte read: CR and LF move the state (a CR while
      waiting for the LF is the `goto invalid`), any other byte is kept. */
  method LineSwitch(state: LineState, kept: seq<byte>, value: byte)
    returns (stop: bool, next: LineState, more: seq<byte>)
    requires Pending(state)
    ensures next == NextState(state, value) && (stop <==> next == InvalidLine)
    ensures more == kept + (if value == CR || value == LF then [] else [value])
  {
    stop, next, more := false, state, kept;
    if value == CR {
      if state == ExpectingFormFeed {
        next := ExpectingNewLine;
      } else {
        stop, next := true, InvalidLine;
      }
    } else if value == LF {
      if state == ExpectingNewLine {
        next := DoneReadingLine;
      } else {
        next := ExpectingFormFeed;
      }
    } else {
      more := kept + [value];
    }
  }

  /** Text without CR or LF leaves the reader waiting for a CR, keeps
      every byte, and never closes the line. */
  lemma {:induction false} PlainText(text: seq<byte>)
    requires CR !in text && LF !in text
    ensures StateAfter(text) == ExpectingFormFeed && Kept(text) == text && Reading(text)
  {
    if text != [] {
      var init := text[..|text| - 1];
      assert text == init + [text[|text| - 1]];
      PlainText(init);
      Extend(init, text[|text| - 1]);
    }
  }

  /** What httpio_write_line sends is read back: text followed by CRLF is
      exactly one line holding the text. */
  lemma LineRoundTrip(text: seq<byte>)
    requires CR !in text && LF !in text
    ensures StateAfter(text + [CR, LF]) == DoneReadingLine
    ensures Reading(text + [CR, LF]) && Kept(text + [CR, LF]) == text
  {
    var open := text + [CR];
    var line := open + [LF];
    assert line == text + [CR, LF];
    PlainText(text);
    Extend(text, CR);
    Extend(open, LF);
  }

  /** An LF that does not follow a CR is dropped and the reader keeps
      waiting for a CR. */
  lemma BareLineFeedDropped(bytes: seq<byte>)
    requires StateAfter(bytes) == ExpectingFormFeed
    ensures StateAfter(bytes + [LF]) == ExpectingFormFeed && Kept(bytes + [LF]) == Kept(bytes)
  {
    Extend(bytes, LF);
  }

  /** A second CR before the LF makes the line invalid. */
  lemma SecondCarriageReturnInvalid(bytes: seq<byte>)
    requires StateAfter(bytes) == ExpectingNewLine
    ensures StateAfter(bytes + [CR]) == InvalidLine
  {
    Extend(bytes, CR);
  }

  /** While a CR waits for its LF, the bytes after the last CR hold
      neither CR nor LF. */
  lemma {:induction false} AwaitingNewLine(bytes: seq<byte>)
    requires StateAfter(bytes) == ExpectingNewLine
    ensures exists i :: 0 <= i < |bytes| && bytes[i] == CR && CR !in bytes[i + 1..] && LF !in bytes[i + 1..]
  {
    assert bytes != [];
    var init := bytes[..|bytes| - 1];
    var b := bytes[|bytes| - 1];
    assert bytes == init + [b];
    Extend(init, b);
    if b == CR {
      assert bytes[|bytes|..] == [];
    } else {
      assert b != LF;
      AwaitingNewLine(init);
      var i :| 0 <= i < |init| && init[i] == CR && CR !in init[i + 1..] && LF !in init[i + 1..];
      assert bytes[i + 1..] == init[i + 1..] + [b];
      assert bytes[i] == CR;
    }
  }

  /** A line ends at the first LF that follows a CR: the last byte is that
      LF, and between the CR and it there is no other CR or LF. */
  lemma LineEnd(bytes: seq<byte>)
    requires Reading(bytes) && StateAfter(bytes) == DoneReadingLine
    ensures |bytes| >= 2 && bytes[|bytes| - 1] == LF
    ensures exists i :: (0 <= i < |bytes| - 1 && bytes[i] == CR &&
      CR !in bytes[i + 1..|bytes| - 1] && LF !in bytes[i + 1..|bytes| - 1])
  {
    assert bytes != [];
    var init := bytes[..|bytes| - 1];
    var b := bytes[|bytes| - 1];
    assert bytes == init + [b];
    Extend(init, b);
    AwaitingNewLine(init);
    var i :| 0 <= i < |init| && init[i] == CR && CR !in init[i + 1..] && LF !in init[i + 1..];
    assert bytes[i + 1..|bytes| - 1] == init[i + 1..];
    assert bytes[i] == CR;
  }

  // ---- httpio_response_parse_response_code ----

  /** HTTP_INVALID_CODE */
  const InvalidCode: int := -1

  /** struct httpio_status; a field the line does not reach stays NULL or 0. */
  datatype Status = Status(protocol: Option<string>, value: int, message: Option<string>)

  /** The code token through strtol: anything after the digits other than
      the end of the token or a CR makes the code invalid. The long is
      stored in an enum of int width. */
  function CodeValue(token: string): (r: int)
    ensures -0x8000_0000 <= r < 0x8000_0000
  {
    var parsed := StrToL(token, 10);
    if parsed.end < |token| && token[parsed.end] != '\r' then InvalidCode
    else Int32(parsed.value)
  }

  /** The fields taken from the space-separated tokens: the first trimmed
      as the protocol, the second as the code, the third trimmed as the
      message; any later token is ignored. */
  function StatusOfTokens(tokens: seq<string>): Status {
    Status(if |tokens| > 0 then Some(Strip(tokens[0])) else None,
           if |tokens| > 1 then CodeValue(tokens[1]) else 0,
           if |tokens| > 2 then Some(Strip(tokens[2])) else None)
  }

  /** The status of a status line: its tokens are the pieces between
      single spaces, and an empty line has none. */
  function StatusOf(line: string): Status {
    StatusOfTokens(Split(line, " "))
  }

  /** The switch on the token's position: only the first three tokens
      fill a field. */
  function Absorb(status: Status, next: nat, token: string): Status {
    if next == 0 then status.(protocol := Some(Strip(token)))
    else if next == 1 then status.(value := CodeValue(token))
    else if next == 2 then status.(message := Some(Strip(token)))
    else status
  }

  /** The status the switch builds up, token by token. */
  function Absorbed(tokens: seq<string>): Status {
    if tokens == [] then Status(None, 0, None)
    else Absorb(Absorbed(tokens[..|tokens| - 1]), |tokens| - 1, tokens[|tokens| - 1])
  }

  /** Walking the tokens through the switch fills exactly the positional
      fields. */
  lemma {:induction false} AbsorbedFields(tokens: seq<string>)
    ensures Absorbed(tokens) == StatusOfTokens(tokens)
  {
    if tokens != [] {
      var init := tokens[..|tokens| - 1];
      AbsorbedFields(init);
      assert |init| > 0 ==> init[0] == tokens[0];
      assert |init| > 1 ==> init[1] == tokens[1];
      assert |init| > 2 ==> init[2] == tokens[2];
    }
  }

  /** The token starting at head runs to the next space or to the end of
      the line, and the tokens seen so far grow by it. */
  lemma NextToken(s: string, head: nat, seen: seq<string>)
    requires head <= |s| && seen + PiecesFrom(s, " ", head) == PiecesFrom(s, " ", 0)
    ensures var space := FindFrom(s, " ", head);
      var tail := if space.Some? then space.value else |s|;
      var more := seen + [s[head..tail]];
      tail <= |s| &&
      (space.Some? ==> tail < |s| && more + PiecesFrom(s, " ", tail + 1) == PiecesFrom(s, " ", 0)) &&
      (space.None? ==> more == PiecesFrom(s, " ", 0))
  {
    assert s[head..|s|] == s[head..];
    var space := FindFrom(s, " ", head);
    if space.Some? {
      assert seen + [s[head..space.value]] + PiecesFrom(s, " ", space.value + 1) == seen + PiecesFrom(s, " ", head);
    }
  }

  /** httpio_response_parse_response_code: NULL gives NULL; otherwise the
      line is walked token by token, each token ending at the next space or
      at the end of the line. */
  method ParseResponseCode(data: Option<string>) returns (code: Option<Status>)
    ensures data.None? ==> code.None?
    ensures data.Some? ==> code == Some(StatusOf(data.value))
  {
    if data.None? {
      return None;
    }
    var s := data.value;
    var status := Status(None, 0, None);
    var head, tail, next := 0, 0, 0;
    ghost var seen: seq<string> := [];
    while tail < |s|
      invariant 0 <= tail <= |s| && 0 <= head <= |s| + 1
      invariant tail < |s| ==> head <= |s| && seen + PiecesFrom(s, " ", head) == PiecesFrom(s, " ", 0)
      invariant tail == |s| && s != [] ==> seen == PiecesFrom(s, " ", 0)
      invariant s == [] ==> seen == []
      invariant status == Absorbed(seen) && next == |seen|
      decreases |s| + 1 - head
    {
      tail, status, seen := TakeToken(s, head, status, next, seen);
      head := tail + 1;
      next := next + 1;
    }
    AbsorbedFields(seen);
    code := Some(status);
  }

  /** One turn of the token loop: the token from head to the next space
      (or the end of the line) goes through the switch. */
  method TakeToken(s: string, head: nat, status: Status, next: nat, ghost seen: seq<string>)
    returns (tail: nat, after: Status, ghost more: seq<string>)
    requires head <= |s| && seen + PiecesFrom(s, " ", head) == PiecesFrom(s, " ", 0)
    requires status == Absorbed(seen) && next == |seen|
    ensures head <= tail <= |s| && more == seen + [s[head..tail]] && after == Absorbed(more)
    ensures tail < |s| ==> more + PiecesFrom(s, " ", tail + 1) == PiecesFrom(s, " ", 0)
    ensures tail == |s| ==> more == PiecesFrom(s, " ", 0)
  {
    var space := FindFrom(s, " ", head);
    tail := if space.Some? then space.value else |s|;
    var token := s[head..tail];
    NextToken(s, head, seen);
    after := Absorb(status, next, token);
    more := seen + [token];
    AbsorbStep(seen, token);
  }

  lemma AbsorbStep(seen: seq<string>, token: string)
    ensures Absorbed(seen + [token]) == Absorb(Absorbed(seen), |seen|, token)
  {
    assert (seen + [token])[..|seen|] == seen;
  }

  /** A code written as plain decimal digits is read back, also when the
      line still carries its CR. */
  lemma CodeOfDecimal(n: nat, trailer: string)
    requires n < 0x8000_0000 && (trailer == "" || trailer == "\r")
    ensures CodeValue(Digits(n) + trailer) == n
  {
    var digits := Digits(n);
    var token := digits + trailer;
    assert SpaceRun(token, 0) == 0;
    assert DigitRun(token, 0, 10) == |digits| by {
      DigitRunOver(token, 0, |digits|);
    }
    assert token[0..|digits|] == digits;
  }

  /** The decimal digits from index i run exactly to index n when n holds
      no digit. */
  lemma {:induction false} DigitRunOver(token: string, i: nat, n: nat)
    requires i <= n <= |token| && forall k :: i <= k < n ==> '0' <= token[k] <= '9'
    requires n == |token| || !('0' <= token[n] <= '9')
    ensures DigitRun(token, i, 10) == n - i
    decreases n - i
  {
    if i < n {
      DigitRunOver(token, i + 1, n);
    }
  }

  /** A code followed by anything other than a CR within its token is
      HTTP_INVALID_CODE. */
  lemma CodeWithJunk(n: nat, junk: char)
    requires n < 0x8000_0000 && junk != '\r' && !('0' <= junk <= '9')
    ensures CodeValue(Digits(n) + [junk]) == InvalidCode
  {
    var digits := Digits(n);
    var token := digits + [junk];
    DigitRunOver(token, 0, |digits|);
    assert token[|digits|] == junk;
  }

  /** The three fields of "protocol code message" when no part holds a
      space; anything after a further space is ignored, so a reason phrase
      of several words keeps only its first. */
  lemma StatusLineFields(protocol: string, code: string, message: string, rest: string)
    requires ' ' !in protocol && ' ' !in code && ' ' !in message
    requires rest == "" || rest[0] == ' '
    ensures StatusOf(protocol + " " + code + " " + message + rest) ==
      Status(Some(Strip(protocol)), CodeValue(code), Some(Strip(message)))
  {
    var line := protocol + " " + code + " " + message + rest;
    var a := |protocol|;
    var b := a + 1 + |code|;
    var c := b + 1 + |message|;
    assert forall k :: 0 <= k < a ==> line[k] == protocol[k];
    assert forall k :: a + 1 <= k < b ==> line[k] == code[k - a - 1];
    assert forall k :: b + 1 <= k < c ==> line[k] == message[k - b - 1];
    assert line[a] == ' ' && line[b] == ' ';
    assert c < |line| ==> line[c] == rest[0];
    ThreeTokens(line, a, b, c);
    assert line[0..a] == protocol && line[a + 1..b] == code && line[b + 1..c] == message;
  }

  /** Three tokens ending at spaces a and b and at index c. */
  lemma ThreeTokens(line: string, a: nat, b: nat, c: nat)
    requires a < b < c <= |line| && line[a] == ' ' && line[b] == ' '
    requires c == |line| || line[c] == ' '
    requires forall k :: 0 <= k < c && k != a && k != b ==> line[k] != ' '
    ensures var tokens := Split(line, " ");
      |tokens| >= 3 && tokens[0] == line[0..a] && tokens[1] == line[a + 1..b] && tokens[2] == line[b + 1..c]
  {
    var third := PiecesFrom(line, " ", b + 1);
    assert third[0] == line[b + 1..c] by {
      TokenUntil(line, b + 1, c);
    }
    var second := PiecesFrom(line, " ", a + 1);
    assert second == [line[a + 1..b]] + third by {
      TokenUntil(line, a + 1, b);
    }
    assert Split(line, " ") == [line[0..a]] + second by {
      TokenUntil(line, 0, a);
    }
  }

  /** A token that runs from index from to the next space, or to the end
      of the line, is the first piece split off there. */
  lemma TokenUntil(line: string, from: nat, to: nat)
    requires from <= to <= |line| && (to == |line| || line[to] == ' ')
    requires forall k :: from <= k < to ==> line[k] != ' '
    ensures to < |line| ==> PiecesFrom(line, " ", from) == [line[from..to]] + PiecesFrom(line, " ", to + 1)
    ensures to == |line| ==> PiecesFrom(line, " ", from) == [line[from..to]]
  {
    forall k | from <= k < to ensures !IsAt(line, " ", k) {
      assert line[k..k + 1] == [line[k]];
    }
    if to < |line| {
      assert line[to..to + 1] == " ";
      FindFromIs(line, " ", from, to);
    } else {
      assert line[from..to] == line[from..];
      assert !IsAt(line, " ", to);
    }
  }

  /** httpio_get_response_code: a status line read from the link and
      split into its fields; NULL when no line could be read. */
  method GetResponseCode(link: Link) returns (code: Option<Status>)
    requires link.peer.Valid()
    modifies link`peer
    ensures var line := LineRead(old(link.peer), link.errorHandler, ExpectingFormFeed, []);
      link.peer == line.peer && (code.Some? <==> line.value.Some?) &&
      (code.Some? ==> code.value == StatusOf(Text(CString(line.value.value))))
    ensures link.peer.Valid() && link.peer.input == old(link.peer.input)
    ensures link.peer.calls == old(link.peer.calls) && link.peer.sent == old(link.peer.sent)
    ensures old(link.peer.cursor) <= link.peer.cursor
    ensures var consumed := link.peer.input[old(link.peer.cursor)..link.peer.cursor];
      Reading(consumed) &&
      (code.Some? <==> StateAfter(consumed) == DoneReadingLine) &&
      (code.Some? ==> code.value == StatusOf(Text(CString(Kept(consumed)))))
  {
    var line := ReadLine(link);
    if line.None? {
      return None;
    }
    code := ParseResponseCode(Some(Text(CString(line.value))));
  }

  // ---- httpio_get_response_headers ----

  const BlankLine: seq<byte> := [CR, LF, CR, LF]

  /** The header block is complete once the accumulated bytes are longer
      than four and end in CRLFCRLF. */
  predicate BlockComplete(bytes: seq<byte>) {
    |bytes| > 4 && bytes[|bytes| - 4..] == BlankLine
  }

  lemma EndsWithBlankLine(bytes: seq<byte>)
    ensures (exists head :: |head| > 0 && bytes == head + BlankLine) <==> BlockComplete(bytes)
  {
    if BlockComplete(bytes) {
      assert bytes == bytes[..|bytes| - 4] + BlankLine;
    }
  }

  /** No proper prefix of the bytes completes the block. */
  predicate Accumulating(bytes: seq<byte>) {
    forall k :: 0 <= k < |bytes| ==> !BlockComplete(bytes[..k])
  }

  /** One turn of the header loop after its read: the byte is appended,
      and the block is finished once it is complete. */
  function BlockTurn(gathered: seq<byte>, b: byte): Turn<seq<byte>, seq<byte>> {
    var more := gathered + [b];
    if BlockComplete(more) then Finish(more) else Continue(more)
  }

  /** The header loop on a peer, after the bytes gathered so far: a failed
      read gives None, and the byte that completes the block gives the
      block. */
  function BlockRead(p: Peer, handler: bool, gathered: seq<byte>): (r: Yield<Option<seq<byte>>>)
    requires p.Valid()
  {
    Bytewise(p, handler, gathered, BlockTurn)
  }

  /** One turn of the header loop on a peer. */
  lemma BlockOnce(p: Peer, handler: bool, gathered: seq<byte>)
    requires p.Valid()
    ensures var read := ReadOne(p, handler);
      read.value.None? ==> BlockRead(p, handler, gathered) == Yield(None, read.peer)
    ensures var read := ReadOne(p, handler);
      read.value.Some? ==>
        var more := gathered + [read.value.value];
        BlockRead(p, handler, gathered)
        == if BlockComplete(more) then Yield(Some(more), read.peer) else BlockRead(read.peer, handler, more)
  {
  }

  /** A peer that serves every read and sends a header block that no
      shorter prefix completes gives that block, and the reader stops right
      after it. */
  lemma BlockServed(p: Peer, handler: bool, block: seq<byte>, least: nat)
    requires Serves(p, least) && block <= p.Unread() && BlockComplete(block)
    requires forall k :: 0 < k < |block| ==> !BlockComplete(block[..k])
    ensures var r := BlockRead(p, handler, []);
      r.value == Some(block) && r.peer.cursor == p.cursor + |block|
  {
    var u := p.input[p.cursor..];
    BytewiseServed(p, handler, [], BlockTurn, least);
    assert [] + u[..|block|] == block;
    forall k | 0 < k < |block|
      ensures !BlockComplete([] + u[..k])
    {
      assert [] + u[..k] == block[..k];
    }
    BlockRun(u, [], |block|);
  }

  /** Over bytes whose first `end` complete the block after `gathered`,
      and no fewer do, the reader finishes with them and uses `end` bytes. */
  lemma {:induction false} BlockRun(bytes: seq<byte>, gathered: seq<byte>, end: nat)
    requires 0 < end <= |bytes| && BlockComplete(gathered + bytes[..end])
    requires forall k :: 0 < k < end ==> !BlockComplete(gathered + bytes[..k])
    ensures Run(bytes, gathered, BlockTurn) == Ran(Finish(gathered + bytes[..end]), end)
    decreases end
  {
    var more := gathered + [bytes[0]];
    assert gathered + bytes[..1] == more;
    if end > 1 {
      var rest := bytes[1..];
      forall k | 0 < k < end - 1
        ensures !BlockComplete(more + rest[..k])
      {
        assert more + rest[..k] == gathered + bytes[..k + 1];
      }
      assert more + rest[..end - 1] == gathered + bytes[..end];
      BlockRun(rest, more, end - 1);
    }
  }

  /** What the header loop consumed decides its outcome: no shorter
      prefix completes the block, and it gives a block exactly when the
      consumed bytes complete it, and then the block is those bytes. */
  lemma BlockConsumed(p: Peer, handler: bool)
    requires p.Valid()
    ensures var r := BlockRead(p, handler, []);
      var consumed := p.input[p.cursor..r.peer.cursor];
      && Accumulating(consumed)
      && (r.value.Some? <==> BlockComplete(consumed))
      && (r.value.Some? ==> r.value.value == consumed)
  {
    var r := BlockRead(p, handler, []);
    var consumed := p.input[p.cursor..r.peer.cursor];
    BytewiseRan(p, handler, [], BlockTurn);
    BlockRunFrom([], consumed);
    assert [] + consumed == consumed;
  }

  /** The run over bytes that follow an incomplete block: when it uses all
      of them, no shorter prefix completes the block, and it finishes
      exactly when they complete it. */
  lemma {:induction false} BlockRunFrom(before: seq<byte>, bytes: seq<byte>)
    requires Accumulating(before) && !BlockComplete(before)
    ensures var ran := Run(bytes, before, BlockTurn);
      ran.used == |bytes| ==>
        && Accumulating(before + bytes)
        && (ran.turn.Finish? <==> BlockComplete(before + bytes))
        && (ran.turn.Finish? ==> ran.turn.value == before + bytes)
    decreases |bytes|
  {
    if bytes == [] {
      assert before + bytes == before;
    } else {
      var b, rest := bytes[0], bytes[1..];
      assert bytes == [b] + rest;
      var after := before + [b];
      BlockTurnAfter(before, b);
      Regroup(before, b, rest, bytes);
      if !BlockComplete(after) {
        BlockRunFrom(after, rest);
      } else if |bytes| == 1 {
        assert after == before + bytes;
      }
    }
  }

  /** One byte appended to an incomplete block. */
  lemma BlockTurnAfter(before: seq<byte>, b: byte)
    requires Accumulating(before) && !BlockComplete(before)
    ensures var after := before + [b];
      && Accumulating(after)
      && BlockTurn(before, b) == if BlockComplete(after) then Finish(after) else Continue(after)
  {
    var after := before + [b];
    forall k | 0 <= k < |after|
      ensures !BlockComplete(after[..k])
    {
      if k < |before| {
        assert after[..k] == before[..k];
      } else {
        assert after[..k] == before;
      }
    }
  }

  /** httpio_get_response_headers: bytes are read one at a time into a
      byte stream until the block is complete; the block is then parsed
      as a C string. NULL when a read fails first. */
  method GetResponseHeaders(link: Link) returns (list: Option<seq<Header>>)
    requires link.peer.Valid()
    modifies link`peer
    ensures var block := BlockRead(old(link.peer), link.errorHandler, []);
      link.peer == block.peer && (list.Some? <==> block.value.Some?)
    ensures link.peer.Valid() && link.peer.input == old(link.peer.input)
    ensures link.peer.calls == old(link.peer.calls) && link.peer.sent == old(link.peer.sent)
    ensures old(link.peer.cursor) <= link.peer.cursor
    ensures var consumed := link.peer.input[old(link.peer.cursor)..link.peer.cursor];
      Accumulating(consumed) &&
      (list.Some? <==> BlockComplete(consumed)) &&
      (list.Some? ==> SortedByKey(list.value) &&
                      multiset(list.value) == multiset(Entries(Text(CString(consumed)))))
  {
    ghost var start := link.peer.cursor;
    var stream := new ByteStream.Start();
    var done := false;
    assert link.peer.input[start..link.peer.cursor] == [];
    while !done
      invariant link.errorHandler == old(link.errorHandler)
      invariant link.peer.Valid() && link.peer.input == old(link.peer.input)
      invariant link.peer.calls == old(link.peer.calls) && link.peer.sent == old(link.peer.sent)
      invariant start <= link.peer.cursor
      invariant fresh(stream) && fresh(stream.data) && stream.Valid()
      invariant stream.Contents() == link.peer.input[start..link.peer.cursor]
      invariant done <==> BlockComplete(stream.Contents())
      invariant !done ==> BlockRead(link.peer, link.errorHandler, stream.Contents()) == BlockRead(old(link.peer), link.errorHandler, [])
      invariant done ==> BlockRead(old(link.peer), link.errorHandler, []) == Yield(Some(stream.Contents()), link.peer)
      decreases |link.peer.input| - link.peer.cursor, !done
    {
      var ok;
      ok, done := HeaderByte(link, stream, start);
      if !ok {
        break;
      }
    }
    ghost var block := stream.Contents();
    BlockConsumed(old(link.peer), link.errorHandler);
    stream.Append([0], true);
    if done {
      CStringTerminated(block);
      var headers := ParseHeaders(Text(CString(stream.Contents())));
      list := Some(headers);
    } else {
      list := None;
    }
  }

  /** One turn of the header loop: one byte read and appended; after a
      line feed, whether the stream now ends with the blank line. */
  method HeaderByte(link: Link, stream: ByteStream, ghost start: nat) returns (ok: bool, done: bool)
    requires link.peer.Valid() && stream.Valid()
    requires start <= link.peer.cursor && stream.Contents() == link.peer.input[start..link.peer.cursor]
    requires !BlockComplete(stream.Contents())
    modifies link`peer, stream, stream.data
    ensures link.peer.Valid() && link.peer.input == old(link.peer.input)
    ensures link.peer.calls == old(link.peer.calls) && link.peer.sent == old(link.peer.sent)
    ensures stream.Valid() && (stream.data == old(stream.data) || fresh(stream.data))
    ensures old(link.peer.cursor) <= link.peer.cursor
    ensures stream.Contents() == link.peer.input[start..link.peer.cursor]
    ensures !ok ==> !done && link.peer.cursor == old(link.peer.cursor) && stream.Contents() == old(stream.Contents())
    ensures ok ==> link.peer.cursor == old(link.peer.cursor) + 1
    ensures done <==> BlockComplete(stream.Contents())
    ensures BlockRead(old(link.peer), link.errorHandler, old(stream.Contents())) ==
      if !ok then Yield(None, link.peer)
      else if done then Yield(Some(stream.Contents()), link.peer)
      else BlockRead(link.peer, link.errorHandler, stream.Contents())
  {
    ghost var before := stream.Contents();
    ghost var at := link.peer.cursor;
    BlockOnce(link.peer, link.errorHandler, before);
    var read := ReadByte(link);
    if read.None? {
      return false, false;
    }
    var bytes := [read.value];
    ok := true;
    stream.Append(bytes, true);
    Grown(link.peer.input, start, at, link.peer.cursor, before, bytes);
    if bytes[0] == LF {
      done := stream.EndsWith(BlankLine);
      EndsWithBlankLine(stream.Contents());
    } else {
      done := false;
      assert stream.Contents()[|stream.Contents()| - 1] != BlankLine[3];
    }
  }
}
