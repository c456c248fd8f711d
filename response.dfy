/** A whole HTTP response as httpio_read_response assembles it in
    src/http-protocol.c: the status line, then the header block, then the
    body the headers frame, read one after the other from the link. */
module Response {
  import opened CText
  import opened Headers
  import opened Transport
  import opened ResponseHead
  import opened ResponseBody

  // enum httpio_code (HTTP_INVALID_CODE is ResponseHead.InvalidCode).
  const HttpOk: int := 200
  const HttpBadRequest: int := 400
  const HttpForbidden: int := 401
  const HttpNotFound: int := 404
  const HttpResourceUnavailable: int := 503
  const HttpRedirect: int := 301
  const HttpObjectMoved: int := 302

  /** struct httpio_response: each part is NULL when it could not be read. */
  class Response {
    var code: Option<Status>
    var headers: Option<seq<Header>>
    var body: Body?

    constructor (code: Option<Status>, headers: Option<seq<Header>>, body: Body?)
      ensures this.code == code && this.headers == headers && this.body == body
    {
      this.code := code;
      this.headers := headers;
      this.body := body;
    }
  }

  /** httpio_read_response: the status line, the header block and the body
      are read in that order; afterLine and afterBlock are the peer after
      the first two. The body is framed by the headers that were read, NULL
      when there are none. */
  method ReadResponse(link: Link, inflate: seq<byte> -> Option<seq<byte>>)
    returns (response: Response, ghost afterLine: Peer, ghost afterBlock: Peer)
    requires link.peer.Valid() && |link.peer.input| < SizeMax
    modifies link`peer
    ensures fresh(response)
    ensures var line := LineRead(old(link.peer), link.errorHandler, ExpectingFormFeed, []);
      afterLine == line.peer && (response.code.Some? <==> line.value.Some?)
    ensures afterLine.Valid() && BlockRead(afterLine, link.errorHandler, []).peer == afterBlock
    ensures response.headers.Some? <==> BlockRead(afterLine, link.errorHandler, []).value.Some?
    ensures link.peer.Valid() && link.peer.input == old(link.peer.input)
    ensures link.peer.calls == old(link.peer.calls) && link.peer.sent == old(link.peer.sent)
    ensures old(link.peer.cursor) <= afterLine.cursor <= afterBlock.cursor <= link.peer.cursor
    ensures var line := link.peer.input[old(link.peer.cursor)..afterLine.cursor];
      (response.code.Some? <==> StateAfter(line) == DoneReadingLine) &&
      (response.code.Some? ==> response.code.value == StatusOf(Text(CString(Kept(line)))))
    ensures var block := link.peer.input[afterLine.cursor..afterBlock.cursor];
      (response.headers.Some? <==> BlockComplete(block)) &&
      (response.headers.Some? ==> SortedByKey(response.headers.value) &&
                                  multiset(response.headers.value) == multiset(Entries(Text(CString(block)))))
    ensures FramingOf(response.headers) == Unframed ==> response.body == null && link.peer == afterBlock
    ensures afterBlock.Valid() && FramingOf(response.headers).Sized? ==>
      var n := FramingOf(response.headers).length;
      && Yield(response.body != null, link.peer) == Gather(afterBlock, link.errorHandler, IntMax, n)
      && (response.body != null <==> link.peer.cursor == afterBlock.cursor + n)
      && (response.body != null ==>
            Stored(response.body.data, response.body.length) ==
            Finished(ContentOf(response.headers), link.peer.input[afterBlock.cursor..link.peer.cursor], inflate))
    ensures afterBlock.Valid() && FramingOf(response.headers) == Chunked ==>
      var chunks := ChunksRead(afterBlock, link.errorHandler);
      && link.peer == chunks.peer && (response.body != null <==> chunks.value.Some?)
      && (response.body != null ==>
            Stored(response.body.data, response.body.length) ==
            Finished(ContentOf(response.headers), chunks.value.value, inflate))
  {
    var code := GetResponseCode(link);
    afterLine := link.peer;
    var headers := GetResponseHeaders(link);
    afterBlock := link.peer;
    var body := GetResponseBody(headers, link, inflate);
    response := new Response(code, headers, body);
  }

  /** httpio_response_get_code: HTTP_INVALID_CODE for a NULL response or
      one without a status line, the parsed code otherwise. */
  function GetCode(response: Response?): (r: int)
    reads response
    ensures response == null || response.code.None? ==> r == InvalidCode
    ensures response != null && response.code.Some? ==> r == response.code.value.value
  {
    if response == null || response.code.None? then InvalidCode else response.code.value.value
  }

  /** httpio_response_get_headers: NULL for a NULL response. */
  function GetHeaders(response: Response?): (r: Option<seq<Header>>)
    reads response
    ensures response == null ==> r.None?
    ensures response != null ==> r == response.headers
  {
    if response == null then None else response.headers
  }

  /** httpio_response_get_body: NULL for a NULL response. */
  function GetBody(response: Response?): (r: Body?)
    reads response
    ensures response == null ==> r == null
    ensures response != null ==> r == response.body
  {
    if response == null then null else response.body
  }
}
