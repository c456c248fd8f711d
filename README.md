# libhttpio core, modelled in Dafny

This project models the core of libhttpio, a small C client library for HTTP/1.1
over plain or TLS sockets. It covers optional SOCKS5 tunnelling, WebSocket framing
and urlencoded POST bodies. Each C source file becomes one Dafny module, plus two
shared modules:

- `CText` (ctext.dfy): the C-library ground the code stands on.
  - Bytes and NUL-free C strings.
  - `<ctype.h>` classification in the C locale.
  - `strchr`, `strstr` and `strcasecmp`.
  - `strtol` with its base and end pointer.
  - The `int`, `size_t` and `ssize_t` conversions the code applies.
- `StringUtil` (strings.dfy): the string helpers of src/http-util.c. These are split on a string or a character, strip and duplicate, concatenate, count and replace a substring. Each loop is proved against a recursive definition. The definitions are then related: replacing is splitting and joining again.
- `ByteStreams` (bytestream.dfy): the growable byte buffer `struct httpio_bstream`. It is a class over an `array`, and its capacity always leaves room for one more byte.
- `Base64` (base64.dfy): the base64 encoder and decoder of src/http-util.c.
  - The per-group bit shuffles.
  - The encoder and decoder buffer loops.
  - The output length and the padding.
  - The round trip.
- `Headers` (headers.dfy): the header list of a response.
  - Splitting the header block into stripped key/value entries.
  - The case-insensitive sort.
  - The binary-search lookup.
  - The Set-Cookie collection.
- `Transport` (transport.dfy): `struct httpio` as a class `Link`, and the read/write policy of src/http-connection.c.
  - The far side of a connection (socket, TLS session, readiness polls) is a `Peer` value.
    - It holds the bytes still to arrive, a cursor into them and the log of everything written.
    - It also holds sequences that answer the polls and the underlying `recv`/`send` calls one by one.
  - Every loop ends because the input is finite or the poll answers run out, which models a timeout.
- `Socks5` (socks5.dfy): `httpio_connection_open_socks5`, which sends the greeting, checks the reply, sends the CONNECT request and checks its reply.
- `ResponseHead` (response_head.dfy): the status line through the CR/LF line reader and the status-line splitter, then the header block up to the empty line.
- `ResponseBody` (response_body.dfy): the body.
  - The choice between Content-Length and chunked framing.
  - The exact-length reader.
  - The chunked decoder with its chunk-size line parser.
  - The gzip and text finishing steps.
- `Response` (response.dfy): `httpio_read_response` and its accessors.
- `WebSocket` (websocket.dfy): the client text frame and its masking, and the frame reader that reassembles fragments. Also the random handshake secret (a shuffle of 36 letters and digits), the accept key and its check.
- `PostParameters` (post.dfy): the parallel-array parameter table.
  - It grows in place and updates or appends by name.
  - The urlencoded body is built from it.
  - That body decodes back to the table.

Functions of the C library that the code calls but that lie outside it are not modelled. They enter as parameters instead:
- zlib's `inflate` is a function parameter of `ResponseBody.Gunzip`.
- OpenSSL's `SHA1` is a function parameter of `WebSocket.KeyAccept`.
- `httpio_safe_random` is a sequence of numbers for the secret and a 4-byte key for the mask.
- A `malloc` or `realloc` that may fail is a boolean parameter, where the model follows the failure path.

Where the C code and its documentation disagree, the model follows the code:
- A SOCKS5 reply that does not arrive at all counts as success (src/http-connection.c:408, 423).
- A chunk-size line that is empty gives size 0.
- A chunk-size line that `strtol` does not consume fully gives `SIZE_MAX`.
- The 2-byte read after each chunk is not checked.
- A WebSocket message of 126 bytes or more gets the length code 126 or 127 in its header. No extended length follows it.

Several plain functions are the reference definitions that the loops and methods are proved against. Each is related to its method in the "## Model" rows marked "reference":
- `ResponseBody.ContentLength`: the Content-Length conversion of src/http-protocol.c:441-452.
- `ResponseBody.FramingOf`: the framing choice of src/http-protocol.c:559-575.
- `ResponseBody.IsText`: the Content-Type test of src/http-protocol.c:326-339.
- `ResponseBody.GzipMagic`: the magic check of src/http-protocol.c:387.
- `ResponseBody.Finished`: the finishing of a body in src/http-protocol.c:342-370.
- `ResponseBody.SizeValue` and `ResponseBody.ChunkSize`: the chunk-size conversion of src/http-protocol.c:485-514.
- `ResponseHead.NextState`: the switch of the line reader in src/http-protocol.c:252-270.
- `ResponseHead.StatusOf`: the status-line splitter of src/http-protocol.c:189-238.
- `WebSocket.CheckKey`: the accept-key check of src/http-websockets.c:225-238.
- `WebSocket.HeadOf`: the frame header a reader decodes, src/http-websockets.c:104-122.
- `Transport.Outcome` and `Transport.Notifies`: the return value and the error-handler call of src/http-connection.c:264-327.
- `Transport.IsTlsPort`: the ports 443, 993 and 6984 of src/http-connection.c:155-160.
- `Transport.TorProxy`: the constant proxy 127.0.0.1:9050 of src/http-connection.c:538-543.
- `Base64.Encode`, `StringUtil.Split`, `StringUtil.Strip`, `StringUtil.Concat`, `StringUtil.Count` and `StringUtil.Replace`: the recursive definitions of the helpers in src/http-util.c.
- `PostParameters.EncodeValue`, `PostParameters.Unescape` and `PostParameters.Form`: the urlencoding of src/http-post-parameters.c:88-168 and a form decoder for it.
- `Headers.Entries` and `Headers.UpdatedCookie`: the header block split of src/http-protocol.c:113-145 and the Set-Cookie collection of src/http-protocol.c:690-728.

## Model

| member | source | states |
|---|---|---|
| CText.Text | src/http-protocol.c:315-319 | bytes read as characters keep their length and each byte's value |
| CText.Bytes | src/http-connection.c:418-421 | characters written as bytes keep their length and each character's code |
| CText.TextBytes | src/http-connection.c:418-421 | writing a one-byte string out as bytes and reading it back gives the string |
| CText.CString | src/http-protocol.c:315-319 | the C string of a buffer is its prefix up to, and without, the first NUL |
| CText.CStringTerminated | src/http-protocol.c:315 | appending the terminating NUL does not change the C string a buffer holds |
| CText.CStringWhole | src/http-protocol.c:356-368 | a buffer without NUL is read whole as a C string |
| CText.Lower | src/http-protocol.c:109 | lower-casing keeps the length and lower-cases each character |
| CText.CaseCmp | src/http-protocol.c:101-110 | the sign of strcasecmp: -1, 0 or 1, and 0 exactly when the strings are equal ignoring case |
| CText.CaseCmpAntisymmetric | src/http-protocol.c:101-110 | swapping the keys negates the comparison headers are sorted by |
| CText.CaseCmpTransitive | src/http-protocol.c:101-110 | the key comparison is transitive, strictly when either step is strict |
| CText.IndexOf | src/http-protocol.c:123 | strchr: the first position holding the character, or none when it does not occur |
| CText.FindFrom | src/http-util.c:71 | strstr from a position: the leftmost occurrence at or after it, or none at all |
| CText.FindFromIs | src/http-util.c:71 | an occurrence with none before it is the one strstr finds |
| CText.FindFromSkip | src/http-util.c:370 | a position without an occurrence hands the search on to the next position |
| CText.IsAtChar | src/http-protocol.c:212 | an occurrence of a one-character needle is that character at that position |
| CText.IsAtPair | src/http-protocol.c:133 | an occurrence of a two-character needle such as CR LF, character by character |
| CText.ContainsAt | src/http-protocol.c:331 | an occurrence at some position makes strstr succeed |
| CText.DigitRun | src/http-protocol.c:448 | the run of digits strtol consumes: all digits of the base, ended by a non-digit or the end |
| CText.SpaceRun | src/http-protocol.c:448 | the run of white space strtol skips before the number |
| CText.StrToL | src/http-protocol.c:448-450 | strtol: the end pointer stays in the string and stops before a digit, the value is clamped to the range of long, and 0 comes back when nothing converts |
| CText.Clamped | src/http-protocol.c:448-450 | a converted value saturates within the range of long |
| CText.StrToLPlain | src/http-protocol.c:507 | a plain run of hex or decimal digits converts to its value and is consumed whole |
| CText.StrToLDecimal | src/http-protocol.c:448-450 | a plain run of decimal digits within range converts to its value and is consumed whole |
| CText.DigitChar | src/http-connection.c:386 | the decimal digit of a value below 10 has that value |
| CText.Digits | src/http-connection.c:386 | the decimal text of a natural number is all digits, reads back as the number and has no leading zero |
| CText.Decimal | src/http-connection.c:386 | "%d" of an int: its digits, with a minus sign when negative |
| CText.Int32 | src/http-protocol.c:468 | a value converted to int lands in the 32-bit range and is unchanged when it fits |
| CText.SizeT | src/http-util.c:417 | a value converted to size_t lands in the 64-bit unsigned range and is unchanged when it fits |
| CText.Put | src/http-util.c:270 | memcpy into a buffer: the prefix up to the copied items grows by them and nothing outside them changes |
| StringUtil.PiecesFrom | src/http-util.c:67-80 | splitting a non-empty remainder always yields at least one piece |
| StringUtil.JoinPieces | src/http-util.c:67-80 | the pieces, joined with the delimiter, give the remainder back |
| StringUtil.JoinSplit | src/http-util.c:54-90 | joining the split pieces with the delimiter gives the original string (reference: Split) |
| StringUtil.GapAvoidsDelimiter | src/http-util.c:71 | the text before the leftmost occurrence holds no occurrence |
| StringUtil.ShiftedAt | src/http-util.c:71 | an occurrence inside a slice is an occurrence in the whole string |
| StringUtil.PiecesAvoidDelimiter | src/http-util.c:67-80 | no piece of the remainder contains the delimiter |
| StringUtil.SplitAvoidsDelimiter | src/http-util.c:54-90 | no piece of a split contains the delimiter |
| StringUtil.SplitWithoutDelimiter | src/http-util.c:54-90 | a non-empty string without the delimiter is its own only piece |
| StringUtil.SplitStr | src/http-util.c:54-90 | the list built by the strstr loop is the split of the string, empty for the empty string |
| StringUtil.PiecesStep | src/http-util.c:71-78 | past a match, the pieces are the text before it followed by the pieces after it |
| StringUtil.SplitChr | src/http-util.c:93-97 | splitting on a character is splitting on the one-character string |
| StringUtil.SpaceBefore | src/http-util.c:225-226 | the run of white space just before an index, ended by a non-space or the start |
| StringUtil.StripShape | src/http-util.c:214-234 | the stripped string is the middle of the original, all white space cut on each side, and starts and ends with a non-space (reference: Strip) |
| StringUtil.StripIdempotent | src/http-util.c:214-234 | stripping a stripped string changes nothing: stripping twice equals stripping once |
| StringUtil.StripDup | src/http-util.c:214-234 | NULL gives NULL, any other string gives its stripped copy |
| StringUtil.ConcatLength | src/http-util.c:343-352 | each part sits, unchanged, at the offset of the parts before it in the concatenation (reference: Concat) |
| StringUtil.Concatenate | src/http-util.c:328-361 | no arguments give NULL, otherwise the arguments one after the other |
| StringUtil.ReplaceLength | src/http-util.c:390-397 | the replaced text's length is the original length plus the length change times the number of matches (reference: Count, Replace) |
| StringUtil.CountStep | src/http-util.c:370-372 | a match adds one to the count of the text after it |
| StringUtil.ReplaceIsJoinedPieces | src/http-util.c:399-411 | replacing is splitting at the needle and joining with the replacement, and the matches are one fewer than the pieces (reference: Replace) |
| StringUtil.ReplaceBySelf | src/http-util.c:376-418 | replacing the needle by itself changes nothing |
| StringUtil.CountSubstr | src/http-util.c:364-373 | the loop counts the leftmost non-overlapping matches (reference: Count) |
| StringUtil.StrReplace | src/http-util.c:376-418 | a NULL argument leaves the output alone and returns 0; otherwise the output is replaced by the text with every match replaced and its length is returned |
| StringUtil.ReplaceStep | src/http-util.c:399-407 | past a match, the replaced text is the text before it, the replacement, then the rest replaced |
| StringUtil.CopyMatch | src/http-util.c:399-407 | one round of the copy loop keeps the written text plus what is left to replace equal to the whole result |
| StringUtil.Rebuild | src/http-util.c:399-412 | the copy loop writes the text with every match replaced |
| ByteStreams.ByteStream.Start | src/http-util.c:247-252 | a fresh stream is empty and holds the default capacity |
| ByteStreams.ByteStream.Append | src/http-util.c:255-273 | the bytes are appended, growing the buffer to the default size plus the new length when they do not fit below the capacity; a failed reallocation leaves the stream as it was |
| ByteStreams.ByteStream.EndsWith | src/http-util.c:276-289 | true exactly when the contents are the tail preceded by at least one more byte |
| Base64.AlphabetChars | src/http-util.c:103-105 | the alphabet string has 64 characters, each the character of its index by the letter, digit and sign ranges |
| Base64.CharIndex | src/http-util.c:127-143 | the position of a character in the alphabet is always a 6-bit value |
| Base64.AlphabetMembers | src/http-util.c:103-105 | the alphabet holds exactly the letters, the digits, '+' and '/' |
| Base64.IndexChar | src/http-util.c:103-143 | an alphabet character is the character at its own index |
| Base64.CharValue | src/http-util.c:127-143 | the decoding table yields a 6-bit value for every character |
| Base64.SextetFacts | src/http-util.c:103-143 | the decoding table inverts the alphabet, and an encoded character is never '=' or NUL |
| Base64.S0 | src/http-util.c:111 | the first character's index is a 6-bit value |
| Base64.S1 | src/http-util.c:112 | the second character's index is a 6-bit value |
| Base64.S2 | src/http-util.c:114 | the third character's index is a 6-bit value |
| Base64.S3 | src/http-util.c:118 | the fourth character's index is a 6-bit value |
| Base64.ShuffleInverse | src/http-util.c:111-147 | the decoder's joins recover each of the three bytes from the encoder's four 6-bit values |
| Base64.EncodeChunk | src/http-util.c:100-122 | a group of one to three bytes encodes to four characters |
| Base64.DecodeChunk | src/http-util.c:125-148 | four characters decode to three bytes |
| Base64.ChunkShape | src/http-util.c:100-122 | a group of n bytes gives n + 1 alphabet characters followed by 3 - n '=' |
| Base64.EncodeShape | src/http-util.c:152-170 | the encoding of n bytes has 4 * ceil(n / 3) characters, all in the alphabet but for the trailing padding of 0, 1 or 2 '=' (reference: Encode) |
| Base64.LongShape | src/http-util.c:165-167 | the shape of the encoding carries over from the bytes after the first group to the whole input |
| Base64.EncodeAppend | src/http-util.c:165-167 | encoding whole groups and then the rest is encoding the whole input |
| Base64.EncodeBytes | src/http-util.c:152-170 | the encoding loop writes exactly the encoding of the input |
| Base64.PutGroup | src/http-util.c:165-167 | one encoded group extends the encoding of the groups before it |
| Base64.EncodeStep | src/http-util.c:165-167 | the encoding of one more group is the previous encoding followed by that group's four characters |
| Base64.TrailingPad | src/http-util.c:181-182 | the count of '=' at the end of a string: all of them, and the character before them is not '=' |
| Base64.DecodeGroups | src/http-util.c:186-187 | decoding every group of four characters yields three bytes per group |
| Base64.DecodeGroupsAppend | src/http-util.c:186-187 | decoding two runs of whole groups is decoding each of them in turn |
| Base64.GroupsCoverLength | src/http-util.c:180-187 | the groups the loop decodes cover the length it reports, and lie inside the input |
| Base64.Decode | src/http-util.c:173-191 | a length that is not a multiple of 4 gives NULL; otherwise the result is the reported number of decoded bytes |
| Base64.ScanPadding | src/http-util.c:180-182 | the padding scan stops at the last character that is not '=' and reduces the length by one per '=' |
| Base64.DecodeGroupsInto | src/http-util.c:186-187 | the decoding loop writes the decoding of every group it reaches |
| Base64.FirstGroups | src/http-util.c:186-187 | the first g groups decode to 3 * g bytes |
| Base64.PutDecoded | src/http-util.c:187 | decoding one more group extends what was written by its three bytes |
| Base64.GroupStep | src/http-util.c:186-187 | the first g + 1 groups decode to the first g followed by the next group |
| Base64.FirstGroupsPrefix | src/http-util.c:186-187 | the first g groups decode like the first 4 * g characters |
| Base64.DecodeStep | src/http-util.c:186-187 | the decoding of one more group extends the decoding of the prefix before it |
| Base64.DecodeRest | src/http-util.c:180-187 | what the prefix decodes to agrees with the whole decoding up to the reported length |
| Base64.DecodedPrefix | src/http-util.c:186-190 | the buffer the loop filled starts with the reported number of decoded bytes |
| Base64.GroupsLeft | src/http-util.c:186-187 | the group loop stops after exactly the number of groups the length gives |
| Base64.DecodeOverrunsOnDoublePad | src/http-util.c:180-187 | for any input whose encoding ends in "==", the decoder writes one byte more than it allocates |
| Base64.DoublePadCounts | src/http-util.c:180-187 | with two '=' the loop writes one byte more than the allocation holds |
| Base64.PaddedShape | src/http-util.c:177-182 | a string shaped like an encoding of n bytes ends in the padding of n and reports length n |
| Base64.PadCount | src/http-util.c:181-182 | a string ending in exactly p '=' has padding p |
| Base64.ChunkRoundTrip | src/http-util.c:100-148 | decoding the encoding of a group gives the group back |
| Base64.EncodedValues | src/http-util.c:111-143 | the table reads back from each encoded character the 6-bit value the encoder put there |
| Base64.DecodesBack | src/http-util.c:145-147 | a group whose characters decode to the encoder's values decodes to the original bytes |
| Base64.SamePrefix | src/http-util.c:145-147 | bytes that agree position by position form the same group |
| Base64.Rejoined | src/http-util.c:145-147 | each join of the decoder undoes the split of the encoder |
| Base64.GroupsOfEncoding | src/http-util.c:152-191 | decoding the groups of an encoding starts with the encoded bytes |
| Base64.GroupsStep | src/http-util.c:152-191 | the round trip carries over from the bytes after the first group to the whole input |
| Base64.DecodeEncode | src/http-util.c:152-191 | decoding the encoding of non-empty bytes gives exactly those bytes back (reference: Encode) |
| Headers.EntryAt | src/http-protocol.c:129-137 | the entry whose ':' was found ends after the colon and within the text |
| Headers.OneLineEntry | src/http-protocol.c:113-145 | a single line "key: value" ended by CR LF gives one entry, key and value stripped |
| Headers.EntriesStep | src/http-protocol.c:123-142 | the entries from a position are the entry at the next ':' followed by those after it |
| Headers.EntryAtStep | src/http-protocol.c:129-134 | when CR LF follows the value, the entry is the stripped key and value, and scanning resumes at the LF |
| Headers.LastEntry | src/http-protocol.c:123-142 | a block whose one ':' is followed by its final CR LF holds exactly one entry |
| Headers.NoEntryAtEnd | src/http-protocol.c:123 | the LF left after the last CR LF holds no entry |
| Headers.KeyEndsAtColon | src/http-protocol.c:123 | in a header line the first ':' is the one after the key |
| Headers.ValueEndsAtCrLf | src/http-protocol.c:133 | in a header line the first CR LF after the colon is the one ending the value |
| Headers.LineChar | src/http-protocol.c:133 | each character of a header line after its colon, by position |
| Headers.NoPairInside | src/http-protocol.c:133 | text without CR LF has no CR directly before an LF |
| Headers.InsertionPoint | src/http-protocol.c:143 | the place of a key among sorted entries: after every key it does not sort before, before the first one it does |
| Headers.Insert | src/http-protocol.c:143 | placing a header among sorted ones keeps them sorted and adds exactly that header |
| Headers.InsertKeepsOrder | src/http-protocol.c:143 | inserting at the insertion point keeps the list sorted by key |
| Headers.InsertedPair | src/http-protocol.c:143 | any two entries of the list after insertion are in key order |
| Headers.InsertedAt | src/http-protocol.c:143 | after insertion each entry is the old one before the point, the new header at it, and the old one shifted after it |
| Headers.SortByKey | src/http-protocol.c:143 | the sorted list is ordered by key under strcasecmp and is a permutation of the entries |
| Headers.ParseHeaders | src/http-protocol.c:113-145 | the parsed list is sorted by key and holds exactly the entries of the block (reference: Entries) |
| Headers.CutEntries | src/http-protocol.c:123-142 | the scanning loop cuts out the entries of the block in the order they appear (reference: Entries) |
| Headers.Search | src/http-protocol.c:618-619 | a hit of the binary search is an entry whose key equals the key ignoring case |
| Headers.SearchComplete | src/http-protocol.c:618-619 | on a sorted list the binary search misses only keys that are absent |
| Headers.Lookup | src/http-protocol.c:601-627 | a NULL list gives NULL; a found value belongs to an entry whose key equals the key ignoring case |
| Headers.LookupComplete | src/http-protocol.c:601-627 | on a sorted list the lookup gives NULL exactly when no entry has the key |
| Headers.CookiePart | src/http-protocol.c:708-711 | the part of a Set-Cookie value before its first ';', and the whole value when there is none |
| Headers.CookieParts | src/http-protocol.c:703-711 | there are at most as many Set-Cookie parts as entries |
| Headers.JoinAppend | src/http-protocol.c:717-726 | one more piece joins on after the delimiter |
| Headers.CookieIsJoinedParts | src/http-protocol.c:690-728 | from an empty cookie, when every Set-Cookie part of the list is non-empty, the result is those parts joined with "; " in list order |
| Headers.JoinNonEmpty | src/http-protocol.c:717-721 | pieces starting with a non-empty one join to a non-empty string |
| Headers.CookieStep | src/http-protocol.c:703-726 | one more entry adds its Set-Cookie part, after "; " when the cookie is not empty, and leaves any other entry out (reference: UpdatedCookie) |
| Headers.UpdateCookie | src/http-protocol.c:690-728 | the cookie after the loop is the cookie after every Set-Cookie entry of the list; a NULL list leaves it alone (reference: UpdatedCookie) |
| Transport.Moved | src/http-connection.c:276-313 | one transfer moves at most the request and what is available, and moves something exactly when the peer accepts, something was asked for and something is there |
| Transport.OutcomePolicy | src/http-connection.c:264-327 | a request of 0 bytes returns 0 and only it does; a link that is not ready, or a transfer that moves nothing, returns -1; otherwise the count moved (reference: Outcome) |
| Transport.ReadStep | src/http-connection.c:298-327 | a read returns between -1 and the size, 0 exactly for size 0; a positive result consumes that many bytes of input and delivers them, anything else consumes nothing; writes are untouched |
| Transport.WriteStep | src/http-connection.c:264-295 | a write returns between -1 and the length, 0 exactly for no data; every non-empty call is logged; a positive result delivers that prefix of the data; input is untouched; under TLS the readiness poll is skipped and a transfer able to take everything returns the whole length |
| Transport.ReadReports | src/http-connection.c:314-321 | after a read the error handler has run at most once, with the transfer's errno, and it has run exactly when a handler is installed, the poll was ready and the transfer returned non-zero with errno set (reference: Notifies) |
| Transport.WriteReports | src/http-connection.c:280-287 | the same policy for writes of non-empty data, with the poll skipped under TLS (reference: Notifies) |
| Transport.ReadHandlerObserves | src/http-connection.c:318-322 | with or without an error handler a read returns and consumes the same; the handler only adds to the report log |
| Transport.WriteHandlerObserves | src/http-connection.c:284-288 | with or without an error handler a write returns and delivers the same; the handler only adds to the report log |
| Transport.FirstConnecting | src/http-connection.c:147-173 | the first address that connects, with none before it, or none when no address connects |
| Transport.Attempted | src/http-connection.c:80-113 | at most 32 resolved addresses are tried, the first ones, all of them when there are no more |
| Transport.Dial | src/http-connection.c:133-178 | create_socket returns the socket or -1 |
| Transport.DialFirstWins | src/http-connection.c:147-173 | the socket comes back exactly when the first connecting address is on a plain port or a TLS session was made for it; later addresses are never considered (reference: IsTlsPort) |
| Transport.Link.constructor | src/http-connection.c:181-193 | a new link holds its host and service, no socket, no TLS and no handlers |
| Transport.Link.CreateSocket | src/http-connection.c:133-178 | returns what Dial says, keeps the socket, records the port of the first connecting address and opens TLS exactly on ports 443, 993 and 6984 when a session could be made (reference: IsTlsPort) |
| Transport.Link.HasData | src/http-connection.c:234-241 | the answer of one read-readiness poll, which is consumed |
| Transport.Link.WantsData | src/http-connection.c:224-231 | always true under TLS without polling; otherwise the answer of one write-readiness poll, which is consumed |
| Transport.Link.Read | src/http-connection.c:298-327 | the result, the bytes and the new peer are those of ReadStep |
| Transport.Link.Write | src/http-connection.c:264-295 | the result and the new peer are those of WriteStep |
| Transport.Link.WriteLine | src/http-connection.c:330-369 | nothing is written when the link is not ready to write; otherwise the formatted text is written as by WriteStep after the poll |
| Transport.Link.WriteNewline | src/http-connection.c:353-356 | writes CR LF as WriteStep does; the result is never 0 and the call is logged |
| Transport.Link.SetErrorHandler | src/http-connection.c:513-518 | the error handler is installed or removed |
| Transport.Link.SetOnCloseHandler | src/http-connection.c:521-527 | the websocket close handler is installed or removed |
| Transport.Link.SetOnErrorHandler | src/http-connection.c:530-536 | the websocket error handler is installed or removed |
| Transport.Connect | src/http-connection.c:181-204 | NULL exactly when the socket cannot be made; otherwise a fresh link to the host and service with the socket dialled |
| Transport.Reconnect | src/http-connection.c:506-511 | -1 for a NULL link; otherwise 1 when dialling again gives a socket and 0 when it does not, the far side unchanged |
| Transport.ReadByte | src/http-protocol.c:256-258 | the byte and the new peer are those of a one-byte ReadStep: nothing exactly when that read fails, otherwise the next input byte, consumed |
| Transport.ReadOne | src/http-protocol.c:256-258 | a one-byte read gives nothing exactly when its ReadStep fails, and otherwise the next input byte, consumed |
| Transport.Bytewise | src/http-protocol.c:253-270 | a loop of one-byte reads only moves the cursor forward over the input and writes nothing |
| Transport.Run | src/http-protocol.c:253-270 | the byte-by-byte run over a stretch of input uses at most that stretch, all of it unless it stops or finishes |
| Transport.BytewiseServed | src/http-protocol.c:253-270 | on a peer whose polls are ready and whose transfers move bytes, the loop of one-byte reads ends as the run over the unread input does, after the bytes it uses |
| Transport.BytewiseRan | src/http-protocol.c:253-270 | on any peer the loop of one-byte reads finishes exactly when the run over the bytes it consumed does, with the same value |
| Transport.ServedRead | src/http-connection.c:298-327 | a read from a peer whose poll is ready and whose transfer moves bytes returns what the transfer, the size and the input allow, and consumes those bytes |
| Transport.ServedMove | src/http-connection.c:298-327 | such a read with input left returns a positive count and the peer still serves reads |
| Transport.ServedByte | src/http-protocol.c:256-258 | a one-byte read from such a peer with input left returns the next byte |
| Transport.ServedEnd | src/http-protocol.c:256-258 | a one-byte read from such a peer with no input left fails |
| Socks5.ServicePort | src/http-connection.c:390-396 | port 80 exactly for "http", 443 exactly for "https", and no port for any other service |
| Socks5.PortBytes | src/http-connection.c:391-421 | the port in network byte order: two bytes, high byte first, that read back as the port |
| Socks5.ParseConnectRequest | src/http-connection.c:418-421 | a target read out of a CONNECT request has a host of at most 255 bytes and a 16-bit port |
| Socks5.ConnectRequestRoundTrip | src/http-connection.c:398-421 | the proxy recovers exactly the host and the port from the CONNECT request the library sends (section 4 of RFC 1928) |
| Socks5.UnlistedStatusAccepted | src/http-connection.c:428-455 | a reply status is accepted exactly when it is 0 or one of the unlisted values 9 to 255 |
| Socks5.RequestWritesSpellRequest | src/http-connection.c:406-421 | the writes are the greeting, then the pieces of exactly one CONNECT request |
| Socks5.ReadMethodReply | src/http-connection.c:408-416 | the new peer is that of a two-byte ReadStep; a reply comes back exactly when that read returns 2, and is the bytes read; it fails exactly when such a reply is not 05 00 |
| Socks5.SkipBoundAddress | src/http-connection.c:457-483 | the result and new peer are those of the address and port reads; it succeeds exactly when the address type is 1, 3 or 4 and the cursor moved over the bound address of that type (4, 1 + length or 16 bytes) and the 2-byte port |
| Socks5.BoundRead | src/http-connection.c:457-483 | the address and port reads only move the cursor forward and write nothing |
| Socks5.BoundReadSkipped | src/http-connection.c:457-483 | those reads succeed exactly when the address type is known and the cursor moved over the whole bound address and port |
| Socks5.ReadConnectReply | src/http-connection.c:423-484 | a head comes back exactly when the four-byte read returns 4; without one the call succeeds; with one it succeeds exactly when the head is accepted and the bound address and port were consumed after it |
| Socks5.SendConnect | src/http-connection.c:418-421 | writes the command, the length byte, the host and the port, in that order, and reads nothing |
| Socks5.Greet | src/http-connection.c:406-416 | the greeting is written, then the method reply is read as by a two-byte ReadStep; it fails exactly when such a reply is not 05 00 |
| Socks5.Request | src/http-connection.c:418-484 | the CONNECT request is written; it succeeds exactly when no reply head arrives, or an accepted one is followed by the whole bound address and port |
| Socks5.Negotiate | src/http-connection.c:405-484 | succeeds exactly when both replies pass (a method reply, if it came, is 05 00; a connect reply head, if it came, is accepted and followed by the whole bound address and port); on success the writes are exactly the greeting and the CONNECT request |
| Socks5.OpenSocks5 | src/http-connection.c:372-495 | a link comes back exactly when the proxy port text is short enough, the service is http or https, the host has at most 255 bytes, the proxy connection is made and both replies pass; it is then a fresh link to the proxy port whose host is the target, whose writes are the greeting and the CONNECT request and whose cursor is where negotiation stopped |
| ResponseHead.Kept | src/http-protocol.c:252-270 | the bytes the line reader stores hold no CR and no LF |
| ResponseHead.Extend | src/http-protocol.c:252-270 | one more byte moves the state by the switch, keeps the byte unless it is CR or LF, and is read only while the line is still open (reference: NextState) |
| ResponseHead.ReadLine | src/http-protocol.c:241-278 | the line and the new peer are those of the readline loop on the peer (stopping only at a failed read, a second CR or the LF after a CR); the line comes back exactly when the consumed bytes end it, and is those bytes without CR and LF |
| ResponseHead.LineByte | src/http-protocol.c:253-270 | one turn of the loop: the readline loop from before the turn is a stop after a failed read or a second CR, the line after the LF that follows a CR, and otherwise the loop from the new state |
| ResponseHead.LineOnce | src/http-protocol.c:253-270 | the readline loop is one read, then a stop on a failed read or a second CR, the kept bytes at the LF after a CR, or the loop again from the next state |
| ResponseHead.LineServed | src/http-protocol.c:241-278 | a peer whose polls are ready and whose transfers move bytes, sending text without CR or LF and then CR LF, gives the text as the line and stops right after the LF |
| ResponseHead.LineRun | src/http-protocol.c:253-270 | over text without CR or LF followed by CR LF, the reader keeps the text and uses the text and the CR LF |
| ResponseHead.LineConsumed | src/http-protocol.c:241-278 | whatever the peer answers, the readline loop gives a line exactly when the bytes it consumed end one, and the line is the bytes kept from them |
| ResponseHead.LineRunFrom | src/http-protocol.c:253-270 | a run that uses all of its bytes ends the line exactly when those bytes, after the ones before, end it |
| ResponseHead.LineTurnAfter | src/http-protocol.c:255-269 | one byte through the reader continues, finishes or stops as the state after it says |
| ResponseHead.LineSwitch | src/http-protocol.c:255-269 | the switch moves the state as the line automaton does, stops exactly on an invalid line, and keeps every byte but CR and LF (reference: NextState) |
| ResponseHead.PlainText | src/http-protocol.c:266-268 | text without CR or LF leaves the reader waiting for a CR and is kept whole |
| ResponseHead.LineRoundTrip | src/http-protocol.c:241-278 | text followed by CR LF, as write_line sends it, is read back as exactly that text |
| ResponseHead.BareLineFeedDropped | src/http-protocol.c:261-264 | an LF that does not follow a CR is dropped and the reader keeps waiting for a CR |
| ResponseHead.SecondCarriageReturnInvalid | src/http-protocol.c:256-260 | a second CR before the LF makes the line invalid |
| ResponseHead.AwaitingNewLine | src/http-protocol.c:255-264 | while the reader waits for an LF, a CR was read and nothing but plain bytes came after it |
| ResponseHead.LineEnd | src/http-protocol.c:255-264 | a finished line ends in an LF right after the only CR that is not yet closed |
| ResponseHead.CodeValue | src/http-protocol.c:223-227 | the code stored in the enum is a 32-bit int |
| ResponseHead.AbsorbedFields | src/http-protocol.c:207-236 | walking the tokens through the switch sets exactly the protocol from the first, the code from the second and the message from the third (reference: StatusOf) |
| ResponseHead.NextToken | src/http-protocol.c:211-214 | the token at the head runs to the next space, or to the end of the line when there is none |
| ResponseHead.ParseResponseCode | src/http-protocol.c:189-238 | NULL gives NULL; otherwise the status fields of the line's space-separated tokens |
| ResponseHead.TakeToken | src/http-protocol.c:211-234 | one turn of the token loop: the token up to the next space goes through the switch and the scan moves past that space |
| ResponseHead.AbsorbStep | src/http-protocol.c:218-231 | the switch over one more token builds on the status of the tokens before it |
| ResponseHead.CodeOfDecimal | src/http-protocol.c:223-227 | a code written as decimal digits, with or without a trailing CR, is read back |
| ResponseHead.DigitRunOver | src/http-protocol.c:224 | the digits strtol consumes end at the first non-digit |
| ResponseHead.CodeWithJunk | src/http-protocol.c:225-226 | a code followed by anything but the end of the token or CR is HTTP_INVALID_CODE |
| ResponseHead.StatusLineFields | src/http-protocol.c:189-238 | "protocol code message" gives the stripped protocol, the code and the stripped message, and anything after another space is ignored (reference: StatusOf) |
| ResponseHead.ThreeTokens | src/http-protocol.c:207-236 | a line with spaces at two places splits into the three tokens between them |
| ResponseHead.TokenUntil | src/http-protocol.c:211-214 | the pieces from a position are the token up to the next space, then the pieces after it |
| ResponseHead.GetResponseCode | src/http-protocol.c:281-292 | the new peer is that of the readline loop; a status comes back exactly when it gives a line, and it is the parsed fields of that line |
| ResponseHead.EndsWithBlankLine | src/http-protocol.c:313 | the block is complete exactly when it is CR LF CR LF preceded by at least one byte |
| ResponseHead.GetResponseHeaders | src/http-protocol.c:295-323 | the new peer is that of the header loop (stopping only at a failed read or the byte that completes the block); the list comes back exactly when the block completed, sorted by key and holding the entries of the block |
| ResponseHead.HeaderByte | src/http-protocol.c:307-314 | one turn of the loop appends the byte read and reports whether the block is complete; the header loop from before the turn is a stop after a failed read, the block once complete, and otherwise the loop from the new peer |
| ResponseHead.BlockOnce | src/http-protocol.c:307-314 | the header loop is one read, then a stop on a failed read, the block once the byte completes it, or the loop again |
| ResponseHead.BlockServed | src/http-protocol.c:295-323 | a peer whose polls are ready and whose transfers move bytes, sending a block no shorter prefix of which completes, gives that block and stops right after it |
| ResponseHead.BlockRun | src/http-protocol.c:307-314 | over bytes whose first n complete the block and no fewer do, the loop finishes with them after n bytes |
| ResponseHead.BlockConsumed | src/http-protocol.c:295-323 | whatever the peer answers, the header loop gives a block exactly when the bytes it consumed complete one, and the block is those bytes |
| ResponseHead.BlockRunFrom | src/http-protocol.c:307-314 | a run that uses all of its bytes finishes exactly when they complete the block |
| ResponseHead.BlockTurnAfter | src/http-protocol.c:307-314 | one byte appended to an incomplete block finishes it exactly when it completes it |
| ResponseBody.ContentLengthDecimal | src/http-protocol.c:442-452 | a decimal Content-Length is read as the number it spells (reference: ContentLength) |
| ResponseBody.ContentLengthTrailing | src/http-protocol.c:449-450 | anything after the digits, a trailing space included, makes the length 0 (reference: ContentLength) |
| ResponseBody.TransferEncodingWins | src/http-protocol.c:559-575 | any Transfer-Encoding header rules out a sized body, and the body is chunked exactly when that header is "chunked" ignoring case (reference: FramingOf) |
| ResponseBody.SizedByContentLength | src/http-protocol.c:559-568 | without Transfer-Encoding the body is sized exactly when Content-Length reads as a positive number, and is never chunked (reference: FramingOf) |
| ResponseBody.TruncatedRequestStalls | src/http-protocol.c:464-478 | a remainder of 2^32 bytes reaches httpio_read as a size of 0, which returns 0 and consumes nothing |
| ResponseBody.Request | src/http-protocol.c:468 | the size asked for is positive and at most the remainder, fits an int, and equals what the code asks for whenever the remainder fits an int |
| ResponseBody.Gather | src/http-protocol.c:464-478 | the gathering loop only moves the cursor forward, by at most the length asked for, and succeeds exactly when it moved by all of it |
| ResponseBody.GatherOnce | src/http-protocol.c:464-478 | the gathering loop is one read, then failure when it returns a negative count, or the loop again with less pending |
| ResponseBody.GatherStep | src/http-protocol.c:464-478 | one read of the loop, told by its result and the peer after it |
| ResponseBody.GatherAdvance | src/http-protocol.c:464-478 | on a peer whose polls are ready and whose transfers move bytes, each read moves forward and leaves the loop with less pending |
| ResponseBody.GatherServed | src/http-protocol.c:455-482 | on such a peer with the bytes to send, the loop gets all of them, whatever each transfer moves |
| ResponseBody.ReadExactly | src/http-protocol.c:455-482 | success and the new peer are those of the gathering loop with reads capped at INT_MAX bytes (stopping only at a failed read): it succeeds exactly when all the declared bytes were consumed, and then returns exactly those bytes |
| ResponseBody.ScanOf | src/http-protocol.c:497-500 | the size-line reader keeps at most 15 characters |
| ResponseBody.ScanFrom | src/http-protocol.c:497-500 | the scanner run over bytes keeps at most 15 characters when it starts with at most 15 |
| ResponseBody.ScanFromSnoc | src/http-protocol.c:497-500 | scanning one more byte is one more step of the scanner |
| ResponseBody.ScanExtended | src/http-protocol.c:497-500 | the reader's state after one more byte is one step from the state before |
| ResponseBody.Before | src/http-protocol.c:497-498 | the bytes before the first stop byte: a prefix without it, followed by it unless it is the whole input |
| ResponseBody.BeforeIs | src/http-protocol.c:497-498 | a prefix without the stop byte that ends at one, or at the end, is what Before gives |
| ResponseBody.BeforeAtLeast | src/http-protocol.c:497-498 | a prefix without the stop byte lies within Before |
| ResponseBody.BeforeExtended | src/http-protocol.c:497-498 | one more byte extends Before only while no stop byte has been seen |
| ResponseBody.SizeDigitsBeforeSemicolon | src/http-protocol.c:497-500 | the reader has seen ';' exactly when the line holds one, and keeps the first 15 characters before the first ';' |
| ResponseBody.ScanKeepsBefore | src/http-protocol.c:497-500 | one more byte other than CR keeps the reader equal to the first 15 characters before ';' |
| ResponseBody.SizeDigitsOfExtended | src/http-protocol.c:497-500 | a chunk extension after ';' adds nothing to the kept characters |
| ResponseBody.ExtensionIgnored | src/http-protocol.c:497-509 | a chunk extension after ';' does not change the chunk size (section 4.1.1 of RFC 7230) |
| ResponseBody.SizeDigitsOfLong | src/http-protocol.c:499-500 | a size line longer than 15 characters keeps only its first 15 |
| ResponseBody.LongSizeCut | src/http-protocol.c:499-509 | characters past the fifteenth do not change the chunk size |
| ResponseBody.EmptySizeLine | src/http-protocol.c:506-509 | an empty size line reads as size 0, the last chunk |
| ResponseBody.HexValueBound | src/http-protocol.c:507 | n hexadecimal digits spell a value below 16^n |
| ResponseBody.HexStrToL | src/http-protocol.c:507 | strtol base 16 reads a plain run of at most 15 hexadecimal digits as their value, consumed whole |
| ResponseBody.HexRuns | src/http-protocol.c:507 | a run of hexadecimal digits has no leading space, sign or "0x", and strtol takes all of it as digits |
| ResponseBody.HexValueSmall | src/http-protocol.c:507 | 15 hexadecimal digits spell a value that fits a long |
| ResponseBody.PlainSizeDigits | src/http-protocol.c:499-500 | a line of at most 15 bytes without ';' is kept whole |
| ResponseBody.HexChunkSize | src/http-protocol.c:485-514 | a size line of up to 15 hexadecimal digits is read as the number they spell (reference: ChunkSize, SizeValue) |
| ResponseBody.HexLineBytes | src/http-protocol.c:497-505 | hexadecimal digits are neither ';', NUL nor CR |
| ResponseBody.ChunkLength | src/http-protocol.c:485-514 | the length and new peer are those of the size-line loop on the peer; no CR before the line end is consumed; a line ended by CR LF gives its chunk size, anything else SIZE_MAX |
| ResponseBody.ScanSizeLine | src/http-protocol.c:496-506 | the result and new peer are those of the size-line loop (stopping only at a failed read or at the byte after the first CR); the kept characters come back exactly when that byte is an LF |
| ResponseBody.SizeLineEnd | src/http-protocol.c:501-505 | the result and new peer are those of the one-byte read after the CR: the kept characters exactly when it gives an LF |
| ResponseBody.SizeOnce | src/http-protocol.c:496-506 | the size-line loop is one read, then a stop on a failed read, the LF check after a CR, or the loop again with the byte scanned |
| ResponseBody.EndOnce | src/http-protocol.c:501-505 | the LF check gives the kept characters exactly when the byte read is an LF |
| ResponseBody.ChunkRead | src/http-protocol.c:485-514 | the chunk-length read only moves the cursor forward and writes nothing |
| ResponseBody.SizeServed | src/http-protocol.c:496-506 | a peer whose polls are ready and whose transfers move bytes, sending a line without CR and then CR LF, gives the line's kept characters and stops right after the LF |
| ResponseBody.SizeRun | src/http-protocol.c:496-506 | over a line without CR followed by CR LF, the reader finishes with the scanned line and uses it and the CR LF |
| ResponseBody.SizeConsumed | src/http-protocol.c:496-506 | whatever the peer answers, the size-line loop has consumed no CR before the line end, and gives the kept characters exactly when the consumed bytes are a size line |
| ResponseBody.SizeRunFrom | src/http-protocol.c:496-506 | a run that uses all of its bytes finishes exactly when they are a size line, with the characters scanned from the line |
| ResponseBody.SizeLineAfter | src/http-protocol.c:496-500 | a byte other than CR in front of bytes keeps them a size line or not, and scans into the same kept characters |
| ResponseBody.SizeAtCR | src/http-protocol.c:501-505 | at the CR the run uses at most one more byte and finishes exactly when it is an LF |
| ResponseBody.AfterCRRun | src/http-protocol.c:501-505 | after the CR the run uses the next byte, if any, and finishes exactly when it is an LF |
| ResponseBody.Consumed | src/http-protocol.c:496-506 | what the reader consumes is a size line exactly when it ends in CR LF |
| ResponseBody.GoingAll | src/http-protocol.c:523-544 | the loop goes on after rounds exactly when each is well formed and carried data |
| ResponseBody.FramedAll | src/http-protocol.c:523-544 | a chunked body is well-formed rounds, all carrying data but the last, which is empty |
| ResponseBody.Slices | src/http-protocol.c:523-544 | consecutive slices of the input join |
| ResponseBody.SizeLineSplit | src/http-protocol.c:496-506 | a size line is text without CR followed by CR LF |
| ResponseBody.RoundOf | src/http-protocol.c:526-543 | the size line, data and trailing read of one turn form a well-formed round whose bytes are what the turn consumed |
| ResponseBody.NextRound | src/http-protocol.c:523-544 | one turn of the loop: the chunked loop from before the turn is None after a failed data read, and otherwise the loop from the new peer and stream, closed when the size was 0 |
| ResponseBody.ReadRound | src/http-protocol.c:526-543 | success and the new peer are those of one round on the peer (size line, data, two-byte read); on success the round's data is appended to the stream |
| ResponseBody.ReadData | src/http-protocol.c:530-543 | success and the new peer are those of the data reads and the two-byte read; it fails only when a data read fails, and the data is appended to the stream |
| ResponseBody.Discard | src/http-protocol.c:543 | the new peer is that of the ignored ReadStep of the given size, which consumes at most that many bytes |
| ResponseBody.ReadInto | src/http-protocol.c:530-542 | success and the new peer are those of the gathering loop with reads of at most 0x4000 bytes; everything consumed is appended to the stream |
| ResponseBody.ReadPiece | src/http-protocol.c:533-541 | one read appends what it consumed; a negative result means the gathering loop ends there in failure, any other is positive, at most what is pending, and leaves the loop to go on with less pending |
| ResponseBody.ReadChunks | src/http-protocol.c:517-549 | the payload and the new peer are those of the chunked loop on the peer (stopping only at a failed data read or an empty chunk); on success the consumed input is a chunked body and the payload is the data of its chunks in order |
| ResponseBody.DataRead | src/http-protocol.c:530-543 | the data reads and the two-byte read: on success the data is the next size bytes of input and at most two more bytes follow it |
| ResponseBody.RoundRead | src/http-protocol.c:526-543 | one round consumes at least the data it gives |
| ResponseBody.ChunksRead | src/http-protocol.c:517-549 | the chunked loop only moves the cursor forward and writes nothing |
| ResponseBody.ChunksAfter | src/http-protocol.c:523-544 | the chunked loop after its first round only moves the cursor forward |
| ResponseBody.ChunksOnce | src/http-protocol.c:523-544 | the chunked loop is one round, then None after a failed data read, the empty payload after an empty chunk, or the round's data before the rest of the loop |
| ResponseBody.RoundIn | src/http-protocol.c:526-543 | a size line, the data it announces and at most two more bytes cut out of the input form a well-formed round |
| ResponseBody.MeasuredFront | src/http-protocol.c:523-544 | rounds are measured exactly when the first is and the rest are |
| ResponseBody.FlattenFront | src/http-protocol.c:523-544 | the bytes of rounds are the first round's bytes and then the rest's |
| ResponseBody.PayloadsFront | src/http-protocol.c:523-544 | the data of rounds is the first round's data and then the rest's |
| ResponseBody.RoundServed | src/http-protocol.c:526-543 | a peer whose polls are ready and whose transfers move at least 2 bytes, sending a well-formed round ended by CR LF, gives that round's data and stops right after it |
| ResponseBody.LengthServed | src/http-protocol.c:485-514 | such a peer sending a size line and CR LF gives the size of the line, right after the LF |
| ResponseBody.DataServed | src/http-protocol.c:530-543 | such a peer sending the data and CR LF gives the data and stops after the two bytes |
| ResponseBody.ChunksServed | src/http-protocol.c:517-549 | such a peer sending a chunked body with CR LF after each chunk gives the data of its chunks and stops right after the body |
| ResponseBody.RoundFramed | src/http-protocol.c:526-543 | a round the loop reads is a well-formed, measured round of the bytes consumed, whose data is the result |
| ResponseBody.RoundParts | src/http-protocol.c:526-543 | one round read, in the positions it passed: a size line giving the size, then the data of that size |
| ResponseBody.ChunkConsumed | src/http-protocol.c:485-514 | whatever the peer answers, the chunk length is the size line's size when the consumed bytes are a size line, SIZE_MAX otherwise |
| ResponseBody.ChunksFramed | src/http-protocol.c:517-549 | whatever the peer answers, a payload from the chunked loop means the input consumed is a chunked body and the payload is its chunks' data |
| ResponseBody.RoundsAdded | src/http-protocol.c:523-544 | a round with data in front of measured rounds keeps them measured and puts its bytes and data in front |
| ResponseBody.FramedAdded | src/http-protocol.c:523-544 | a well-formed round with data in front of a chunked body gives a chunked body |
| ResponseBody.FramedFront | src/http-protocol.c:523-544 | a chunked body is a well-formed first round, then, when it carried data, a chunked body |
| ResponseBody.RoundsFront | src/http-protocol.c:523-544 | a terminated chunked body starts with a well-formed, measured round ended by CR LF; it is the last round exactly when it carries no data, and otherwise the rest is again a terminated chunked body |
| ResponseBody.ChunksStep | src/http-protocol.c:523-544 | on a peer that serves reads, one round sent ends the loop when it is empty and puts its data in front of the rest of the loop otherwise |
| ResponseBody.OneChunkBody | src/http-protocol.c:517-549 | one hex-sized chunk followed by the zero chunk, each ended by CR LF, is a chunked body whose payload is the chunk's data |
| ResponseBody.ZeroChunkSize | src/http-protocol.c:507-528 | the size line "0" announces the last chunk |
| ResponseBody.ZeroLine | src/http-protocol.c:507-509 | a size line holding just "0" has size 0 and no CR |
| ResponseBody.ZeroDigits | src/http-protocol.c:507 | the digit "0" has value 0 |
| ResponseBody.TwoRounds | src/http-protocol.c:523-544 | a data round followed by a closing round is a chunked body whose payload is the data |
| ResponseBody.ContainsMentions | src/http-protocol.c:331-337 | strstr succeeds exactly when the word occurs somewhere in the text |
| ResponseBody.TextTypes | src/http-protocol.c:326-339 | a body is text when it has no Content-Type, and otherwise exactly when the type mentions text, html, xml or json (reference: IsText) |
| ResponseBody.Gunzip | src/http-protocol.c:381-387 | data that fails the gzip magic check (at least ten bytes, 1F 8B) is not inflated (reference: GzipMagic) |
| ResponseBody.Body.constructor | src/http-protocol.c:342-354 | a body holds its buffer and length |
| ResponseBody.FinishedShape | src/http-protocol.c:342-370 | a finished body holds the decoded bytes and their length; a text body, and only a text body, has one NUL after them; a failed gunzip leaves length 0; without an encoding the bytes are those received (reference: Finished) |
| ResponseBody.GzipRejected | src/http-protocol.c:349-387 | a gzip body that fails the magic check becomes an empty body: a lone NUL when it is text, NULL otherwise (reference: GzipMagic, Finished) |
| ResponseBody.BodyCreate | src/http-protocol.c:342-370 | a fresh body storing what Finished says |
| ResponseBody.GetResponseBody | src/http-protocol.c:553-576 | no framing gives NULL and reads nothing; a sized body has the new peer of the gathering loop and comes back exactly when all its bytes arrive, stored finished; a chunked body has the new peer of the chunked loop and comes back exactly when that loop gives a payload, stored finished |
| ResponseBody.BodyData | src/http-protocol.c:650-655 | NULL for a NULL body, the body's buffer otherwise |
| ResponseBody.BodyLength | src/http-protocol.c:670-675 | 0 for a NULL body, the body's length otherwise |
| ResponseBody.TakeData | src/http-protocol.c:658-667 | the buffer passes to the caller and the body is left empty with length 0; NULL for a NULL body |
| Response.Response.constructor | src/http-protocol.c:579-590 | a response holds its status, header list and body |
| Response.ReadResponse | src/http-protocol.c:579-590 | the status line, the header block and the body are read in that order, each from where the one before stopped; the status is present exactly when the readline loop gives a line, the headers exactly when the header loop completes the block, and the body follows the framing of those headers: none, the gathering loop for a sized body, the chunked loop for a chunked one |
| Response.GetCode | src/http-protocol.c:678-687 | HTTP_INVALID_CODE for a NULL response or one without a status, the parsed code otherwise |
| Response.GetHeaders | src/http-protocol.c:593-598 | NULL for a NULL response, its header list otherwise |
| Response.GetBody | src/http-protocol.c:642-647 | NULL for a NULL response, its body otherwise |
| WebSocket.XorBits | src/http-websockets.c:54-56 | the bitwise exclusive or of two n-bit numbers stays below 2^n |
| WebSocket.XorBitsTwice | src/http-websockets.c:54-56 | xor-ing twice with the same key gives the original n-bit value back |
| WebSocket.XorTwice | src/http-websockets.c:54-56 | xor-ing a byte twice with the same key byte gives the byte back |
| WebSocket.Mask | src/http-websockets.c:54-56 | the masked payload has the message's length, and byte i is message byte i xor key byte i mod 4 |
| WebSocket.MaskTwice | src/http-websockets.c:54-56 | masking is its own inverse: masking the masked payload with the same key restores the message |
| WebSocket.MaskInto | src/http-websockets.c:54-56 | the loop fills a fresh buffer with exactly the masked payload |
| WebSocket.SendHeader | src/http-websockets.c:42-49 | the client header is two bytes, the first 0x81 (final text frame), the second with the mask bit set |
| WebSocket.SendHeaderDecodes | src/http-websockets.c:104-109 | for a message shorter than 126 bytes the frame reader decodes the header built by send_string back to a final, masked text frame of that length (reference: HeadOf) |
| WebSocket.BigEndianBytes | src/http-websockets.c:111-122 | the big-endian encoding of n has exactly k bytes |
| WebSocket.BigEndianRoundTrip | src/http-websockets.c:111-122 | reading the k big-endian bytes of n < 256^k gives n back |
| WebSocket.ServerHeaderDecodes | src/http-websockets.c:104-122 | every unmasked server header with a 7-bit, 16-bit or 32-bit length decodes back to its FIN bit, opcode and length, and consumes 2 plus the extended-length bytes (reference: HeadOf) |
| WebSocket.FirstByteDecodes | src/http-websockets.c:106-107 | the first header byte gives back its FIN bit and its opcode |
| WebSocket.SendString | src/http-websockets.c:27-63 | a NULL link, a NULL message or an empty message sends nothing and fails; otherwise the header, the 4-byte mask and the masked message are written in that order, each write stopping the send unless complete, and success means all three were written |
| WebSocket.SendPayload | src/http-websockets.c:42-62 | the three writes of a non-empty message and the outcome: header, key, masked payload, success exactly when the last write did not fail |
| WebSocket.Frame.constructor | src/http-websockets.c:19-24 | a frame holds its data, type and length |
| WebSocket.GetFrame | src/http-websockets.c:84-163 | the new peer is that of the frame loop on the peer; a frame comes back exactly when that loop gives a message with a non-empty payload, holding the payload plus a NUL, its length and the last frame's opcode; the input consumed is exactly the fragments read |
| WebSocket.HeadRead | src/http-websockets.c:104-124 | the header reads only move the cursor forward, past at least one byte when they give a header |
| WebSocket.HeadSteps | src/http-websockets.c:104-124 | the header reads are the two-byte read, then nothing on failure, the header from the buffer for a 7-bit length, or the extended-length read |
| WebSocket.ExtendedRead | src/http-websockets.c:111-123 | the extended-length read only moves the cursor forward |
| WebSocket.HeadBytes | src/http-websockets.c:104-124 | the header reads consume the header bytes and the extended length, and when each read returned all it asked for the header is the one those bytes spell |
| WebSocket.FramesRead | src/http-websockets.c:100-149 | the frame loop only moves the cursor forward and writes nothing |
| WebSocket.FramesFrom | src/http-websockets.c:100-149 | the frame loop from any point only moves the cursor forward |
| WebSocket.FramesAfter | src/http-websockets.c:126-149 | the frame loop after a frame's header reads only moves the cursor forward |
| WebSocket.FramesOnce | src/http-websockets.c:100-149 | the frame loop is the header reads, then None after a failed read or a masked frame, the message at FIN, or the loop again with the payload kept |
| WebSocket.FrameLoop | src/http-websockets.c:100-149 | the loop ends as the frame loop on the peer does; on success the stream holds the message's payload and the type is the last opcode; the input consumed is the fragments read |
| WebSocket.PieceAdded | src/http-websockets.c:100-149 | one more fragment extends the bytes and the payloads, and leaves the loop going, complete, or ended by a masked frame or a failed read |
| WebSocket.ProgressEnded | src/http-websockets.c:149-151 | a loop that read a final fragment ends with a frame exactly when the payload is not empty |
| WebSocket.PieceRead | src/http-websockets.c:103-148 | one fragment in the positions it passed: its bytes, its payload, and what the frame loop then gives |
| WebSocket.NextPiece | src/http-websockets.c:103-148 | one fragment: its header and payload are consumed and the payload appended to the stream; the frame loop from before it is None after a failed read or a masked fragment, the message when the fragment has FIN, and otherwise the loop from the new peer with the payload kept |
| WebSocket.ReadHead | src/http-websockets.c:104-122 | the header, the buffer and the new peer are those of the header reads: nothing exactly when the first or the extended-length read fails, otherwise FIN, opcode, mask bit and length decoded from the bytes read |
| WebSocket.ReadExtended | src/http-websockets.c:111-122 | the result, the buffer and the new peer are those of the extended-length read; on success the length is the 2 or 4 bytes read, big-endian |
| WebSocket.HeadFields | src/http-websockets.c:106-123 | a 7-bit length decodes without reading; otherwise the result is that of the extended-length read |
| WebSocket.Overwrite | src/http-websockets.c:104 | a read copied over the start of the buffer keeps its size and starts with the bytes read |
| WebSocket.Overlay | src/http-websockets.c:104 | the buffer becomes the bytes read copied over its start |
| WebSocket.Assemble | src/http-websockets.c:114-122 | the shifts and ors compute the big-endian value of the bytes read |
| WebSocket.BigEndianTwo | src/http-websockets.c:114 | the 2-byte length is b0 * 256 + b1 |
| WebSocket.BigEndianFour | src/http-websockets.c:119-122 | the 4-byte length is b0 * 2^24 + b1 * 2^16 + b2 * 2^8 + b3 |
| WebSocket.HeadServed | src/http-websockets.c:104-124 | a peer whose polls are ready and whose transfers move at least 4 bytes, sending a server header, gives the FIN bit, opcode, unmasked flag and length it encodes, right after the header |
| WebSocket.ExtendedServed | src/http-websockets.c:111-123 | such a peer sending the extended-length bytes gives the header they complete |
| WebSocket.FrameServed | src/http-websockets.c:100-149 | such a peer sending a frame gives the message when it has FIN, and the rest of the loop with the payload kept otherwise |
| WebSocket.FramesServed | src/http-websockets.c:100-149 | such a peer sending the frames of a fragmented message gives the message: the last opcode and the payloads in order |
| WebSocket.MessageServed | src/http-websockets.c:84-163 | the frame loop on such a peer reads a fragmented message whole, ending right after it |
| WebSocket.FrameType | src/http-websockets.c:241-246 | WebSocketInvalidFrame for NULL, the frame's type otherwise |
| WebSocket.FrameData | src/http-websockets.c:249-254 | no data for NULL, the frame's data otherwise |
| WebSocket.FrameLength | src/http-websockets.c:258-263 | 0 for NULL, the frame's length otherwise, as a size_t |
| WebSocket.SourceChars | src/http-websockets.c:15 | the secret source is the 26 lower-case letters then the 10 digits |
| WebSocket.SourceDistinct | src/http-websockets.c:15 | the 36 source characters are pairwise distinct |
| WebSocket.Swapped | src/http-websockets.c:184-188 | swapping two positions keeps the length |
| WebSocket.SwappedPermutes | src/http-websockets.c:184-188 | a swap is a permutation |
| WebSocket.SwappedDistinct | src/http-websockets.c:184-188 | a swap keeps distinct characters distinct |
| WebSocket.Position | src/http-websockets.c:186 | the position a random picks is always one of the 36 source characters: the value itself modulo 36 when it is non-negative, and the value plus 2^64 modulo 36 when it is a negative int32 |
| WebSocket.NegativePosition | src/http-websockets.c:186 | the randoms -1 and -2^31 pick positions 15 and 32 |
| WebSocket.Shuffle | src/http-websockets.c:177-189 | after any number of random swaps the buffer still has 36 letters and digits |
| WebSocket.ShufflePermutes | src/http-websockets.c:177-189 | the shuffled buffer is a permutation of the source |
| WebSocket.ShuffleDistinct | src/http-websockets.c:177-189 | the shuffled buffer has no repeated character |
| WebSocket.Chosen | src/http-websockets.c:191-193 | the secret takes 16 bytes |
| WebSocket.Secret | src/http-websockets.c:175-194 | for any 16 values of int32 randomness, negative ones included, the result is the base64 encoding of the first 16 characters after the 16 swaps |
| WebSocket.Shuffled | src/http-websockets.c:177-189 | for any int32 randoms the loop leaves the specified shuffle in the buffer |
| WebSocket.SwapInto | src/http-websockets.c:183-188 | one iteration swaps index with the position the random picks, the random converted to size_t modulo 36, extending the shuffle by one step |
| WebSocket.SecretChosen | src/http-websockets.c:175-194 | the 16 secret characters are distinct letters and digits |
| WebSocket.SecretShape | src/http-websockets.c:193 | the secret is 24 base64 characters and decodes back to the 16 chosen bytes |
| WebSocket.MagicBytes | src/http-websockets.c:16-17 | the GUID is 36 single-byte characters |
| WebSocket.KeyAccept | src/http-websockets.c:197-222 | the accept key is 28 base64 characters ending in one '=' |
| WebSocket.CheckKeyDecodes | src/http-websockets.c:225-238 | the accept key of the secret passes the check, and any key that passes decodes to the SHA-1 digest of the secret followed by the GUID (reference: CheckKey) |
| PostParameters.HexDigit | src/http-post-parameters.c:130 | the digit %02X writes is an upper-case hex digit whose value is the digit |
| PostParameters.HexValue | src/http-post-parameters.c:130 | a hex digit has a value below 16 |
| PostParameters.EscapeWith | src/http-post-parameters.c:97-138 | one character becomes one to three bytes |
| PostParameters.EncodeWith | src/http-post-parameters.c:94-139 | an encoded value is at least as long as the value and at most three times as long |
| PostParameters.EncodeConcat | src/http-post-parameters.c:94-139 | the encoding works character by character: the encoding of a concatenation is the concatenation of the encodings |
| PostParameters.UnescapeEscape | src/http-post-parameters.c:97-138 | a form decoder reads one encoded character back, when '%' (and '+' if it is the character) is escaped |
| PostParameters.UnescapeEncode | src/http-post-parameters.c:94-139 | decoding an encoded value gives the value back when '%' is escaped and '+' is escaped or absent |
| PostParameters.EncodeValueRoundTrip | src/http-post-parameters.c:88-140 | a value without '+' survives the library's encoding and form decoding (reference: EncodeValue, Unescape) |
| PostParameters.PlusCollides | src/http-post-parameters.c:98-137 | "+" and " " encode to the same byte '+', which a decoder reads as a space |
| PostParameters.FormValueRoundTrip | src/http-post-parameters.c:88-140 | with '+' escaped too, every value survives encoding and form decoding |
| PostParameters.EncodedClean | src/http-post-parameters.c:94-139 | the encoding holds no space, and of the listed characters only '%', each time followed by two hex digits |
| PostParameters.EscapeClean | src/http-post-parameters.c:97-138 | one encoded character holds no space, and no listed character except the '%' of an escape |
| PostParameters.HexUnlisted | src/http-post-parameters.c:130 | a hex digit is neither a space, '%' nor a listed character |
| PostParameters.PercentsConcat | src/http-post-parameters.c:94-139 | every '%' beginning an escape survives concatenation |
| PostParameters.EncodeValueInto | src/http-post-parameters.c:88-140 | a NULL value appends nothing; otherwise the stream gains exactly the value's encoding |
| PostParameters.EscapeInto | src/http-post-parameters.c:97-138 | one case of the switch appends the character's encoding |
| PostParameters.EncodeStep | src/http-post-parameters.c:94-139 | the encoding of one more character extends the encoding of the prefix |
| PostParameters.Zip | src/http-post-parameters.c:7-14 | row i of the table pairs names[i] with values[i] |
| PostParameters.FirstMatch | src/http-post-parameters.c:173-175 | the index found is the first row whose name equals the name, and none means no row has it |
| PostParameters.Updated | src/http-post-parameters.c:171-184 | set adds a row exactly when the name is not yet in the table |
| PostParameters.UpdatedLookup | src/http-post-parameters.c:171-184 | after set the name reads back the new value and every other name reads what it read before |
| PostParameters.PostData.Entries | src/http-post-parameters.c:7-14 | the rows in use are count strings with their values |
| PostParameters.PostData.constructor | src/http-post-parameters.c:17-30 | a new table has no rows and the requested capacity |
| PostParameters.PostData.Append | src/http-post-parameters.c:40-69 | a NULL name changes nothing; when count + 1 reaches the capacity both arrays grow to count + capacity + 1 and a failed realloc leaves the rows as they were; otherwise the row (name, value or NULL) is added at the end |
| PostParameters.PostData.Grow | src/http-post-parameters.c:45-61 | the capacity grows to the new size exactly when both reallocs succeed, and the rows are kept either way |
| PostParameters.PostData.Place | src/http-post-parameters.c:63-68 | the new row goes in at index count and count grows by one |
| PostParameters.PostData.Set | src/http-post-parameters.c:171-184 | the first row with the name takes the new value; without one the pair is appended, unless the growth fails |
| PostParameters.PostData.Replace | src/http-post-parameters.c:176-181 | replacing the value of the first matching row gives the updated rows |
| PostParameters.Realloc | src/http-post-parameters.c:51-56 | the new block has the requested size and keeps the old contents that fit |
| PostParameters.Create | src/http-post-parameters.c:17-37 | NULL exactly when an allocation fails, otherwise an empty table of the requested capacity |
| PostParameters.Urlencoded | src/http-post-parameters.c:143-168 | NULL for a NULL or empty table, otherwise the encoded name=value pairs joined by '&' and followed by a NUL |
| PostParameters.AppendNext | src/http-post-parameters.c:160-165 | one turn of the loop extends the body by '&' and the next pair |
| PostParameters.AppendPair | src/http-post-parameters.c:157-159 | the stream gains the encoded name, '=' and the encoded value |
| PostParameters.LastIndex | src/http-post-parameters.c:160-165 | the last separator of the body is found and none follows it |
| PostParameters.Fields | src/http-post-parameters.c:160-165 | splitting on the separator gives at least one field |
| PostParameters.FieldsAppend | src/http-post-parameters.c:160-165 | a separator and a field without one add exactly that field |
| PostParameters.PairDecodes | src/http-post-parameters.c:157-159 | an encoded pair holds no '&' and decodes to the row, a NULL value as "" |
| PostParameters.Plains | src/http-post-parameters.c:157-165 | the rows as a decoder sees them, one per row |
| PostParameters.FormDecodes | src/http-post-parameters.c:143-168 | the body decodes back to the table's rows in order, when no name or value holds a '+' (reference: Form) |
| PostParameters.PlainsAppend | src/http-post-parameters.c:160-165 | the decoded rows extend row by row |
| PostParameters.FormFields | src/http-post-parameters.c:160-165 | the body of n rows splits into the fields of the first n - 1 rows and the last pair |
| PostParameters.DecodeFieldsAppend | src/http-post-parameters.c:160-165 | decoding the fields extends pair by pair |

## Left out

- Sockets, `getaddrinfo`, `select`/`poll` and the TLS library are not modelled. The `Peer` value stands in for them, and its answers are arbitrary.
- `httpio_disconnect`, `httpio_host`, the library's initialise and finalise routines, and its mutex are not modelled. They only release or look up system resources.
- The `free` routines (`httpio_response_free`, `httpio_websocket_frame_free`, `httpio_post_parameters_free`, list and header frees) are not modelled. Dafny has no explicit deallocation.
- The debug dump routines are not modelled. They only print.
- `printf`-style formatting in `httpio_vwrite_line` is not modelled. The model writes an already formatted line.
- Timeouts are not modelled. A poll that times out is a poll whose answer is "not ready".
- zlib (`inflate`), OpenSSL's `SHA1` and `/dev/random` (`httpio_safe_random`) are parameters, not definitions.
- `malloc`, `strdup` and `realloc` failures are modelled only in a few places:
  - `ByteStreams.ByteStream.Append`;
  - `PostParameters.PostData.Grow`;
  - `PostParameters.Create`.
  - Everywhere else an allocation is assumed to succeed.
- ResponseBody.Gunzip: an `inflateInit2` failure keeps the received length rather than 0; the model does not tell that apart from other inflate results.
- ResponseBody.BodyCreate: a failed `realloc` in `httpio_response_body_create` is not modelled.
- Headers.UpdateCookie: assumes the `realloc` of the cookie succeeds. The cookie is a string variable, so the early return for a NULL cookie pointer (src/http-protocol.c:693) has no counterpart.
- PostParameters.PostData.Append: the table is an object, so the source's NULL-table check has no counterpart; the `sorted` field is never read and is not modelled.
- ResponseBody.ReadChunks, ResponseBody.GetResponseBody, Response.ReadResponse: require fewer than `SIZE_MAX` input bytes, so that a sum of chunk sizes cannot wrap around `size_t`.
- WebSocket.ReadExtended: the source's `buffer[0] << 24` is a signed shift that overflows for bytes of 0x80 or more; the model reads the four bytes as unsigned.
- WebSocket.GetFrame: bytes of the 4-byte header buffer that a short read leaves unchanged come from the `stale` parameter. A length code of 127 reads 4 bytes, as written, not the 8 of section 5.2 of RFC 6455.
- WebSocket.SendHeaderDecodes: is stated only for messages shorter than 126 bytes. Longer ones get no extended length (see the opening notes), so the reader does not decode their headers to the real length.
- Base64.Decode: requires a non-empty input, since `data[--input_size]` reads before the buffer for the empty string. It also requires no character 255, which lies outside the 255-entry decoding table, and fewer trailing '=' than characters. Base64.DecodeDefined further requires at most three '=' per four characters (`TrailingPad(s) <= 3 * (|s| / 4)`): for inputs such as "A=======" the C length computation wraps around (src/http-util.c:181-182), which leads to `malloc(0)` and a write at `result[SIZE_MAX]`; those inputs are not modelled.
- Socks5.SendConnect: writes the host length as its low byte. The code writes the first byte in memory of an `ssize_t` (src/http-connection.c:382, 419), which is the low byte only on a little-endian machine; on a big-endian one it is 0. Big-endian machines are not modelled.
- ResponseBody.ReadExactly: reads with the corrected request of at most `INT_MAX` bytes (ResponseBody.Request), not with the `int`-truncated remainder of src/http-protocol.c:468. The sized paths of ResponseBody.GetResponseBody and Response.ReadResponse inherit this. The code as written is ResponseBody.TruncatedRequestStalls; see "## Findings".
- StringUtil.SplitStr, StringUtil.CountSubstr, StringUtil.StrReplace: require a non-empty delimiter or needle; with an empty one the C loops never end.
- The invocation of the WebSocket onclose and onerror handlers is not modelled. The library only stores them; the model records that a handler is installed.

## Findings

| source | as written | input that shows it | evidently intended | confidence | as-written member | corrected member |
|---|---|---|---|---|---|---|
| src/http-util.c:180-187 | the buffer holds the decoded length plus one NUL, but the loop decodes every group in full | any encoding ending in "==", e.g. "QQ==" (3 bytes written, 2 allocated) | a buffer large enough for every group the loop writes | not executed | Base64.DecodeOverrunsOnDoublePad | Base64.DecodeEncode |
| src/http-protocol.c:464-478 | the `ssize_t` remainder is passed as the `int` size of `httpio_read` | a Content-Length of 4294967296: the size becomes 0, `httpio_read` returns 0 and the loop never ends | request at most `INT_MAX` bytes per read | not executed | ResponseBody.TruncatedRequestStalls | ResponseBody.ReadExactly |
| src/http-post-parameters.c:135-137 | '+' is copied unescaped while a space also becomes '+' | the values "+" and " " both encode to "+", which a form decoder reads as a space | '+' escaped as "%2B" | not executed | PostParameters.PlusCollides | PostParameters.FormValueRoundTrip |
