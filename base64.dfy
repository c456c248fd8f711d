/** Base64 as src/http-util.c implements it (section 4 of RFC 4648): the
    per-group bit shuffles, the encoder and decoder buffer loops, and what
    they promise: the output length, the padding, and that decoding an
    encoding gives the bytes back. */
module Base64 {
  import opened CText

  // The alphabet, written in the three pieces the source writes it in.
  const UpperLetters: string := "ABCDEFGHIJKLMNOPQRSTUVWXYZ"
  const LowerLetters: string := "abcdefghijklmnopqrstuvwxyz"
  const DigitsAndSigns: string := "0123456789+/"
  const Alphabet: string := UpperLetters + LowerLetters + DigitsAndSigns

  /** The character of a 6-bit value, by the ranges of the alphabet. */
  function ValueChar(v: nat): char
    requires v < 64
  {
    if v < 26 then ('A' as int + v) as char
    else if v < 52 then ('a' as int + v - 26) as char
    else if v < 62 then ('0' as int + v - 52) as char
    else if v == 62 then '+' else '/'
  }

  lemma AlphabetChars()
    ensures |Alphabet| == 64
    ensures forall v :: 0 <= v < 64 ==> Alphabet[v] == ValueChar(v)
  {
    assert UpperLetters == seq(26, i requires 0 <= i < 26 => ('A' as int + i) as char);
    assert LowerLetters == seq(26, i requires 0 <= i < 26 => ('a' as int + i) as char);
    assert DigitsAndSigns == seq(10, i requires 0 <= i < 10 => ('0' as int + i) as char) + "+/";
  }

  /** The position of a character in the alphabet, and 0 for every other
      character ('=' included): the decoding table performs no validation. */
  function CharIndex(c: char): (v: nat)
    ensures v < 64
  {
    if 'A' <= c <= 'Z' then c as int - 'A' as int
    else if 'a' <= c <= 'z' then c as int - 'a' as int + 26
    else if '0' <= c <= '9' then c as int - '0' as int + 52
    else if c == '+' then 62
    else if c == '/' then 63
    else 0
  }

  /** The encoder's lookup: the alphabet character of a 6-bit value
      (AlphabetChars shows it is the character at that index). */
  function Sextet(v: byte): char
    requires v < 64
  {
    ValueChar(v as int)
  }

  /** The characters of the alphabet. */
  predicate InAlphabet(c: char) {
    'A' <= c <= 'Z' || 'a' <= c <= 'z' || '0' <= c <= '9' || c == '+' || c == '/'
  }

  /** The alphabet holds exactly the InAlphabet characters. */
  lemma AlphabetMembers()
    ensures forall c :: c in Alphabet <==> InAlphabet(c)
  {
    forall c
      ensures c in Alphabet <==> InAlphabet(c)
    {
      if c in Alphabet {
        MemberIn(c);
      }
      if InAlphabet(c) {
        MemberOf(c);
      }
    }
  }

  lemma MemberIn(c: char)
    requires c in Alphabet
    ensures InAlphabet(c)
  {
    AlphabetChars();
    var v :| 0 <= v < |Alphabet| && Alphabet[v] == c;
    assert c == ValueChar(v);
  }

  lemma MemberOf(c: char)
    requires InAlphabet(c)
    ensures c in Alphabet
  {
    AlphabetChars();
    IndexChar(c);
    assert Alphabet[CharIndex(c)] == c;
  }

  /** An alphabet character is the character of its index. */
  lemma IndexChar(c: char)
    requires InAlphabet(c)
    ensures ValueChar(CharIndex(c)) == c
  {
  }

  /** The decoder's lookup, the table of base64_decode_chunk. */
  function CharValue(c: char): (v: byte)
    ensures v < 64
  {
    CharIndex(c) as byte
  }

  /** The decoding table inverts the alphabet, and no alphabet character
      is '=' or NUL. */
  lemma SextetFacts(v: byte)
    requires v < 64
    ensures CharValue(Sextet(v)) == v && InAlphabet(Sextet(v))
    ensures Sextet(v) != '=' && 0 < Sextet(v) as int < 128
  {
  }

  // The bit shuffles of the two chunk functions, one output byte each, in
  // arithmetic: a shift right by k is a division by 2^k, a mask of the low
  // k bits a remainder modulo 2^k, and the or of two fields with no bit in
  // common their sum. The decoder's fields are disjoint because its table
  // only holds 6-bit values.
  /** (x0 >> 2) & 0x3F */
  function S0(x0: byte): (v: byte)
    ensures v < 64
  {
    (x0 as int / 4) as byte
  }

  /** (x1 >> 4) | ((x0 & 0x03) << 4) */
  function S1(x0: byte, x1: byte): (v: byte)
    ensures v < 64
  {
    (x0 as int % 4 * 16 + x1 as int / 16) as byte
  }

  /** ((x2 & 0xFC) >> 6) | ((x1 & 0x0F) << 2) */
  function S2(x1: byte, x2: byte): (v: byte)
    ensures v < 64
  {
    (x1 as int % 16 * 4 + x2 as int / 64) as byte
  }

  /** x2 & 0x3F */
  function S3(x2: byte): (v: byte)
    ensures v < 64
  {
    (x2 as int % 64) as byte
  }

  /** ((v0 << 2) & 0xFC) | ((v1 >> 4) & 0x3F) */
  function D0(v0: byte, v1: byte): byte
    requires v0 < 64 && v1 < 64
  {
    (v0 as int * 4 + v1 as int / 16) as byte
  }

  /** ((v1 & 0x0F) << 4) | ((v2 >> 2) & 0x0F) */
  function D1(v1: byte, v2: byte): byte
    requires v1 < 64 && v2 < 64
  {
    (v1 as int % 16 * 16 + v2 as int / 4) as byte
  }

  /** ((v2 & 0x03) << 6) | (v3 & 0x3F) */
  function D2(v2: byte, v3: byte): byte
    requires v2 < 64 && v3 < 64
  {
    (v2 as int % 4 * 64 + v3 as int) as byte
  }

  /** Splitting three bytes into four 6-bit values and joining them again
      gives the three bytes back. */
  lemma ShuffleInverse(x0: byte, x1: byte, x2: byte)
    ensures D0(S0(x0), S1(x0, x1)) == x0
    ensures D1(S1(x0, x1), S2(x1, x2)) == x1
    ensures D2(S2(x1, x2), S3(x2)) == x2
  {
    var a, b, c := x0 as int, x1 as int, x2 as int;
    assert (a % 4 * 16 + b / 16) / 16 == a % 4;
    assert (a % 4 * 16 + b / 16) % 16 == b / 16;
    assert (b % 16 * 4 + c / 64) / 4 == b % 16;
    assert (b % 16 * 4 + c / 64) % 4 == c / 64;
  }

  /** base64_encode_chunk with count == |chunk|: missing input bytes count
      as zero and their output positions become '='. */
  function EncodeChunk(chunk: seq<byte>): (r: string)
    requires 1 <= |chunk| <= 3
    ensures |r| == 4
  {
    var x0 := chunk[0];
    var x1, x2 := Padded(chunk, 1), Padded(chunk, 2);
    [ Sextet(S0(x0)),
      Sextet(S1(x0, x1)),
      if |chunk| > 1 then Sextet(S2(x1, x2)) else '=',
      if |chunk| > 2 then Sextet(S3(x2)) else '=' ]
  }

  /** base64_decode_chunk: four characters to three bytes. */
  function DecodeChunk(c: string): (r: seq<byte>)
    requires |c| == 4
    ensures |r| == 3
  {
    var v0, v1, v2, v3 := CharValue(c[0]), CharValue(c[1]), CharValue(c[2]), CharValue(c[3]);
    [D0(v0, v1), D1(v1, v2), D2(v2, v3)]
  }

  /** The number of '=' an encoding of n bytes ends in. */
  function Padding(n: nat): nat {
    if n % 3 == 0 then 0 else 3 - n % 3
  }

  /** The encoding of a byte string: one chunk per 3 input bytes, the last
      one short when n is not a multiple of 3. */
  function Encode(x: seq<byte>): string
    decreases |x|
  {
    if |x| == 0 then ""
    else if |x| <= 3 then EncodeChunk(x)
    else EncodeChunk(x[..3]) + Encode(x[3..])
  }

  lemma ChunkShape(chunk: seq<byte>)
    requires 1 <= |chunk| <= 3
    ensures var r := EncodeChunk(chunk);
      && InAlphabet(r[0]) && InAlphabet(r[1])
      && (r[2] == '=' <==> |chunk| == 1) && (r[3] == '=' <==> |chunk| < 3)
      && (|chunk| > 1 ==> InAlphabet(r[2])) && (|chunk| > 2 ==> InAlphabet(r[3]))
  {
    var x0 := chunk[0];
    var x1, x2 := Padded(chunk, 1), Padded(chunk, 2);
    SextetFacts(S0(x0));
    SextetFacts(S1(x0, x1));
    SextetFacts(S2(x1, x2));
    SextetFacts(S3(x2));
  }

  /** The encoder's output: 4·⌈n/3⌉ characters, the last Padding(n) of
      them '=' (two when n mod 3 = 1, one when n mod 3 = 2) and all the
      others from the alphabet. */
  lemma {:induction false} EncodeShape(x: seq<byte>)
    ensures |Encode(x)| == 4 * ((|x| + 2) / 3) && Padding(|x|) <= |Encode(x)|
    ensures forall i :: 0 <= i < |Encode(x)| - Padding(|x|) ==> InAlphabet(Encode(x)[i])
    ensures forall i :: |Encode(x)| - Padding(|x|) <= i < |Encode(x)| ==> Encode(x)[i] == '='
    decreases |x|
  {
    if |x| == 0 {
    } else if |x| <= 3 {
      assert Encode(x) == EncodeChunk(x);
      ChunkShape(x);
      assert (|x| + 2) / 3 == 1;
      assert Padding(|x|) == 3 - |x|;
    } else {
      EncodeShape(x[3..]);
      LongShape(x);
    }
  }

  lemma LongShape(x: seq<byte>)
    requires |x| > 3
    requires var t := Encode(x[3..]);
      && |t| == 4 * ((|x| - 3 + 2) / 3) && Padding(|x| - 3) <= |t|
      && (forall i :: 0 <= i < |t| - Padding(|x| - 3) ==> InAlphabet(t[i]))
      && (forall i :: |t| - Padding(|x| - 3) <= i < |t| ==> t[i] == '=')
    ensures |Encode(x)| == 4 * ((|x| + 2) / 3) && Padding(|x|) <= |Encode(x)|
    ensures forall i :: 0 <= i < |Encode(x)| - Padding(|x|) ==> InAlphabet(Encode(x)[i])
    ensures forall i :: |Encode(x)| - Padding(|x|) <= i < |Encode(x)| ==> Encode(x)[i] == '='
  {
    var head, tail := EncodeChunk(x[..3]), Encode(x[3..]);
    ChunkShape(x[..3]);
    var r := Encode(x);
    assert r == head + tail;
    assert Padding(|x|) == Padding(|x| - 3);
    assert (|x| + 2) / 3 == (|x| - 3 + 2) / 3 + 1;
    forall i | 0 <= i < |r| - Padding(|x|) ensures InAlphabet(r[i]) {
      if i >= 4 {
        assert r[i] == tail[i - 4];
      } else {
        assert r[i] == head[i];
      }
    }
    forall i | |r| - Padding(|x|) <= i < |r| ensures r[i] == '=' {
      assert r[i] == tail[i - 4];
    }
  }

  lemma {:induction false} EncodeAppend(x: seq<byte>, y: seq<byte>)
    requires |x| % 3 == 0
    ensures Encode(x + y) == Encode(x) + Encode(y)
    decreases |x|
  {
    if |x| == 0 {
      assert x + y == y;
    } else {
      assert (x + y)[..3] == x[..3];
      assert (x + y)[3..] == x[3..] + y;
      EncodeAppend(x[3..], y);
    }
  }

  /** httpio_base64_encode: whole 3-byte groups in a loop, then the short
      group, into a buffer of 1 + 4·⌈n/3⌉ characters whose last one is the
      NUL (not part of the returned string). */
  method EncodeBytes(data: seq<byte>) returns (r: string)
    ensures r == Encode(data)
  {
    var remainder := |data| % 3;
    var size := |data| - remainder;
    var result := new char[1 + 4 * (size / 3 + if remainder != 0 then 1 else 0)];
    var counter := 0;
    var pointer := 0;
    ghost var groups, whole := 0, |data| / 3;
    assert size == 3 * whole && size / 3 == whole;
    while counter < size
      invariant counter == 3 * groups && groups <= whole && pointer == 4 * groups
      invariant result[..pointer] == Encode(data[..counter])
    {
      PutGroup(result, pointer, data, counter, groups, |data|);
      counter := counter + 3;
      pointer := pointer + 4;
      groups := groups + 1;
    }
    var end := pointer;
    ghost var covered := counter;
    if remainder > 0 {
      PutGroup(result, pointer, data, counter, groups, |data|);
      end := pointer + 4;
      covered := Min(counter + 3, |data|);
    }
    assert covered == |data| && data[..covered] == data;
    r := result[..end];
    result[end] := '\0';
  }

  /** base64_encode_chunk writing group number `groups` (at most three
      bytes from `counter`, none past `end`) at `pointer`, after the
      encoding of the groups before it. */
  method PutGroup(result: array<char>, pointer: nat, data: seq<byte>, counter: nat, ghost groups: nat, end: nat)
    requires counter == 3 * groups < end <= |data| && pointer == 4 * groups && pointer + 4 <= result.Length
    requires result[..pointer] == Encode(data[..counter])
    modifies result
    ensures result[..pointer + 4] == Encode(data[..Min(counter + 3, end)])
  {
    var next := Min(counter + 3, end);
    EncodeStep(data, groups, next);
    Put(result, pointer, EncodeChunk(data[counter..next]));
  }

  /** One more group on the encoding of a prefix of whole groups. */
  lemma EncodeStep(data: seq<byte>, groups: nat, next: nat)
    requires 3 * groups < next <= 3 * groups + 3 && next <= |data|
    ensures Encode(data[..next]) == Encode(data[..3 * groups]) + EncodeChunk(data[3 * groups..next])
  {
    var counter := 3 * groups;
    assert data[..next] == data[..counter] + data[counter..next];
    EncodeAppend(data[..counter], data[counter..next]);
  }

  // ---- decoding ----

  /** How many '=' the string ends in. */
  function TrailingPad(s: string): (p: nat)
    ensures p <= |s|
    ensures forall i :: |s| - p <= i < |s| ==> s[i] == '='
    ensures p < |s| ==> s[|s| - 1 - p] != '='
  {
    if s != [] && s[|s| - 1] == '=' then 1 + TrailingPad(s[..|s| - 1]) else 0
  }

  /** Every 4-character group decoded, in order. */
  function DecodeGroups(s: string): (r: seq<byte>)
    requires |s| % 4 == 0
    ensures |r| == 3 * (|s| / 4)
    decreases |s|
  {
    if s == [] then [] else DecodeChunk(s[..4]) + DecodeGroups(s[4..])
  }

  lemma {:induction false} DecodeGroupsAppend(a: string, b: string)
    requires |a| % 4 == 0 && |b| % 4 == 0
    ensures DecodeGroups(a + b) == DecodeGroups(a) + DecodeGroups(b)
    decreases |a|
  {
    if a == [] {
      assert a + b == b;
    } else {
      assert (a + b)[..4] == a[..4];
      assert (a + b)[4..] == a[4..] + b;
      DecodeGroupsAppend(a[4..], b);
    }
  }

  /** *length as httpio_base64_decode computes it: three bytes per group
      less one per trailing '='. */
  function DecodedLength(s: string): int {
    3 * (|s| / 4) - TrailingPad(s)
  }

  /** Where the padding scan stops: the index of the last character that is not '='. */
  function LastData(s: string): int {
    |s| - 1 - TrailingPad(s)
  }

  /** How many groups the decoding loop writes: those starting below LastData. */
  function GroupsWritten(s: string): int {
    (LastData(s) + 3) / 4
  }

  /** What the source demands of a decodable string beyond being a C string:
      the padding scan `data[--input_size]` must stop on a character inside
      the string, and the length it computes must not wrap below zero; the
      256-entry lookup is a 255-entry table, so character 255 is out of range. */
  predicate DecodeDefined(s: string) {
    && IsCString(s)
    && (forall i :: 0 <= i < |s| ==> s[i] as int < 255)
    && (|s| % 4 == 0 ==> TrailingPad(s) < |s| && TrailingPad(s) <= 3 * (|s| / 4))
  }

  lemma GroupsCoverLength(s: string)
    requires |s| % 4 == 0 && TrailingPad(s) < |s| && TrailingPad(s) <= 3 * (|s| / 4)
    ensures 0 <= DecodedLength(s) <= 3 * GroupsWritten(s)
    ensures 0 <= GroupsWritten(s) && 4 * GroupsWritten(s) <= |s|
    ensures LastData(s) <= 4 * GroupsWritten(s) < LastData(s) + 4
  {
    var k, p: int := |s| / 4, TrailingPad(s);
    var a, b: int := p / 4, p % 4;
    assert p == 4 * a + b;
    assert LastData(s) + 3 == 4 * (k - a) + (2 - b);
    if b <= 2 {
      assert GroupsWritten(s) == k - a;
    } else {
      assert GroupsWritten(s) == k - a - 1;
    }
  }

  /** What the caller of httpio_base64_decode gets: the first DecodedLength
      bytes of the decoded groups. */
  function Decoded(s: string): seq<byte>
    requires |s| % 4 == 0 && TrailingPad(s) < |s| && TrailingPad(s) <= 3 * (|s| / 4)
  {
    GroupsCoverLength(s);
    DecodeGroups(s)[..DecodedLength(s)]
  }

  /** httpio_base64_decode. A length that is not a multiple of 4 gives
      NULL; otherwise the trailing '=' are counted off the length and the
      groups before the last data character are decoded. The buffer here
      holds every group the loop writes (see DecodeOverrunsOnDoublePad for
      the one the source allocates); the terminating NUL is not returned. */
  method Decode(s: string) returns (r: Option<seq<byte>>)
    requires DecodeDefined(s)
    requires |s| > 0
    ensures |s| % 4 != 0 ==> r.None?
    ensures |s| % 4 == 0 ==> r == Some(Decoded(s))
  {
    var inputSize := |s|;
    if inputSize % 4 != 0 {
      return None;
    }
    var length;
    inputSize, length := ScanPadding(s);
    GroupsCoverLength(s);
    var groups := GroupsWritten(s);
    var result := new byte[3 * groups + 1];
    var i, out := DecodeGroupsInto(result, s, inputSize, groups);
    DecodedPrefix(s, groups, result[..], out, length);
    r := Some(result[..length]);
    result[length] := 0;
  }

  /** A buffer that starts with the groups the decoding loop writes starts
      with the decoded bytes. */
  lemma DecodedPrefix(s: string, groups: nat, buffer: seq<byte>, out: nat, length: int)
    requires |s| % 4 == 0 && TrailingPad(s) < |s| && TrailingPad(s) <= 3 * (|s| / 4)
    requires groups == GroupsWritten(s) && length == DecodedLength(s)
    requires 4 * groups <= |s| && out <= |buffer| && buffer[..out] == FirstGroups(s, groups)
    ensures 0 <= length <= |buffer| && buffer[..length] == Decoded(s)
  {
    GroupsCoverLength(s);
    FirstGroupsPrefix(s, groups, 4 * groups);
    DecodeRest(s, 4 * groups, length);
    assert buffer[..length] == buffer[..out][..length];
  }

  /** The padding scan of httpio_base64_decode: starting from three bytes
      per group, one byte less for every '=' met walking back from the end;
      it stops on the last character that is not '='. */
  method ScanPadding(s: string) returns (inputSize: int, length: int)
    requires |s| % 4 == 0 && TrailingPad(s) < |s|
    ensures inputSize == LastData(s) && length == DecodedLength(s)
  {
    length := 3 * (|s| / 4);
    inputSize := |s| - 1;
    while s[inputSize] == '='
      invariant LastData(s) <= inputSize < |s|
      invariant length == 3 * (|s| / 4) - (|s| - 1 - inputSize)
      decreases inputSize
    {
      length := length - 1;
      inputSize := inputSize - 1;
    }
  }

  /** The decoding loop of httpio_base64_decode: every group that starts
      before inputSize, decoded in order. */
  method DecodeGroupsInto(result: array<byte>, s: string, inputSize: int, ghost groups: nat)
    returns (i: nat, out: nat)
    requires inputSize <= 4 * groups < inputSize + 4 && 4 * groups <= |s| && 3 * groups < result.Length
    modifies result
    ensures i == 4 * groups && out == 3 * groups
    ensures result[..out] == FirstGroups(s, groups)
  {
    i, out := 0, 0;
    ghost var g := 0;
    while i < inputSize
      invariant i == 4 * g && out == 3 * g && g <= groups
      invariant result[..out] == FirstGroups(s, g)
    {
      GroupsLeft(g, groups, inputSize);
      var i', out' := i + 4, out + 3;
      ghost var g' := g + 1;
      PutDecoded(result, out, out', s, i, i', g, g');
      i, out, g := i', out', g';
    }
    GroupsLeft(g, groups, inputSize);
  }

  /** The loop over groups stops after exactly `groups` of them. */
  lemma GroupsLeft(g: nat, groups: nat, inputSize: int)
    requires inputSize <= 4 * groups < inputSize + 4 && g <= groups
    ensures 4 * g < inputSize ==> g < groups
    ensures 4 * g >= inputSize ==> g == groups
  {
  }

  /** The first g groups decoded, group by group. */
  function FirstGroups(s: string, g: nat): (r: seq<byte>)
    requires 4 * g <= |s|
    ensures |r| == 3 * g
  {
    if g == 0 then [] else FirstGroups(s, g - 1) + DecodeChunk(s[4 * (g - 1)..4 * g])
  }

  /** base64_decode_chunk on the group at i, written at out after the
      groups before it; the next group starts at i' and is written at out'. */
  method PutDecoded(result: array<byte>, out: nat, out': nat, s: string, i: nat, i': nat, ghost g: nat, ghost g': nat)
    requires i == 4 * g && out == 3 * g && i' == i + 4 && out' == out + 3 && g' == g + 1
    requires i' <= |s| && out' <= result.Length
    requires result[..out] == FirstGroups(s, g)
    modifies result
    ensures i' == 4 * g' && out' == 3 * g'
    ensures result[..out'] == FirstGroups(s, g')
  {
    GroupStep(s, g, g', i, i');
    Put(result, out, DecodeChunk(s[i..i']));
  }

  /** One more group on the first g. */
  lemma GroupStep(s: string, g: nat, g': nat, i: nat, i': nat)
    requires g' == g + 1 && i == 4 * g && i' == i + 4 && i' <= |s|
    ensures FirstGroups(s, g') == FirstGroups(s, g) + DecodeChunk(s[i..i'])
  {
  }

  /** The first g groups are the decoding of the first 4 * g characters. */
  lemma {:induction false} FirstGroupsPrefix(s: string, g: nat, n: nat)
    requires n == 4 * g <= |s|
    ensures FirstGroups(s, g) == DecodeGroups(s[..n])
  {
    if g == 0 {
      assert s[..n] == [];
    } else {
      var m := n - 4;
      FirstGroupsPrefix(s, g - 1, m);
      GroupStep(s, g - 1, g, m, n);
      DecodeStep(s, g - 1, m, n);
    }
  }

  /** One more group on the decoding of a prefix of whole groups. */
  lemma DecodeStep(s: string, g: nat, i: nat, i': nat)
    requires i == 4 * g && i' == i + 4 && i' <= |s|
    ensures DecodeGroups(s[..i']) == DecodeGroups(s[..i]) + DecodeChunk(s[i..i'])
  {
    assert s[..i'] == s[..i] + s[i..i'];
    assert s[i..i'][4..] == [];
    DecodeGroupsAppend(s[..i], s[i..i']);
  }

  /** The groups decoded from a prefix are a prefix of all the groups. */
  lemma DecodeRest(s: string, i: nat, length: nat)
    requires i % 4 == 0 && i <= |s| && |s| % 4 == 0 && length <= 3 * (i / 4)
    ensures |DecodeGroups(s)| == 3 * (|s| / 4) >= length
    ensures DecodeGroups(s[..i])[..length] == DecodeGroups(s)[..length]
  {
    assert s == s[..i] + s[i..];
    Quarters(|s|, i);
    var a, b := DecodeGroups(s[..i]), DecodeGroups(s[i..]);
    DecodeGroupsAppend(s[..i], s[i..]);
    assert DecodeGroups(s) == a + b;
    assert |a| == 3 * (i / 4);
  }

  /** Whole groups minus whole groups leave whole groups. */
  lemma Quarters(n: int, i: int)
    requires n % 4 == 0 && i % 4 == 0
    ensures (n - i) % 4 == 0 && (n - i) / 4 == n / 4 - i / 4
  {
    var p, q := n / 4, i / 4;
    assert n - i == 4 * (p - q);
  }

  // ---- what the source allocates ----

  /** The source allocates *length + 1 bytes for the decoded data. */
  function AllocatedAsWritten(s: string): int {
    DecodedLength(s) + 1
  }

  /** ... while its loop writes three bytes per group it decodes. */
  function WrittenAsWritten(s: string): int {
    3 * GroupsWritten(s)
  }

  /** Decoding any encoding that ends in "==" (n mod 3 = 1) writes one byte
      past the buffer the source allocates: the last group is decoded in
      full while the length, and so the allocation, only counts one byte of it. */
  lemma DecodeOverrunsOnDoublePad(x: seq<byte>)
    requires |x| % 3 == 1
    ensures TrailingPad(Encode(x)) == 2
    ensures WrittenAsWritten(Encode(x)) == AllocatedAsWritten(Encode(x)) + 1
  {
    var s := Encode(x);
    EncodeShape(x);
    PaddedShape(s, |x|);
    DoublePadCounts(|s|, TrailingPad(s), |s| / 4);
  }

  /** The counts for a string of k groups whose last one holds two pads. */
  lemma DoublePadCounts(size: int, pad: int, k: int)
    requires size == 4 * k && k > 0 && pad == 2
    ensures 3 * ((size - 1 - pad + 3) / 4) == (3 * (size / 4) - pad + 1) + 1
  {
  }

  /** What the decoder's padding scan finds in a string shaped like the
      encoding of n bytes. */
  lemma PaddedShape(s: string, n: nat)
    requires n > 0 && |s| == 4 * ((n + 2) / 3) && Padding(n) <= |s|
    requires forall i :: 0 <= i < |s| - Padding(n) ==> InAlphabet(s[i])
    requires forall i :: |s| - Padding(n) <= i < |s| ==> s[i] == '='
    ensures |s| > 0 && |s| % 4 == 0 && |s| / 4 == (n + 2) / 3
    ensures TrailingPad(s) == Padding(n) && DecodedLength(s) == n
    ensures DecodeDefined(s)
  {
    var k, p := (n + 2) / 3, Padding(n);
    assert |s| / 4 == k;
    assert p <= 2 && 3 * k - p == n;
    assert InAlphabet(s[|s| - 1 - p]);
    PadCount(s, p);
    forall i | 0 <= i < |s| ensures 0 < s[i] as int < 255 {
      if i < |s| - p {
        assert InAlphabet(s[i]);
      }
    }
  }

  lemma PadCount(s: string, p: nat)
    requires p < |s|
    requires forall i :: |s| - p <= i < |s| ==> s[i] == '='
    requires s[|s| - 1 - p] != '='
    ensures TrailingPad(s) == p
  {
  }

  // ---- the round trip ----

  lemma ChunkRoundTrip(chunk: seq<byte>)
    requires 1 <= |chunk| <= 3
    ensures DecodeChunk(EncodeChunk(chunk))[..|chunk|] == chunk
  {
    EncodedValues(chunk);
    DecodesBack(chunk, EncodeChunk(chunk));
  }

  /** The bytes missing from a short group count as zero. */
  function Padded(chunk: seq<byte>, k: nat): byte {
    if k < |chunk| then chunk[k] else 0
  }

  /** What the decoding table reads back from each character of an
      encoded group: the 6-bit fields, and 0 for '='. */
  lemma EncodedValues(chunk: seq<byte>)
    requires 1 <= |chunk| <= 3
    ensures var e, x0, x1, x2 := EncodeChunk(chunk), chunk[0], Padded(chunk, 1), Padded(chunk, 2);
      && CharValue(e[0]) == S0(x0) && CharValue(e[1]) == S1(x0, x1)
      && CharValue(e[2]) == (if |chunk| > 1 then S2(x1, x2) else 0)
      && CharValue(e[3]) == (if |chunk| > 2 then S3(x2) else 0)
  {
    var x0, x1, x2 := chunk[0], Padded(chunk, 1), Padded(chunk, 2);
    SextetFacts(S0(x0));
    SextetFacts(S1(x0, x1));
    SextetFacts(S2(x1, x2));
    SextetFacts(S3(x2));
  }

  /** A group whose characters decode to the fields of a chunk decodes to
      the chunk. */
  lemma DecodesBack(chunk: seq<byte>, e: string)
    requires 1 <= |chunk| <= 3 && |e| == 4
    requires var x0, x1, x2 := chunk[0], Padded(chunk, 1), Padded(chunk, 2);
      && CharValue(e[0]) == S0(x0) && CharValue(e[1]) == S1(x0, x1)
      && (|chunk| > 1 ==> CharValue(e[2]) == S2(x1, x2))
      && (|chunk| > 2 ==> CharValue(e[3]) == S3(x2))
    ensures DecodeChunk(e)[..|chunk|] == chunk
  {
    var v0, v1, v2, v3 := CharValue(e[0]), CharValue(e[1]), CharValue(e[2]), CharValue(e[3]);
    Rejoined(chunk[0], Padded(chunk, 1), Padded(chunk, 2), v0, v1, v2, v3);
    SamePrefix(chunk, DecodeChunk(e));
  }

  lemma SamePrefix(chunk: seq<byte>, d: seq<byte>)
    requires 1 <= |chunk| <= 3 && |d| == 3 && d[0] == chunk[0]
    requires |chunk| > 1 ==> d[1] == chunk[1]
    requires |chunk| > 2 ==> d[2] == chunk[2]
    ensures d[..|chunk|] == chunk
  {
  }

  /** The decoder's joins undo the encoder's splits, field by field. */
  lemma Rejoined(x0: byte, x1: byte, x2: byte, v0: byte, v1: byte, v2: byte, v3: byte)
    requires v0 == S0(x0) && v1 == S1(x0, x1) && v2 < 64 && v3 < 64
    ensures D0(v0, v1) == x0
    ensures v2 == S2(x1, x2) ==> D1(v1, v2) == x1
    ensures v2 == S2(x1, x2) && v3 == S3(x2) ==> D2(v2, v3) == x2
  {
    ShuffleInverse(x0, x1, x2);
  }

  /** Decoding the groups of an encoding gives the encoded bytes back,
      followed by the zero bits the short group was padded with. */
  lemma {:induction false} GroupsOfEncoding(x: seq<byte>)
    requires |x| > 0
    ensures |Encode(x)| % 4 == 0
    ensures |x| <= |DecodeGroups(Encode(x))| && DecodeGroups(Encode(x))[..|x|] == x
    decreases |x|
  {
    EncodeShape(x);
    var s := Encode(x);
    if |x| <= 3 {
      assert s == EncodeChunk(x);
      ChunkRoundTrip(x);
      assert s[..4] == s && s[4..] == [];
      assert DecodeGroups(s) == DecodeChunk(s);
    } else {
      GroupsOfEncoding(x[3..]);
      GroupsStep(x);
    }
  }

  lemma GroupsStep(x: seq<byte>)
    requires |x| > 3
    requires |Encode(x[3..])| % 4 == 0
    requires |x| - 3 <= |DecodeGroups(Encode(x[3..]))| && DecodeGroups(Encode(x[3..]))[..|x| - 3] == x[3..]
    ensures |Encode(x)| % 4 == 0
    ensures |x| <= |DecodeGroups(Encode(x))| && DecodeGroups(Encode(x))[..|x|] == x
  {
    var s, head, tail := Encode(x), EncodeChunk(x[..3]), Encode(x[3..]);
    assert s == head + tail;
    ChunkRoundTrip(x[..3]);
    assert DecodeChunk(head) == x[..3];
    DecodeGroupsAppend(head, tail);
    assert head[..4] == head && head[4..] == [];
    assert DecodeGroups(head) == DecodeChunk(head);
    var d, t := DecodeGroups(s), DecodeGroups(tail);
    assert d == x[..3] + t;
    assert d[..|x|] == x[..3] + t[..|x| - 3];
    assert x == x[..3] + x[3..];
  }

  /** Decoding the encoding of a nonempty byte string gives it back (the
      empty string's encoding is the empty string, which the decoder's
      padding scan cannot take). */
  lemma DecodeEncode(x: seq<byte>)
    requires |x| > 0
    ensures DecodeDefined(Encode(x)) && |Encode(x)| > 0 && |Encode(x)| % 4 == 0
    ensures Decoded(Encode(x)) == x
  {
    EncodeShape(x);
    GroupsOfEncoding(x);
    PaddedShape(Encode(x), |x|);
  }
}
