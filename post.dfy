/** The POST parameter table of src/http-post-parameters.c: parallel arrays
    of names and values that grow in place, update-or-append by name, and
    the application/x-www-form-urlencoded body built from the table. */
module PostParameters {
  import opened CText
  import opened ByteStreams

  // ---- encoding one value (httpio_post_parameters_urlencode_value) ----

  const Plus: byte := 0x2B
  const Percent: byte := 0x25
  const Equal: byte := 0x3D
  const Ampersand: byte := 0x26
  const Space: byte := 0x20

  /** The characters the switch writes as '%' and two hex digits. */
  const Listed: set<char> := {'!', '*', '\'', '(', ')', ';', ':', '@', '&', '=', '$', ',', '/', '?',
                              '#', '[', ']', '{', '}', '~', '`', '^', '>', '<', '%', '"', '\r', '\n', '\\'}

  /** What %02X writes for one digit: 0-9 then upper-case A-F. */
  function HexDigit(d: nat): (r: byte)
    requires d < 16
    ensures IsHex(r) && HexValue(r) == d
  {
    if d < 10 then (0x30 + d) as byte else (0x41 + d - 10) as byte
  }

  predicate IsHex(b: byte) {
    0x30 <= b <= 0x39 || 0x41 <= b <= 0x46
  }

  function HexValue(b: byte): (r: nat)
    requires IsHex(b)
    ensures r < 16
  {
    if b <= 0x39 then (b - 0x30) as nat else (b - 0x41) as nat + 10
  }

  /** One character: a space becomes '+', a character of `escaped`
      becomes '%' and its code in two hex digits, anything else is copied. */
  function EscapeWith(c: char, escaped: set<char>): (r: seq<byte>)
    requires c as int < 256
    ensures 1 <= |r| <= 3
  {
    if c == ' ' then [Plus]
    else if c in escaped then [Percent, HexDigit(c as int / 16), HexDigit(c as int % 16)]
    else [ToByte(c)]
  }

  /** A string escaped character by character. */
  function EncodeWith(v: string, escaped: set<char>): (r: seq<byte>)
    requires IsByteString(v)
    ensures |v| <= |r| <= 3 * |v|
  {
    if v == [] then [] else EscapeWith(v[0], escaped) + EncodeWith(v[1..], escaped)
  }

  /** The encoding of httpio_post_parameters_urlencode_value. */
  function EncodeValue(v: string): seq<byte>
    requires IsByteString(v)
  {
    EncodeWith(v, Listed)
  }

  /** A NULL value encodes to nothing. */
  function EncodeOption(v: Option<string>): seq<byte>
    requires v.Some? ==> IsByteString(v.value)
  {
    if v.None? then [] else EncodeValue(v.value)
  }

  lemma {:induction false} EncodeConcat(a: string, b: string, escaped: set<char>)
    requires IsByteString(a) && IsByteString(b)
    ensures EncodeWith(a + b, escaped) == EncodeWith(a, escaped) + EncodeWith(b, escaped)
  {
    if a == [] {
      assert a + b == b;
    } else {
      assert (a + b)[0] == a[0] && (a + b)[1..] == a[1..] + b;
      EncodeConcat(a[1..], b, escaped);
    }
  }

  /** What a form decoder makes of the bytes: '+' is a space, '%' and two
      hex digits are the character with that code, anything else stands for
      itself; a '%' without two hex digits after it is an error. */
  function Unescape(r: seq<byte>): (v: Option<string>)
    decreases |r|
  {
    if r == [] then Some([])
    else if r[0] == Plus then Prepend(' ', Unescape(r[1..]))
    else if r[0] == Percent then
      if |r| < 3 || !IsHex(r[1]) || !IsHex(r[2]) then None
      else Prepend((HexValue(r[1]) * 16 + HexValue(r[2])) as char, Unescape(r[3..]))
    else Prepend(ToChar(r[0]), Unescape(r[1..]))
  }

  function Prepend(c: char, v: Option<string>): Option<string> {
    if v.None? then None else Some([c] + v.value)
  }

  /** Decoding one escaped character gives the character back, provided
      '%' is escaped and so is '+' when it is the character. */
  lemma UnescapeEscape(c: char, rest: seq<byte>, escaped: set<char>)
    requires c as int < 256 && '%' in escaped && (c == '+' ==> '+' in escaped)
    ensures Unescape(EscapeWith(c, escaped) + rest) == Prepend(c, Unescape(rest))
  {
    var e := EscapeWith(c, escaped);
    var r := e + rest;
    if c == ' ' {
      assert r[1..] == rest;
    } else if c in escaped {
      assert r[3..] == rest;
      var high, low := c as int / 16, c as int % 16;
      assert HexValue(r[1]) == high && HexValue(r[2]) == low;
      assert (high * 16 + low) as char == c;
    } else {
      assert r[1..] == rest;
      assert r[0] == ToByte(c) && ToChar(r[0]) == c;
    }
  }

  /** Decoding an encoded string gives it back when '%' is escaped and so
      is '+' if the string holds one. */
  lemma {:induction false} UnescapeEncode(v: string, escaped: set<char>)
    requires IsByteString(v) && '%' in escaped && ('+' in v ==> '+' in escaped)
    ensures Unescape(EncodeWith(v, escaped)) == Some(v)
  {
    if v != [] {
      assert '+' in v[1..] ==> '+' in v;
      UnescapeEncode(v[1..], escaped);
      UnescapeEscape(v[0], EncodeWith(v[1..], escaped), escaped);
      assert [v[0]] + v[1..] == v;
    }
  }

  /** A value without '+' survives encoding and form decoding. */
  lemma EncodeValueRoundTrip(v: string)
    requires IsByteString(v) && '+' !in v
    ensures Unescape(EncodeValue(v)) == Some(v)
  {
    UnescapeEncode(v, Listed);
  }

  /** '+' is copied as it is, and a space becomes '+' too: the values "+"
      and " " are sent alike, and a form decoder reads both as " ". */
  lemma PlusCollides()
    ensures EncodeValue("+") == EncodeValue(" ") == [Plus]
    ensures Unescape(EncodeValue("+")) == Some(" ")
  {
    assert EncodeValue("+") == EscapeWith('+', Listed) + EncodeWith([], Listed);
    assert EncodeValue(" ") == EscapeWith(' ', Listed) + EncodeWith([], Listed);
    var r: seq<byte> := [Plus];
    assert r[1..] == [] && Unescape(r[1..]) == Some([]);
    assert Unescape(r) == Prepend(' ', Unescape(r[1..]));
    assert [' '] + [] == " ";
  }

  /** The encoding with '+' escaped as well, as form encoding requires. */
  function FormValue(v: string): seq<byte>
    requires IsByteString(v)
  {
    EncodeWith(v, Listed + {'+'})
  }

  /** With '+' escaped, every value survives encoding and form decoding. */
  lemma FormValueRoundTrip(v: string)
    requires IsByteString(v)
    ensures Unescape(FormValue(v)) == Some(v)
  {
    UnescapeEncode(v, Listed + {'+'});
  }

  /** Every '%' of the bytes begins an escape: two hex digits follow it. */
  ghost predicate PercentsEscape(r: seq<byte>) {
    forall i :: 0 <= i < |r| && r[i] == Percent ==> i + 2 < |r| && IsHex(r[i + 1]) && IsHex(r[i + 2])
  }

  /** No space is left, and of the listed characters only '%' appears,
      each time as the start of an escape. */
  lemma {:induction false} EncodedClean(v: string)
    requires IsByteString(v)
    ensures var r := EncodeValue(v);
      PercentsEscape(r) && forall b :: b in r ==> b != Space && (ToChar(b) in Listed ==> b == Percent)
  {
    if v != [] {
      EncodedClean(v[1..]);
      var e, rest := EscapeWith(v[0], Listed), EncodeValue(v[1..]);
      EscapeClean(v[0]);
      PercentsConcat(e, rest);
    }
  }

  lemma EscapeClean(c: char)
    requires c as int < 256
    ensures var e := EscapeWith(c, Listed);
      PercentsEscape(e) && forall b :: b in e ==> b != Space && (ToChar(b) in Listed ==> b == Percent)
  {
    if c != ' ' && c in Listed {
      var high, low := HexDigit(c as int / 16), HexDigit(c as int % 16);
      HexUnlisted(high);
      HexUnlisted(low);
    }
  }

  lemma HexUnlisted(b: byte)
    requires IsHex(b)
    ensures b != Space && b != Percent && ToChar(b) !in Listed
  {
  }

  lemma PercentsConcat(e: seq<byte>, rest: seq<byte>)
    requires PercentsEscape(e) && PercentsEscape(rest)
    ensures PercentsEscape(e + rest)
  {
    var r := e + rest;
    forall i | 0 <= i < |r| && r[i] == Percent ensures i + 2 < |r| && IsHex(r[i + 1]) && IsHex(r[i + 2]) {
      if i >= |e| {
        var k := i - |e|;
        assert rest[k] == r[i];
        assert r[i + 1] == rest[k + 1] && r[i + 2] == rest[k + 2];
      }
    }
  }

  /** The loop of httpio_post_parameters_urlencode_value: each character
      of the value, up to its terminator, appended to the stream as the
      switch encodes it; a NULL value appends nothing. */
  method EncodeValueInto(value: Option<string>, stream: ByteStream)
    requires stream.Valid() && (value.Some? ==> IsCString(value.value))
    modifies stream, stream.data
    ensures stream.Valid() && (stream.data == old(stream.data) || fresh(stream.data))
    ensures stream.Contents() == old(stream.Contents()) + EncodeOption(value)
  {
    if value.None? {
      return;
    }
    var v := value.value;
    for i := 0 to |v|
      invariant stream.Valid() && (stream.data == old(stream.data) || fresh(stream.data))
      invariant stream.Contents() == old(stream.Contents()) + EncodeValue(v[..i])
    {
      EscapeInto(v[i], stream);
      EncodeStep(v, i);
    }
    assert v[..|v|] == v;
  }

  /** One case of the switch. */
  method EscapeInto(c: char, stream: ByteStream)
    requires stream.Valid() && c as int < 256
    modifies stream, stream.data
    ensures stream.Valid() && (stream.data == old(stream.data) || fresh(stream.data))
    ensures stream.Contents() == old(stream.Contents()) + EscapeWith(c, Listed)
  {
    if c == ' ' {
      stream.Append([Plus], true);
    } else if c in Listed {
      stream.Append([Percent, HexDigit(c as int / 16), HexDigit(c as int % 16)], true);
    } else {
      stream.Append([ToByte(c)], true);
    }
  }

  lemma EncodeStep(v: string, i: nat)
    requires IsByteString(v) && i < |v|
    ensures EncodeValue(v[..i + 1]) == EncodeValue(v[..i]) + EscapeWith(v[i], Listed)
  {
    var one := [v[i]];
    assert v[..i + 1] == v[..i] + one;
    EncodeConcat(v[..i], one, Listed);
    assert one[1..] == [];
  }

  // ---- the table ----

  /** One row of the table: a name and a value that may be NULL. */
  datatype Entry = Entry(name: string, value: Option<string>)

  /** Both are C strings (what strdup copied). */
  predicate EntryOk(e: Entry) {
    IsCString(e.name) && (e.value.Some? ==> IsCString(e.value.value))
  }

  function Zip(names: seq<string>, values: seq<Option<string>>): (r: seq<Entry>)
    requires |names| == |values|
    ensures |r| == |names| && forall i :: 0 <= i < |r| ==> r[i] == Entry(names[i], values[i])
  {
    seq(|names|, i requires 0 <= i < |names| => Entry(names[i], values[i]))
  }

  /** The first row whose name is exactly `name` (strcmp), if any. */
  function FirstMatch(entries: seq<Entry>, name: string): (r: Option<nat>)
    ensures r.Some? ==> r.value < |entries| && entries[r.value].name == name &&
                        forall j :: 0 <= j < r.value ==> entries[j].name != name
    ensures r.None? ==> forall j :: 0 <= j < |entries| ==> entries[j].name != name
  {
    if entries == [] then None
    else if entries[0].name == name then Some(0)
    else
      var rest := FirstMatch(entries[1..], name);
      if rest.None? then None else Some(rest.value + 1)
  }

  /** The value a reader of the table finds for `name`: that of the first
      row with the name; None when there is no such row. */
  function Lookup(entries: seq<Entry>, name: string): Option<Option<string>> {
    var i := FirstMatch(entries, name);
    if i.None? then None else Some(entries[i.value].value)
  }

  /** The rows after httpio_post_parameters_set: the first row with the
      name takes the value, or a new row is added at the end. */
  function Updated(entries: seq<Entry>, name: string, value: Option<string>): (r: seq<Entry>)
    ensures |r| == |entries| + (if FirstMatch(entries, name).None? then 1 else 0)
  {
    var i := FirstMatch(entries, name);
    if i.None? then entries + [Entry(name, value)] else entries[i.value := Entry(name, value)]
  }

  /** After set, the name reads back the new value and every other name
      reads what it read before. */
  lemma UpdatedLookup(entries: seq<Entry>, name: string, value: Option<string>, other: string)
    ensures Lookup(Updated(entries, name, value), name) == Some(value)
    ensures other != name ==> Lookup(Updated(entries, name, value), other) == Lookup(entries, other)
  {
    var r := Updated(entries, name, value);
    var i := FirstMatch(entries, name);
    var k := FirstMatch(r, name);
    if i.None? {
      assert r[|entries|].name == name;
    } else {
      assert r[i.value].name == name;
    }
    if other != name {
      var o, p := FirstMatch(entries, other), FirstMatch(r, other);
      forall j | 0 <= j < |entries| ensures r[j].name == other <==> entries[j].name == other {
      }
      if o.Some? {
        assert r[o.value].name == other;
      }
    }
  }

  /** struct httpio_postdata: `count` rows in use out of `capacity`. The
      `sorted` flag is set to 0 and never read, so it is not modelled. */
  class PostData {
    var count: nat
    var capacity: nat
    var names: array<string>
    var values: array<Option<string>>

    /** Both arrays have room for `capacity` rows (after a failed second
        realloc the names array is larger), and the rows in use hold C
        strings. */
    ghost predicate Valid()
      reads this, names, values
    {
      && count <= capacity <= names.Length && capacity <= values.Length
      && forall i :: 0 <= i < count ==> EntryOk(Entry(names[i], values[i]))
    }

    /** The rows in use, in order. */
    ghost function Entries(): (r: seq<Entry>)
      reads this, names, values
      requires Valid()
      ensures |r| == count && forall i :: 0 <= i < |r| ==> EntryOk(r[i])
    {
      Zip(names[..count], values[..count])
    }

    /** The table httpio_post_parameters_create returns when its
        allocations succeed: no rows, room for `capacity`. */
    constructor (capacity: nat)
      ensures Valid() && count == 0 && this.capacity == capacity && Entries() == []
      ensures fresh(names) && fresh(values)
    {
      count := 0;
      this.capacity := capacity;
      names := new string[capacity](_ => []);
      values := new Option<string>[capacity](_ => None);
    }

    /** httpio_post_parameters_append. A NULL name changes nothing. When
        count + 1 reaches the capacity both arrays are reallocated to
        count + capacity + 1 rows (namesGrow and valuesGrow say whether
        each realloc succeeds; after a failure nothing is added). Then the
        row goes in at index count. */
    method Append(name: Option<string>, value: Option<string>, namesGrow: bool, valuesGrow: bool)
      requires Valid()
      requires name.Some? ==> IsCString(name.value)
      requires value.Some? ==> IsCString(value.value)
      modifies this, names, values
      ensures Valid()
      ensures var grows := old(count) + 1 >= old(capacity);
        if name.None? || (grows && !(namesGrow && valuesGrow)) then
          count == old(count) && capacity == old(capacity) && Entries() == old(Entries())
        else
          && count == old(count) + 1
          && capacity == (if grows then old(count) + old(capacity) + 1 else old(capacity))
          && Entries() == old(Entries()) + [Entry(name.value, value)]
    {
      if name.None? {
        return;
      }
      if count + 1 >= capacity {
        var grown := Grow(count + capacity + 1, namesGrow, valuesGrow);
        if !grown {
          return;
        }
      }
      Place(name.value, value);
    }

    /** The two reallocs of append. After either fails the rows and the
        capacity stay as they were (a grown names array is kept). */
    method Grow(size: nat, namesGrow: bool, valuesGrow: bool) returns (grown: bool)
      requires Valid() && count < size && capacity <= size
      modifies this
      ensures Valid() && count == old(count) && Entries() == old(Entries())
      ensures grown == (namesGrow && valuesGrow)
      ensures capacity == (if grown then size else old(capacity))
      ensures (names == old(names) || fresh(names)) && (values == old(values) || fresh(values))
    {
      if !namesGrow {
        return false;
      }
      ghost var rows := names[..count];
      names := Realloc(names, size, []);
      assert names[..count] == rows by {
        assert names[..count] == names[..Min(old(names.Length), size)][..count];
      }
      if !valuesGrow {
        return false;
      }
      ghost var vs := values[..count];
      values := Realloc(values, size, None);
      assert values[..count] == vs by {
        assert values[..count] == values[..Min(old(values.Length), size)][..count];
      }
      capacity := size;
      return true;
    }

    /** The new row at index count. */
    method Place(name: string, value: Option<string>)
      requires Valid() && count < capacity && EntryOk(Entry(name, value))
      modifies this, names, values
      ensures Valid() && count == old(count) + 1 && capacity == old(capacity)
      ensures Entries() == old(Entries()) + [Entry(name, value)]
    {
      names[count] := name;
      values[count] := value;
      count := count + 1;
      assert names[..count] == old(names[..count]) + [name];
      assert values[..count] == old(values[..count]) + [value];
    }

    /** httpio_post_parameters_set: the first row named `name` takes the
        value; with no such row the pair is appended. */
    method Set(name: string, value: Option<string>, namesGrow: bool, valuesGrow: bool)
      requires Valid() && IsCString(name) && (value.Some? ==> IsCString(value.value))
      modifies this, names, values
      ensures Valid()
      ensures var found := FirstMatch(old(Entries()), name).Some?;
        var grows := old(count) + 1 >= old(capacity);
        if !found && grows && !(namesGrow && valuesGrow) then
          count == old(count) && capacity == old(capacity) && Entries() == old(Entries())
        else
          && Entries() == Updated(old(Entries()), name, value)
          && capacity == (if !found && grows then old(count) + old(capacity) + 1 else old(capacity))
    {
      var i := 0;
      while i < count
        invariant i <= count && forall j :: 0 <= j < i ==> names[j] != name
      {
        if names[i] == name {
          Replace(i, name, value);
          return;
        }
        i := i + 1;
      }
      Append(Some(name), value, namesGrow, valuesGrow);
    }

    /** The value of row i, the first one named `name`, replaced. */
    method Replace(i: nat, name: string, value: Option<string>)
      requires Valid() && i < count && names[i] == name && (value.Some? ==> IsCString(value.value))
      requires forall j :: 0 <= j < i ==> names[j] != name
      modifies values
      ensures Valid() && Entries() == Updated(old(Entries()), name, value)
    {
      ghost var rows := Entries();
      assert FirstMatch(rows, name) == Some(i);
      values[i] := value;
      assert Entries() == rows[i := Entry(name, value)];
    }
  }

  /** realloc: a new block of `size` slots holding the old block's first
      slots (as many as both have). */
  method Realloc<T>(a: array<T>, size: nat, fill: T) returns (b: array<T>)
    ensures fresh(b) && b.Length == size
    ensures b[..Min(a.Length, size)] == a[..Min(a.Length, size)]
  {
    b := new T[size](_ => fill);
    var n := Min(a.Length, size);
    forall i | 0 <= i < n {
      b[i] := a[i];
    }
  }

  /** httpio_post_parameters_create: NULL when an allocation fails
      (`granted` says whether all of them succeed). */
  method Create(capacity: nat, granted: bool) returns (r: PostData?)
    ensures r != null <==> granted
    ensures r != null ==> fresh(r) && r.Valid() && r.count == 0 && r.capacity == capacity && r.Entries() == []
  {
    if !granted {
      return null;
    }
    r := new PostData(capacity);
  }

  // ---- the whole body (httpio_post_parameters_urlencoded) ----

  /** name=value, each encoded; a NULL value leaves the right side empty. */
  function Pair(e: Entry): seq<byte>
    requires EntryOk(e)
  {
    EncodeValue(e.name) + [Equal] + EncodeOption(e.value)
  }

  /** The pairs joined by '&'. */
  function Form(entries: seq<Entry>): seq<byte>
    requires |entries| > 0 && forall i :: 0 <= i < |entries| ==> EntryOk(entries[i])
  {
    var n := |entries|;
    if n == 1 then Pair(entries[0]) else Form(entries[..n - 1]) + [Ampersand] + Pair(entries[n - 1])
  }

  /** httpio_post_parameters_urlencoded: NULL for a NULL or empty table,
      otherwise the pairs joined by '&' followed by a NUL. */
  method Urlencoded(parameters: PostData?) returns (r: Option<seq<byte>>)
    requires parameters != null ==> parameters.Valid()
    ensures parameters == null || parameters.count == 0 ==> r.None?
    ensures parameters != null && parameters.count > 0 ==> r == Some(Form(parameters.Entries()) + [0])
  {
    if parameters == null || parameters.count == 0 {
      return None;
    }
    ghost var entries := parameters.Entries();
    var names, values := parameters.names, parameters.values;
    var stream := new ByteStream.Start();
    AppendPair(names[0], values[0], stream);
    assert entries[..1] == [entries[0]];
    for i := 1 to parameters.count
      invariant fresh(stream) && fresh(stream.data) && stream.Valid()
      invariant stream.Contents() == Form(entries[..i])
    {
      AppendNext(names[i], values[i], stream, entries, i);
    }
    assert entries[..parameters.count] == entries;
    stream.Append([0], true);
    r := Some(stream.Contents());
  }

  /** One turn of the loop: '&', then the next pair. */
  method AppendNext(name: string, value: Option<string>, stream: ByteStream, ghost entries: seq<Entry>, ghost i: nat)
    requires stream.Valid() && 0 < i < |entries| && entries[i] == Entry(name, value)
    requires forall k :: 0 <= k < |entries| ==> EntryOk(entries[k])
    requires stream.Contents() == Form(entries[..i])
    modifies stream, stream.data
    ensures stream.Valid() && (stream.data == old(stream.data) || fresh(stream.data))
    ensures stream.Contents() == Form(entries[..i + 1])
  {
    stream.Append([Ampersand], true);
    AppendPair(name, value, stream);
    assert entries[..i + 1][..i] == entries[..i];
  }

  /** One pair of the body appended to the stream. */
  method AppendPair(name: string, value: Option<string>, stream: ByteStream)
    requires stream.Valid() && EntryOk(Entry(name, value))
    modifies stream, stream.data
    ensures stream.Valid() && (stream.data == old(stream.data) || fresh(stream.data))
    ensures stream.Contents() == old(stream.Contents()) + Pair(Entry(name, value))
  {
    ghost var before := stream.Contents();
    EncodeValueInto(Some(name), stream);
    ghost var named := stream.Contents();
    assert named == before + EncodeValue(name);
    stream.Append([Equal], true);
    assert stream.Contents() == named + [Equal];
    EncodeValueInto(value, stream);
  }

  // ---- reading the body back ----

  /** The position of the last `sep`. */
  function LastIndex(r: seq<byte>, sep: byte): (i: nat)
    requires sep in r
    ensures i < |r| && r[i] == sep && sep !in r[i + 1..]
  {
    var n := |r| - 1;
    if r[n] == sep then n
    else
      var i := LastIndex(r[..n], sep);
      assert r[i + 1..] == r[..n][i + 1..] + [r[n]];
      i
  }

  /** The pieces between the separators. */
  function Fields(r: seq<byte>, sep: byte): (fs: seq<seq<byte>>)
    ensures |fs| > 0
    decreases |r|
  {
    if sep !in r then [r] else var i := LastIndex(r, sep); Fields(r[..i], sep) + [r[i + 1..]]
  }

  lemma FieldsAppend(x: seq<byte>, a: seq<byte>, sep: byte)
    requires sep !in a
    ensures Fields(x + [sep] + a, sep) == Fields(x, sep) + [a]
  {
    var r := x + [sep] + a;
    assert r[|x|] == sep && r[|x| + 1..] == a && r[..|x|] == x;
    var i := LastIndex(r, sep);
    var tail := r[i + 1..];
    assert forall k :: 0 <= k < |tail| ==> tail[k] != sep;
    assert forall k :: i < k < |r| ==> r[k] == tail[k - i - 1];
  }

  /** A name=value piece decoded, or None when it is not exactly two
      well-escaped sides. */
  function DecodePair(field: seq<byte>): Option<(string, string)> {
    var sides := Fields(field, Equal);
    if |sides| != 2 then None
    else
      var name, value := Unescape(sides[0]), Unescape(sides[1]);
      if name.None? || value.None? then None else Some((name.value, value.value))
  }

  function DecodeFields(fields: seq<seq<byte>>): Option<seq<(string, string)>> {
    if fields == [] then Some([])
    else
      var n := |fields| - 1;
      var front, last := DecodeFields(fields[..n]), DecodePair(fields[n]);
      if front.None? || last.None? then None else Some(front.value + [last.value])
  }

  /** What a form decoder reads from a body: '&'-separated name=value pairs. */
  function DecodeForm(r: seq<byte>): Option<seq<(string, string)>> {
    DecodeFields(Fields(r, Ampersand))
  }

  /** A row as the receiver sees it: a NULL value arrives as "". */
  function Plain(e: Entry): (string, string) {
    (e.name, if e.value.None? then "" else e.value.value)
  }

  predicate PlusFree(e: Entry) {
    '+' !in e.name && (e.value.Some? ==> '+' !in e.value.value)
  }

  /** One pair has no '&' and decodes to the row. */
  lemma PairDecodes(e: Entry)
    requires EntryOk(e) && PlusFree(e)
    ensures Ampersand !in Pair(e)
    ensures DecodePair(Pair(e)) == Some(Plain(e))
  {
    var name, value := EncodeValue(e.name), EncodeOption(e.value);
    EncodedClean(e.name);
    EncodeValueRoundTrip(e.name);
    assert ToChar(Ampersand) in Listed && ToChar(Equal) in Listed;
    if e.value.Some? {
      EncodedClean(e.value.value);
      EncodeValueRoundTrip(e.value.value);
    }
    assert Unescape(value) == Some(Plain(e).1);
    FieldsAppend(name, value, Equal);
    assert Fields(name, Equal) == [name];
  }

  function Plains(entries: seq<Entry>): (r: seq<(string, string)>)
    ensures |r| == |entries| && forall i :: 0 <= i < |r| ==> r[i] == Plain(entries[i])
  {
    seq(|entries|, i requires 0 <= i < |entries| => Plain(entries[i]))
  }

  /** The body decodes back to the rows, when no name or value holds a '+'
      (see PlusCollides for what happens to one that does). */
  lemma {:induction false} FormDecodes(entries: seq<Entry>)
    requires |entries| > 0 && forall i :: 0 <= i < |entries| ==> EntryOk(entries[i]) && PlusFree(entries[i])
    ensures DecodeForm(Form(entries)) == Some(Plains(entries))
  {
    var n := |entries| - 1;
    var last := entries[n];
    PairDecodes(last);
    if n == 0 {
      var fields := Fields(Form(entries), Ampersand);
      assert fields == [] + [Pair(last)];
      DecodeFieldsAppend([], Pair(last));
      assert Plains(entries) == [] + [Plain(last)];
    } else {
      var front := entries[..n];
      FormDecodes(front);
      FormFields(entries);
      DecodeFieldsAppend(Fields(Form(front), Ampersand), Pair(last));
      PlainsAppend(entries);
    }
  }

  lemma PlainsAppend(entries: seq<Entry>)
    requires |entries| > 0
    ensures var n := |entries| - 1; Plains(entries) == Plains(entries[..n]) + [Plain(entries[n])]
  {
    var n := |entries| - 1;
    var p, q := Plains(entries), Plains(entries[..n]) + [Plain(entries[n])];
    forall i | 0 <= i < |p| ensures p[i] == q[i] {
      if i < n {
        assert q[i] == Plains(entries[..n])[i] == Plain(entries[..n][i]);
      }
    }
    assert p == q;
  }

  lemma FormFields(entries: seq<Entry>)
    requires |entries| > 1 && forall i :: 0 <= i < |entries| ==> EntryOk(entries[i]) && PlusFree(entries[i])
    ensures var n := |entries| - 1;
      Fields(Form(entries), Ampersand) == Fields(Form(entries[..n]), Ampersand) + [Pair(entries[n])]
  {
    var n := |entries| - 1;
    PairDecodes(entries[n]);
    FieldsAppend(Form(entries[..n]), Pair(entries[n]), Ampersand);
  }

  lemma DecodeFieldsAppend(fields: seq<seq<byte>>, field: seq<byte>)
    ensures var front, last := DecodeFields(fields), DecodePair(field);
      DecodeFields(fields + [field]) == if front.None? || last.None? then None else Some(front.value + [last.value])
  {
    assert (fields + [field])[..|fields|] == fields;
  }
}
