/** The C-library text primitives the library is built on: bytes and
    NUL-terminated strings, <ctype.h> classification in the C locale,
    strchr, strstr, strcasecmp and strtol, and the integer conversions
    the code applies to their results. */
module CText {

  /** An unsigned char. */
  newtype byte = x: int | 0 <= x < 0x100

  datatype Option<+T> = None | Some(value: T)

  function Min(a: int, b: int): int { if a <= b then a else b }

  /** Every character fits in one byte. */
  predicate IsByteString(s: string) {
    forall i :: 0 <= i < |s| ==> s[i] as int < 256
  }

  /** What a `char *` can hold before its terminator: one-byte characters, no NUL. */
  predicate IsCString(s: string) {
    forall i :: 0 <= i < |s| ==> 0 < s[i] as int < 256
  }

  function ToChar(b: byte): char { (b as int) as char }

  function ToByte(c: char): byte
    requires c as int < 256
  {
    (c as int) as byte
  }

  /** Bytes read as characters. */
  function Text(bs: seq<byte>): (s: string)
    ensures |s| == |bs| && IsByteString(s)
    ensures forall i :: 0 <= i < |bs| ==> s[i] == ToChar(bs[i])
  {
    seq(|bs|, i requires 0 <= i < |bs| => ToChar(bs[i]))
  }

  /** The C string of a buffer with a NUL appended is the C string of the buffer. */
  lemma {:induction false} CStringTerminated(bs: seq<byte>)
    ensures CString(bs + [0]) == CString(bs)
  {
    if bs != [] && bs[0] != 0 {
      assert (bs + [0])[1..] == bs[1..] + [0];
      CStringTerminated(bs[1..]);
    }
  }

  /** Characters written out as bytes. */
  function Bytes(s: string): (bs: seq<byte>)
    requires IsByteString(s)
    ensures |bs| == |s|
    ensures forall i :: 0 <= i < |s| ==> bs[i] == ToByte(s[i])
  {
    seq(|s|, i requires 0 <= i < |s| => ToByte(s[i]))
  }

  lemma TextBytes(s: string)
    requires IsByteString(s)
    ensures Text(Bytes(s)) == s
  {
  }

  /** The C string a byte buffer holds: everything before the first NUL. */
  function CString(bs: seq<byte>): (r: seq<byte>)
    ensures |r| <= |bs| && r == bs[..|r|]
    ensures forall i :: 0 <= i < |r| ==> r[i] != 0
    ensures |r| < |bs| ==> bs[|r|] == 0
  {
    if bs == [] || bs[0] == 0 then [] else [bs[0]] + CString(bs[1..])
  }

  /** A byte string without NUL is read whole. */
  lemma {:induction false} CStringWhole(bs: seq<byte>)
    requires 0 !in bs
    ensures CString(bs) == bs
  {
    if bs != [] {
      assert bs[0] in bs;
      assert 0 !in bs[1..] by {
        forall i | 0 <= i < |bs| - 1 ensures bs[1..][i] != 0 {
          assert bs[1..][i] == bs[i + 1];
        }
      }
      CStringWhole(bs[1..]);
    }
  }

  /** isspace() in the C locale. */
  predicate IsSpace(c: char) {
    c == ' ' || c == '\t' || c == '\n' || c == '\U{000B}' || c == '\U{000C}' || c == '\r'
  }

  /** tolower() in the C locale. */
  function ToLower(c: char): char {
    if 'A' <= c <= 'Z' then (c as int + 32) as char else c
  }

  function Lower(s: string): (r: string)
    ensures |r| == |s| && forall i :: 0 <= i < |s| ==> r[i] == ToLower(s[i])
  {
    seq(|s|, i requires 0 <= i < |s| => ToLower(s[i]))
  }

  /** strcasecmp(a, b) == 0 */
  predicate CaseEq(a: string, b: string) {
    Lower(a) == Lower(b)
  }

  /** The sign of strcasecmp(a, b): the first position where the lower-cased
      characters differ decides, and a string that runs out first (meets its
      NUL) is the smaller. */
  function CaseCmp(a: string, b: string): (r: int)
    ensures -1 <= r <= 1
    ensures r == 0 <==> CaseEq(a, b)
  {
    if a == [] && b == [] then 0
    else if a == [] then -1
    else if b == [] then 1
    else if ToLower(a[0]) < ToLower(b[0]) then -1
    else if ToLower(b[0]) < ToLower(a[0]) then 1
    else
      var r := CaseCmp(a[1..], b[1..]);
      assert Lower(a) == [ToLower(a[0])] + Lower(a[1..]);
      assert Lower(b) == [ToLower(b[0])] + Lower(b[1..]);
      r
  }

  lemma {:induction false} CaseCmpAntisymmetric(a: string, b: string)
    ensures CaseCmp(a, b) == -CaseCmp(b, a)
  {
    if a != [] && b != [] && ToLower(a[0]) == ToLower(b[0]) {
      CaseCmpAntisymmetric(a[1..], b[1..]);
    }
  }

  lemma {:induction false} CaseCmpTransitive(a: string, b: string, c: string)
    requires CaseCmp(a, b) <= 0 && CaseCmp(b, c) <= 0
    ensures CaseCmp(a, c) <= 0
    ensures CaseCmp(a, b) < 0 || CaseCmp(b, c) < 0 ==> CaseCmp(a, c) < 0
  {
    if a != [] && b != [] && c != [] && ToLower(a[0]) == ToLower(b[0]) == ToLower(c[0]) {
      CaseCmpTransitive(a[1..], b[1..], c[1..]);
    }
  }

  /** strchr(s, c) as an index: the first occurrence of c. */
  function IndexOf(s: string, c: char): (r: Option<nat>)
    ensures r.Some? ==> r.value < |s| && s[r.value] == c && c !in s[..r.value]
    ensures r.None? ==> c !in s
  {
    if s == [] then None
    else if s[0] == c then Some(0)
    else
      match IndexOf(s[1..], c)
      case None => None
      case Some(i) => assert s[1..][..i] == s[1..i + 1]; Some(i + 1)
  }

  /** needle occurs in s starting at index i. */
  predicate IsAt(s: string, needle: string, i: int) {
    0 <= i && i + |needle| <= |s| && s[i..i + |needle|] == needle
  }

  /** strstr(s + from, needle) as an index: the leftmost occurrence at or after from. */
  function FindFrom(s: string, needle: string, from: nat): (r: Option<nat>)
    requires from <= |s|
    ensures r.Some? ==> from <= r.value && IsAt(s, needle, r.value)
    ensures r.Some? ==> forall k :: from <= k < r.value ==> !IsAt(s, needle, k)
    ensures r.None? ==> forall k :: from <= k <= |s| ==> !IsAt(s, needle, k)
    decreases |s| - from
  {
    if IsAt(s, needle, from) then Some(from)
    else if from == |s| then None
    else FindFrom(s, needle, from + 1)
  }

  /** The leftmost occurrence at or after from is the one FindFrom reports. */
  lemma FindFromIs(s: string, needle: string, from: nat, at: nat)
    requires from <= at && IsAt(s, needle, at)
    requires forall k :: from <= k < at ==> !IsAt(s, needle, k)
    ensures FindFrom(s, needle, from) == Some(at)
  {
  }

  /** A position without an occurrence passes the search on to the next one. */
  lemma FindFromSkip(s: string, needle: string, i: nat, j: nat)
    requires i < |s| && j == i + 1 && !IsAt(s, needle, i)
    ensures FindFrom(s, needle, i) == FindFrom(s, needle, j)
  {
  }

  /** An occurrence of a one-character needle is that character. */
  lemma IsAtChar(s: string, needle: string, k: int)
    requires |needle| == 1
    ensures IsAt(s, needle, k) <==> 0 <= k < |s| && s[k] == needle[0]
  {
    if 0 <= k < |s| && s[k] == needle[0] {
      assert s[k..k + 1] == needle;
    }
  }

  /** An occurrence of a two-character needle, character by character. */
  lemma IsAtPair(s: string, a: char, b: char, k: int)
    ensures IsAt(s, [a, b], k) <==> 0 <= k && k + 2 <= |s| && s[k] == a && s[k + 1] == b
  {
    if 0 <= k && k + 2 <= |s| && s[k] == a && s[k + 1] == b {
      assert s[k..k + 2] == [a, b];
    }
  }

  predicate Contains(s: string, needle: string) {
    FindFrom(s, needle, 0).Some?
  }

  lemma ContainsAt(s: string, needle: string, i: int)
    requires IsAt(s, needle, i)
    ensures Contains(s, needle)
  {
  }

  // ---- strtol ----

  const LongMax: int := 0x7FFF_FFFF_FFFF_FFFF
  const LongMin: int := -0x8000_0000_0000_0000

  predicate IsDigitIn(c: char, base: nat) {
    if base == 16 then '0' <= c <= '9' || 'a' <= c <= 'f' || 'A' <= c <= 'F'
    else '0' <= c <= '9'
  }

  function DigitValue(c: char): nat {
    if '0' <= c <= '9' then c as int - '0' as int
    else if 'a' <= c <= 'f' then c as int - 'a' as int + 10
    else if 'A' <= c <= 'F' then c as int - 'A' as int + 10
    else 0
  }

  /** The number of digits of the given base starting at index i. */
  function DigitRun(s: string, i: nat, base: nat): (n: nat)
    requires i <= |s|
    ensures i + n <= |s|
    ensures forall k :: i <= k < i + n ==> IsDigitIn(s[k], base)
    ensures i + n < |s| ==> !IsDigitIn(s[i + n], base)
    decreases |s| - i
  {
    if i < |s| && IsDigitIn(s[i], base) then 1 + DigitRun(s, i + 1, base) else 0
  }

  /** The value of a digit string, most significant digit first. */
  function DigitsValue(s: string, base: nat): nat {
    if s == [] then 0 else DigitsValue(s[..|s| - 1], base) * base + DigitValue(s[|s| - 1])
  }

  function SpaceRun(s: string, i: nat): (n: nat)
    requires i <= |s|
    ensures i + n <= |s|
    ensures forall k :: i <= k < i + n ==> IsSpace(s[k])
    ensures i + n < |s| ==> !IsSpace(s[i + n])
    decreases |s| - i
  {
    if i < |s| && IsSpace(s[i]) then 1 + SpaceRun(s, i + 1) else 0
  }

  /** What strtol returns, and where it leaves endptr (an index into s;
      |s| means endptr points at the terminating NUL). */
  datatype Parsed = Parsed(value: int, end: nat)

  /** strtol(s, &endptr, base) for base 10 or 16 as glibc implements it:
      leading white space, an optional sign, for base 16 an optional "0x"
      prefix when a hex digit follows it, then the longest run of digits.
      Without digits the value is 0 and endptr is s itself; a value out of
      range saturates at LONG_MIN or LONG_MAX. */
  function StrToL(s: string, base: nat): (r: Parsed)
    requires base == 10 || base == 16
    ensures r.end <= |s|
    ensures LongMin <= r.value <= LongMax
    ensures r.end == 0 ==> r.value == 0
    ensures r.end < |s| ==> !IsDigitIn(s[r.end], base)
  {
    var i := SpaceRun(s, 0);
    var negative := i < |s| && s[i] == '-';
    var j := if i < |s| && (s[i] == '-' || s[i] == '+') then i + 1 else i;
    var k := if base == 16 && j + 2 < |s| && s[j] == '0' && (s[j + 1] == 'x' || s[j + 1] == 'X')
                && IsDigitIn(s[j + 2], 16)
             then j + 2 else j;
    var n := DigitRun(s, k, base);
    if n == 0 then Parsed(0, 0)
    else
      Parsed(Clamped(negative, DigitsValue(s[k..k + n], base)), k + n)
  }

  /** A digit run's value with its sign, saturated at LONG_MIN and LONG_MAX. */
  function Clamped(negative: bool, magnitude: nat): (v: int)
    ensures LongMin <= v <= LongMax
  {
    var value: int := if negative then -(magnitude as int) else magnitude;
    if value > LongMax then LongMax else if value < LongMin then LongMin else value
  }

  /** A string that is one run of digits, with no space, sign or "0x"
      before it, converts completely to the number the digits spell. */
  lemma StrToLPlain(s: string, base: nat)
    requires (base == 10 || base == 16) && s != [] && DigitsValue(s, base) <= LongMax
    requires SpaceRun(s, 0) == 0 && s[0] != '-' && s[0] != '+'
    requires base == 16 && 1 < |s| ==> s[1] != 'x' && s[1] != 'X'
    requires DigitRun(s, 0, base) == |s|
    ensures StrToL(s, base) == Parsed(DigitsValue(s, base), |s|)
  {
    assert s[0..|s|] == s;
  }

  /** A plain run of decimal digits small enough for a long converts
      completely: endptr reaches the terminator and the value is the number
      the digits spell. */
  lemma StrToLDecimal(s: string)
    requires s != [] && forall i :: 0 <= i < |s| ==> '0' <= s[i] <= '9'
    requires DigitsValue(s, 10) <= LongMax
    ensures StrToL(s, 10) == Parsed(DigitsValue(s, 10), |s|)
  {
    assert SpaceRun(s, 0) == 0;
    assert DigitRun(s, 0, 10) == |s|;
    StrToLPlain(s, 10);
  }

  /** The decimal digit of a value below 10. */
  function DigitChar(d: nat): (c: char)
    requires d < 10
    ensures '0' <= c <= '9' && DigitValue(c) == d
  {
    ('0' as int + d) as char
  }

  /** The digits snprintf("%u") writes for a natural number. */
  function Digits(n: nat): (s: string)
    ensures |s| > 0 && forall i :: 0 <= i < |s| ==> '0' <= s[i] <= '9'
    ensures DigitsValue(s, 10) == n
    ensures n >= 10 ==> s[0] != '0'
    decreases n
  {
    if n < 10 then [DigitChar(n)]
    else
      var s := Digits(n / 10) + [DigitChar(n % 10)];
      assert s[..|s| - 1] == Digits(n / 10);
      s
  }

  /** What snprintf("%d") writes for an int. */
  function Decimal(n: int): (s: string)
    ensures n >= 0 ==> s == Digits(n)
    ensures n < 0 ==> s == "-" + Digits(-n)
  {
    if n < 0 then "-" + Digits(-n) else Digits(n)
  }

  /** A C `long` or `ssize_t` value converted to a 32-bit `int`: two's complement wrap-around. */
  function Int32(x: int): (r: int)
    ensures -0x8000_0000 <= r < 0x8000_0000
    ensures -0x8000_0000 <= x < 0x8000_0000 ==> r == x
  {
    (x + 0x8000_0000) % 0x1_0000_0000 - 0x8000_0000
  }

  /** A signed value converted to `size_t`. */
  function SizeT(x: int): (r: nat)
    ensures r < 0x1_0000_0000_0000_0000
    ensures 0 <= x < 0x1_0000_0000_0000_0000 ==> r == x
  {
    x % 0x1_0000_0000_0000_0000
  }

  const SizeMax: nat := 0xFFFF_FFFF_FFFF_FFFF

  /** Appending the parts of a sequence one by one is appending them at once. */
  lemma Regrouped<T>(a: seq<T>, b: seq<T>, c: seq<T>, d: seq<T>)
    ensures a + (b + c + d) == a + b + c + d
  {
  }

  /** memcpy(buffer + at, items, |items|), seen through the prefix it extends. */
  method Put<T>(buffer: array<T>, at: nat, items: seq<T>)
    requires at + |items| <= buffer.Length
    modifies buffer
    ensures buffer[..at + |items|] == old(buffer[..at]) + items
    ensures forall k :: 0 <= k < buffer.Length && !(at <= k < at + |items|) ==> buffer[k] == old(buffer[k])
  {
    forall k | 0 <= k < |items| {
      buffer[at + k] := items[k];
    }
  }
}
