/** The string helpers of src/http-util.c: splitting on a delimiter,
    stripping white space, concatenation, and counting and replacing the
    occurrences of a needle. Each loop is proved against a recursive
    definition, and the definitions are related to each other: replacing
    is splitting and joining again. */
module StringUtil {
  import opened CText

  // ---- splitting ----

  /** The pieces of s[from..] between the leftmost occurrences of the
      delimiter, scanning left to right; there is always at least one
      piece, and a delimiter at the very end leaves an empty last piece. */
  function PiecesFrom(s: string, delimiter: string, from: nat): (r: seq<string>)
    requires |delimiter| > 0 && from <= |s|
    ensures |r| > 0
    decreases |s| - from
  {
    match FindFrom(s, delimiter, from)
    case None => [s[from..]]
    case Some(k) => [s[from..k]] + PiecesFrom(s, delimiter, k + |delimiter|)
  }

  /** util_string_splitstr: no pieces at all for the empty string. */
  function Split(s: string, delimiter: string): seq<string>
    requires |delimiter| > 0
  {
    if s == [] then [] else PiecesFrom(s, delimiter, 0)
  }

  /** The pieces with the delimiter put back between them. */
  function Join(pieces: seq<string>, delimiter: string): string {
    if pieces == [] then ""
    else if |pieces| == 1 then pieces[0]
    else pieces[0] + delimiter + Join(pieces[1..], delimiter)
  }

  lemma {:induction false} JoinPieces(s: string, delimiter: string, from: nat)
    requires |delimiter| > 0 && from <= |s|
    ensures Join(PiecesFrom(s, delimiter, from), delimiter) == s[from..]
    decreases |s| - from
  {
    match FindFrom(s, delimiter, from)
    case None =>
    case Some(k) =>
      JoinPieces(s, delimiter, k + |delimiter|);
      assert s[from..] == s[from..k] + delimiter + s[k + |delimiter|..];
  }

  /** Joining the pieces with the delimiter gives the string back. */
  lemma JoinSplit(s: string, delimiter: string)
    requires |delimiter| > 0
    ensures Join(Split(s, delimiter), delimiter) == s
  {
    if s != [] {
      JoinPieces(s, delimiter, 0);
    }
  }

  /** A string between from and the leftmost occurrence after it does not
      contain the delimiter. */
  lemma GapAvoidsDelimiter(s: string, delimiter: string, from: nat, to: nat)
    requires |delimiter| > 0 && from <= to <= |s|
    requires forall j :: from <= j < to ==> !IsAt(s, delimiter, j)
    ensures !Contains(s[from..to], delimiter)
  {
    var p := s[from..to];
    forall j | 0 <= j <= |p| ensures !IsAt(p, delimiter, j) {
      ShiftedAt(s, delimiter, from, to, j);
    }
  }

  /** An occurrence inside a slice is an occurrence in the whole string. */
  lemma ShiftedAt(s: string, delimiter: string, from: nat, to: nat, j: nat)
    requires from <= to <= |s|
    ensures IsAt(s[from..to], delimiter, j) ==> IsAt(s, delimiter, from + j)
  {
    var p, n, a := s[from..to], |delimiter|, from + j;
    if IsAt(p, delimiter, j) {
      var x, y := s[a..a + n], p[j..j + n];
      forall i | 0 <= i < n ensures x[i] == y[i] {
        var k := j + i;
        assert p[k] == s[from + k];
      }
      assert x == y;
    }
  }

  /** No piece contains the delimiter. */
  lemma {:induction false} PiecesAvoidDelimiter(s: string, delimiter: string, from: nat)
    requires |delimiter| > 0 && from <= |s|
    ensures forall i :: 0 <= i < |PiecesFrom(s, delimiter, from)| ==> !Contains(PiecesFrom(s, delimiter, from)[i], delimiter)
    decreases |s| - from
  {
    match FindFrom(s, delimiter, from)
    case None =>
      GapAvoidsDelimiter(s, delimiter, from, |s|);
      assert s[from..|s|] == s[from..];
    case Some(k) =>
      PiecesAvoidDelimiter(s, delimiter, k + |delimiter|);
      GapAvoidsDelimiter(s, delimiter, from, k);
  }

  /** The pieces of a split never contain the delimiter. */
  lemma SplitAvoidsDelimiter(s: string, delimiter: string)
    requires |delimiter| > 0
    ensures forall i :: 0 <= i < |Split(s, delimiter)| ==> !Contains(Split(s, delimiter)[i], delimiter)
  {
    if s != [] {
      PiecesAvoidDelimiter(s, delimiter, 0);
    }
  }

  /** A nonempty string without the delimiter is its own only piece. */
  lemma SplitWithoutDelimiter(s: string, delimiter: string)
    requires |delimiter| > 0 && s != [] && !Contains(s, delimiter)
    ensures Split(s, delimiter) == [s]
  {
    assert s[0..] == s;
  }

  /** util_string_splitstr. The list is the pieces between leftmost
      delimiter occurrences, found with strstr from the current head. The
      loop runs while the tail is not at the terminator, so an empty string
      gives an empty list, and a delimiter at the end gives a last empty
      piece. With an empty delimiter strstr always matches at the head and
      the loop never ends on a nonempty string, which the precondition
      excludes. */
  method SplitStr(s: string, delimiter: string) returns (list: seq<string>)
    requires |delimiter| > 0 || s == []
    ensures |delimiter| > 0 ==> list == Split(s, delimiter)
    ensures s == [] ==> list == []
  {
    var head, tail := 0, 0;
    list := [];
    while tail < |s|
      invariant 0 <= tail <= |s| && 0 <= head <= |s| + |delimiter|
      invariant tail < |s| ==> head <= |s| && list + PiecesFrom(s, delimiter, head) == PiecesFrom(s, delimiter, 0)
      invariant tail == |s| && s != [] ==> list == PiecesFrom(s, delimiter, 0)
      invariant s == [] ==> list == []
      decreases |s| + |delimiter| - head
    {
      assert |delimiter| > 0;
      var past;
      match FindFrom(s, delimiter, head) {
        case None =>
          assert s[head..|s|] == s[head..];
          tail := |s|;
          past := tail + |delimiter|;
        case Some(k) =>
          tail := k;
          past := tail + |delimiter|;
          PiecesStep(s, delimiter, head, tail, past);
      }
      list := list + [s[head..tail]];
      head := past;
    }
  }

  /** Past a match at k, the pieces are the one before it and those after it. */
  lemma PiecesStep(s: string, delimiter: string, from: nat, k: nat, past: nat)
    requires |delimiter| > 0 && from <= |s| && FindFrom(s, delimiter, from) == Some(k) && past == k + |delimiter|
    ensures past <= |s|
    ensures PiecesFrom(s, delimiter, from) == [s[from..k]] + PiecesFrom(s, delimiter, past)
  {
  }

  /** util_string_splitchr: splitting on a one-character delimiter; the NUL
      character makes the delimiter string empty. */
  method SplitChr(s: string, character: char) returns (list: seq<string>)
    requires character != '\0' || s == []
    ensures character != '\0' ==> list == Split(s, [character])
    ensures s == [] ==> list == []
  {
    var delimiter := if character == '\0' then "" else [character];
    list := SplitStr(s, delimiter);
  }

  // ---- stripping ----

  /** The number of white-space characters just before index end. */
  function SpaceBefore(s: string, end: nat): (n: nat)
    requires end <= |s|
    ensures n <= end
    ensures forall k :: end - n <= k < end ==> IsSpace(s[k])
    ensures n < end ==> !IsSpace(s[end - 1 - n])
  {
    if end > 0 && IsSpace(s[end - 1]) then 1 + SpaceBefore(s, end - 1) else 0
  }

  /** s without its leading and trailing white space. */
  function Strip(s: string): string {
    var t := s[SpaceRun(s, 0)..];
    t[..|t| - SpaceBefore(t, |t|)]
  }

  predicate AllSpace(s: string) {
    forall k :: 0 <= k < |s| ==> IsSpace(s[k])
  }

  /** Strip keeps the middle of s: what it removes on either side is white
      space, and what it keeps neither starts nor ends with white space. */
  lemma StripShape(s: string)
    ensures exists before, after :: s == before + Strip(s) + after && AllSpace(before) && AllSpace(after)
    ensures Strip(s) != [] ==> !IsSpace(Strip(s)[0]) && !IsSpace(Strip(s)[|Strip(s)| - 1])
  {
    var a := SpaceRun(s, 0);
    var t := s[a..];
    var b := |t| - SpaceBefore(t, |t|);
    var r := Strip(s);
    assert s == s[..a] + r + t[b..];
    assert AllSpace(s[..a]);
    assert AllSpace(t[b..]);
    if r != [] {
      assert r[0] == s[a];
    }
  }

  /** Stripping twice strips no more. */
  lemma StripIdempotent(s: string)
    ensures Strip(Strip(s)) == Strip(s)
  {
    var r := Strip(s);
    StripShape(s);
    if r != [] {
      assert SpaceRun(r, 0) == 0;
      assert r[0..] == r;
      assert SpaceBefore(r, |r|) == 0;
    } else {
      assert SpaceRun(r, 0) == 0;
    }
  }

  /** httpio_stripdup: NULL gives NULL; otherwise the leading white space
      is skipped, an empty rest is duplicated as it is, and the trailing
      white space is counted off before copying. */
  method StripDup(s: Option<string>) returns (r: Option<string>)
    ensures s.None? ==> r.None?
    ensures s.Some? ==> r == Some(Strip(s.value))
  {
    if s.None? {
      return None;
    }
    var text := s.value;
    var start := 0;
    while start < |text| && IsSpace(text[start])
      invariant start <= |text| && start <= SpaceRun(text, 0)
      invariant SpaceRun(text, 0) == start + SpaceRun(text, start)
    {
      start := start + 1;
    }
    var t := text[start..];
    var length := |t|;
    if length == 0 {
      return Some(t);
    }
    while length > 0 && IsSpace(t[length - 1])
      invariant 0 <= length <= |t|
      invariant SpaceBefore(t, |t|) == (|t| - length) + SpaceBefore(t, length)
    {
      length := length - 1;
    }
    r := Some(t[..length]);
  }

  // ---- concatenation ----

  function Concat(parts: seq<string>): string {
    if parts == [] then "" else Concat(parts[..|parts| - 1]) + parts[|parts| - 1]
  }

  lemma {:induction false} ConcatLength(parts: seq<string>, k: nat)
    requires k < |parts|
    ensures |Concat(parts[..k])| + |parts[k]| <= |Concat(parts)|
    ensures Concat(parts)[|Concat(parts[..k])|..|Concat(parts[..k])| + |parts[k]|] == parts[k]
    decreases |parts|
  {
    var last := |parts| - 1;
    assert parts[..last][..k] == parts[..k];
    if k < last {
      ConcatLength(parts[..last], k);
      assert parts[..last][k] == parts[k];
    } else {
      assert parts[..k] == parts[..last];
    }
  }

  /** httpio_concatenate: the arguments up to the first NULL, one after
      the other; no arguments at all (the first is NULL) gives NULL. The
      list holds the arguments before the NULL. Each part is found whole in
      the result, after the parts before it. */
  method Concatenate(parts: seq<string>) returns (r: Option<string>)
    ensures parts == [] ==> r.None?
    ensures parts != [] ==> r == Some(Concat(parts))
  {
    var result: Option<string> := None;
    var i := 0;
    while i < |parts|
      invariant i <= |parts|
      invariant i == 0 ==> result.None?
      invariant i > 0 ==> result == Some(Concat(parts[..i]))
    {
      var sofar := if result.Some? then result.value else "";
      assert parts[..i + 1][..i] == parts[..i];
      result := Some(sofar + parts[i]);
      i := i + 1;
    }
    assert parts[..i] == parts;
    r := result;
  }

  // ---- counting and replacing ----

  /** The number of leftmost, non-overlapping occurrences of the needle in s[from..]. */
  function CountFrom(s: string, needle: string, from: nat): nat
    requires |needle| > 0 && from <= |s|
    decreases |s| - from
  {
    match FindFrom(s, needle, from)
    case None => 0
    case Some(k) => 1 + CountFrom(s, needle, k + |needle|)
  }

  /** s[from..] with every leftmost, non-overlapping occurrence of the
      needle replaced. */
  function ReplaceFrom(s: string, needle: string, replacement: string, from: nat): string
    requires |needle| > 0 && from <= |s|
    decreases |s| - from
  {
    match FindFrom(s, needle, from)
    case None => s[from..]
    case Some(k) => s[from..k] + replacement + ReplaceFrom(s, needle, replacement, k + |needle|)
  }

  function Count(s: string, needle: string): nat
    requires |needle| > 0
  {
    CountFrom(s, needle, 0)
  }

  function Replace(s: string, needle: string, replacement: string): string
    requires |needle| > 0
  {
    ReplaceFrom(s, needle, replacement, 0)
  }

  lemma Distribute(d: int, c: int)
    ensures d * (c + 1) == d * c + d
  {
  }

  /** The length httpio_strreplace returns: each replacement changes the
      length by |replacement| - |needle|. */
  lemma {:induction false} ReplaceLength(s: string, needle: string, replacement: string, from: nat)
    requires |needle| > 0 && from <= |s|
    ensures |ReplaceFrom(s, needle, replacement, from)|
      == |s| - from + (|replacement| - |needle|) * CountFrom(s, needle, from)
    decreases |s| - from
  {
    match FindFrom(s, needle, from)
    case None =>
    case Some(k) =>
      var past := k + |needle|;
      ReplaceStep(s, needle, replacement, from, k, past);
      CountStep(s, needle, from, k, past);
      ReplaceLength(s, needle, replacement, past);
      Distribute(|replacement| - |needle|, CountFrom(s, needle, past));
  }

  lemma CountStep(s: string, n: string, at: nat, k: nat, past: nat)
    requires |n| > 0 && at <= |s| && FindFrom(s, n, at) == Some(k) && past == k + |n|
    ensures past <= |s|
    ensures CountFrom(s, n, at) == 1 + CountFrom(s, n, past)
  {
  }

  /** Replacing is splitting at the needle and joining with the
      replacement, and the needle occurs once less often than there are pieces. */
  lemma {:induction false} ReplaceIsJoinedPieces(s: string, needle: string, replacement: string, from: nat)
    requires |needle| > 0 && from <= |s|
    ensures ReplaceFrom(s, needle, replacement, from) == Join(PiecesFrom(s, needle, from), replacement)
    ensures CountFrom(s, needle, from) == |PiecesFrom(s, needle, from)| - 1
    decreases |s| - from
  {
    match FindFrom(s, needle, from)
    case None =>
    case Some(k) =>
      ReplaceIsJoinedPieces(s, needle, replacement, k + |needle|);
  }

  /** Replacing the needle by itself changes nothing. */
  lemma ReplaceBySelf(s: string, needle: string)
    requires |needle| > 0
    ensures Replace(s, needle, needle) == s
  {
    ReplaceIsJoinedPieces(s, needle, needle, 0);
    JoinPieces(s, needle, 0);
  }

  /** util_countsubstr: strstr from the current position, stepping over
      each match. An empty needle matches in place forever, so it is
      excluded. */
  method CountSubstr(s: string, needle: string) returns (count: nat)
    requires |needle| > 0
    ensures count == Count(s, needle)
  {
    count := 0;
    var at := 0;
    var next := FindFrom(s, needle, at);
    while next.Some?
      invariant at <= |s| && next == FindFrom(s, needle, at)
      invariant count + CountFrom(s, needle, at) == Count(s, needle)
      decreases |s| - at
    {
      at := next.value + |needle|;
      next := FindFrom(s, needle, at);
      count := count + 1;
    }
  }

  /** httpio_strreplace. A NULL output pointer, needle or replacement
      returns 0 and changes nothing; otherwise the string is rebuilt with
      every occurrence replaced, and the value returned, computed in size_t
      as length + (add - remove) * count, is the new length modulo 2^64. */
  method StrReplace(output: Option<string>, needle: Option<string>, replacement: Option<string>)
    returns (newOutput: Option<string>, length: nat)
    requires needle.Some? ==> |needle.value| > 0
    ensures output.None? || needle.None? || replacement.None? ==> newOutput == output && length == 0
    ensures output.Some? && needle.Some? && replacement.Some? ==>
      && newOutput == Some(Replace(output.value, needle.value, replacement.value))
      && length == SizeT(|newOutput.value|)
  {
    if output.None? || needle.None? || replacement.None? {
      return output, 0;
    }
    var s, n, add := output.value, needle.value, replacement.value;
    var count := CountSubstr(s, n);
    var result := Rebuild(s, n, add);
    newOutput := Some(result);
    var change := (|add| - |n|) * count;
    ReplaceLength(s, n, add, 0);
    length := SizeT(|s| + change);
  }

  /** Past a match at k, the replaced text is the text before it, the
      replacement, and the rest replaced. */
  lemma ReplaceStep(s: string, n: string, add: string, at: nat, k: nat, past: nat)
    requires |n| > 0 && at <= |s| && FindFrom(s, n, at) == Some(k) && past == k + |n|
    ensures past <= |s|
    ensures ReplaceFrom(s, n, add, at) == s[at..k] + add + ReplaceFrom(s, n, add, past)
  {
  }

  /** One round of the copying loop of httpio_strreplace: the text
      before the match and the replacement are appended, and the search
      resumes past the match. */
  method CopyMatch(s: string, n: string, add: string, result: string, at: nat, k: nat, ghost whole: string)
    returns (extended: string, past: nat, next: Option<nat>)
    requires |n| > 0 && at <= |s| && FindFrom(s, n, at) == Some(k)
    requires result + ReplaceFrom(s, n, add, at) == whole
    ensures at < past <= |s| && next == FindFrom(s, n, past)
    ensures extended + ReplaceFrom(s, n, add, past) == whole
  {
    past := k + |n|;
    ReplaceStep(s, n, add, at, k, past);
    Regrouped(result, s[at..k], add, ReplaceFrom(s, n, add, past));
    extended := result + s[at..k] + add;
    next := FindFrom(s, n, past);
  }

  /** The copying loop of httpio_strreplace: the text before each match,
      then the replacement, then the text after the last match. */
  method Rebuild(s: string, n: string, add: string) returns (result: string)
    requires |n| > 0
    ensures result == Replace(s, n, add)
  {
    result := "";
    var at := 0;
    var next := FindFrom(s, n, at);
    while next.Some?
      invariant at <= |s| && next == FindFrom(s, n, at)
      invariant result + ReplaceFrom(s, n, add, at) == Replace(s, n, add)
      decreases |s| - at
    {
      result, at, next := CopyMatch(s, n, add, result, at, next.value, Replace(s, n, add));
    }
    result := result + s[at..];
  }
}
