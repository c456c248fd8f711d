/** The header list of an HTTP response (src/http-protocol.c): splitting a
    received header block into key/value entries, sorting them by key
    ignoring case, looking a key up by binary search, and collecting the
    Set-Cookie values into one cookie string. */
module Headers {
  import opened CText
  import opened StringUtil

  /** struct httpio_header: both strings already stripped of white space. */
  datatype Header = Header(key: string, value: string)

  /** The order qsort leaves the list in: keys ascending under strcasecmp. */
  predicate SortedByKey(list: seq<Header>) {
    forall i, j :: 0 <= i < j < |list| ==> CaseCmp(list[i].key, list[j].key) <= 0
  }

  // ---- httpio_response_parse_headers ----

  /** The entries httpio_response_parse_headers finds in s from index head
      on: the key is everything up to the next ':', the value everything
      after it up to the next CRLF (or the end of the text), and the next
      entry starts at the LF of that CRLF. */
  function EntriesFrom(s: string, head: nat): (r: seq<Header>)
    requires head <= |s|
    decreases |s| - head
  {
    match FindFrom(s, ":", head)
    case None => []
    case Some(colon) =>
      var (entry, next) := EntryAt(s, head, colon);
      [entry] + EntriesFrom(s, next)
  }

  /** The entry whose key starts at head and whose ':' is at colon, and the
      index where the search for the next key starts. */
  function EntryAt(s: string, head: nat, colon: nat): (r: (Header, nat))
    requires head <= colon < |s|
    ensures head < r.1 <= |s|
  {
    var key := Strip(s[head..colon]);
    match FindFrom(s, "\r\n", colon + 1)
    case None => (Header(key, Strip(s[colon + 1..])), |s|)
    case Some(end) => (Header(key, Strip(s[colon + 1..end])), end + 1)
  }

  /** The entries of a whole header block, in the order they appear. */
  function Entries(s: string): seq<Header> {
    EntriesFrom(s, 0)
  }

  /** A single line "key: value" followed by CRLF gives one entry, even
      when the value itself contains ':'. */
  lemma OneLineEntry(key: string, value: string)
    requires ':' !in key && !Contains(value, "\r\n") && (value == [] || value[|value| - 1] != '\r')
    ensures Entries(key + ":" + value + "\r\n") == [Header(Strip(key), Strip(value))]
  {
    var s := key + ":" + value + "\r\n";
    var colon, end := |key|, |key| + 1 + |value|;
    assert s[0..colon] == key;
    assert s[colon + 1..end] == value;
    KeyEndsAtColon(key, value);
    ValueEndsAtCrLf(key, value);
    LastEntry(s, colon, end);
  }

  /** The entries from head on: the one whose ':' is at colon, then those
      from where it ends. */
  lemma EntriesStep(s: string, head: nat, colon: nat, entry: Header, next: nat)
    requires head <= |s| && FindFrom(s, ":", head) == Some(colon) && EntryAt(s, head, colon) == (entry, next)
    ensures next <= |s|
    ensures EntriesFrom(s, head) == [entry] + EntriesFrom(s, next)
  {
  }

  /** The entry whose value ends at the CRLF found at end. */
  lemma EntryAtStep(s: string, head: nat, colon: nat, after: nat, end: nat, next: nat)
    requires head <= colon < |s| && after == colon + 1 && next == end + 1
    requires FindFrom(s, "\r\n", after) == Some(end)
    ensures EntryAt(s, head, colon) == (Header(Strip(s[head..colon]), Strip(s[after..end])), next)
  {
  }

  /** A block whose first ':' is followed by the CRLF that ends it holds
      exactly one entry. */
  lemma LastEntry(s: string, colon: nat, end: nat)
    requires colon < end && end + 2 == |s| && s[end + 1] == '\n'
    requires FindFrom(s, ":", 0) == Some(colon) && FindFrom(s, "\r\n", colon + 1) == Some(end)
    ensures Entries(s) == [Header(Strip(s[0..colon]), Strip(s[colon + 1..end]))]
  {
    var next := end + 1;
    var entry := Header(Strip(s[0..colon]), Strip(s[colon + 1..end]));
    EntryAtStep(s, 0, colon, colon + 1, end, next);
    EntriesStep(s, 0, colon, entry, next);
    NoEntryAtEnd(s, next);
  }

  /** A final LF holds no further entry. */
  lemma NoEntryAtEnd(s: string, next: nat)
    requires next + 1 == |s| && s[next] == '\n'
    ensures EntriesFrom(s, next) == []
  {
    IsAtChar(s, ":", next);
    FindFromSkip(s, ":", next, |s|);
    assert FindFrom(s, ":", |s|) == None;
  }

  lemma KeyEndsAtColon(key: string, value: string)
    requires ':' !in key
    ensures FindFrom(key + ":" + value + "\r\n", ":", 0) == Some(|key|)
  {
    var s := key + ":" + value + "\r\n";
    assert s[|key|..|key| + 1] == ":";
    forall k | 0 <= k < |key| ensures !IsAt(s, ":", k) {
      assert s[k] == key[k];
    }
    FindFromIs(s, ":", 0, |key|);
  }

  lemma ValueEndsAtCrLf(key: string, value: string)
    requires !Contains(value, "\r\n") && (value == [] || value[|value| - 1] != '\r')
    ensures FindFrom(key + ":" + value + "\r\n", "\r\n", |key| + 1) == Some(|key| + 1 + |value|)
  {
    var s := key + ":" + value + "\r\n";
    var start, end := |key| + 1, |key| + 1 + |value|;
    NoPairInside(value);
    LineChar(key, value, end, |value|);
    LineChar(key, value, end + 1, |value| + 1);
    IsAtPair(s, '\r', '\n', end);
    forall k | start <= k < end ensures !IsAt(s, "\r\n", k) {
      IsAtPair(s, '\r', '\n', k);
      LineChar(key, value, k, k - start);
      LineChar(key, value, k + 1, k + 1 - start);
    }
    FindFromIs(s, "\r\n", start, end);
  }

  /** The character at index k of a header line, counted from the start
      of its value as i. */
  lemma LineChar(key: string, value: string, k: int, i: int)
    requires 0 <= i <= |value| + 1 && k == |key| + 1 + i
    ensures var s := key + ":" + value + "\r\n";
      && k < |s|
      && s[k] == (if i < |value| then value[i] else if i == |value| then '\r' else '\n')
  {
  }

  /** Text without CRLF has no CR directly before an LF. */
  lemma NoPairInside(value: string)
    requires !Contains(value, "\r\n")
    ensures forall i :: 0 <= i < |value| - 1 ==> value[i] != '\r' || value[i + 1] != '\n'
  {
    forall i | 0 <= i < |value| - 1 ensures value[i] != '\r' || value[i + 1] != '\n' {
      IsAtPair(value, '\r', '\n', i);
      if IsAt(value, "\r\n", i) {
        ContainsAt(value, "\r\n", i);
      }
    }
  }

  /** Where `sorted[..k]` ends: the first entry whose key sorts after the
      new key. */
  function InsertionPoint(sorted: seq<Header>, key: string): (k: nat)
    ensures k <= |sorted|
    ensures forall i :: 0 <= i < k ==> CaseCmp(key, sorted[i].key) >= 0
    ensures k < |sorted| ==> CaseCmp(key, sorted[k].key) < 0
  {
    if sorted == [] || CaseCmp(key, sorted[0].key) < 0 then 0
    else 1 + InsertionPoint(sorted[1..], key)
  }

  /** One step of the sort: a header placed among sorted ones. */
  method Insert(sorted: seq<Header>, header: Header) returns (r: seq<Header>)
    requires SortedByKey(sorted)
    ensures SortedByKey(r)
    ensures multiset(r) == multiset(sorted) + multiset{header}
  {
    var k := InsertionPoint(sorted, header.key);
    r := sorted[..k] + [header] + sorted[k..];
    InsertKeepsOrder(sorted, header, k);
    assert sorted == sorted[..k] + sorted[k..];
  }

  lemma InsertKeepsOrder(sorted: seq<Header>, header: Header, k: nat)
    requires SortedByKey(sorted) && k == InsertionPoint(sorted, header.key)
    ensures SortedByKey(sorted[..k] + [header] + sorted[k..])
  {
    var r := sorted[..k] + [header] + sorted[k..];
    forall i, j | 0 <= i < j < |r|
      ensures CaseCmp(r[i].key, r[j].key) <= 0
    {
      InsertedPair(sorted, header, k, r, i, j);
    }
  }

  /** Any two entries of the list with the header inserted are in order. */
  lemma InsertedPair(sorted: seq<Header>, header: Header, k: nat, r: seq<Header>, i: nat, j: nat)
    requires SortedByKey(sorted) && k == InsertionPoint(sorted, header.key)
    requires r == sorted[..k] + [header] + sorted[k..] && i < j < |r|
    ensures CaseCmp(r[i].key, r[j].key) <= 0
  {
    InsertedAt(sorted, header, k, r, i);
    InsertedAt(sorted, header, k, r, j);
    if j == k {
      CaseCmpAntisymmetric(header.key, sorted[i].key);
    } else if i == k && j - 1 > k {
      CaseCmpTransitive(header.key, sorted[k].key, sorted[j - 1].key);
    }
  }

  /** Where each entry of the list with the header inserted comes from. */
  lemma InsertedAt(sorted: seq<Header>, header: Header, k: nat, r: seq<Header>, i: nat)
    requires k <= |sorted| && r == sorted[..k] + [header] + sorted[k..] && i < |r|
    ensures i < k ==> r[i] == sorted[i]
    ensures i == k ==> r[i] == header
    ensures i > k ==> r[i] == sorted[i - 1]
  {
  }

  /** qsort(headers, count, ..., strcasecmp on keys): any sorted
      rearrangement, since qsort is not stable. */
  method SortByKey(entries: seq<Header>) returns (sorted: seq<Header>)
    ensures SortedByKey(sorted)
    ensures multiset(sorted) == multiset(entries)
  {
    sorted := [];
    for i := 0 to |entries|
      invariant SortedByKey(sorted)
      invariant multiset(sorted) == multiset(entries[..i])
    {
      sorted := Insert(sorted, entries[i]);
      assert entries[..i + 1] == entries[..i] + [entries[i]];
    }
    assert entries[..|entries|] == entries;
  }

  /** httpio_response_parse_headers on the text of a header block: cut the
      entries out one by one, then sort them. */
  method ParseHeaders(source: string) returns (list: seq<Header>)
    ensures SortedByKey(list)
    ensures multiset(list) == multiset(Entries(source))
  {
    var entries := CutEntries(source);
    list := SortByKey(entries);
  }

  /** The scanning loop of httpio_response_parse_headers: strchr for the
      ':' from the head, then strstr for the CRLF after it. */
  method CutEntries(source: string) returns (entries: seq<Header>)
    ensures entries == Entries(source)
  {
    entries := [];
    var head := 0;
    var colon := FindFrom(source, ":", head);
    while colon.Some?
      invariant head <= |source|
      invariant colon == FindFrom(source, ":", head)
      invariant entries + EntriesFrom(source, head) == Entries(source)
      decreases |source| - head
    {
      var (entry, next) := EntryAt(source, head, colon.value);
      EntriesStep(source, head, colon.value, entry, next);
      entries := entries + [entry];
      head := next;
      colon := FindFrom(source, ":", head);
    }
  }

  // ---- httpio_header_list_get ----

  /** glibc's bsearch over list[lo..hi] with strcasecmp(key, entry key):
      halve the range until the middle entry compares equal. */
  function Search(list: seq<Header>, key: string, lo: nat, hi: nat): (r: Option<nat>)
    requires lo <= hi <= |list|
    ensures r.Some? ==> lo <= r.value < hi && CaseEq(list[r.value].key, key)
    decreases hi - lo
  {
    if lo >= hi then None
    else
      var mid := (lo + hi) / 2;
      var c := CaseCmp(key, list[mid].key);
      if c < 0 then Search(list, key, lo, mid)
      else if c > 0 then Search(list, key, mid + 1, hi)
      else Some(mid)
  }

  /** On a sorted list the search misses only keys that are not there. */
  lemma {:induction false} SearchComplete(list: seq<Header>, key: string, lo: nat, hi: nat)
    requires lo <= hi <= |list| && SortedByKey(list)
    ensures Search(list, key, lo, hi).None? ==> forall j :: lo <= j < hi ==> !CaseEq(list[j].key, key)
    decreases hi - lo
  {
    if lo < hi {
      var mid := (lo + hi) / 2;
      var c := CaseCmp(key, list[mid].key);
      if c < 0 {
        SearchComplete(list, key, lo, mid);
        forall j | mid <= j < hi ensures !CaseEq(list[j].key, key) {
          if j > mid {
            CaseCmpTransitive(key, list[mid].key, list[j].key);
          }
          CaseCmpAntisymmetric(key, list[j].key);
        }
      } else if c > 0 {
        SearchComplete(list, key, mid + 1, hi);
        CaseCmpAntisymmetric(key, list[mid].key);
        forall j | lo <= j <= mid ensures !CaseEq(list[j].key, key) {
          if j < mid {
            CaseCmpTransitive(list[j].key, list[mid].key, key);
          }
        }
      }
    }
  }

  /** httpio_header_list_get: the value of an entry whose key equals the
      query ignoring case, or NULL; a NULL list gives NULL. */
  function Lookup(list: Option<seq<Header>>, key: string): (r: Option<string>)
    ensures list.None? ==> r.None?
    ensures r.Some? ==> exists i :: 0 <= i < |list.value| && CaseEq(list.value[i].key, key) && list.value[i].value == r.value
  {
    match list
    case None => None
    case Some(entries) =>
      match Search(entries, key, 0, |entries|)
      case None => None
      case Some(i) => Some(entries[i].value)
  }

  /** On a sorted list, Lookup finds every key that is present. */
  lemma LookupComplete(list: seq<Header>, key: string)
    requires SortedByKey(list)
    ensures Lookup(Some(list), key).None? <==> forall j :: 0 <= j < |list| ==> !CaseEq(list[j].key, key)
  {
    SearchComplete(list, key, 0, |list|);
  }

  // ---- httpio_response_update_cookie ----

  const SetCookieKey: string := "set-cookie"

  /** The part of a Set-Cookie value before its first ';'. */
  function CookiePart(value: string): (r: string)
    ensures ';' !in r && r <= value
    ensures |r| < |value| ==> value[|r|] == ';'
  {
    match IndexOf(value, ';')
    case None => value
    case Some(i) => value[..i]
  }

  /** One append: "; " first when the cookie is not empty. */
  function AddCookie(cookie: string, part: string): string {
    (if |cookie| > 0 then cookie + "; " else cookie) + part
  }

  predicate IsSetCookie(h: Header) {
    CaseEq(h.key, SetCookieKey)
  }

  /** The cookie after the entries of `list`, in list order. */
  function CookieAfter(cookie: string, list: seq<Header>): string {
    if list == [] then cookie
    else
      var before := CookieAfter(cookie, list[..|list| - 1]);
      var h := list[|list| - 1];
      if IsSetCookie(h) then AddCookie(before, CookiePart(h.value)) else before
  }

  /** The Set-Cookie parts of the entries, in list order. */
  function CookieParts(list: seq<Header>): (r: seq<string>)
    ensures |r| <= |list|
  {
    if list == [] then []
    else
      var h := list[|list| - 1];
      CookieParts(list[..|list| - 1]) + (if IsSetCookie(h) then [CookiePart(h.value)] else [])
  }

  /** The whole update, NULL cookie included: a list without any
      Set-Cookie entry leaves the cookie alone. */
  function UpdatedCookie(cookie: Option<string>, list: Option<seq<Header>>): Option<string> {
    if list.None? || CookieParts(list.value) == [] then cookie
    else Some(CookieAfter(if cookie.Some? then cookie.value else "", list.value))
  }

  lemma {:induction false} JoinAppend(pieces: seq<string>, piece: string, delimiter: string)
    requires pieces != []
    ensures Join(pieces + [piece], delimiter) == Join(pieces, delimiter) + delimiter + piece
    decreases |pieces|
  {
    if |pieces| == 1 {
      assert (pieces + [piece])[1..] == [piece];
    } else {
      assert (pieces + [piece])[1..] == pieces[1..] + [piece];
      JoinAppend(pieces[1..], piece, delimiter);
    }
  }

  /** Starting from no cookie, the accumulated cookie is the Set-Cookie
      parts joined by "; ", as long as no part is empty. */
  lemma {:induction false} CookieIsJoinedParts(list: seq<Header>)
    requires forall p :: p in CookieParts(list) ==> p != ""
    ensures CookieAfter("", list) == Join(CookieParts(list), "; ")
  {
    if list != [] {
      var init := list[..|list| - 1];
      var h := list[|list| - 1];
      assert CookieParts(list) == CookieParts(init) + (if IsSetCookie(h) then [CookiePart(h.value)] else []);
      assert forall p :: p in CookieParts(init) ==> p in CookieParts(list);
      CookieIsJoinedParts(init);
      var parts := CookieParts(init);
      if IsSetCookie(h) {
        var part := CookiePart(h.value);
        assert CookieAfter("", list) == AddCookie(CookieAfter("", init), part);
        assert CookieParts(list) == parts + [part];
        if parts != [] {
          assert parts[0] in CookieParts(list);
          JoinNonEmpty(parts, "; ");
          JoinAppend(parts, part, "; ");
        } else {
          assert CookieParts(list) == [part];
        }
      } else {
        assert CookieAfter("", list) == CookieAfter("", init);
        assert CookieParts(list) == parts;
      }
    }
  }

  lemma {:induction false} JoinNonEmpty(pieces: seq<string>, delimiter: string)
    requires pieces != [] && pieces[0] != ""
    ensures |Join(pieces, delimiter)| > 0
  {
    if |pieces| > 1 {
      assert Join(pieces, delimiter) == pieces[0] + delimiter + Join(pieces[1..], delimiter);
    }
  }

  /** The cookie and the parts after one more entry of the list. */
  lemma CookieStep(cookie: string, list: seq<Header>, i: nat)
    requires i < |list|
    ensures CookieAfter(cookie, list[..i + 1])
      == if IsSetCookie(list[i]) then AddCookie(CookieAfter(cookie, list[..i]), CookiePart(list[i].value))
         else CookieAfter(cookie, list[..i])
    ensures CookieParts(list[..i + 1])
      == CookieParts(list[..i]) + if IsSetCookie(list[i]) then [CookiePart(list[i].value)] else []
  {
    assert list[..i + 1][..i] == list[..i];
  }

  /** httpio_response_update_cookie: *cookie (None for NULL) and the
      header list (None for NULL). realloc is assumed to succeed. */
  method UpdateCookie(cookie: Option<string>, list: Option<seq<Header>>) returns (updated: Option<string>)
    ensures updated == UpdatedCookie(cookie, list)
    ensures list.None? ==> updated == cookie
  {
    if list.None? {
      return cookie;
    }
    var entries := list.value;
    updated := cookie;
    var text := if cookie.Some? then cookie.value else "";
    for i := 0 to |entries|
      invariant text == CookieAfter(if cookie.Some? then cookie.value else "", entries[..i])
      invariant updated == if CookieParts(entries[..i]) == [] then cookie else Some(text)
    {
      CookieStep(if cookie.Some? then cookie.value else "", entries, i);
      if IsSetCookie(entries[i]) {
        text := AddCookie(text, CookiePart(entries[i].value));
        updated := Some(text);
      }
    }
    assert entries[..|entries|] == entries;
  }
}
