/** A simplified `urllib.parse.urlparse` and `parse_qs`: the split of a URL reference
    into the components of section 3 of RFC 3986 (scheme, authority, path, query,
    fragment) in the order Python's `urlsplit` takes them apart, and the first value of
    a query parameter. */
module Urls {
  import opened Strings
  import opened Results

  /** The components `urlparse` reports; Python calls the authority `netloc`. */
  datatype Url = Url(scheme: string, netloc: string, path: string, query: string, fragment: string)

  predicate IsAsciiLetter(c: char) {
    ('a' <= c <= 'z') || ('A' <= c <= 'Z')
  }

  /** The characters a scheme may use after its first letter (RFC 3986 section 3.1). */
  predicate IsSchemeChar(c: char) {
    IsAsciiLetter(c) || ('0' <= c <= '9') || c == '+' || c == '-' || c == '.'
  }

  /** `s` opens with a scheme: a letter, then scheme characters, up to its first `:`. */
  predicate HasScheme(s: string) {
    var colon := IndexOf(s, ':');
    0 < colon < |s| && IsAsciiLetter(s[0]) && forall i :: 0 <= i < colon ==> IsSchemeChar(s[i])
  }

  /** The scheme and what follows its `:`, or no scheme and all of `s`. */
  function SplitScheme(s: string): (r: (string, string))
    ensures ':' !in r.0
    ensures r.0 == [] ==> r.1 == s
    ensures r.0 != [] ==> s == r.0 + ":" + r.1
  {
    if HasScheme(s) then
      var colon := IndexOf(s, ':');
      assert s == s[..colon] + ":" + s[colon + 1..];
      (s[..colon], s[colon + 1..])
    else ("", s)
  }

  /** After a leading `//`, the authority up to the first `/`, `?` or `#`, and the rest. */
  function SplitAuthority(rest: string): (r: (string, string))
    ensures forall i :: 0 <= i < |r.0| ==> r.0[i] !in "/?#"
    ensures StartsWith(rest, "//") ==> rest == "//" + r.0 + r.1 && (r.1 == [] || r.1[0] in "/?#")
    ensures !StartsWith(rest, "//") ==> r == ("", rest)
  {
    if StartsWith(rest, "//") then
      var n := IndexOfAny(rest[2..], "/?#");
      assert rest == "//" + rest[2..2 + n] + rest[2 + n..];
      (rest[2..2 + n], rest[2 + n..])
    else ("", rest)
  }

  /** The text before the first occurrence of `sep` and the text after it, if any. */
  function SplitOnce(s: string, sep: char): (r: (string, string))
    ensures sep !in r.0
    ensures sep in s ==> s == r.0 + [sep] + r.1
    ensures sep !in s ==> r == (s, "")
  {
    var before := FirstPart(s, sep);
    if |before| < |s| then
      assert s == before + [sep] + s[|before| + 1..];
      (before, s[|before| + 1..])
    else
      assert s == before;
      (s, "")
  }

  /** Splits a URL: the scheme up to the first `:` when there is one, then, after a
      `//`, the authority up to the first `/`, `?` or `#`; the fragment after the first
      remaining `#`; the query after the first `?` before it; the path is what is left. */
  function Parse(s: string): (u: Url)
    ensures forall i :: 0 <= i < |u.netloc| ==> u.netloc[i] !in "/?#"
    ensures '?' !in u.path && '#' !in u.path && '#' !in u.query
  {
    var (scheme, rest) := SplitScheme(s);
    var (netloc, tail) := SplitAuthority(rest);
    var (beforeFragment, fragment) := SplitOnce(tail, '#');
    var (path, query) := SplitOnce(beforeFragment, '?');
    SplitOnceKeepsOut(beforeFragment, '?', '#');
    Url(scheme, netloc, path, query, fragment)
  }

  /** Neither side of a split holds a character the whole string does not hold. */
  lemma SplitOnceKeepsOut(s: string, sep: char, c: char)
    requires c !in s
    ensures c !in SplitOnce(s, sep).0 && c !in SplitOnce(s, sep).1
  {
    var (a, b) := SplitOnce(s, sep);
    if sep in s {
      assert forall i :: 0 <= i < |a| ==> a[i] == s[i];
      assert forall i :: 0 <= i < |b| ==> b[i] == s[|a| + 1 + i];
    }
  }

  /** A well-formed scheme, to put in front of `://`. */
  predicate IsScheme(scheme: string) {
    scheme != [] && IsAsciiLetter(scheme[0]) && forall i :: 0 <= i < |scheme| ==> IsSchemeChar(scheme[i])
  }

  lemma SchemeOf(scheme: string, rest: string)
    requires IsScheme(scheme)
    ensures SplitScheme(scheme + ":" + rest) == (scheme, rest)
  {
    var s := scheme + ":" + rest;
    assert ':' !in scheme;
    IndexOfAfter(scheme, ":" + rest, ':');
    assert s == scheme + (":" + rest);
    assert HasScheme(s) by {
      forall i | 0 <= i < |scheme| ensures IsSchemeChar(s[i]) { assert s[i] == scheme[i]; }
    }
    assert s[..|scheme|] == scheme && s[|scheme| + 1..] == rest;
  }

  lemma AuthorityOf(host: string, tail: string)
    requires forall i :: 0 <= i < |host| ==> host[i] !in "/?#"
    requires tail == [] || tail[0] in "/?#"
    ensures SplitAuthority("//" + host + tail) == (host, tail)
  {
    var rest := "//" + host + tail;
    assert rest[2..] == host + tail;
    IndexOfAnyAfter(host, tail, "/?#");
    assert rest[2..2 + |host|] == host && rest[2 + |host|..] == tail;
  }

  lemma SplitOnceAt(a: string, b: string, sep: char)
    requires sep !in a
    ensures SplitOnce(a + [sep] + b, sep) == (a, b)
  {
    FirstPartBefore(a, b, sep);
    assert (a + [sep] + b)[|a| + 1..] == b;
  }

  /** `scheme://host...`, regrouped the way the scheme split reads it. */
  lemma SchemeGrouping(scheme: string, host: string, tail: string)
    ensures scheme + "://" + host + tail == scheme + ":" + ("//" + host + tail)
  {
    assert "://" == ":" + "//";
  }

  lemma NoDelimiterAround(path: string, query: string, c: char)
    requires c !in path && c !in query && c != '?'
    ensures c !in path + "?" + query
  {
    var tail := path + "?" + query;
    forall i | 0 <= i < |tail| ensures tail[i] != c {
      if i < |path| { assert tail[i] == path[i]; }
      else if i > |path| { assert tail[i] == query[i - |path| - 1]; }
    }
  }

  lemma ParseStages(s: string, scheme: string, rest: string, host: string, tail: string, path: string, query: string)
    requires SplitScheme(s) == (scheme, rest)
    requires SplitAuthority(rest) == (host, tail)
    requires SplitOnce(tail, '#') == (tail, "")
    requires SplitOnce(tail, '?') == (path, query)
    ensures Parse(s) == Url(scheme, host, path, query, "")
  {
  }

  /** Parsing undoes assembly: `scheme://host/path?query` splits back into its parts,
      when each part avoids the delimiters that end it. */
  lemma ParseAssembled(scheme: string, host: string, path: string, query: string)
    requires IsScheme(scheme)
    requires forall i :: 0 <= i < |host| ==> host[i] !in "/?#"
    requires StartsWith(path, "/") && '?' !in path && '#' !in path
    requires '#' !in query
    ensures Parse(scheme + "://" + host + path + "?" + query) == Url(scheme, host, path, query, "")
  {
    var tail := path + "?" + query;
    var rest := "//" + host + tail;
    assert scheme + "://" + host + path + "?" + query == scheme + "://" + host + tail;
    SchemeGrouping(scheme, host, tail);
    SchemeOf(scheme, rest);
    assert tail[0] == '/';
    AuthorityOf(host, tail);
    NoDelimiterAround(path, query, '#');
    assert SplitOnce(tail, '#') == (tail, "");
    assert tail == path + ['?'] + query;
    SplitOnceAt(path, query, '?');
    ParseStages(scheme + "://" + host + path + "?" + query, scheme, rest, host, tail, path, query);
  }

  /** `piece` is a `name=value` field of a query with a non-empty value, which is what
      `parse_qs` keeps when blank values are dropped. */
  predicate Binds(piece: string, name: string) {
    var eq := IndexOf(piece, '=');
    eq + 1 < |piece| && piece[..eq] == name
  }

  /** The value a binding field carries: everything after its first `=`. */
  function BoundValue(piece: string): string
    requires IndexOf(piece, '=') < |piece|
  {
    piece[IndexOf(piece, '=') + 1..]
  }

  /** The value of the first field among `pieces` that binds `name`. */
  function FirstValueAmong(pieces: seq<string>, name: string): (r: Option<string>)
    ensures r.None? <==> forall k :: 0 <= k < |pieces| ==> !Binds(pieces[k], name)
    ensures r.Some? ==>
      exists k :: 0 <= k < |pieces| && Binds(pieces[k], name) && r.value == BoundValue(pieces[k])
        && forall j :: 0 <= j < k ==> !Binds(pieces[j], name)
    decreases |pieces|
  {
    if pieces == [] then None
    else if Binds(pieces[0], name) then Some(BoundValue(pieces[0]))
    else
      var r := FirstValueAmong(pieces[1..], name);
      assert forall k :: 1 <= k < |pieces| ==> pieces[k] == pieces[1..][k - 1];
      r
  }

  /** `parse_qs(query)[name][0]`, without percent-decoding: the value of the first
      `&`-separated field `name=value` whose value is non-empty; `None` where `parse_qs`
      has no entry for `name`, so that indexing it raises `KeyError`. */
  function FirstQueryValue(query: string, name: string): (r: Option<string>)
    ensures r.Some? ==> r.value != [] && '&' !in r.value
  {
    var pieces := Split(query, '&');
    var r := FirstValueAmong(pieces, name);
    if r.Some? then
      var k :| 0 <= k < |pieces| && Binds(pieces[k], name) && r.value == BoundValue(pieces[k]);
      assert '&' !in pieces[k];
      r
    else r
  }

  /** A leading field `name=value` supplies the value, whatever follows it. */
  lemma FirstQueryValueLeading(name: string, value: string, rest: string)
    requires '=' !in name && '&' !in name
    requires value != [] && '&' !in value
    ensures FirstQueryValue(name + "=" + value + "&" + rest, name) == Some(value)
    ensures FirstQueryValue(name + "=" + value, name) == Some(value)
  {
    var piece := name + "=" + value;
    IndexOfAfter(name, "=" + value, '=');
    assert piece == name + ("=" + value);
    assert piece[..|name|] == name && piece[|name| + 1..] == value;
    assert Binds(piece, name);
    assert '&' !in piece;
    SplitAt(piece, rest, '&');
    assert name + "=" + value + "&" + rest == piece + ['&'] + rest;
    SplitNone(piece, '&');
  }
}
