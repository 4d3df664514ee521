/** `TranscriptNode`: finding the video id in a YouTube URL, cleaning the caption text,
    and the workflow node that puts the cleaned transcript into the state. */
module TranscriptNode {
  import opened Strings
  import opened Results
  import opened Urls
  import opened State

  const ExtractFailure := "Failed to extract video ID: "
  const MissingUrl := "YouTube URL is missing"
  const InvalidFormat := "Invalid YouTube URL format"

  // ---------------------------------------------------------------------------
  // Video id

  /** `url.split('/')[-1].split('?')[0]`: the text after the last `/` of the URL (all of
      it when there is none), up to the first `?` after that point. */
  function ShortLinkId(url: string): (id: string)
    ensures '/' !in id && '?' !in id
    ensures var start := |url| - |LastPart(url, '/')|;
      start + |id| <= |url| && url[start..start + |id|] == id
      && (start == 0 || url[start - 1] == '/') && '/' !in url[start..]
      && (start + |id| == |url| || url[start + |id|] == '?')
  {
    var last := LastPart(url, '/');
    var id := FirstPart(last, '?');
    assert url[|url| - |last|..][..|id|] == id;
    id
  }

  /** A `youtube.com` address whose path selects one of the three long-link rules. */
  predicate IsLongLink(u: Url) {
    Contains(u.netloc, "youtube.com")
    && (Contains(u.path, "/watch") || Contains(u.path, "/embed/") || Contains(u.path, "/v/"))
  }

  /** `parse_qs(query)['v'][0]`, a missing parameter raising `KeyError('v')`. */
  function WatchLinkId(query: string): (r: Result<string>)
    ensures r.Ok? <==> FirstQueryValue(query, "v").Some?
    ensures r.Ok? ==> r.value == FirstQueryValue(query, "v").value
    ensures r.Err? ==> r.error == ValueError(ExtractFailure + KeyError("v").Text())
  {
    match FirstQueryValue(query, "v")
    case Some(v) => Ok(v)
    case None => Err(ValueError(ExtractFailure + KeyError("v").Text()))
  }

  /** The `youtube.com` rules: a `/watch` path takes the `v` query parameter (a missing
      one raises `KeyError('v')`), an `/embed/` or `/v/` path takes its last segment;
      anything else is an invalid format. Errors arrive rewrapped, as the caller sees them. */
  function LongLinkId(u: Url): (r: Result<string>)
    ensures r.Ok? <==> IsLongLink(u) && (Contains(u.path, "/watch") ==> FirstQueryValue(u.query, "v").Some?)
    ensures r.Err? ==> r.error.ValueError? && StartsWith(r.error.message, ExtractFailure)
    ensures r.Ok? && Contains(u.path, "/watch") ==> r.value != [] && '&' !in r.value
    ensures r.Ok? && !Contains(u.path, "/watch") ==> '/' !in r.value && Contains(u.path, "/" + r.value)
  {
    if Contains(u.netloc, "youtube.com") && Contains(u.path, "/watch") then WatchLinkId(u.query)
    else if Contains(u.netloc, "youtube.com") && (Contains(u.path, "/embed/") || Contains(u.path, "/v/")) then
      var last := LastPart(u.path, '/');
      assert Contains(u.path, "/" + last) by {
        if Contains(u.path, "/embed/") { ContainsFirst(u.path, "/embed/"); } else { ContainsFirst(u.path, "/v/"); }
        LastPartAfterSep(u.path, '/');
      }
      Ok(last)
    else Err(ValueError(ExtractFailure + InvalidFormat))
  }

  /** `_extract_video_id` as written: the short-link rule wins whenever `youtu.be` occurs
      anywhere in the URL, before the URL is parsed. */
  function ExtractVideoId(url: string): (r: Result<string>)
    ensures r.Err? ==> r.error.ValueError? && StartsWith(r.error.message, ExtractFailure)
    ensures url == [] ==> r == Err(ValueError(ExtractFailure + MissingUrl))
    ensures url != [] && Contains(url, "youtu.be") ==> r == Ok(ShortLinkId(url))
    ensures url != [] && !Contains(url, "youtu.be") ==> r == LongLinkId(Parse(url))
  {
    if url == [] then Err(ValueError(ExtractFailure + MissingUrl))
    else if Contains(url, "youtu.be") then Ok(ShortLinkId(url))
    else LongLinkId(Parse(url))
  }

  /** The extractor with the evidently intended precedence: a `youtube.com` long link is
      read as one even when `youtu.be` occurs in it (in a `feature=youtu.be` parameter, say). */
  function ExtractVideoIdFixed(url: string): (r: Result<string>)
    ensures r.Err? ==> r.error.ValueError? && StartsWith(r.error.message, ExtractFailure)
    ensures url == [] ==> r == Err(ValueError(ExtractFailure + MissingUrl))
    ensures url != [] && IsLongLink(Parse(url)) ==> r == LongLinkId(Parse(url))
    ensures !(Contains(url, "youtu.be") && IsLongLink(Parse(url))) ==> r == ExtractVideoId(url)
  {
    if url == [] then Err(ValueError(ExtractFailure + MissingUrl))
    else if Contains(url, "youtu.be") && !IsLongLink(Parse(url)) then Ok(ShortLinkId(url))
    else LongLinkId(Parse(url))
  }

  lemma ContainsFirst(s: string, pat: string)
    requires pat != [] && Contains(s, pat)
    ensures pat[0] in s
  {
    var i := OccurrenceOf(s, pat);
    assert s[i] == pat[0];
  }

  lemma ContainsSelf(s: string)
    ensures Contains(s, s)
  {
    assert s[0..|s|] == s;
    ContainsAt(s, s, 0);
  }

  lemma ContainsLonger(s: string, pat: string)
    requires |s| < |pat|
    ensures !Contains(s, pat)
  {
    if Contains(s, pat) {
      var i := OccurrenceOf(s, pat);
    }
  }

  /** The host of the short links. */
  const ShortLinkHost := "youtu.be"

  /** The short-link rule takes the text between the last `/` and the first `?` after it. */
  lemma ShortLinkIdOf(head: string, id: string, tail: string)
    requires '/' !in id && '?' !in id
    requires '/' !in tail && (tail == [] || tail[0] == '?')
    ensures ShortLinkId(head + "/" + id + tail) == id
  {
    assert head + "/" + id + tail == head + ['/'] + (id + tail);
    assert '/' !in id + tail;
    LastPartAfter(head, id + tail, '/');
    if tail == [] {
      assert id + tail == id;
      SplitNone(id, '?');
    } else {
      assert id + tail == id + ['?'] + tail[1..];
      FirstPartBefore(id, tail[1..], '?');
    }
  }

  lemma ShortRuleApplies(url: string)
    requires Contains(url, ShortLinkHost)
    ensures ExtractVideoId(url) == Ok(ShortLinkId(url))
  {
    if url == [] { ContainsLonger(url, ShortLinkHost); }
  }

  /** As written, any URL `head/ID` or `head/ID?query` whose `head` mentions the
      short-link host yields `ID`. */
  lemma ShortLinkYieldsId(head: string, id: string, tail: string)
    requires Contains(head, ShortLinkHost)
    requires '/' !in id && '?' !in id
    requires '/' !in tail && (tail == [] || tail[0] == '?')
    ensures ExtractVideoId(head + "/" + id + tail) == Ok(id)
  {
    ShortLinkIdOf(head, id, tail);
    ShortUrlMentionsHost(head, id, tail);
    ShortRuleApplies(head + "/" + id + tail);
  }

  lemma ShortUrlMentionsHost(head: string, id: string, tail: string)
    requires Contains(head, ShortLinkHost)
    ensures Contains(head + "/" + id + tail, ShortLinkHost)
  {
    ContainsBefore(head, "/", ShortLinkHost);
    ContainsBefore(head + "/", id, ShortLinkHost);
    ContainsBefore(head + "/" + id, tail, ShortLinkHost);
  }

  /** The authority of `scheme://host/...`. */
  lemma NetlocOf(scheme: string, host: string, tail: string)
    requires IsScheme(scheme)
    requires forall i :: 0 <= i < |host| ==> host[i] !in "/?#"
    requires tail == [] || tail[0] in "/?#"
    ensures Parse(scheme + "://" + host + tail).netloc == host
  {
    SchemeGrouping(scheme, host, tail);
    SchemeOf(scheme, "//" + host + tail);
    AuthorityOf(host, tail);
  }

  lemma FixedShortRuleApplies(url: string)
    requires Contains(url, ShortLinkHost) && !Contains(Parse(url).netloc, "youtube.com")
    ensures ExtractVideoIdFixed(url) == ExtractVideoId(url)
  {
  }

  /** The corrected extractor reads `scheme://host/ID` and `scheme://host/ID?query` the
      same way, for a short-link host that is not a `youtube.com` one. */
  lemma ShortLinkYieldsIdFixed(scheme: string, host: string, id: string, tail: string)
    requires IsScheme(scheme)
    requires forall i :: 0 <= i < |host| ==> host[i] !in "/?#"
    requires Contains(host, ShortLinkHost) && !Contains(host, "youtube.com")
    requires '/' !in id && '?' !in id
    requires '/' !in tail && (tail == [] || tail[0] == '?')
    ensures ExtractVideoIdFixed(scheme + "://" + host + "/" + id + tail) == Ok(id)
  {
    var head := scheme + "://" + host;
    ShortUrlNetloc(scheme, host, id, tail);
    ContainsAfter(scheme + "://", host, ShortLinkHost);
    ShortLinkYieldsId(head, id, tail);
    ShortUrlMentionsHost(head, id, tail);
    FixedShortRuleApplies(head + "/" + id + tail);
  }

  lemma ShortUrlNetloc(scheme: string, host: string, id: string, tail: string)
    requires IsScheme(scheme)
    requires forall i :: 0 <= i < |host| ==> host[i] !in "/?#"
    ensures Parse(scheme + "://" + host + "/" + id + tail).netloc == host
  {
    var head := scheme + "://" + host;
    Assoc(head, "/", id);
    Assoc(head, "/" + id, tail);
    NetlocOf(scheme, host, "/" + id + tail);
  }

  lemma FixedLongRuleApplies(url: string)
    requires IsLongLink(Parse(url))
    ensures ExtractVideoIdFixed(url) == LongLinkId(Parse(url))
  {
    if url == [] {
      ContainsLonger(Parse(url).netloc, "youtube.com");
    }
  }

  lemma WatchRule(u: Url)
    requires Contains(u.netloc, "youtube.com") && Contains(u.path, "/watch")
    ensures LongLinkId(u) == WatchLinkId(u.query)
  {
  }

  /** A watch link gives the first non-empty `v` parameter of its query, and fails with
      the rewrapped `KeyError` when there is none. */
  lemma WatchLinkYieldsV(scheme: string, host: string, path: string, query: string)
    requires IsScheme(scheme)
    requires forall i :: 0 <= i < |host| ==> host[i] !in "/?#"
    requires Contains(host, "youtube.com")
    requires StartsWith(path, "/") && Contains(path, "/watch") && '?' !in path && '#' !in path
    requires '#' !in query
    ensures ExtractVideoIdFixed(scheme + "://" + host + path + "?" + query) == WatchLinkId(query)
  {
    var url := scheme + "://" + host + path + "?" + query;
    ParseAssembled(scheme, host, path, query);
    FixedLongRuleApplies(url);
    WatchRule(Parse(url));
  }

  lemma EmbedRule(u: Url)
    requires Contains(u.netloc, "youtube.com") && !Contains(u.path, "/watch")
    requires Contains(u.path, "/embed/") || Contains(u.path, "/v/")
    ensures LongLinkId(u) == Ok(LastPart(u.path, '/'))
  {
  }

  /** An embed link gives the last segment of its path. */
  lemma EmbedLinkYieldsLastSegment(scheme: string, host: string, path: string, query: string)
    requires IsScheme(scheme)
    requires forall i :: 0 <= i < |host| ==> host[i] !in "/?#"
    requires Contains(host, "youtube.com")
    requires StartsWith(path, "/") && '?' !in path && '#' !in path
    requires !Contains(path, "/watch") && (Contains(path, "/embed/") || Contains(path, "/v/"))
    requires '#' !in query
    ensures ExtractVideoIdFixed(scheme + "://" + host + path + "?" + query) == Ok(LastPart(path, '/'))
  {
    var url := scheme + "://" + host + path + "?" + query;
    ParseAssembled(scheme, host, path, query);
    FixedLongRuleApplies(url);
    EmbedRule(Parse(url));
  }

  lemma ShortLinkIdBeforeQuery(head: string, seg: string, query: string)
    requires '/' !in seg && '?' !in seg && '/' !in query
    ensures ShortLinkId(head + ("/" + seg) + "?" + query) == seg
  {
    assert head + ("/" + seg) + "?" + query == head + "/" + seg + ("?" + query);
    ShortLinkIdOf(head, seg, "?" + query);
  }

  /** A watch link shared through the short-link service, `scheme://host/seg?query`,
      whose query mentions the short-link host (as `v=ID&feature=youtu.be` does). As
      written the extractor reads it by the short-link rule and answers `seg` (`watch`,
      for `/watch`), whatever the host and the query's `v`. */
  lemma SharedWatchLinkMisread(head: string, seg: string, query: string)
    requires '/' !in seg && '?' !in seg
    requires Contains(query, ShortLinkHost) && '/' !in query
    ensures ExtractVideoId(head + ("/" + seg) + "?" + query) == Ok(seg)
  {
    var url := head + ("/" + seg) + "?" + query;
    assert ShortLinkId(url) == seg by {
      ShortLinkIdBeforeQuery(head, seg, query);
    }
    assert Contains(url, ShortLinkHost) by {
      ContainsAfter(head + ("/" + seg) + "?", query, ShortLinkHost);
    }
    ShortRuleApplies(url);
  }

  /** The corrected extractor answers the `v` parameter of the same links. */
  lemma SharedWatchLinkFixed(scheme: string, host: string, seg: string, query: string, id: string)
    requires IsScheme(scheme)
    requires forall i :: 0 <= i < |host| ==> host[i] !in "/?#"
    requires Contains(host, "youtube.com")
    requires '/' !in seg && '?' !in seg && '#' !in seg && Contains("/" + seg, "/watch")
    requires FirstQueryValue(query, "v") == Some(id) && '#' !in query
    ensures ExtractVideoIdFixed(scheme + "://" + host + ("/" + seg) + "?" + query) == Ok(id)
  {
    WatchLinkYieldsV(scheme, host, "/" + seg, query);
  }

  // ---------------------------------------------------------------------------
  // Cleaning

  /** The characters `[\w\s.,!?-]` matches: the ones the second substitution keeps. */
  predicate Kept(c: char) {
    IsWordChar(c) || IsSpace(c) || c in ".,!?-"
  }

  /** A character that survives cleaning and is not whitespace. */
  predicate Visible(c: char) {
    Kept(c) && !IsSpace(c)
  }

  predicate HasVisible(s: string) {
    exists i :: 0 <= i < |s| && Visible(s[i])
  }

  /** How far the greedy `\s*\n` of the pattern `\n\s*\n` reaches into `t`: the longest
      all-whitespace prefix of `t` that ends in a newline, 0 when there is none. */
  function NewlineRunEnd(t: string): (n: nat)
    ensures n <= |t|
    ensures n > 0 ==> t[n - 1] == '\n' && AllSpace(t[..n])
    ensures forall m :: n < m <= |t| && AllSpace(t[..m]) ==> t[m - 1] != '\n'
  {
    if t == [] || !IsSpace(t[0]) then
      assert forall m :: 0 < m <= |t| ==> t[..m][0] == t[0];
      0
    else
      var rest := NewlineRunEnd(t[1..]);
      assert forall m :: 1 < m <= |t| ==> t[..m][1..] == t[1..][..m - 1];
      assert forall m :: 1 <= m <= |t| ==> t[..m] == [t[0]] + t[1..][..m - 1];
      if rest > 0 then 1 + rest else if t[0] == '\n' then 1 else 0
  }

  /** `re.sub(r'\n\s*\n', '\n', text)`: scanning from the left, a newline whose following
      whitespace reaches a further newline is replaced, through the last newline of that
      whitespace, by one newline; the scan resumes after the replaced text. */
  function CollapseBlankLines(s: string): (r: string)
    ensures '\n' !in s ==> r == s
    decreases |s|
  {
    if s == [] then []
    else if s[0] == '\n' then "\n" + CollapseBlankLines(s[1 + NewlineRunEnd(s[1..])..])
    else [s[0]] + CollapseBlankLines(s[1..])
  }

  /** `re.sub(r'[^\w\s.,!?-]', '', text)`. */
  function DropSpecial(s: string): (r: string)
    ensures forall i :: 0 <= i < |r| ==> Kept(r[i])
    ensures (forall i :: 0 <= i < |s| ==> Kept(s[i])) ==> r == s
  {
    if s == [] then []
    else
      assert forall i :: 1 <= i < |s| ==> s[i] == s[1..][i - 1];
      (if Kept(s[0]) then [s[0]] else []) + DropSpecial(s[1..])
  }

  /** `' '.join(text.split())`: the words of `s`, single-spaced. Single-spaced text is
      fixed by its words (`JoinWordsOfSingleSpaced`), so this and `NormalizeKeepsWords`
      determine `r`. */
  function NormalizeSpace(s: string): (r: string)
    ensures SingleSpaced(r)
  {
    JoinWordsSingleSpaced(Words(s));
    Join(Words(s), " ")
  }

  /** Normalising keeps the words, in order: only the whitespace between them changes. */
  lemma NormalizeKeepsWords(s: string)
    ensures Words(NormalizeSpace(s)) == Words(s)
  {
    WordsOfJoin(Words(s));
  }

  /** Removing characters outside the class works character by character. */
  lemma {:induction false} DropSpecialConcat(a: string, b: string)
    ensures DropSpecial(a + b) == DropSpecial(a) + DropSpecial(b)
    decreases |a|
  {
    if a == [] {
      assert a + b == b;
    } else {
      assert (a + b)[0] == a[0] && (a + b)[1..] == a[1..] + b;
      DropSpecialConcat(a[1..], b);
    }
  }

  /** One character is kept exactly when it is in the class. */
  lemma DropSpecialChar(c: char)
    ensures DropSpecial([c]) == if Kept(c) then [c] else []
  {
    assert [c][1..] == [];
  }

  /** The shape of cleaned text: only kept characters, and single-spaced. */
  predicate IsClean(t: string) {
    SingleSpaced(t) && forall i :: 0 <= i < |t| ==> Kept(t[i])
  }

  /** `_clean_transcript_text`: blank lines collapsed, characters outside words, whitespace
      and `.,!?-` removed, whitespace runs turned into single spaces, ends trimmed. */
  function CleanTranscriptText(text: string): (r: string)
    ensures IsClean(r)
    ensures r == [] <==> !HasVisible(text)
  {
    if text == [] then []
    else
      var kept := DropSpecial(CollapseBlankLines(text));
      WordsKeep(kept, Kept);
      JoinKeeps(Words(kept), " ", Kept);
      CleanEmptyExactly(text);
      NormalizeSpace(kept)
  }

  /** Cleaning is removing the characters outside the class and normalising whitespace:
      the blank-line pass changes nothing that the whitespace pass does not redo. */
  lemma CleanIsNormalizedDrop(text: string)
    ensures CleanTranscriptText(text) == NormalizeSpace(DropSpecial(text))
  {
    DropCollapseSameWords(text);
  }

  /** The visible characters of `s`, in order. */
  function VisibleChars(s: string): (r: string)
    ensures forall i :: 0 <= i < |r| ==> Visible(r[i])
    ensures |r| <= |s|
  {
    if s == [] then []
    else
      assert forall i :: 1 <= i < |s| ==> s[i] == s[1..][i - 1];
      (if Visible(s[0]) then [s[0]] else []) + VisibleChars(s[1..])
  }

  lemma {:induction false} VisibleCharsConcat(a: string, b: string)
    ensures VisibleChars(a + b) == VisibleChars(a) + VisibleChars(b)
    decreases |a|
  {
    if a == [] {
      assert a + b == b;
    } else {
      assert (a + b)[0] == a[0] && (a + b)[1..] == a[1..] + b;
      VisibleCharsConcat(a[1..], b);
    }
  }

  lemma {:induction false} VisibleCharsOfSpace(g: string)
    requires AllSpace(g)
    ensures VisibleChars(g) == []
    decreases |g|
  {
    if g != [] {
      VisibleCharsOfSpace(g[1..]);
    }
  }

  /** The visible characters of each word, one word after another. */
  function VisibleOfAll(ws: seq<string>): string
    decreases |ws|
  {
    if ws == [] then [] else VisibleChars(ws[0]) + VisibleOfAll(ws[1..])
  }

  /** Gaps of whitespace hold no visible character. */
  lemma {:induction false} VisibleCharsOfSpaced(gaps: seq<string>, ws: seq<string>)
    requires |gaps| == |ws| + 1 && forall k :: 0 <= k < |gaps| ==> AllSpace(gaps[k])
    ensures VisibleChars(Spaced(gaps, ws)) == VisibleOfAll(ws)
    decreases |ws|
  {
    VisibleCharsOfSpace(gaps[0]);
    if ws != [] {
      var tail := Spaced(gaps[1..], ws[1..]);
      VisibleCharsOfSpaced(gaps[1..], ws[1..]);
      VisibleCharsConcat(gaps[0] + ws[0], tail);
      VisibleCharsConcat(gaps[0], ws[0]);
    }
  }

  /** The separating spaces of a join hold no visible character. */
  lemma {:induction false} VisibleCharsOfJoin(ws: seq<string>)
    ensures VisibleChars(Join(ws, " ")) == VisibleOfAll(ws)
    decreases |ws|
  {
    if |ws| == 1 {
      assert VisibleOfAll(ws[1..]) == [];
    } else if |ws| > 1 {
      var rest := Join(ws[1..], " ");
      VisibleCharsOfJoin(ws[1..]);
      VisibleCharsConcat(ws[0] + " ", rest);
      VisibleCharsConcat(ws[0], " ");
      VisibleCharsOfSpace(" ");
    }
  }

  /** Normalising whitespace keeps the visible characters, in order. */
  lemma NormalizeKeepsVisibleChars(s: string)
    ensures VisibleChars(NormalizeSpace(s)) == VisibleChars(s)
  {
    var gaps := WordsGaps(s);
    VisibleCharsOfSpaced(gaps, Words(s));
    VisibleCharsOfJoin(Words(s));
  }

  /** Removing characters outside the class removes no visible character. */
  lemma {:induction false} DropKeepsVisibleChars(s: string)
    ensures VisibleChars(DropSpecial(s)) == VisibleChars(s)
    decreases |s|
  {
    if s != [] {
      DropKeepsVisibleChars(s[1..]);
      DropSpecialConcat([s[0]], s[1..]);
      DropSpecialChar(s[0]);
      VisibleCharsConcat(DropSpecial([s[0]]), DropSpecial(s[1..]));
      assert s == [s[0]] + s[1..];
      VisibleCharsConcat([s[0]], s[1..]);
    }
  }

  /** The characters of the cleaned text other than its spaces are exactly the visible
      characters of the input, in their order. */
  lemma CleanKeepsVisibleChars(text: string)
    ensures VisibleChars(CleanTranscriptText(text)) == VisibleChars(text)
    ensures forall i :: 0 <= i < |CleanTranscriptText(text)| && CleanTranscriptText(text)[i] != ' ' ==>
      Visible(CleanTranscriptText(text)[i])
  {
    CleanIsNormalizedDrop(text);
    NormalizeKeepsVisibleChars(DropSpecial(text));
    DropKeepsVisibleChars(text);
  }

  /** A character outside the class standing at the head of a word goes, and the word
      closes up: `"Hello @world"` cleans to `"Hello world"`. */
  lemma CleanDropsSymbol(a: string, c: char, b: string)
    requires IsWord(a) && IsWord(b) && !Kept(c)
    requires forall i :: 0 <= i < |a| ==> Kept(a[i])
    requires forall i :: 0 <= i < |b| ==> Kept(b[i])
    ensures CleanTranscriptText(a + " " + [c] + b) == a + " " + b
  {
    var a' := a + " ";
    assert forall i :: 0 <= i < |a'| ==> Kept(a'[i]) by {
      assert forall i :: 0 <= i < |a| ==> a'[i] == a[i];
    }
    CleanIsNormalizedDrop(a' + [c] + b);
    DropSymbol(a', c, b);
    NormalizeSingleSpaced(a, b);
  }

  lemma NormalizeSingleSpaced(a: string, b: string)
    requires IsWord(a) && IsWord(b)
    ensures NormalizeSpace(a + " " + b) == a + " " + b
  {
    var ws := [a, b];
    assert Join(ws, " ") == a + " " + b by { assert ws[1..] == [b]; }
    JoinWordsSingleSpaced(ws);
    JoinWordsOfSingleSpaced(a + " " + b);
  }

  /** A character outside the class between kept text is all that goes. */
  lemma DropSymbol(a: string, c: char, b: string)
    requires forall i :: 0 <= i < |a| ==> Kept(a[i])
    requires forall i :: 0 <= i < |b| ==> Kept(b[i])
    requires !Kept(c)
    ensures DropSpecial(a + [c] + b) == a + b
  {
    DropSpecialConcat(a + [c], b);
    DropSpecialConcat(a, [c]);
    DropSpecialChar(c);
    assert DropSpecial(a) + [] == a;
  }

  /** Strings with the same words and the same first word. */
  predicate SameWords(x: string, y: string) {
    Words(x) == Words(y) && Word(x) == Word(y)
  }

  /** The same character in front of strings with the same words keeps them so. */
  lemma ConsSameWords(c: char, x: string, y: string)
    requires SameWords(x, y)
    ensures SameWords([c] + x, [c] + y)
  {
    WordsCons(c, x);
    WordsCons(c, y);
  }

  /** What the collapse replaces a newline and the whitespace after it with. */
  lemma CollapseNewline(s: string) returns (gap: string, rest: string)
    requires s != [] && s[0] == '\n'
    ensures s == "\n" + gap + rest && AllSpace(gap)
    ensures rest == s[1 + NewlineRunEnd(s[1..])..]
    ensures CollapseBlankLines(s) == "\n" + CollapseBlankLines(rest)
  {
    var n := NewlineRunEnd(s[1..]);
    gap := s[1..][..n];
    rest := s[1 + n..];
    assert s == [s[0]] + gap + rest;
  }

  /** Collapsing blank lines keeps every word of the text: it only replaces whitespace
      with whitespace. */
  lemma {:induction false} CollapseKeepsWords(s: string)
    ensures SameWords(CollapseBlankLines(s), s)
    decreases |s|
  {
    if s == [] {
    } else if s[0] == '\n' {
      var gap, rest := CollapseNewline(s);
      CollapseKeepsWords(rest);
      NewlineSameWords(gap, CollapseBlankLines(rest), rest);
    } else {
      CollapseKeepsWords(s[1..]);
      ConsSameWords(s[0], CollapseBlankLines(s[1..]), s[1..]);
      assert s == [s[0]] + s[1..];
    }
  }

  /** One newline in place of a newline and whitespace keeps the words. */
  lemma NewlineSameWords(gap: string, c: string, rest: string)
    requires AllSpace(gap) && SameWords(c, rest)
    ensures SameWords("\n" + c, "\n" + gap + rest)
  {
    WordsCons('\n', c);
    WordsCons('\n', gap + rest);
    WordsSkipSpace(gap, rest);
    assert "\n" + gap + rest == "\n" + (gap + rest);
  }

  /** Collapsing blank lines before removing characters outside the class leaves the
      same words as removing them straight away. */
  lemma {:induction false} DropCollapseSameWords(s: string)
    ensures SameWords(DropSpecial(CollapseBlankLines(s)), DropSpecial(s))
    decreases |s|
  {
    if s == [] {
    } else if s[0] == '\n' {
      var gap, rest := CollapseNewline(s);
      DropCollapseSameWords(rest);
      DropNewlineStep(gap, rest, CollapseBlankLines(rest));
    } else {
      DropCollapseSameWords(s[1..]);
      DropConsStep(s[0], CollapseBlankLines(s[1..]), s[1..]);
      assert s == [s[0]] + s[1..];
    }
  }

  lemma DropNewlineStep(gap: string, rest: string, c: string)
    requires AllSpace(gap) && SameWords(DropSpecial(c), DropSpecial(rest))
    ensures SameWords(DropSpecial("\n" + c), DropSpecial("\n" + gap + rest))
  {
    DropNewline(c);
    DropNewlineGap(gap, rest);
    NewlineSameWords(gap, DropSpecial(c), DropSpecial(rest));
  }

  lemma DropNewline(c: string)
    ensures DropSpecial("\n" + c) == "\n" + DropSpecial(c)
  {
    DropSpecialConcat("\n", c);
    DropSpecialChar('\n');
  }

  lemma DropNewlineGap(gap: string, rest: string)
    requires AllSpace(gap)
    ensures DropSpecial("\n" + gap + rest) == "\n" + gap + DropSpecial(rest)
  {
    var p := "\n" + gap;
    assert forall i :: 0 <= i < |p| ==> Kept(p[i]) by {
      assert forall i :: 1 <= i < |p| ==> p[i] == gap[i - 1];
    }
    DropKeptPrefix(p, rest);
  }

  /** Text made of kept characters in front passes through unchanged. */
  lemma DropKeptPrefix(p: string, rest: string)
    requires forall i :: 0 <= i < |p| ==> Kept(p[i])
    ensures DropSpecial(p + rest) == p + DropSpecial(rest)
  {
    DropSpecialConcat(p, rest);
  }

  lemma DropConsStep(ch: char, c: string, y: string)
    requires SameWords(DropSpecial(c), DropSpecial(y))
    ensures SameWords(DropSpecial([ch] + c), DropSpecial([ch] + y))
  {
    DropSpecialConcat([ch], c);
    DropSpecialConcat([ch], y);
    DropSpecialChar(ch);
    if Kept(ch) {
      ConsSameWords(ch, DropSpecial(c), DropSpecial(y));
    } else {
      assert [] + DropSpecial(c) == DropSpecial(c);
      assert [] + DropSpecial(y) == DropSpecial(y);
    }
  }

  /** No two newlines with only whitespace between them: nothing `\n\s*\n` matches. */
  predicate NoBlankLine(r: string) {
    forall i, j :: 0 <= i < j < |r| && r[i] == '\n' && r[j] == '\n' ==> !AllSpace(r[i + 1..j])
  }

  /** No newline preceded by whitespace alone. */
  predicate NoLeadingNewline(x: string) {
    forall j :: 0 <= j < |x| && x[j] == '\n' ==> !AllSpace(x[..j])
  }

  /** Whitespace throughout two strings is whitespace throughout their concatenation. */
  lemma AllSpaceConcat(a: string, b: string)
    ensures AllSpace(a + b) <==> AllSpace(a) && AllSpace(b)
  {
    assert forall i :: 0 <= i < |a| ==> (a + b)[i] == a[i];
    assert forall i :: 0 <= i < |b| ==> (a + b)[|a| + i] == b[i];
  }

  /** A character in front: a newline may start a blank line only with the whitespace
      that leads `x`. */
  lemma NoBlankLineCons(c: char, x: string)
    requires NoBlankLine(x) && (c == '\n' ==> NoLeadingNewline(x))
    ensures NoBlankLine([c] + x)
  {
    var r := [c] + x;
    forall i, j | 0 <= i < j < |r| && r[i] == '\n' && r[j] == '\n' ensures !AllSpace(r[i + 1..j]) {
      NoBlankLinePair(c, x, i, j);
    }
  }

  lemma NoBlankLinePair(c: char, x: string, i: nat, j: nat)
    requires NoBlankLine(x) && (c == '\n' ==> NoLeadingNewline(x))
    requires i < j < |x| + 1 && ([c] + x)[i] == '\n' && ([c] + x)[j] == '\n'
    ensures !AllSpace(([c] + x)[i + 1..j])
  {
    var r := [c] + x;
    assert r[j] == x[j - 1];
    if i == 0 {
      assert r[i + 1..j] == x[..j - 1];
    } else {
      assert r[i] == x[i - 1] && r[i + 1..j] == x[i..j - 1];
    }
  }

  /** Past the whitespace the collapse swallowed, no newline follows before other text. */
  lemma CollapseRestNoLeadingNewline(t: string)
    ensures NoLeadingNewline(t[NewlineRunEnd(t)..])
  {
    var n := NewlineRunEnd(t);
    var rest := t[n..];
    assert AllSpace(t[..n]) by { if n > 0 { } }
    forall j | 0 <= j < |rest| && rest[j] == '\n' ensures !AllSpace(rest[..j]) {
      var m := n + j + 1;
      assert t[..m] == t[..n] + (rest[..j] + [rest[j]]);
      assert t[m - 1] == '\n';
      AllSpaceConcat(t[..n], rest[..j] + [rest[j]]);
      AllSpaceConcat(rest[..j], [rest[j]]);
    }
  }

  /** One match of `\n\s*\n`: a newline followed by whitespace that ends in a newline
      (or by no whitespace at all), where the rest offers no further newline across
      whitespace, becomes a single newline, and the scan goes on with the rest. With the
      other-character case of the definition this fixes the collapse on every string. */
  lemma CollapseOneMatch(gap: string, rest: string)
    requires gap == [] || (AllSpace(gap) && gap[|gap| - 1] == '\n')
    requires NoLeadingNewline(rest)
    ensures CollapseBlankLines("\n" + gap + rest) == "\n" + CollapseBlankLines(rest)
  {
    var s := "\n" + gap + rest;
    assert s[0] == '\n' && s[1..] == gap + rest;
    RunEndOfGap(gap, rest);
    assert s[1 + |gap|..] == rest;
  }

  /** The greedy `\s*\n` reaches exactly through a whitespace gap ending in a newline
      when the rest offers no newline across whitespace. */
  lemma {:induction false} RunEndOfGap(gap: string, rest: string)
    requires gap == [] || (AllSpace(gap) && gap[|gap| - 1] == '\n')
    requires NoLeadingNewline(rest)
    ensures NewlineRunEnd(gap + rest) == |gap|
    decreases |gap|
  {
    if gap == [] {
      assert gap + rest == rest;
      NoRunWithoutLeadingNewline(rest);
    } else {
      var t := gap + rest;
      assert t[0] == gap[0] && IsSpace(t[0]);
      assert t[1..] == gap[1..] + rest;
      if |gap| == 1 {
        assert gap[1..] + rest == rest;
        NoRunWithoutLeadingNewline(rest);
      } else {
        assert AllSpace(gap[1..]) && gap[1..][|gap| - 2] == '\n';
        RunEndOfGap(gap[1..], rest);
      }
    }
  }

  /** Text without a newline across its leading whitespace gives `\s*\n` no match. */
  lemma NoRunWithoutLeadingNewline(x: string)
    ensures NewlineRunEnd(x) > 0 ==> !NoLeadingNewline(x)
  {
    var n := NewlineRunEnd(x);
    if n > 0 {
      assert x[n - 1] == '\n';
      assert x[..n - 1] == x[..n][..n - 1];
    }
  }

  /** Collapsing keeps text free of a newline at the head of its leading whitespace. */
  lemma {:induction false} CollapseKeepsNoLeadingNewline(x: string)
    ensures NoLeadingNewline(x) ==> NoLeadingNewline(CollapseBlankLines(x))
    decreases |x|
  {
    if x != [] && x[0] == '\n' {
      assert x[..0] == [];
    } else if x != [] && NoLeadingNewline(x) {
      var c := CollapseBlankLines(x[1..]);
      var r := [x[0]] + c;
      if IsSpace(x[0]) {
        forall j | 0 <= j < |x[1..]| && x[1..][j] == '\n' ensures !AllSpace(x[1..][..j]) {
          assert x[j + 1] == '\n' && x[..j + 1] == [x[0]] + x[1..][..j];
          AllSpaceConcat([x[0]], x[1..][..j]);
        }
        CollapseKeepsNoLeadingNewline(x[1..]);
        forall j | 0 <= j < |r| && r[j] == '\n' ensures !AllSpace(r[..j]) {
          assert r[j] == c[j - 1] && r[..j] == [x[0]] + c[..j - 1];
          AllSpaceConcat([x[0]], c[..j - 1]);
        }
      } else {
        forall j | 0 <= j < |r| && r[j] == '\n' ensures !AllSpace(r[..j]) {
          assert r[..j][0] == x[0];
        }
      }
    }
  }

  /** After collapsing, no newline is followed across whitespace alone by another. */
  lemma {:induction false} CollapseLeavesNoBlankLine(s: string)
    ensures NoBlankLine(CollapseBlankLines(s))
    decreases |s|
  {
    if s == [] {
    } else if s[0] == '\n' {
      var gap, rest := CollapseNewline(s);
      CollapseLeavesNoBlankLine(rest);
      CollapseRestNoLeadingNewline(s[1..]);
      assert rest == s[1..][NewlineRunEnd(s[1..])..];
      CollapseKeepsNoLeadingNewline(rest);
      NoBlankLineCons('\n', CollapseBlankLines(rest));
    } else {
      CollapseLeavesNoBlankLine(s[1..]);
      NoBlankLineCons(s[0], CollapseBlankLines(s[1..]));
    }
  }

  lemma VisibleConcat(a: string, b: string)
    ensures HasVisible(a + b) <==> HasVisible(a) || HasVisible(b)
  {
    if HasVisible(a + b) {
      var i :| 0 <= i < |a + b| && Visible((a + b)[i]);
      if i < |a| { assert a[i] == (a + b)[i]; } else { assert b[i - |a|] == (a + b)[i]; }
    }
    if HasVisible(a) { var i :| 0 <= i < |a| && Visible(a[i]); assert (a + b)[i] == a[i]; }
    if HasVisible(b) { var i :| 0 <= i < |b| && Visible(b[i]); assert (a + b)[|a| + i] == b[i]; }
  }

  /** Collapsing blank lines removes and inserts only whitespace. */
  lemma {:induction false} CollapseKeepsVisible(s: string)
    ensures HasVisible(CollapseBlankLines(s)) <==> HasVisible(s)
    decreases |s|
  {
    if s == [] {
    } else if s[0] == '\n' {
      var n := NewlineRunEnd(s[1..]);
      var rest := s[1 + n..];
      CollapseKeepsVisible(rest);
      VisibleConcat("\n", CollapseBlankLines(rest));
      assert s == [s[0]] + s[1..][..n] + rest;
      assert AllSpace(s[1..][..n]) by { if n > 0 { } }
      VisibleConcat([s[0]] + s[1..][..n], rest);
      VisibleConcat([s[0]], s[1..][..n]);
    } else {
      CollapseKeepsVisible(s[1..]);
      VisibleConcat([s[0]], CollapseBlankLines(s[1..]));
      assert s == [s[0]] + s[1..];
      VisibleConcat([s[0]], s[1..]);
    }
  }

  /** Dropping special characters removes no visible character. */
  lemma {:induction false} DropKeepsVisible(s: string)
    ensures HasVisible(DropSpecial(s)) <==> HasVisible(s)
  {
    if s != [] {
      DropKeepsVisible(s[1..]);
      VisibleConcat(if Kept(s[0]) then [s[0]] else [], DropSpecial(s[1..]));
      assert s == [s[0]] + s[1..];
      VisibleConcat([s[0]], s[1..]);
    }
  }

  /** The cleaned text is empty exactly when the input has no visible character. */
  lemma CleanEmptyExactly(text: string)
    ensures text != [] ==>
      (Join(Words(DropSpecial(CollapseBlankLines(text))), " ") == [] <==> !HasVisible(text))
  {
    var kept := DropSpecial(CollapseBlankLines(text));
    CollapseKeepsVisible(text);
    DropKeepsVisible(CollapseBlankLines(text));
    WordsEmpty(kept);
    JoinWordsEmpty(Words(kept));
    assert AllSpace(kept) <==> !HasVisible(kept);
  }

  /** Clean text is left as it is. */
  lemma CleanKeepsCleanText(t: string)
    requires IsClean(t)
    ensures CleanTranscriptText(t) == t
  {
    if t != [] {
      assert '\n' !in t by {
        if '\n' in t { var i :| 0 <= i < |t| && t[i] == '\n'; assert IsSpace(t[i]); }
      }
      JoinWordsOfSingleSpaced(t);
    }
  }

  /** Cleaning twice is cleaning once. */
  lemma CleanIdempotent(text: string)
    ensures CleanTranscriptText(CleanTranscriptText(text)) == CleanTranscriptText(text)
  {
    CleanKeepsCleanText(CleanTranscriptText(text));
  }

  // ---------------------------------------------------------------------------
  // Caption fragments

  /** One entry of the transcript service's reply; only its `text` is read, and it may
      be absent. */
  datatype Caption = Caption(text: Option<string>)

  /** `subtitle.get('text')` read as a condition. */
  predicate HasText(c: Caption) {
    c.text.Some? && c.text.value != []
  }

  /** The stripped texts of the captions that have text, in order. */
  function CaptionLines(captions: seq<Caption>): (lines: seq<string>)
    ensures |lines| <= |captions|
    ensures forall k :: 0 <= k < |lines| ==>
      lines[k] == [] || (!IsSpace(lines[k][0]) && !IsSpace(lines[k][|lines[k]| - 1]))
  {
    if captions == [] then []
    else (if HasText(captions[0]) then [Strip(captions[0].text.value)] else []) + CaptionLines(captions[1..])
  }

  /** A single caption gives its stripped text when it has text, and nothing otherwise. */
  lemma CaptionLinesOne(c: Caption)
    ensures CaptionLines([c]) == if HasText(c) then [Strip(c.text.value)] else []
  {
    assert [c][1..] == [];
  }

  /** `"\n".join(subtitle.get('text', '').strip() for subtitle in transcript if subtitle.get('text'))`. */
  function JoinCaptions(captions: seq<Caption>): string {
    Join(CaptionLines(captions), "\n")
  }

  lemma {:induction false} CaptionLinesConcat(a: seq<Caption>, b: seq<Caption>)
    ensures CaptionLines(a + b) == CaptionLines(a) + CaptionLines(b)
  {
    if a != [] {
      var head := if HasText(a[0]) then [Strip(a[0].text.value)] else [];
      assert (a + b)[0] == a[0];
      assert (a + b)[1..] == a[1..] + b;
      CaptionLinesConcat(a[1..], b);
      calc {
        CaptionLines(a + b);
        head + CaptionLines(a[1..] + b);
        head + (CaptionLines(a[1..]) + CaptionLines(b));
        (head + CaptionLines(a[1..])) + CaptionLines(b);
        CaptionLines(a) + CaptionLines(b);
      }
    } else {
      assert a + b == b;
    }
  }

  /** A caption without text contributes nothing to the joined transcript. */
  lemma CaptionWithoutTextSkipped(a: seq<Caption>, c: Caption, b: seq<Caption>)
    requires !HasText(c)
    ensures JoinCaptions(a + [c] + b) == JoinCaptions(a + b)
  {
    CaptionLinesConcat(a + [c], b);
    CaptionLinesConcat(a, [c]);
    CaptionLinesConcat(a, b);
    assert [c][1..] == [];
    assert CaptionLines([c]) == [];
    calc {
      CaptionLines(a + [c] + b);
      CaptionLines(a + [c]) + CaptionLines(b);
      CaptionLines(a) + CaptionLines([c]) + CaptionLines(b);
      { assert CaptionLines(a) + [] == CaptionLines(a); }
      CaptionLines(a) + CaptionLines(b);
      CaptionLines(a + b);
    }
  }

  /** The joined transcript splits back into the caption lines at its newlines, when no
      caption line holds a newline of its own. */
  lemma JoinCaptionsSplits(captions: seq<Caption>)
    requires CaptionLines(captions) != []
    requires forall k :: 0 <= k < |CaptionLines(captions)| ==> '\n' !in CaptionLines(captions)[k]
    ensures Split(JoinCaptions(captions), '\n') == CaptionLines(captions)
  {
    SplitJoin(CaptionLines(captions), '\n');
  }

  // ---------------------------------------------------------------------------
  // The node

  /** What the transcript service answers for a video id and a list of preferred
      languages (the network call, supplied by the caller). */
  datatype FetchOutcome =
    | Fetched(captions: seq<Caption>)
    | NoTranscriptFound
    | TranscriptsDisabled
    | VideoUnavailable
    | FetchFailed(reason: string)

  const PreferredLanguages: seq<string> := ["en", "en-US", "en-GB"]

  const ProcessFailure := "Transcript extraction process failed: "
  const FetchFailure := "Failed to extract transcript: "
  const MissingStateUrl := "YouTube URL is missing from state"
  const EmptyTranscript := "Empty transcript after processing"

  /** The message the node gives for each answer of the service other than a transcript. */
  function FetchError(outcome: FetchOutcome): string
    requires !outcome.Fetched?
  {
    match outcome
    case NoTranscriptFound => "No transcript available for this video"
    case TranscriptsDisabled => "Transcripts are disabled for this video"
    case VideoUnavailable => "Video is unavailable or private"
    case FetchFailed(reason) => FetchFailure + reason
  }

  /** `get_transcript_node`: the update it returns, holding only the cleaned transcript,
      or the `RuntimeError` it raises. */
  function GetTranscript(state: BlogState, fetch: (string, seq<string>) -> FetchOutcome): (r: Result<BlogState>)
    ensures r.Err? ==> r.error.RuntimeError? && StartsWith(r.error.message, ProcessFailure)
    ensures !Has(state, YoutubeUrl) ==> r == Err(RuntimeError(ProcessFailure + MissingStateUrl))
    ensures r.Ok? <==>
      Has(state, YoutubeUrl) && ExtractVideoIdFixed(state[YoutubeUrl]).Ok?
      && fetch(ExtractVideoIdFixed(state[YoutubeUrl]).value, PreferredLanguages).Fetched?
      && HasVisible(JoinCaptions(fetch(ExtractVideoIdFixed(state[YoutubeUrl]).value, PreferredLanguages).captions))
    ensures r.Ok? ==>
      r.value.Keys == {YoutubeTranscript}
      && r.value[YoutubeTranscript] != [] && IsClean(r.value[YoutubeTranscript])
      && r.value[YoutubeTranscript] == CleanTranscriptText(JoinCaptions(fetch(ExtractVideoIdFixed(state[YoutubeUrl]).value, PreferredLanguages).captions))
  {
    if !Has(state, YoutubeUrl) then
      StartsWithConcat(ProcessFailure, MissingStateUrl);
      Err(RuntimeError(ProcessFailure + MissingStateUrl))
    else match ExtractVideoIdFixed(state[YoutubeUrl])
      case Err(e) =>
        StartsWithConcat(ProcessFailure, e.Text());
        Err(RuntimeError(ProcessFailure + e.Text()))
      case Ok(id) =>
        var outcome := fetch(id, PreferredLanguages);
        if !outcome.Fetched? then
          StartsWithConcat(ProcessFailure, FetchError(outcome));
          Err(RuntimeError(ProcessFailure + FetchError(outcome)))
        else
          var cleaned := CleanTranscriptText(JoinCaptions(outcome.captions));
          if cleaned == [] then
            StartsWithConcat(ProcessFailure, FetchFailure + EmptyTranscript);
            Err(RuntimeError(ProcessFailure + (FetchFailure + EmptyTranscript)))
          else Ok(map[YoutubeTranscript := cleaned])
  }

  /** Each way the node fails, with the message it raises. */
  lemma GetTranscriptFailures(state: BlogState, fetch: (string, seq<string>) -> FetchOutcome)
    requires Has(state, YoutubeUrl)
    ensures ExtractVideoIdFixed(state[YoutubeUrl]).Err? ==>
      GetTranscript(state, fetch) == Err(RuntimeError(ProcessFailure + ExtractVideoIdFixed(state[YoutubeUrl]).error.message))
    ensures ExtractVideoIdFixed(state[YoutubeUrl]).Ok? ==>
      var outcome := fetch(ExtractVideoIdFixed(state[YoutubeUrl]).value, PreferredLanguages);
      (!outcome.Fetched? ==> GetTranscript(state, fetch) == Err(RuntimeError(ProcessFailure + FetchError(outcome))))
      && (outcome.Fetched? && !HasVisible(JoinCaptions(outcome.captions)) ==>
          GetTranscript(state, fetch) == Err(RuntimeError(ProcessFailure + (FetchFailure + EmptyTranscript))))
  {
  }
}
