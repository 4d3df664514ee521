/** The string operations of Python that the repository's code is built from: the
    character classes `\s` and `\w`, `str.find`, `str.split(sep)`, `sep.join(...)`,
    `str.strip()`, `str.split()` with no separator, `str.startswith` and the
    substring test `pat in s`. */
module Strings {

  /** Python's `str.isspace()`: the characters the regular-expression class `\s`
      matches and the separators of `str.split()` and `str.strip()`. */
  predicate IsSpace(c: char) {
    || ('\t' <= c <= '\r')
    || ('\U{1C}' <= c <= '\U{1F}')
    || c == ' '
    || c == '\U{85}'
    || c == '\U{A0}'
    || c == '\U{1680}'
    || ('\U{2000}' <= c <= '\U{200A}')
    || c == '\U{2028}'
    || c == '\U{2029}'
    || c == '\U{202F}'
    || c == '\U{205F}'
    || c == '\U{3000}'
  }

  /** The regular-expression class `\w`, restricted to ASCII: letters, digits and `_`. */
  predicate IsWordChar(c: char) {
    ('a' <= c <= 'z') || ('A' <= c <= 'Z') || ('0' <= c <= '9') || c == '_'
  }

  /** `s.startswith(prefix)`. */
  predicate StartsWith(s: string, prefix: string) {
    |prefix| <= |s| && s[..|prefix|] == prefix
  }

  /** A text starts with whatever is put in front of it. */
  lemma StartsWithConcat(prefix: string, rest: string)
    ensures StartsWith(prefix + rest, prefix)
  {
    assert (prefix + rest)[..|prefix|] == prefix;
  }

  /** Every character of `s` is whitespace (true of the empty string). */
  predicate AllSpace(s: string) {
    forall i :: 0 <= i < |s| ==> IsSpace(s[i])
  }

  /** `pat in s`: `pat` occurs in `s` as a contiguous substring. */
  predicate Contains(s: string, pat: string)
    decreases |s|
  {
    StartsWith(s, pat) || (s != [] && Contains(s[1..], pat))
  }

  /** An occurrence of `pat` at position `i` makes `pat in s` true. */
  lemma {:induction false} ContainsAt(s: string, pat: string, i: nat)
    requires i + |pat| <= |s| && s[i..i + |pat|] == pat
    ensures Contains(s, pat)
    decreases i
  {
    if i == 0 {
      assert s[..|pat|] == pat;
    } else {
      assert s[1..][i - 1..i - 1 + |pat|] == s[i..i + |pat|];
      ContainsAt(s[1..], pat, i - 1);
    }
  }

  /** An occurrence of `pat` in `s` is one in every extension `a + s + b`. */
  lemma ContainsInside(a: string, s: string, b: string, pat: string)
    requires Contains(s, pat)
    ensures Contains(a + s + b, pat)
  {
    var i := OccurrenceOf(s, pat);
    assert (a + s + b)[|a| + i..|a| + i + |pat|] == s[i..i + |pat|];
    ContainsAt(a + s + b, pat, |a| + i);
  }

  /** An occurrence of `pat` in `s` is one in `s + b`. */
  lemma ContainsBefore(s: string, b: string, pat: string)
    requires Contains(s, pat)
    ensures Contains(s + b, pat)
  {
    var i := OccurrenceOf(s, pat);
    assert (s + b)[i..i + |pat|] == s[i..i + |pat|];
    ContainsAt(s + b, pat, i);
  }

  /** An occurrence of `pat` in `s` is one in `a + s`. */
  lemma ContainsAfter(a: string, s: string, pat: string)
    requires Contains(s, pat)
    ensures Contains(a + s, pat)
  {
    var i := OccurrenceOf(s, pat);
    assert (a + s)[|a| + i..|a| + i + |pat|] == s[i..i + |pat|];
    ContainsAt(a + s, pat, |a| + i);
  }

  /** Concatenation regrouped to the right. */
  lemma Assoc(a: string, b: string, c: string)
    ensures a + b + c == a + (b + c)
  {
  }

  /** The position of an occurrence that `pat in s` promises. */
  lemma {:induction false} OccurrenceOf(s: string, pat: string) returns (i: nat)
    requires Contains(s, pat)
    ensures i + |pat| <= |s| && s[i..i + |pat|] == pat
    decreases |s|
  {
    if StartsWith(s, pat) {
      i := 0;
    } else {
      var j := OccurrenceOf(s[1..], pat);
      assert s[1..][j..j + |pat|] == s[j + 1..j + 1 + |pat|];
      i := j + 1;
    }
  }

  /** `s.find(c)`, with `|s|` standing for Python's `-1` when `c` does not occur:
      the position of the first `c`. */
  function IndexOf(s: string, c: char): (i: nat)
    ensures i <= |s|
    ensures i < |s| ==> s[i] == c
    ensures forall j :: 0 <= j < i ==> s[j] != c
  {
    if s == [] then 0 else if s[0] == c then 0 else 1 + IndexOf(s[1..], c)
  }

  /** The first position of `s` holding one of the characters `cs`, or `|s|`. */
  function IndexOfAny(s: string, cs: seq<char>): (i: nat)
    ensures i <= |s|
    ensures i < |s| ==> s[i] in cs
    ensures forall j :: 0 <= j < i ==> s[j] !in cs
  {
    if s == [] then 0 else if s[0] in cs then 0 else 1 + IndexOfAny(s[1..], cs)
  }

  /** Where `c` is absent from `a`, the first `c` of `a + b` is the first `c` of `b`. */
  lemma IndexOfAfter(a: string, b: string, c: char)
    requires c !in a
    ensures IndexOf(a + b, c) == |a| + IndexOf(b, c)
  {
    assert forall j :: 0 <= j < |a| ==> (a + b)[j] == a[j];
    assert forall j :: 0 <= j < |b| ==> (a + b)[|a| + j] == b[j];
  }

  /** Where none of `cs` is in `a`, the first of them in `a + b` is the first in `b`. */
  lemma IndexOfAnyAfter(a: string, b: string, cs: seq<char>)
    requires forall i :: 0 <= i < |a| ==> a[i] !in cs
    ensures IndexOfAny(a + b, cs) == |a| + IndexOfAny(b, cs)
  {
    assert forall j :: 0 <= j < |a| ==> (a + b)[j] == a[j];
    assert forall j :: 0 <= j < |b| ==> (a + b)[|a| + j] == b[j];
  }

  /** `s.split(sep)` for a one-character separator: the pieces between separators,
      empty pieces included, so never an empty list. */
  function Split(s: string, sep: char): (parts: seq<string>)
    ensures |parts| >= 1
    ensures forall k :: 0 <= k < |parts| ==> sep !in parts[k]
    decreases |s|
  {
    var i := IndexOf(s, sep);
    if i == |s| then [s] else [s[..i]] + Split(s[i + 1..], sep)
  }

  /** `sep.join(parts)`. */
  function Join(parts: seq<string>, sep: string): string
    decreases |parts|
  {
    if |parts| == 0 then ""
    else if |parts| == 1 then parts[0]
    else parts[0] + sep + Join(parts[1..], sep)
  }

  /** Splitting a string that begins with a separator-free piece and a separator. */
  lemma SplitAt(a: string, b: string, sep: char)
    requires sep !in a
    ensures Split(a + [sep] + b, sep) == [a] + Split(b, sep)
  {
    var s := a + [sep] + b;
    IndexOfAfter(a, [sep] + b, sep);
    assert s == a + ([sep] + b);
    assert s[..|a|] == a && s[|a| + 1..] == b;
  }

  /** A string without the separator splits into itself alone. */
  lemma SplitNone(s: string, sep: char)
    requires sep !in s
    ensures Split(s, sep) == [s]
  {
  }

  /** Joining the pieces with the separator gives the string back: `split` loses nothing. */
  lemma {:induction false} JoinSplit(s: string, sep: char)
    ensures Join(Split(s, sep), [sep]) == s
    decreases |s|
  {
    var i := IndexOf(s, sep);
    if i < |s| {
      var rest := s[i + 1..];
      JoinSplit(rest, sep);
      SplitUnfold(s, sep);
      JoinCons(s[..i], Split(rest, sep), [sep]);
      assert s == s[..i] + [sep] + rest;
    }
  }

  /** Splitting joined separator-free pieces gives the pieces back. */
  lemma {:induction false} SplitJoin(parts: seq<string>, sep: char)
    requires |parts| >= 1
    requires forall k :: 0 <= k < |parts| ==> sep !in parts[k]
    ensures Split(Join(parts, [sep]), sep) == parts
    decreases |parts|
  {
    if |parts| > 1 {
      SplitJoin(parts[1..], sep);
      SplitAt(parts[0], Join(parts[1..], [sep]), sep);
      assert parts == [parts[0]] + parts[1..];
    }
  }

  /** `s.split(sep)` has one piece more than `s` has separators. */
  lemma {:induction false} SplitCount(s: string, sep: char)
    ensures |Split(s, sep)| == multiset(s)[sep] + 1
    decreases |s|
  {
    var i := IndexOf(s, sep);
    if i == |s| {
      assert sep !in multiset(s);
    } else {
      SplitCount(s[i + 1..], sep);
      assert s == s[..i] + [sep] + s[i + 1..];
      assert multiset(s) == multiset(s[..i]) + multiset{sep} + multiset(s[i + 1..]);
      assert sep !in multiset(s[..i]);
    }
  }

  /** `s.split(sep)[0]`: everything before the first separator. */
  function FirstPart(s: string, sep: char): (r: string)
    ensures sep !in r
    ensures StartsWith(s, r)
    ensures |r| == |s| || s[|r|] == sep
  {
    Split(s, sep)[0]
  }

  /** `s.rfind(c)`, with `-1` when `c` does not occur: the position of the last `c`. */
  function LastIndexOf(s: string, c: char): (i: int)
    ensures -1 <= i < |s|
    ensures i >= 0 ==> s[i] == c
    ensures forall j :: i < j < |s| ==> s[j] != c
    decreases |s|
  {
    if s == [] then -1
    else if s[|s| - 1] == c then |s| - 1
    else LastIndexOf(s[..|s| - 1], c)
  }

  /** Everything after the last separator of `s`, or all of `s` when it has none. */
  function LastPart(s: string, sep: char): (r: string)
    ensures sep !in r
    ensures TailAfter(s, r, sep)
  {
    var i := LastIndexOf(s, sep);
    TailFrom(s, i + 1, sep);
    s[i + 1..]
  }

  /** The tail from `k` on, when it holds no separator and `k` is `0` or follows one. */
  lemma TailFrom(s: string, k: nat, sep: char)
    requires k <= |s| && (k == 0 || s[k - 1] == sep)
    requires forall j :: k <= j < |s| ==> s[j] != sep
    ensures sep !in s[k..] && TailAfter(s, s[k..], sep)
  {
    var r := s[k..];
    assert forall j :: 0 <= j < |r| ==> r[j] == s[k + j];
  }

  /** `r` is all of `s`, or the part of `s` after some separator. */
  predicate TailAfter(s: string, r: string, sep: char) {
    |r| <= |s| && s[|s| - |r|..] == r && (|r| == |s| || s[|s| - |r| - 1] == sep)
  }

  /** The last part is the only separator-free tail that is all of `s` or follows a
      separator. */
  lemma LastPartUnique(s: string, r: string, sep: char)
    requires sep !in r && TailAfter(s, r, sep)
    ensures r == LastPart(s, sep)
  {
    var last := LastPart(s, sep);
    assert forall j :: |s| - |r| <= j < |s| ==> s[j] == r[j - (|s| - |r|)];
    assert forall j :: |s| - |last| <= j < |s| ==> s[j] == last[j - (|s| - |last|)];
  }

  function LastOf(parts: seq<string>): string
    requires |parts| >= 1
  {
    parts[|parts| - 1]
  }

  /** `LastPart` is `s.split(sep)[-1]`. */
  lemma {:induction false} LastPartOfSplit(s: string, sep: char)
    ensures LastPart(s, sep) == LastOf(Split(s, sep))
    decreases |s|
  {
    var i := IndexOf(s, sep);
    if i < |s| {
      var rest := s[i + 1..];
      LastPartOfSplit(rest, sep);
      LastPartStep(s, i, rest, sep);
    } else {
      LastPartWhole(s, sep);
    }
  }

  lemma LastPartStep(s: string, i: nat, rest: string, sep: char)
    requires i == IndexOf(s, sep) < |s| && rest == s[i + 1..]
    requires LastPart(rest, sep) == LastOf(Split(rest, sep))
    ensures LastPart(s, sep) == LastOf(Split(s, sep))
  {
    SplitLast(s, i, rest, sep);
    LastPartOfRest(s, i, rest, sep);
  }

  /** Past a separator, the last part is unchanged. */
  lemma LastPartOfRest(s: string, i: nat, rest: string, sep: char)
    requires i < |s| && s[i] == sep && rest == s[i + 1..]
    ensures LastPart(rest, sep) == LastPart(s, sep)
  {
    SuffixOfRest(s, i, LastPart(rest, sep), sep);
    LastPartUnique(s, LastPart(rest, sep), sep);
  }

  /** A string without the separator is its own last part and its own only piece. */
  lemma LastPartWhole(s: string, sep: char)
    requires IndexOf(s, sep) == |s|
    ensures LastPart(s, sep) == s == LastOf(Split(s, sep))
  {
    assert s[0..] == s;
    LastPartUnique(s, s, sep);
  }

  lemma SplitLast(s: string, i: nat, rest: string, sep: char)
    requires i == IndexOf(s, sep) < |s| && rest == s[i + 1..]
    ensures LastOf(Split(s, sep)) == LastOf(Split(rest, sep))
  {
    SplitUnfold(s, sep);
    LastOfCons(s[..i], Split(rest, sep));
  }

  lemma SplitUnfold(s: string, sep: char)
    requires IndexOf(s, sep) < |s|
    ensures Split(s, sep) == [s[..IndexOf(s, sep)]] + Split(s[IndexOf(s, sep) + 1..], sep)
  {
  }

  lemma LastOfCons(x: string, p: seq<string>)
    requires |p| >= 1
    ensures LastOf([x] + p) == LastOf(p)
  {
    assert ([x] + p)[|p|] == p[|p| - 1];
  }

  /** A tail of `s[i + 1..]` that follows a separator, or all of it, is a tail of `s`
      that follows a separator, when `s[i]` is one. */
  lemma SuffixOfRest(s: string, i: nat, r: string, sep: char)
    requires i < |s| && s[i] == sep
    requires TailAfter(s[i + 1..], r, sep)
    ensures TailAfter(s, r, sep) && |r| < |s|
  {
    var rest := s[i + 1..];
    assert s[|s| - |r|..] == rest[|rest| - |r|..];
    if |r| < |rest| {
      assert s[|s| - |r| - 1] == rest[|rest| - |r| - 1];
    }
  }

  /** Where `s` holds a separator, its last part follows one. */
  lemma LastPartAfterSep(s: string, sep: char)
    requires sep in s
    ensures Contains(s, [sep] + LastPart(s, sep))
  {
    var r := LastPart(s, sep);
    var i :| 0 <= i < |s| && s[i] == sep;
    var start := |s| - |r|;
    assert forall j :: start <= j < |s| ==> s[j] == r[j - start];
    assert i < start;
    assert s[start - 1..start - 1 + |[sep] + r|] == [sep] + r;
    ContainsAt(s, [sep] + r, start - 1);
  }

  /** What follows the last separator of `a + [sep] + b`, when `b` has none, is `b`. */
  lemma LastPartAfter(a: string, b: string, sep: char)
    requires sep !in b
    ensures LastPart(a + [sep] + b, sep) == b
  {
    var s := a + [sep] + b;
    assert s[|s| - |b| - 1] == sep;
    assert forall j :: 0 <= j < |b| ==> s[|s| - |b| + j] == b[j];
    assert s[|s| - |b|..] == b;
    LastPartUnique(s, b, sep);
  }

  /** What precedes the first separator of `a + [sep] + b`, when `a` has none, is `a`. */
  lemma FirstPartBefore(a: string, b: string, sep: char)
    requires sep !in a
    ensures FirstPart(a + [sep] + b, sep) == a
  {
    SplitAt(a, b, sep);
  }

  /** The number of whitespace characters `s` opens with. */
  function LeadingSpace(s: string): (n: nat)
    ensures n <= |s|
    ensures forall i :: 0 <= i < n ==> IsSpace(s[i])
    ensures n < |s| ==> !IsSpace(s[n])
  {
    if s != [] && IsSpace(s[0]) then 1 + LeadingSpace(s[1..]) else 0
  }

  /** Where the whitespace `s` closes with begins. */
  function TrailingSpace(s: string): (n: nat)
    ensures n <= |s|
    ensures forall i :: n <= i < |s| ==> IsSpace(s[i])
    ensures n > 0 ==> !IsSpace(s[n - 1])
  {
    if s != [] && IsSpace(s[|s| - 1]) then TrailingSpace(s[..|s| - 1]) else |s|
  }

  /** `s.lstrip()`. */
  function TrimStart(s: string): string {
    s[LeadingSpace(s)..]
  }

  /** `s.rstrip()`. */
  function TrimEnd(s: string): string {
    s[..TrailingSpace(s)]
  }

  /** `s.strip()`: `s` with its leading and trailing whitespace removed. */
  function Strip(s: string): (r: string)
    ensures r == [] || (!IsSpace(r[0]) && !IsSpace(r[|r| - 1]))
    ensures (s == [] || (!IsSpace(s[0]) && !IsSpace(s[|s| - 1]))) ==> r == s
  {
    StripShape(s);
    TrimEnd(TrimStart(s))
  }

  /** What stripping keeps is a slice of `s` with only whitespace before and after it;
      with the ends `Strip` promises, this leaves one possible result. */
  lemma StripSlice(s: string)
    ensures exists i, j ::
      0 <= i <= j <= |s| && Strip(s) == s[i..j] && AllSpace(s[..i]) && AllSpace(s[j..])
  {
    var n := LeadingSpace(s);
    var t := s[n..];
    var m := TrailingSpace(t);
    assert t[..m] == s[n..n + m];
    assert s[n + m..] == t[m..];
    assert AllSpace(s[..n]);
    assert AllSpace(t[m..]);
  }

  /** Only an all-whitespace string strips to nothing. */
  lemma StripEmpty(s: string)
    ensures Strip(s) == [] <==> AllSpace(s)
  {
    StripShape(s);
  }

  lemma StripShape(s: string)
    ensures var r := TrimEnd(TrimStart(s));
      && (r == [] || (!IsSpace(r[0]) && !IsSpace(r[|r| - 1])))
      && (r == [] <==> AllSpace(s))
      && ((s == [] || (!IsSpace(s[0]) && !IsSpace(s[|s| - 1]))) ==> r == s)
  {
    StripEnds(s);
    StripBlank(s);
    if s == [] || (!IsSpace(s[0]) && !IsSpace(s[|s| - 1])) {
      StripKeeps(s);
    }
  }

  lemma StripEnds(s: string)
    ensures var r := TrimEnd(TrimStart(s)); r == [] || (!IsSpace(r[0]) && !IsSpace(r[|r| - 1]))
  {
    var n := LeadingSpace(s);
    var t := s[n..];
    var m := TrailingSpace(t);
    var r := t[..m];
    if r != [] {
      assert r[0] == t[0] == s[n];
      assert r[|r| - 1] == t[m - 1];
    }
  }

  lemma StripBlank(s: string)
    ensures TrimEnd(TrimStart(s)) == [] <==> AllSpace(s)
  {
    var n := LeadingSpace(s);
    var t := s[n..];
    var m := TrailingSpace(t);
    assert forall i :: n <= i < |s| ==> s[i] == t[i - n];
    if m == 0 {
      assert AllSpace(t);
    } else {
      assert s[n + m - 1] == t[m - 1];
    }
  }

  lemma StripKeeps(s: string)
    requires s == [] || (!IsSpace(s[0]) && !IsSpace(s[|s| - 1]))
    ensures TrimEnd(TrimStart(s)) == s
  {
    assert LeadingSpace(s) == 0;
    assert s[0..] == s;
    assert TrailingSpace(s) == |s|;
  }

  /** The longest prefix of `s` free of whitespace. */
  function Word(s: string): (w: string)
    ensures |w| <= |s| && s[..|w|] == w
    ensures !(exists i :: 0 <= i < |w| && IsSpace(w[i]))
    ensures |w| < |s| ==> IsSpace(s[|w|])
  {
    if s == [] || IsSpace(s[0]) then [] else [s[0]] + Word(s[1..])
  }

  /** A word: non-empty and free of whitespace. */
  predicate IsWord(w: string) {
    w != [] && forall i :: 0 <= i < |w| ==> !IsSpace(w[i])
  }

  /** `s.split()` with no separator: the maximal runs of non-whitespace, in order. */
  function Words(s: string): (ws: seq<string>)
    ensures forall k :: 0 <= k < |ws| ==> IsWord(ws[k])
    decreases |s|
  {
    if s == [] then []
    else if IsSpace(s[0]) then Words(s[1..])
    else
      var w := Word(s);
      [w] + Words(s[|w|..])
  }

  /** Text whose only whitespace is single spaces standing between non-blank text:
      no tab or newline, no leading, trailing or doubled space. */
  predicate SingleSpaced(t: string) {
    && (forall i :: 0 <= i < |t| ==> IsSpace(t[i]) ==> t[i] == ' ')
    && (t == [] || (t[0] != ' ' && t[|t| - 1] != ' '))
    && (forall i :: 0 <= i < |t| - 1 ==> t[i] == ' ' ==> t[i + 1] != ' ')
  }

  /** Words joined by single spaces are single-spaced text. */
  lemma {:induction false} JoinWordsSingleSpaced(ws: seq<string>)
    requires forall k :: 0 <= k < |ws| ==> IsWord(ws[k])
    ensures SingleSpaced(Join(ws, " "))
    decreases |ws|
  {
    if |ws| > 1 {
      JoinWordsSingleSpaced(ws[1..]);
      var w, rest := ws[0], Join(ws[1..], " ");
      var t := w + " " + rest;
      assert rest != [] && rest[0] != ' ' by { JoinStartsWithWord(ws[1..]); }
      assert forall i :: 0 <= i < |w| ==> t[i] == w[i];
      assert forall i :: |w| < i < |t| ==> t[i] == rest[i - |w| - 1];
      assert t[|t| - 1] == rest[|rest| - 1];
    }
  }

  lemma {:induction false} JoinStartsWithWord(ws: seq<string>)
    requires |ws| >= 1 && forall k :: 0 <= k < |ws| ==> IsWord(ws[k])
    ensures IsWord(ws[0]) && Join(ws, " ") != [] && Join(ws, " ")[0] == ws[0][0]
  {
    assert IsWord(ws[0]);
  }

  /** Splitting into words and joining them with single spaces leaves single-spaced
      text as it was. */
  lemma {:induction false} JoinWordsOfSingleSpaced(t: string)
    requires SingleSpaced(t)
    ensures Join(Words(t), " ") == t
    decreases |t|
  {
    if t != [] {
      var w := Word(t);
      if |w| < |t| {
        var rest := t[|w| + 1..];
        SingleSpacedAfterWord(t);
        JoinWordsOfSingleSpaced(rest);
        JoinCons(w, Words(rest), " ");
        WordThenRest(t, |w|);
      } else {
        OneWord(t);
      }
    }
  }

  /** Joining a piece in front of at least one more. */
  lemma JoinCons(w: string, ws: seq<string>, sep: string)
    requires ws != []
    ensures Join([w] + ws, sep) == w + sep + Join(ws, sep)
  {
    assert ([w] + ws)[1..] == ws;
  }

  lemma WordThenRest(t: string, n: nat)
    requires n < |t| && t[n] == ' '
    ensures t == t[..n] + " " + t[n + 1..]
  {
  }

  /** Text that is one word is its own list of words, joined. */
  lemma OneWord(t: string)
    requires t != [] && |Word(t)| == |t|
    ensures Words(t) == [t] && Join(Words(t), " ") == t
  {
    assert !IsSpace(t[0]);
    assert Word(t) == t;
    assert t[|t|..] == [];
  }

  /** Single-spaced text that goes on after its first word goes on with one space and
      more single-spaced text, and its words are that word and the words of the rest. */
  lemma SingleSpacedAfterWord(t: string)
    requires SingleSpaced(t) && t != [] && |Word(t)| < |t|
    ensures var w := Word(t); var rest := t[|w| + 1..];
      t[|w|] == ' ' && SingleSpaced(rest) && rest != [] && Words(t) == [w] + Words(rest)
  {
    var w := Word(t);
    var rest := t[|w| + 1..];
    assert !IsSpace(t[0]);
    assert t[|w|] == ' ' && |w| + 1 < |t|;
    assert !IsSpace(t[|w| + 1]);
    assert t[|w|..][1..] == rest;
    SingleSpacedSuffix(t, |w| + 1);
  }

  lemma SingleSpacedSuffix(t: string, k: nat)
    requires SingleSpaced(t) && 0 < k < |t| && t[k - 1] == ' '
    ensures SingleSpaced(t[k..])
  {
    var rest := t[k..];
    forall i | 0 <= i < |rest| - 1 && rest[i] == ' ' ensures rest[i + 1] != ' ' {
      assert rest[i] == t[k + i] && rest[i + 1] == t[k + 1 + i];
    }
    forall i | 0 <= i < |rest| && IsSpace(rest[i]) ensures rest[i] == ' ' {
      assert rest[i] == t[k + i];
    }
  }

  /** A character property that holds of all of `s` holds of every character of its words. */
  lemma {:induction false} WordsKeep(s: string, P: char -> bool)
    requires forall i :: 0 <= i < |s| ==> P(s[i])
    ensures forall k, i :: 0 <= k < |Words(s)| && 0 <= i < |Words(s)[k]| ==> P(Words(s)[k][i])
    decreases |s|
  {
    if s != [] {
      if IsSpace(s[0]) {
        WordsKeep(s[1..], P);
      } else {
        var w := Word(s);
        WordsKeep(s[|w|..], P);
        forall i | 0 <= i < |w| ensures P(w[i]) { assert w[i] == s[i]; }
      }
    }
  }

  /** A character property that holds of every piece and of the separator holds of the join. */
  lemma {:induction false} JoinKeeps(parts: seq<string>, sep: string, P: char -> bool)
    requires forall k, i :: 0 <= k < |parts| && 0 <= i < |parts[k]| ==> P(parts[k][i])
    requires forall i :: 0 <= i < |sep| ==> P(sep[i])
    ensures forall i :: 0 <= i < |Join(parts, sep)| ==> P(Join(parts, sep)[i])
    decreases |parts|
  {
    if |parts| > 1 {
      JoinKeeps(parts[1..], sep, P);
      var a, rest := parts[0], Join(parts[1..], sep);
      forall i | 0 <= i < |a + sep + rest| ensures P((a + sep + rest)[i]) {
        if i < |a| { assert (a + sep + rest)[i] == parts[0][i]; }
        else if i < |a| + |sep| { assert (a + sep + rest)[i] == sep[i - |a|]; }
        else { assert (a + sep + rest)[i] == rest[i - |a| - |sep|]; }
      }
    } else if |parts| == 1 {
      assert Join(parts, sep) == parts[0];
    }
  }

  /** A string has no words exactly when it is all whitespace. */
  lemma {:induction false} WordsEmpty(s: string)
    ensures Words(s) == [] <==> AllSpace(s)
    decreases |s|
  {
    if s != [] && IsSpace(s[0]) {
      WordsEmpty(s[1..]);
      assert AllSpace(s) <==> AllSpace(s[1..]) by {
        if AllSpace(s[1..]) {
          forall i | 0 <= i < |s| ensures IsSpace(s[i]) { if i > 0 { assert s[i] == s[1..][i - 1]; } }
        }
      }
    }
  }

  /** Joining gives the empty string only for no pieces, when every piece is a word. */
  lemma JoinWordsEmpty(ws: seq<string>)
    requires forall k :: 0 <= k < |ws| ==> IsWord(ws[k])
    ensures Join(ws, " ") == [] <==> ws == []
  {
    if ws != [] { JoinStartsWithWord(ws); }
  }

  /** A word followed by nothing or by whitespace is the first word. */
  lemma WordPrefix(w: string, t: string)
    requires forall i :: 0 <= i < |w| ==> !IsSpace(w[i])
    requires t == [] || IsSpace(t[0])
    ensures Word(w + t) == w
  {
    var x := Word(w + t);
    assert forall i :: 0 <= i < |w| ==> (w + t)[i] == w[i];
    assert t != [] ==> (w + t)[|w|] == t[0];
    assert |x| == |w|;
    assert (w + t)[..|w|] == w;
  }

  /** The words of a word followed by nothing or by whitespace: that word, then the rest's. */
  lemma WordThenWords(w: string, t: string)
    requires IsWord(w) && (t == [] || IsSpace(t[0]))
    ensures Words(w + t) == [w] + Words(t)
  {
    WordPrefix(w, t);
    assert (w + t)[0] == w[0];
    assert (w + t)[|w|..] == t;
  }

  /** Leading whitespace contributes no word. */
  lemma {:induction false} WordsSkipSpace(g: string, t: string)
    requires AllSpace(g)
    ensures Words(g + t) == Words(t)
    decreases |g|
  {
    if g != [] {
      assert (g + t)[0] == g[0];
      assert (g + t)[1..] == g[1..] + t;
      WordsSkipSpace(g[1..], t);
    } else {
      assert g + t == t;
    }
  }

  /** A character in front of a string: a space leaves the words alone, anything else
      starts the first word or joins it. */
  lemma WordsCons(c: char, x: string)
    ensures IsSpace(c) ==> Word([c] + x) == [] && Words([c] + x) == Words(x)
    ensures !IsSpace(c) ==> Word([c] + x) == [c] + Word(x)
    ensures !IsSpace(c) ==>
      Words([c] + x) == [[c] + Word(x)] + (if Word(x) != [] then Words(x)[1..] else Words(x))
  {
    assert ([c] + x)[0] == c && ([c] + x)[1..] == x;
    if !IsSpace(c) {
      var w := Word(x);
      assert ([c] + x)[|w| + 1..] == x[|w|..];
      if w != [] {
        assert x != [] && !IsSpace(x[0]);
      } else {
        assert x[0..] == x;
      }
    }
  }

  /** Words joined by single spaces split back into those words. */
  lemma {:induction false} WordsOfJoin(ws: seq<string>)
    requires forall k :: 0 <= k < |ws| ==> IsWord(ws[k])
    ensures Words(Join(ws, " ")) == ws
    decreases |ws|
  {
    if |ws| == 1 {
      WordThenWords(ws[0], []);
      assert ws[0] + [] == ws[0];
    } else if |ws| > 1 {
      WordsOfJoin(ws[1..]);
      WordsOfJoinStep(ws[0], ws[1..], Join(ws[1..], " "));
      JoinCons(ws[0], ws[1..], " ");
      assert ws == [ws[0]] + ws[1..];
    }
  }

  lemma WordsOfJoinStep(w: string, ws: seq<string>, rest: string)
    requires IsWord(w) && Words(rest) == ws
    ensures Words(w + " " + rest) == [w] + ws
  {
    WordThenWords(w, " " + rest);
    WordsSkipSpace(" ", rest);
    assert w + " " + rest == w + (" " + rest);
  }

  /** The words `ws` with the gaps `gaps` around and between them:
      `gaps[0] + ws[0] + gaps[1] + ... + ws[n - 1] + gaps[n]`. */
  function Spaced(gaps: seq<string>, ws: seq<string>): string
    requires |gaps| == |ws| + 1
    decreases |ws|
  {
    if ws == [] then gaps[0] else gaps[0] + ws[0] + Spaced(gaps[1..], ws[1..])
  }

  /** Gaps of whitespace, non-empty wherever one stands between two words. */
  predicate IsGaps(gaps: seq<string>) {
    && (forall k :: 0 <= k < |gaps| ==> AllSpace(gaps[k]))
    && (forall k :: 0 < k < |gaps| - 1 ==> gaps[k] != [])
  }

  /** Words spaced out by whitespace gaps begin with the first gap. */
  lemma GapLeads(gaps: seq<string>, ws: seq<string>)
    requires |gaps| == |ws| + 1 && AllSpace(gaps[0]) && (ws != [] ==> gaps[0] != [])
    ensures var t := Spaced(gaps, ws); t == [] || IsSpace(t[0])
  {
    if gaps[0] != [] && ws != [] {
      assert Spaced(gaps, ws)[0] == gaps[0][0];
    }
  }

  /** The words of text made of words and whitespace gaps between them are those words:
      `split()` finds the maximal runs of non-whitespace, in order. */
  lemma {:induction false} WordsOfSpaced(gaps: seq<string>, ws: seq<string>)
    requires |gaps| == |ws| + 1 && IsGaps(gaps)
    requires forall k :: 0 <= k < |ws| ==> IsWord(ws[k])
    ensures Words(Spaced(gaps, ws)) == ws
    decreases |ws|
  {
    if ws == [] {
      WordsEmpty(gaps[0]);
    } else {
      var tail := Spaced(gaps[1..], ws[1..]);
      assert IsGaps(gaps[1..]) by {
        forall k | 0 < k < |gaps[1..]| - 1 ensures gaps[1..][k] != [] {
          assert gaps[1..][k] == gaps[k + 1];
        }
      }
      WordsOfSpaced(gaps[1..], ws[1..]);
      assert ws[1..] != [] ==> gaps[1] != [];
      GapLeads(gaps[1..], ws[1..]);
      WordThenWords(ws[0], tail);
      WordsSkipSpace(gaps[0], ws[0] + tail);
      assert gaps[0] + ws[0] + tail == gaps[0] + (ws[0] + tail);
      assert ws == [ws[0]] + ws[1..];
    }
  }

  /** Every string is its words spaced out by whitespace gaps. */
  lemma {:induction false} WordsGaps(s: string) returns (gaps: seq<string>)
    ensures |gaps| == |Words(s)| + 1 && IsGaps(gaps) && s == Spaced(gaps, Words(s))
    ensures s != [] && IsSpace(s[0]) ==> gaps[0] != []
    decreases |s|
  {
    if s == [] {
      gaps := [""];
    } else if IsSpace(s[0]) {
      var g := WordsGaps(s[1..]);
      gaps := GapsAfterSpace(s, g);
    } else {
      var w := Word(s);
      var g := WordsGaps(s[|w|..]);
      gaps := GapsAfterWord(s, w, g);
    }
  }

  lemma GapsAfterSpace(s: string, g: seq<string>) returns (gaps: seq<string>)
    requires s != [] && IsSpace(s[0])
    requires |g| == |Words(s[1..])| + 1 && IsGaps(g) && s[1..] == Spaced(g, Words(s[1..]))
    ensures |gaps| == |Words(s)| + 1 && IsGaps(gaps) && s == Spaced(gaps, Words(s)) && gaps[0] != []
  {
    var ws := Words(s[1..]);
    assert Words(s) == ws;
    gaps := [[s[0]] + g[0]] + g[1..];
    assert forall k :: 0 < k < |gaps| ==> gaps[k] == g[k];
    assert AllSpace(gaps[0]) by {
      assert forall i :: 0 < i < |gaps[0]| ==> gaps[0][i] == g[0][i - 1];
    }
    SpacedFirstGap([s[0]], g, ws);
    assert s == [s[0]] + s[1..];
  }

  lemma GapsAfterWord(s: string, w: string, g: seq<string>) returns (gaps: seq<string>)
    requires s != [] && !IsSpace(s[0]) && w == Word(s)
    requires var rest := s[|w|..];
      |g| == |Words(rest)| + 1 && IsGaps(g) && rest == Spaced(g, Words(rest))
      && (rest != [] && IsSpace(rest[0]) ==> g[0] != [])
    ensures |gaps| == |Words(s)| + 1 && IsGaps(gaps) && s == Spaced(gaps, Words(s))
  {
    var rest := s[|w|..];
    var ws := Words(rest);
    assert Words(s) == [w] + ws;
    gaps := [""] + g;
    GapsPrepend(g);
    SpacedPrepend(w, g, ws);
    assert s == w + rest;
  }

  /** An empty gap may stand in front of gaps whose first is non-empty. */
  lemma GapsPrepend(g: seq<string>)
    requires IsGaps(g) && (|g| > 1 ==> g[0] != [])
    ensures IsGaps([""] + g)
  {
    var gaps := [""] + g;
    assert forall k :: 0 < k < |gaps| ==> gaps[k] == g[k - 1];
  }

  /** A word behind an empty gap simply comes first. */
  lemma SpacedPrepend(w: string, g: seq<string>, ws: seq<string>)
    requires |g| == |ws| + 1
    ensures Spaced([""] + g, [w] + ws) == w + Spaced(g, ws)
  {
    var gaps, xs := [""] + g, [w] + ws;
    assert gaps[0] == "" && xs[0] == w && gaps[1..] == g && xs[1..] == ws;
    assert Spaced(gaps, xs) == gaps[0] + xs[0] + Spaced(gaps[1..], xs[1..]);
    assert "" + w == w;
  }

  /** Growing the first gap grows the text at its front. */
  lemma SpacedFirstGap(p: string, g: seq<string>, ws: seq<string>)
    requires |g| == |ws| + 1
    ensures Spaced([p + g[0]] + g[1..], ws) == p + Spaced(g, ws)
  {
    var gaps := [p + g[0]] + g[1..];
    if ws != [] {
      assert gaps[1..] == g[1..];
    }
  }
}
