# YouTube Assistant: a verified model of its core logic

YouTube Assistant is a Streamlit application. It turns a YouTube video into a blog post, a
summary or a set of notes. It fetches the video's captions and runs them through a langgraph
workflow of nodes that each call a hosted language model. This project models in Dafny the
parts of the application that do more than glue, and proves what they promise:

- **The transcript node** (`transcript.dfy`, with `urls.dfy` and `strings.dfy`):
  - finding the video id in the three URL shapes the node accepts;
  - the three-stage cleaning of the caption text;
  - joining the caption fragments, and refusing an empty transcript.
- **The blog aggregator** (`aggregator.dfy`): formatting the title and the generated content
  into the final markdown blog, and the node that does it.
- **The graph builder** (`graph_builder.dfy`, with `workflow.dfy`). The `GraphBuilder`
  class is modelled with its fields:
  - validating the selected use case;
  - creating the nodes lazily;
  - the three build methods;
  - the dispatch in `setup_graph`.

  langgraph's `StateGraph` becomes a plain class holding a node set and an edge list. About
  the three fixed topologies, the model proves:
  - they are acyclic;
  - every node is reachable from `START` and reaches `END`;
  - only the aggregator node has more than one predecessor;
  - every state field a node reads is written by one of its predecessors.
- **The provider base class** (`base_llm.dfy`):
  - the three-source API key lookup;
  - the requirements check that accumulates error messages.
- **The UI configuration** (`ui_config.dfy`): the five comma-separated option-list getters
  and the page title, over an abstract model of a parsed INI file.

Shared pieces:
- `results.dfy`: the Python exceptions raised, and the `Result`/`Outcome` shapes that stand
  in for `raise`.
- `state.dfy`: the `BlogState` keys.
- `strings.dfy`: the Python string operations used (`split`, `join`, `strip`, `split()`,
  `find`, `rfind`, `in`).

Python's `or` over strings, `str.isspace` and `re`'s `\w` and `\s` are written out
explicitly. `\s` is the list of characters `str.isspace` accepts. `\w` is ASCII letters,
digits and `_`.

What the code does is modelled, including where it differs from what one would expect:
- `_format_blog` strips any first line starting with `#`, subheadings such as `## H`
  included.
- All three build methods report a failure as "Failed to build blog generator graph".
- The `youtu.be` test runs before the URL is parsed. See "## Findings".

In three places the environment becomes a parameter:
- `os.getenv` is an `env` map and `st.session_state` a `session` map in `GetApiKey`.
- The transcript service is a `fetch` function given to `GetTranscript`.
- The parsed INI file is a `Config` value.

## Model

| member | source | states |
|---|---|---|
| TranscriptNode.ShortLinkId | src/youtube_assistant/nodes/get_transcript_node.py:37 | the id holds neither `/` nor `?`; it is the slice of the URL that starts right after the last `/` (or at 0) and ends at the first `?` after that point or at the end |
| TranscriptNode.ShortLinkIdOf | src/youtube_assistant/nodes/get_transcript_node.py:37 | for `head/ID` followed by nothing or by `?...` with no `/`, the short-link rule gives exactly `ID` |
| TranscriptNode.ShortLinkIdBeforeQuery | src/youtube_assistant/nodes/get_transcript_node.py:37 | `head/seg?query` with no `/` in the query gives `seg` |
| TranscriptNode.ExtractVideoId | src/youtube_assistant/nodes/get_transcript_node.py:17-52 | as written: an empty URL fails with the "missing" message. A URL containing `youtu.be` anywhere takes the short-link rule. Otherwise the parsed URL decides. Every failure is a `ValueError` prefixed "Failed to extract video ID: " |
| TranscriptNode.ShortRuleApplies | src/youtube_assistant/nodes/get_transcript_node.py:36-37 | every URL containing `youtu.be` is answered by the short-link rule |
| TranscriptNode.ShortLinkYieldsId | src/youtube_assistant/nodes/get_transcript_node.py:36-37 | `head/ID` or `head/ID?query`, where `head` mentions `youtu.be`, yields `ID` |
| TranscriptNode.LongLinkId | src/youtube_assistant/nodes/get_transcript_node.py:39-46 | over the simplified parse, which never fails, it succeeds exactly for a `youtube.com` netloc with `/watch`, `/embed/` or `/v/` in the path, where a `/watch` link must also carry a non-empty `v`. A watch id is non-empty and holds no `&`. An embed id holds no `/`, and `/`+id occurs in the path. Failures are `ValueError`s with the extraction prefix |
| TranscriptNode.WatchLinkId | src/youtube_assistant/nodes/get_transcript_node.py:42 | `parse_qs(query)['v'][0]`: the first non-empty `v` value. Without one it is the rewrapped `KeyError('v')`, as `ValueError("Failed to extract video ID: 'v'")` |
| TranscriptNode.WatchRule | src/youtube_assistant/nodes/get_transcript_node.py:40-42 | a `youtube.com` netloc with `/watch` in the path is answered by the `v` parameter |
| TranscriptNode.EmbedRule | src/youtube_assistant/nodes/get_transcript_node.py:43-44 | a `youtube.com` netloc whose path, without `/watch`, contains `/embed/` or `/v/` is answered by the last path segment |
| TranscriptNode.ExtractVideoIdFixed | src/youtube_assistant/nodes/get_transcript_node.py:17-52 | corrected precedence: a `youtube.com` long link is read as one even when `youtu.be` occurs in it. On every other URL it agrees with the code as written. The error shape is the same |
| TranscriptNode.FixedShortRuleApplies | src/youtube_assistant/nodes/get_transcript_node.py:36-37 | when the netloc is not `youtube.com`, the corrected extractor agrees with the original on `youtu.be` URLs |
| TranscriptNode.ShortLinkYieldsIdFixed | src/youtube_assistant/nodes/get_transcript_node.py:36-37 | `scheme://host/ID[?query]`, with `host` mentioning `youtu.be` but not `youtube.com`, yields `ID` |
| TranscriptNode.FixedLongRuleApplies | src/youtube_assistant/nodes/get_transcript_node.py:39-44 | a long link is answered by the `youtube.com` rules |
| TranscriptNode.WatchLinkYieldsV | src/youtube_assistant/nodes/get_transcript_node.py:40-42 | `scheme://host/...watch...?query` on a `youtube.com` host gives the `v` parameter of the query, with the `KeyError` path when it is missing |
| TranscriptNode.EmbedLinkYieldsLastSegment | src/youtube_assistant/nodes/get_transcript_node.py:43-44 | an `/embed/` or `/v/` link on a `youtube.com` host gives the last segment of its path |
| TranscriptNode.SharedWatchLinkMisread | src/youtube_assistant/nodes/get_transcript_node.py:36-37 | as written, `head/seg?query` whose query mentions `youtu.be` yields `seg`. So `https://www.youtube.com/watch?v=abc&feature=youtu.be` yields `watch` |
| TranscriptNode.SharedWatchLinkFixed | src/youtube_assistant/nodes/get_transcript_node.py:40-42 | the corrected extractor yields the `v` value of those same links |
| TranscriptNode.NetlocOf | src/youtube_assistant/nodes/get_transcript_node.py:39-40 | what `urlparse` reports as the netloc of `scheme://host...` is `host` |
| TranscriptNode.ShortUrlNetloc | src/youtube_assistant/nodes/get_transcript_node.py:39-40 | the netloc of `scheme://host/ID...` is `host` |
| TranscriptNode.ShortUrlMentionsHost | src/youtube_assistant/nodes/get_transcript_node.py:36 | a URL whose head mentions `youtu.be` still contains it after `/ID` and a tail are appended |
| Urls.SplitScheme | src/youtube_assistant/nodes/get_transcript_node.py:39 | the scheme holds no `:`. Without a scheme the rest is the whole string. With one, the string is scheme, `:`, rest |
| Urls.SplitAuthority | src/youtube_assistant/nodes/get_transcript_node.py:39 | after `//`, the authority holds none of `/?#`, and the rest is empty or starts with one of them. Without `//` there is no authority |
| Urls.SplitOnce | src/youtube_assistant/nodes/get_transcript_node.py:39 | the part before the first separator holds none. Splitting at it reassembles the string. Without a separator the second part is empty |
| Urls.SplitOnceKeepsOut | src/youtube_assistant/nodes/get_transcript_node.py:39 | neither side of a split holds a character absent from the whole |
| Urls.Parse | src/youtube_assistant/nodes/get_transcript_node.py:39 | the netloc holds none of `/?#`, the path holds no `?` or `#`, and the query no `#` |
| Urls.SchemeOf | src/youtube_assistant/nodes/get_transcript_node.py:39 | a well-formed scheme before `:` is split off exactly |
| Urls.AuthorityOf | src/youtube_assistant/nodes/get_transcript_node.py:39 | `//host` followed by `/`, `?`, `#` or nothing splits into `host` and the tail |
| Urls.SplitOnceAt | src/youtube_assistant/nodes/get_transcript_node.py:39 | splitting `a + sep + b`, with `sep` not in `a`, gives `(a, b)` |
| Urls.ParseStages | src/youtube_assistant/nodes/get_transcript_node.py:39 | the parse is the composition of its stages: scheme, authority, fragment, query |
| Urls.ParseAssembled | src/youtube_assistant/nodes/get_transcript_node.py:39 | parsing undoes assembly: `scheme://host/path?query` parses back into exactly those parts with no fragment |
| Urls.FirstValueAmong | src/youtube_assistant/nodes/get_transcript_node.py:42 | `None` exactly when no field binds the name. Otherwise it is the value of the first binding field |
| Urls.FirstQueryValue | src/youtube_assistant/nodes/get_transcript_node.py:42 | a value found is non-empty and holds no `&` |
| Urls.FirstQueryValueLeading | src/youtube_assistant/nodes/get_transcript_node.py:42 | a leading `name=value` supplies the value, whatever follows |
| TranscriptNode.NewlineRunEnd | src/youtube_assistant/nodes/get_transcript_node.py:68 | the greedy reach of `\s*\n`: the longest all-whitespace prefix ending in a newline. No longer all-whitespace prefix ends in one |
| TranscriptNode.CollapseBlankLines | src/youtube_assistant/nodes/get_transcript_node.py:68 | text without a newline is unchanged. With `CollapseOneMatch`, the output is fixed on every string |
| TranscriptNode.CollapseOneMatch | src/youtube_assistant/nodes/get_transcript_node.py:68 | one match: a newline, then whitespace reaching a further newline (or nothing), with no newline across whitespace in the rest, becomes one `\n` followed by the collapse of the rest |
| TranscriptNode.RunEndOfGap | src/youtube_assistant/nodes/get_transcript_node.py:68 | the greedy `\s*\n` reaches exactly through such a whitespace gap |
| TranscriptNode.NoRunWithoutLeadingNewline | src/youtube_assistant/nodes/get_transcript_node.py:68 | text with no newline across its leading whitespace gives `\s*\n` no match |
| TranscriptNode.CollapseLeavesNoBlankLine | src/youtube_assistant/nodes/get_transcript_node.py:68 | after the collapse, every two newlines have a non-space character between them: nothing `\n\s*\n` matches is left |
| TranscriptNode.CollapseRestNoLeadingNewline | src/youtube_assistant/nodes/get_transcript_node.py:68 | past the whitespace a match swallows, no newline follows before other text, because `\s*\n` is greedy |
| TranscriptNode.CollapseKeepsNoLeadingNewline | src/youtube_assistant/nodes/get_transcript_node.py:68 | collapsing keeps text free of a newline reached across leading whitespace alone |
| TranscriptNode.NoBlankLineCons | src/youtube_assistant/nodes/get_transcript_node.py:68 | a character in front keeps text free of blank lines, where a newline is not followed by a newline across whitespace alone |
| TranscriptNode.CollapseKeepsWords | src/youtube_assistant/nodes/get_transcript_node.py:68 | collapsing replaces whitespace by whitespace only: the text's words, and its first word, are unchanged |
| TranscriptNode.DropSpecial | src/youtube_assistant/nodes/get_transcript_node.py:70 | every character left is in `[\w\s.,!?-]`. Text made only of such characters is unchanged |
| TranscriptNode.DropSpecialConcat | src/youtube_assistant/nodes/get_transcript_node.py:70 | the removal works character by character: dropping from `a + b` is dropping from `a`, then from `b` |
| TranscriptNode.DropSpecialChar | src/youtube_assistant/nodes/get_transcript_node.py:70 | one character is kept exactly when it is in the class. With DropSpecialConcat this fixes the result for every input |
| TranscriptNode.DropSymbol | src/youtube_assistant/nodes/get_transcript_node.py:70 | a character outside the class between text made of kept characters is all that goes |
| TranscriptNode.NormalizeSpace | src/youtube_assistant/nodes/get_transcript_node.py:72 | the result has no tab or newline, and no leading, trailing or doubled space. With `NormalizeKeepsWords`, this determines the result |
| TranscriptNode.NormalizeKeepsWords | src/youtube_assistant/nodes/get_transcript_node.py:72 | the result's words are exactly the input's words, in order. Single-spaced text is fixed by its words |
| TranscriptNode.NormalizeSingleSpaced | src/youtube_assistant/nodes/get_transcript_node.py:72 | two words joined by one space are already normal |
| TranscriptNode.NormalizeKeepsVisibleChars | src/youtube_assistant/nodes/get_transcript_node.py:72 | normalising whitespace keeps every visible character, in order |
| TranscriptNode.CleanTranscriptText | src/youtube_assistant/nodes/get_transcript_node.py:54-73 | the result is clean: every character is a word character, a space or one of `.,!?-`, and it is single-spaced. It is empty exactly when the input has no visible character, which covers the empty input. CleanIsNormalizedDrop gives its content |
| TranscriptNode.CleanIsNormalizedDrop | src/youtube_assistant/nodes/get_transcript_node.py:64-73 | cleaning equals removing the characters outside the class and then normalising whitespace: the blank-line pass never changes the result |
| TranscriptNode.DropCollapseSameWords | src/youtube_assistant/nodes/get_transcript_node.py:68-70 | collapsing blank lines before the removal leaves the same words as the removal alone |
| TranscriptNode.DropNewlineStep | src/youtube_assistant/nodes/get_transcript_node.py:68-70 | the step of that proof for a newline and the whitespace the collapse replaces |
| TranscriptNode.DropConsStep | src/youtube_assistant/nodes/get_transcript_node.py:68-70 | the step of that proof for any other character |
| TranscriptNode.ConsSameWords | src/youtube_assistant/nodes/get_transcript_node.py:72 | a character in front of two strings with the same words and first word keeps them so |
| TranscriptNode.CollapseNewline | src/youtube_assistant/nodes/get_transcript_node.py:68 | a newline and the whitespace the collapse swallows after it become one newline |
| TranscriptNode.CleanKeepsVisibleChars | src/youtube_assistant/nodes/get_transcript_node.py:64-73 | the non-space characters of the cleaned text are exactly the visible characters of the input, in their order |
| TranscriptNode.CleanDropsSymbol | src/youtube_assistant/nodes/get_transcript_node.py:64-73 | `a + " " + [c] + b`, with words `a` and `b` and `c` outside the class, cleans to `a + " " + b`. For example, `"Hello @world"` cleans to `"Hello world"` |
| TranscriptNode.VisibleChars | src/youtube_assistant/nodes/get_transcript_node.py:70 | the visible characters of a string, in order: every one is visible, and there are no more of them than characters |
| TranscriptNode.VisibleCharsConcat | src/youtube_assistant/nodes/get_transcript_node.py:70 | the visible characters of `a + b` are those of `a`, then those of `b` |
| TranscriptNode.VisibleCharsOfSpace | src/youtube_assistant/nodes/get_transcript_node.py:72 | whitespace has no visible character |
| TranscriptNode.VisibleCharsOfSpaced | src/youtube_assistant/nodes/get_transcript_node.py:72 | words spaced out by whitespace gaps have exactly the words' visible characters |
| TranscriptNode.VisibleCharsOfJoin | src/youtube_assistant/nodes/get_transcript_node.py:72 | words joined by spaces have exactly the words' visible characters |
| TranscriptNode.DropKeepsVisibleChars | src/youtube_assistant/nodes/get_transcript_node.py:70 | the removal keeps every visible character, in order |
| TranscriptNode.AllSpaceConcat | src/youtube_assistant/nodes/get_transcript_node.py:68 | a concatenation is all whitespace exactly when both parts are |
| TranscriptNode.CollapseKeepsVisible | src/youtube_assistant/nodes/get_transcript_node.py:68 | collapsing blank lines removes and inserts only whitespace: a visible character is present before exactly when it is present after |
| TranscriptNode.DropKeepsVisible | src/youtube_assistant/nodes/get_transcript_node.py:70 | dropping special characters keeps visibility in both directions |
| TranscriptNode.VisibleConcat | src/youtube_assistant/nodes/get_transcript_node.py:68 | a concatenation has a visible character exactly when one of its parts does |
| TranscriptNode.CleanEmptyExactly | src/youtube_assistant/nodes/get_transcript_node.py:64-73 | for non-empty input, the joined words are empty exactly when no visible character was present |
| TranscriptNode.CleanKeepsCleanText | src/youtube_assistant/nodes/get_transcript_node.py:64-73 | clean text is a fixed point of cleaning |
| TranscriptNode.CleanIdempotent | src/youtube_assistant/nodes/get_transcript_node.py:64-73 | cleaning twice is cleaning once |
| TranscriptNode.CaptionLines | src/youtube_assistant/nodes/get_transcript_node.py:104-106 | at most one line per caption. Each line is stripped: empty, or non-space at both ends |
| TranscriptNode.CaptionLinesOne | src/youtube_assistant/nodes/get_transcript_node.py:104-106 | one caption gives its stripped text when it has text, and nothing otherwise. With CaptionLinesConcat this fixes the lines of every caption list |
| TranscriptNode.CaptionLinesConcat | src/youtube_assistant/nodes/get_transcript_node.py:104-106 | the lines of concatenated caption lists are the concatenated lines, so order is kept |
| TranscriptNode.CaptionWithoutTextSkipped | src/youtube_assistant/nodes/get_transcript_node.py:104-106 | a caption with no or empty text contributes nothing to the joined transcript |
| TranscriptNode.JoinCaptionsSplits | src/youtube_assistant/nodes/get_transcript_node.py:104 | when no line holds a newline, the joined transcript splits back at its newlines into exactly the caption lines |
| TranscriptNode.GetTranscript | src/youtube_assistant/nodes/get_transcript_node.py:75-142 | it succeeds exactly when four things hold: the state has a non-empty URL, the id extracts, the service returns captions, and their joined text has a visible character. A success holds only `youtube_transcript`, non-empty, clean and equal to the cleaned joined captions. A missing URL fails before extraction. Every failure is a `RuntimeError` prefixed "Transcript extraction process failed: " |
| TranscriptNode.GetTranscriptFailures | src/youtube_assistant/nodes/get_transcript_node.py:110-142 | the exact message of each failure: the extraction error, each answer of the service, and the empty-transcript case wrapped by both handlers |
| Strings.IndexOf | src/youtube_assistant/nodes/get_transcript_node.py:37 | the position of the first occurrence, or the length when there is none; no earlier occurrence |
| Strings.LastIndexOf | src/youtube_assistant/nodes/get_transcript_node.py:37 | the position of the last occurrence, or -1; no later occurrence |
| Strings.Split | src/youtube_assistant/ui/uiconfigfile.py:25 | `s.split(sep)` has at least one piece and no piece holds the separator |
| Strings.SplitAt | src/youtube_assistant/ui/uiconfigfile.py:25 | `a + sep + b`, with `sep` not in `a`, splits into `a` followed by the pieces of `b` |
| Strings.SplitNone | src/youtube_assistant/ui/uiconfigfile.py:25 | a string without the separator is its own only piece |
| Strings.JoinSplit | src/youtube_assistant/nodes/aggregator_node.py:31-34 | joining the pieces with the separator gives the string back |
| Strings.SplitJoin | src/youtube_assistant/nodes/get_transcript_node.py:104 | splitting a join of separator-free pieces gives the pieces back |
| Strings.SplitCount | src/youtube_assistant/ui/uiconfigfile.py:25 | there is one piece more than there are separators |
| Strings.FirstPart | src/youtube_assistant/nodes/get_transcript_node.py:37 | `split(sep)[0]`: a separator-free prefix followed by the end or a separator |
| Strings.LastPart | src/youtube_assistant/nodes/get_transcript_node.py:37 | a separator-free suffix that is all of `s` or follows a separator |
| Strings.LastPartUnique | src/youtube_assistant/nodes/get_transcript_node.py:37 | there is only one such suffix |
| Strings.LastPartOfSplit | src/youtube_assistant/nodes/get_transcript_node.py:37 | `LastPart` is `s.split(sep)[-1]` |
| Strings.LastPartAfterSep | src/youtube_assistant/nodes/get_transcript_node.py:44 | where `s` has a separator, the separator followed by the last part occurs in `s` |
| Strings.LastPartAfter | src/youtube_assistant/nodes/get_transcript_node.py:37 | the last part of `a + sep + b`, with no separator in `b`, is `b` |
| Strings.FirstPartBefore | src/youtube_assistant/nodes/get_transcript_node.py:37 | the first part of `a + sep + b`, with no separator in `a`, is `a` |
| Strings.LeadingSpace | src/youtube_assistant/ui/uiconfigfile.py:25 | the length of the maximal whitespace prefix |
| Strings.TrailingSpace | src/youtube_assistant/ui/uiconfigfile.py:25 | where the maximal whitespace suffix starts |
| Strings.Strip | src/youtube_assistant/ui/uiconfigfile.py:25 | the result is empty or non-space at both ends. A string already non-space at both ends is unchanged |
| Strings.StripSlice | src/youtube_assistant/ui/uiconfigfile.py:25 | the result of `Strip` is a slice of `s` with only whitespace before and after it. With Strip's ends, exactly the surrounding whitespace goes |
| Strings.StripEmpty | src/youtube_assistant/nodes/aggregator_node.py:73 | `s.strip()` is empty exactly when `s` is all whitespace |
| Strings.Word | src/youtube_assistant/nodes/get_transcript_node.py:72 | a whitespace-free prefix, followed by the end or by whitespace |
| Strings.Words | src/youtube_assistant/nodes/get_transcript_node.py:72 | every piece of `s.split()` is a non-empty, whitespace-free word. WordsGaps and WordsOfSpaced say which ones |
| Strings.WordsGaps | src/youtube_assistant/nodes/get_transcript_node.py:72 | every string is its words, in order, with whitespace gaps around them; the gaps between two words are non-empty |
| Strings.WordsOfSpaced | src/youtube_assistant/nodes/get_transcript_node.py:72 | conversely, any words spaced out that way are exactly the words `split()` finds, in order |
| Strings.WordsOfJoin | src/youtube_assistant/nodes/get_transcript_node.py:72 | words joined by single spaces split back into those words |
| Strings.WordPrefix | src/youtube_assistant/nodes/get_transcript_node.py:72 | a whitespace-free prefix followed by the end or by whitespace is the first word |
| Strings.WordThenWords | src/youtube_assistant/nodes/get_transcript_node.py:72 | the words of a word followed by the end or by whitespace are that word, then the words of the rest |
| Strings.WordsSkipSpace | src/youtube_assistant/nodes/get_transcript_node.py:72 | leading whitespace contributes no word |
| Strings.WordsCons | src/youtube_assistant/nodes/get_transcript_node.py:72 | a space in front leaves the words alone. Any other character starts the first word, or joins it |
| Strings.GapLeads | src/youtube_assistant/nodes/get_transcript_node.py:72 | words spaced out with a non-empty first gap begin with whitespace |
| Strings.SpacedFirstGap | src/youtube_assistant/nodes/get_transcript_node.py:72 | lengthening the first gap adds text at the front |
| Strings.WordsEmpty | src/youtube_assistant/nodes/get_transcript_node.py:72 | a string has no words exactly when it is all whitespace |
| Strings.JoinWordsSingleSpaced | src/youtube_assistant/nodes/get_transcript_node.py:72 | words joined with single spaces are single-spaced text |
| Strings.JoinWordsOfSingleSpaced | src/youtube_assistant/nodes/get_transcript_node.py:72 | splitting single-spaced text into words and joining them with spaces gives it back |
| Strings.JoinWordsEmpty | src/youtube_assistant/nodes/get_transcript_node.py:72 | a join of words is empty exactly when there are no words |
| Strings.WordsKeep | src/youtube_assistant/nodes/get_transcript_node.py:72 | a property of every character of `s` holds of every character of its words |
| Strings.JoinKeeps | src/youtube_assistant/nodes/get_transcript_node.py:72 | a character property of every piece and of the separator holds of the join |
| BlogAggregator.FormatBlog | src/youtube_assistant/nodes/aggregator_node.py:18-41 | the final blog begins with `"# " + title + "\n\n"`. Its length is the title's plus the remaining content's, plus 2 when that content opens with `\n\n` and plus 4 otherwise |
| BlogAggregator.AfterFirstLine | src/youtube_assistant/nodes/aggregator_node.py:30-34 | reference reading of "drop the first line": the string is its first line, `\n`, then the result. With no newline it is empty |
| BlogAggregator.TitleLineCheckPasses | src/youtube_assistant/nodes/aggregator_node.py:33 | for content starting with `#`, the inner first-line check always passes |
| BlogAggregator.TitleLineDropped | src/youtube_assistant/nodes/aggregator_node.py:30-34 | content starting with `#` loses exactly everything through its first newline, at any heading level. Without a newline it becomes empty |
| BlogAggregator.PlainContentKept | src/youtube_assistant/nodes/aggregator_node.py:30 | content not starting with `#` is not touched |
| BlogAggregator.PlainContentIsSuffix | src/youtube_assistant/nodes/aggregator_node.py:30-41 | content not starting with `#` is the verbatim tail of the final blog |
| BlogAggregator.SeparatorAdded | src/youtube_assistant/nodes/aggregator_node.py:37-39 | a body not opening with `\n\n` gets the header and separator in front |
| BlogAggregator.SeparatorOmitted | src/youtube_assistant/nodes/aggregator_node.py:40-41 | a body opening with `\n\n` gets only `"# " + title` in front |
| BlogAggregator.BlankLineNotDoubled | src/youtube_assistant/nodes/aggregator_node.py:37-41 | content opening with a blank line is appended to `"# " + title` as it is |
| BlogAggregator.HeadingLineDropped | src/youtube_assistant/nodes/aggregator_node.py:30-34 | a `#` line, its newline and nothing more are removed from `heading\nrest` |
| BlogAggregator.AfterHeadingLine | src/youtube_assistant/nodes/aggregator_node.py:31-34 | what follows the first line of `line\nrest` is `rest` |
| BlogAggregator.HeadingLineReplaced | src/youtube_assistant/nodes/aggregator_node.py:30-39 | a heading line, subheadings included, is replaced by the header |
| BlogAggregator.LoneHeadingLeavesHeader | src/youtube_assistant/nodes/aggregator_node.py:30-39 | content that is one `#` line formats to the header alone |
| BlogAggregator.SubheadingExample | src/youtube_assistant/nodes/aggregator_node.py:30-39 | `_format_blog("T", "## H\nBody")` is `"# T\n\nBody"` |
| BlogAggregator.FinalBlogNotBlank | src/youtube_assistant/nodes/aggregator_node.py:73-76 | a formatted blog never strips to empty, so the "final blog is empty" error cannot fire |
| BlogAggregator.AggregateBlog | src/youtube_assistant/nodes/aggregator_node.py:43-84 | succeeds exactly when title and content are both present and non-empty. The update is then exactly `{final_blog: _format_blog(title, content)}`. A missing title and a missing content give their own messages, in that order of checking. Every failure is a `RuntimeError` prefixed "Failed to aggregate blog: " |
| Workflow.StateGraph.constructor | src/youtube_assistant/graph/graph_builder.py:31 | a new graph has no nodes and no edges |
| Workflow.StateGraph.AddNode | src/youtube_assistant/graph/graph_builder.py:117 | adds the node and leaves the edges as they were |
| Workflow.StateGraph.AddEdge | src/youtube_assistant/graph/graph_builder.py:123 | appends the edge and leaves the nodes as they were |
| Workflow.StateGraph.Compile | src/youtube_assistant/graph/graph_builder.py:206 | the compiled graph has the builder's nodes and edges |
| Workflow.EdgeReaches | src/youtube_assistant/graph/graph_builder.py:123-128 | an edge is a walk |
| Workflow.ReachesTrans | src/youtube_assistant/graph/graph_builder.py:123-128 | walks that meet join into one |
| Workflow.PathClimbs | src/youtube_assistant/graph/graph_builder.py:123-128 | along a walk in a graph whose edges climb a numbering, the number climbs strictly |
| Workflow.RankedIsAcyclic | src/youtube_assistant/graph/graph_builder.py:123-128 | such a graph has no cycle |
| GraphBuilding.NamesDiffer | src/youtube_assistant/graph/graph_builder.py:56-60 | the three use-case strings are distinct |
| GraphBuilding.ValidateUserInput | src/youtube_assistant/graph/graph_builder.py:37-71 | passes exactly when `selected_usecase` is present and one of the three strings. Empty input and a missing key give their own messages. Every failure is a `ValueError` prefixed "User input validation failed: " |
| GraphBuilding.Dispatch | src/youtube_assistant/graph/graph_builder.py:189-197 | `usecase_mapping.get` finds a build method exactly for the three strings, and the one for the use case named |
| GraphBuilding.ValidatedInputDispatches | src/youtube_assistant/graph/graph_builder.py:195-202 | validation passes exactly when the dispatch finds a build method, for the string the input holds, so "No graph builder found" is unreachable |
| GraphBuilding.NodeOwner | src/youtube_assistant/graph/graph_builder.py:79-92 | the transcript node belongs to every use case. Title, content and aggregator belong exactly to the blog, the summarizer exactly to the summary, the notes node exactly to the notes |
| GraphBuilding.BlogWiring | src/youtube_assistant/graph/graph_builder.py:117-128 | the four `add_node` and six `add_edge` calls of the blog build add exactly the blog's node set and, in order, its edge list |
| GraphBuilding.ChainWiring | src/youtube_assistant/graph/graph_builder.py:144-149 | the two `add_node` and three `add_edge` calls of a chain build add exactly its node set and edge list |
| GraphBuilding.TopologyWellFormed | src/youtube_assistant/graph/graph_builder.py:117-170 | every edge joins vertices of the graph; none enters `START` or leaves `END` |
| GraphBuilding.TopologyRanked | src/youtube_assistant/graph/graph_builder.py:123-170 | every edge of each topology goes one level deeper |
| GraphBuilding.TopologyAcyclic | src/youtube_assistant/graph/graph_builder.py:123-170 | every built graph is acyclic |
| GraphBuilding.BlogEdges | src/youtube_assistant/graph/graph_builder.py:123-128 | the blog graph has its six edges |
| GraphBuilding.BlogConnected | src/youtube_assistant/graph/graph_builder.py:123-128 | every blog node is reachable from `START` and reaches `END` |
| GraphBuilding.ChainConnected | src/youtube_assistant/graph/graph_builder.py:147-170 | the same for the summary and notes chains |
| GraphBuilding.TopologyConnected | src/youtube_assistant/graph/graph_builder.py:123-170 | every node of every topology lies on a walk from `START` to `END` |
| GraphBuilding.TopologyFanIn | src/youtube_assistant/graph/graph_builder.py:123-170 | every node other than the aggregator has exactly one predecessor. The aggregator has exactly the title and content nodes |
| GraphBuilding.BlogFanIn | src/youtube_assistant/graph/graph_builder.py:123-128 | the predecessor sets of the four blog nodes |
| GraphBuilding.ChainFanIn | src/youtube_assistant/graph/graph_builder.py:147-170 | a chain has two nodes, each with its single predecessor |
| GraphBuilding.TopologyKeyFlow | src/youtube_assistant/graph/graph_builder.py:123-170 | every state field a node reads is written by one of its predecessors |
| GraphBuilding.TopologyOutput | src/youtube_assistant/graph/graph_builder.py:128 | `END` follows exactly one node, which writes the field the use case's result page shows |
| GraphBuilding.ConstructLlmNode | src/youtube_assistant/llm/llm.py:26 | creating a model-backed node fails exactly when `selected_llm` is missing, with the node's `RuntimeError` wrapping the `KeyError` |
| GraphBuilding.GraphBuilder.constructor | src/youtube_assistant/graph/graph_builder.py:23-32 | stores the input, an empty workflow, no nodes initialised and no node attributes |
| GraphBuilding.GraphBuilder.InitializeNodes | src/youtube_assistant/graph/graph_builder.py:73-100 | sets the transcript attribute, then the nodes of the selected use case and `nodes_initialized`. It fails exactly when a model-backed node cannot be created, keeping the transcript attribute and the flag. The builder invariant is kept |
| GraphBuilding.GraphBuilder.AddHeldNode | src/youtube_assistant/graph/graph_builder.py:117-120 | adding a node whose attribute is set adds it. Otherwise it raises `AttributeError` and adds nothing. Edges are unchanged |
| GraphBuilding.GraphBuilder.InitializeOnce | src/youtube_assistant/graph/graph_builder.py:113-114 | initialises only when not yet initialised; the attributes are unchanged when they already were |
| GraphBuilding.GraphBuilder.BuildBlogGraph | src/youtube_assistant/graph/graph_builder.py:102-134 | after lazy initialisation, adds exactly the blog's four nodes and six edges. A failed initialisation adds nothing and gives the rewrapped error. A builder of another use case fails on the first missing attribute after the transcript node |
| GraphBuilding.GraphBuilder.BuildNotesGraph | src/youtube_assistant/graph/graph_builder.py:136-155 | the same for the notes chain, with the "blog generator" message the code uses |
| GraphBuilding.GraphBuilder.BuildSummaryGraph | src/youtube_assistant/graph/graph_builder.py:157-176 | the same for the summary chain |
| GraphBuilding.GraphBuilder.SetupGraph | src/youtube_assistant/graph/graph_builder.py:178-215 | succeeds exactly when the nodes are initialised. It adds exactly the selected use case's nodes and edges, and from a fresh builder compiles to that topology. Failures are `RuntimeError`s prefixed "Failed to set up graph: " and leave the graph unchanged |
| GraphBuilding.NewGraphBuilder | src/youtube_assistant/graph/graph_builder.py:23-35 | building succeeds exactly when validation passes, and otherwise gives its error. A new builder is fresh and uninitialised |
| GraphBuilding.BuildWorkflow | src/youtube_assistant/main.py:75 | `GraphBuilder(user_input).setup_graph()` succeeds exactly for validated input with `selected_llm`. The result is the selected topology, which is acyclic, connected, well-formed and key-flow complete |
| BaseLlm.FirstTruthy | src/youtube_assistant/llm/base_llm.py:14 | a chain `a or b or ...` evaluates to its first non-empty operand, or to its last operand when all are empty. It is non-empty exactly when some operand is |
| BaseLlm.BaseLlmProvider.constructor | src/youtube_assistant/llm/base_llm.py:8-11 | stores the input, no client, no messages |
| BaseLlm.BaseLlmProvider.GetApiKey | src/youtube_assistant/llm/base_llm.py:13-15 | raises `KeyError(name)` exactly when the name is missing from the input, or when the session is consulted and lacks it. Otherwise the key is the `or` of user, environment and session values, with the last operand returned even when empty |
| BaseLlm.UserKeyWins | src/youtube_assistant/llm/base_llm.py:14 | a non-empty user value is returned without consulting the others |
| BaseLlm.EmptyKeyMeansAllEmpty | src/youtube_assistant/llm/base_llm.py:14 | an empty key means all three sources were empty |
| BaseLlm.BaseLlmProvider.ValidateRequirements | src/youtube_assistant/llm/base_llm.py:17-33 | returns true exactly when key and model are both non-empty. It appends the key message then the model message, for those missing. The old list is a prefix of the new one, and nothing is appended on success |
| BaseLlm.RequirementErrorsShape | src/youtube_assistant/llm/base_llm.py:25-31 | zero to two messages, none exactly when both are set, the key message first and the model message last |
| BaseLlm.MessagesNameTheirSubject | src/youtube_assistant/llm/base_llm.py:27-31 | each message embeds the name passed, verbatim |
| UiConfig.Setting | src/youtube_assistant/ui/uiconfigfile.py:24 | `config[section].get(key, fallback)`: a missing section raises `KeyError`. Otherwise it is the section's value, then `DEFAULT`'s, then the fallback |
| UiConfig.StripEach | src/youtube_assistant/ui/uiconfigfile.py:25 | one stripped element per piece, in order |
| UiConfig.ListSetting | src/youtube_assistant/ui/uiconfigfile.py:23-44 | the shared rule of the list getters: a missing section fails, otherwise the option list of the value |
| UiConfig.GetLlmOptions | src/youtube_assistant/ui/uiconfigfile.py:23-25 | `LLM_PROVIDERS`/`PROVIDERS` by the shared rule |
| UiConfig.GetGroqModelOptions | src/youtube_assistant/ui/uiconfigfile.py:27-29 | `GROQ`/`MODEL_OPTIONS` by the shared rule |
| UiConfig.GetOpenAiModelOptions | src/youtube_assistant/ui/uiconfigfile.py:31-33 | `OPENAI`/`MODEL_OPTIONS` by the shared rule |
| UiConfig.GetAnthropicModelOptions | src/youtube_assistant/ui/uiconfigfile.py:35-37 | `ANTHROPIC`/`MODEL_OPTIONS` by the shared rule |
| UiConfig.GetUseCaseOptions | src/youtube_assistant/ui/uiconfigfile.py:42-44 | `DEFAULT`/`USECASE_OPTIONS` by the shared rule, which cannot fail there |
| UiConfig.GetPageTitle | src/youtube_assistant/ui/uiconfigfile.py:39-40 | `PAGE_TITLE`, or "YouTube Assistant" when it is absent |
| UiConfig.MissingOptionGivesNoChoices | src/youtube_assistant/ui/uiconfigfile.py:24-25 | a missing option defaults to `""` and gives `[]` |
| UiConfig.OptionCount | src/youtube_assistant/ui/uiconfigfile.py:25 | a non-empty value gives one choice more than it has commas |
| UiConfig.OptionIsStrippedPiece | src/youtube_assistant/ui/uiconfigfile.py:25 | choice `i` is piece `i`, stripped |
| UiConfig.OptionsStripped | src/youtube_assistant/ui/uiconfigfile.py:25 | no choice has surrounding whitespace or holds a comma |
| UiConfig.StripInside | src/youtube_assistant/ui/uiconfigfile.py:25 | stripping introduces no character |
| UiConfig.JoinOptionsRoundTrip | src/youtube_assistant/ui/uiconfigfile.py:25 | joining the choices with `,` gives the value back when no piece had surrounding whitespace |
| UiConfig.EmptyPieceKept | src/youtube_assistant/ui/uiconfigfile.py:25 | `a,,b` gives `[a, "", b]`: an empty piece is kept |
| UiConfig.DoubleComma | src/youtube_assistant/ui/uiconfigfile.py:25 | two adjacent commas between comma-free ends split into three pieces |
| UiConfig.BlankValueGivesOneEmptyChoice | src/youtube_assistant/ui/uiconfigfile.py:25 | a blank value such as `"  "` gives `[""]` |

## Left out

- `st.error`, `st.code`, `st.spinner` and the other Streamlit calls inside the nodes are display only and have no effect on results. The Streamlit pages (`loadui.py`, `display_result.py`, `main.py` beyond the one `setup_graph` call) are not part of this model.
- `YouTubeTranscriptApi.get_transcript` is a network call. It is a `fetch` parameter returning captions or one of the four failures the node distinguishes.
- `os.getenv` and `st.session_state` are the `env` and `session` parameters of `GetApiKey`. The exact text of the `KeyError` that Streamlit's session state raises is not modelled; the model raises `KeyError(name)`.
- `BaseLlm.BaseLlmProvider.GetApiKey`: an unset environment variable, `None` in Python, is read as `""`. Both are falsy, so the `or` chain behaves identically in every case.
- `display_errors` and `get_llm_model` are left out: the first only displays, and the second is abstract and constructs third-party clients.
- The provider adapters and the four generation nodes are not part of this model. Only two of their features are:
  - the fields each node reads and writes, in `Workflow.NodeKind`;
  - the one way creating one fails, in `GraphBuilding.ConstructLlmNode`: `get_llm` catches every other exception and returns `None`, but indexes `selected_llm` outside its `try`.
- The `NotImplementedError` branch of `setup_graph` is left out. Nothing in the modelled code raises it, so `SetupGraph` always returns a graph or raises.
- langgraph's `compile()` checks and `invoke()`, including the parallel run of the blog branches, are library scheduling. Compiling is the static node and edge sets.
- langgraph rejects a node added twice, for example when a build method is called a second time. The plain node set here absorbs repeats instead.
- `ConfigParser` file reading, its error mapping (`uiconfigfile.py:4-21`) and `%` interpolation are file I/O and library detail. The INI file is an already-parsed `Config`, whose option names are stored lower-cased as `ConfigParser` does; the lower-casing itself is not modelled.
- In `urlparse` and `parse_qs`, the model leaves out:
  - percent-decoding;
  - `+` read as a space;
  - `;` parameters;
  - the clean-up `urlsplit` applies first: it strips leading C0 control characters and spaces, and deletes tab, carriage return and line feed wherever they occur. Trailing whitespace is kept.

  The model splits scheme, authority, path, query and fragment as RFC 3986 section 3 does. It takes the first non-empty `name=value` field of the query.
- `Urls.Parse` never fails. Python's `urlsplit` raises `ValueError`, which lines 48-52 rewrap as "Failed to extract video ID: ...", in three cases, none of them modelled:
  - a netloc with an unbalanced `[` or `]` ("Invalid IPv6 URL");
  - a bracketed host that is not a valid IPv6 or IPvFuture address;
  - a netloc that changes under NFKC normalisation into one holding `/`, `?`, `#`, `@` or `:`.

  For such URLs, for example `https://[www.youtube.com/embed/abc`, `TranscriptNode.ExtractVideoId` and `TranscriptNode.LongLinkId` succeed where Python raises. Their "succeeds exactly when" statements hold for the simplified parse only.
- `\w` is ASCII letters, digits and `_`; Python's Unicode letters and digits outside ASCII are left out. `\s` is exactly the set of characters Python's `str.isspace` accepts.
- TranscriptNode.GetTranscript: the node extracts the id with the corrected `ExtractVideoIdFixed`, not the `ExtractVideoId` that line 96 calls as written. The two can differ only on `youtube.com` long links that mention `youtu.be`, such as `https://www.youtube.com/watch?v=abc&feature=youtu.be`. On those the code fetches the id `watch` and the model fetches `abc`. On every other URL `ExtractVideoIdFixed`'s last ensures makes the two the same, so the node's result is the code's. See "## Findings".
- TranscriptNode.GetTranscriptFailures: its cases are conditioned on `ExtractVideoIdFixed`, for the same reason, and differ from the code only on those URLs.
- CleanTranscriptText: its own contract gives the shape of the result and when it is empty. Its content is in the lemmas CleanIsNormalizedDrop and CleanKeepsVisibleChars, not in the function's contract, because every caller of the function would then carry that proof.
- NormalizeSpace: its own contract gives the spacing of the result. That the words are kept is in the lemma NormalizeKeepsWords, for the same reason.
- Strip: its own contract gives the ends of the result. That the result is the slice of `s` between leading and trailing whitespace is in the lemma StripSlice, for the same reason.
- `_check_content_quality`, the commented-out graph cache in `main.py` and `template.py` are not live logic and are left out.

## Findings

| source | as written | input that shows it | evidently intended | confidence | as-written member | corrected member |
|---|---|---|---|---|---|---|
| src/youtube_assistant/nodes/get_transcript_node.py:36-37 | the `youtu.be` substring test runs on the whole URL before it is parsed, so any URL mentioning `youtu.be` anywhere takes the short-link rule | `https://www.youtube.com/watch?v=abc&feature=youtu.be`, which yields the id `watch` | a `youtube.com` watch or embed link is read by its own rule, so that URL yields `abc` | not executed | TranscriptNode.SharedWatchLinkMisread | TranscriptNode.SharedWatchLinkFixed |

The workflow node `TranscriptNode.GetTranscript` uses the corrected extractor
`TranscriptNode.ExtractVideoIdFixed`. `TranscriptNode.ExtractVideoId` keeps the code as
written.
