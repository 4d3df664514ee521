/** `BlogAggregatorNode`: the fan-in node of the blog workflow, which puts the generated
    title and content together into the final markdown blog. */
module BlogAggregator {
  import opened Strings
  import opened Results
  import opened State

  const AggregateFailure := "Failed to aggregate blog: "
  const MissingTitle := "Blog title is missing"
  const MissingContent := "Blog content is missing"
  const EmptyBlog := "Generated final blog is empty"

  /** `line.startswith("# ") or line.startswith("#")`: a line that looks like a title. */
  predicate LooksLikeTitle(line: string) {
    StartsWith(line, "# ") || StartsWith(line, "#")
  }

  /** The content with a leading title line removed: when the content and its first
      line look like a title, the lines after the first, joined again by newlines. */
  function WithoutTitleLine(content: string): string {
    if LooksLikeTitle(content) then
      var lines := Split(content, '\n');
      if LooksLikeTitle(lines[0]) then Join(lines[1..], "\n") else content
    else content
  }

  /** The header every final blog opens with. */
  function Header(title: string): string {
    "# " + title + "\n\n"
  }

  /** `_format_blog`: the title as a level-one heading, a blank line unless the content
      already opens with one, then the content without its own title line. */
  function FormatBlog(title: string, content: string): (r: string)
    ensures StartsWith(r, Header(title))
    ensures |r| == |title| + |WithoutTitleLine(content)| + (if StartsWith(WithoutTitleLine(content), "\n\n") then 2 else 4)
  {
    var body := WithoutTitleLine(content);
    if !StartsWith(body, "\n\n") then
      "# " + title + "\n\n" + body
    else
      assert body == "\n\n" + body[2..];
      "# " + title + body
  }

  /** What follows the first newline of `s`, or nothing when it has none: the reference
      reading of "drop the first line". */
  function AfterFirstLine(s: string): (r: string)
    ensures '\n' in s ==> s == FirstPart(s, '\n') + "\n" + r
    ensures '\n' !in s ==> r == []
  {
    var i := IndexOf(s, '\n');
    if i < |s| then
      assert s == s[..i] + "\n" + s[i + 1..];
      s[i + 1..]
    else []
  }

  /** The first line of content that starts with `#` starts with `#` too, so the inner
      check of the title removal always passes. */
  lemma TitleLineCheckPasses(content: string)
    requires LooksLikeTitle(content)
    ensures LooksLikeTitle(Split(content, '\n')[0])
  {
    var first := FirstPart(content, '\n');
    assert content[0] == '#';
    assert content[0] != '\n';
    assert first[0] == content[0];
    assert first[..1] == "#";
  }

  /** Content that looks like a title loses everything through its first newline, for
      every heading level; content without a newline is dropped entirely. */
  lemma {:induction false} TitleLineDropped(content: string)
    requires LooksLikeTitle(content)
    ensures WithoutTitleLine(content) == AfterFirstLine(content)
  {
    TitleLineCheckPasses(content);
    var i := IndexOf(content, '\n');
    if i < |content| {
      var rest := content[i + 1..];
      assert Split(content, '\n')[1..] == Split(rest, '\n');
      JoinSplit(rest, '\n');
    } else {
      assert Split(content, '\n')[1..] == [];
    }
  }

  /** Content that does not start with `#` passes through untouched. */
  lemma PlainContentKept(content: string)
    requires !StartsWith(content, "#")
    ensures WithoutTitleLine(content) == content
  {
  }

  /** Content that does not start with `#` is the verbatim tail of the final blog. */
  lemma PlainContentIsSuffix(title: string, content: string)
    requires !StartsWith(content, "#")
    ensures var r := FormatBlog(title, content);
      |content| <= |r| && r[|r| - |content|..] == content
  {
    PlainContentKept(content);
    var r := FormatBlog(title, content);
    if !StartsWith(content, "\n\n") {
      assert r == Header(title) + content;
    } else {
      assert r == "# " + title + content;
    }
  }

  /** A body that does not open with a blank line gets the separator. */
  lemma SeparatorAdded(title: string, content: string)
    requires !StartsWith(WithoutTitleLine(content), "\n\n")
    ensures FormatBlog(title, content) == Header(title) + WithoutTitleLine(content)
  {
  }

  /** A body that already opens with a blank line is not given another. */
  lemma SeparatorOmitted(title: string, content: string)
    requires StartsWith(WithoutTitleLine(content), "\n\n")
    ensures FormatBlog(title, content) == "# " + title + WithoutTitleLine(content)
  {
  }

  /** The final blog is the header and the content, with the content's own leading blank
      line standing in for the separator: the blank line is never doubled. */
  lemma BlankLineNotDoubled(title: string, content: string)
    requires StartsWith(content, "\n\n")
    ensures FormatBlog(title, content) == "# " + title + content
  {
    assert content[..1][0] == '\n';
    PlainContentKept(content);
  }

  /** A heading line and its newline are replaced by the header, even a subheading:
      `FormatBlog(title, heading + "\n" + rest)` is the header followed by `rest`. */
  lemma HeadingLineReplaced(title: string, heading: string, rest: string)
    requires StartsWith(heading, "#") && '\n' !in heading
    requires !StartsWith(rest, "\n\n")
    ensures FormatBlog(title, heading + "\n" + rest) == Header(title) + rest
  {
    var content := heading + "\n" + rest;
    HeadingLineDropped(heading, rest);
    SeparatorAdded(title, content);
  }

  lemma HeadingLineDropped(heading: string, rest: string)
    requires StartsWith(heading, "#") && '\n' !in heading
    ensures WithoutTitleLine(heading + "\n" + rest) == rest
  {
    var content := heading + "\n" + rest;
    assert content[..1] == heading[..1];
    TitleLineDropped(content);
    AfterHeadingLine(heading, rest);
  }

  lemma AfterHeadingLine(line: string, rest: string)
    requires '\n' !in line
    ensures AfterFirstLine(line + "\n" + rest) == rest
  {
    var s := line + "\n" + rest;
    IndexOfAfter(line, "\n" + rest, '\n');
    assert s == line + ("\n" + rest);
    assert s[|line| + 1..] == rest;
  }

  /** A lone heading line leaves only the header. */
  lemma LoneHeadingLeavesHeader(title: string, heading: string)
    requires StartsWith(heading, "#") && '\n' !in heading
    ensures FormatBlog(title, heading) == Header(title)
  {
    TitleLineDropped(heading);
    assert WithoutTitleLine(heading) == [];
    SeparatorAdded(title, heading);
    assert Header(title) + [] == Header(title);
  }

  /** `_format_blog("T", "## H\nBody")` is `"# T\n\nBody"`: the subheading goes. */
  lemma SubheadingExample()
    ensures FormatBlog("T", "## H\nBody") == "# T\n\nBody"
  {
    assert StartsWith("## H", "#") && '\n' !in "## H" && !StartsWith("Body", "\n\n") by {
      assert "Body"[..2][0] == 'B';
    }
    assert "## H\nBody" == "## H" + "\n" + "Body";
    assert Header("T") + "Body" == "# T\n\nBody";
    HeadingLineReplaced("T", "## H", "Body");
  }

  /** A final blog always holds a character other than whitespace (its `#`), so the
      "empty final blog" check never fires. */
  lemma FinalBlogNotBlank(title: string, content: string)
    ensures Strip(FormatBlog(title, content)) != []
  {
    var r := FormatBlog(title, content);
    assert r[0] == Header(title)[0] == '#';
    StripEmpty(r);
  }

  /** `aggregate_blog_node`: the update holding the final blog, or the `RuntimeError` it
      raises. */
  function AggregateBlog(state: BlogState): (r: Result<BlogState>)
    ensures r.Ok? <==> Has(state, BlogTitle) && Has(state, BlogContent)
    ensures r.Ok? ==> r.value == map[FinalBlog := FormatBlog(state[BlogTitle], state[BlogContent])]
    ensures r.Err? ==> r.error.RuntimeError? && StartsWith(r.error.message, AggregateFailure)
    ensures !Has(state, BlogTitle) ==> r == Err(RuntimeError(AggregateFailure + MissingTitle))
    ensures Has(state, BlogTitle) && !Has(state, BlogContent) ==> r == Err(RuntimeError(AggregateFailure + MissingContent))
  {
    if !Has(state, BlogTitle) then Err(RuntimeError(AggregateFailure + ValueError(MissingTitle).Text()))
    else if !Has(state, BlogContent) then Err(RuntimeError(AggregateFailure + ValueError(MissingContent).Text()))
    else
      var finalBlog := FormatBlog(state[BlogTitle], state[BlogContent]);
      FinalBlogNotBlank(state[BlogTitle], state[BlogContent]);
      if Strip(finalBlog) == [] then Err(RuntimeError(AggregateFailure + ValueError(EmptyBlog).Text()))
      else Ok(map[FinalBlog := finalBlog])
  }
}
