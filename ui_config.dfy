/** `Config`: the settings of the user interface, read from an INI file with `ConfigParser`
    and handed out as the option lists of the select boxes and the page title. */
module UiConfig {
  import opened Strings
  import opened Results

  /** A parsed INI file: the `DEFAULT` section and the named sections, each a map from
      option name to value. `ConfigParser` stores option names lower-cased. */
  datatype Config = Config(defaults: map<string, string>, sections: map<string, map<string, string>>)

  const DefaultSection := "DEFAULT"
  const LlmSection := "LLM_PROVIDERS"
  const GroqSection := "GROQ"
  const OpenAiSection := "OPENAI"
  const AnthropicSection := "ANTHROPIC"

  /** The option names the getters ask for (`PROVIDERS`, `MODEL_OPTIONS`,
      `USECASE_OPTIONS`, `PAGE_TITLE`), as `ConfigParser` lower-cases them. */
  const ProvidersKey := "providers"
  const ModelOptionsKey := "model_options"
  const UseCaseOptionsKey := "usecase_options"
  const PageTitleKey := "page_title"

  const DefaultPageTitle := "YouTube Assistant"

  /** `config[section].get(key, fallback)`: the section's own value, else the value in
      `DEFAULT`, else the fallback; a section that does not exist raises `KeyError`. */
  function Setting(c: Config, section: string, key: string, fallback: string): (r: Result<string>)
    ensures r.Err? <==> section != DefaultSection && section !in c.sections
    ensures r.Err? ==> r.error == KeyError(section)
    ensures r.Ok? && section != DefaultSection && key in c.sections[section] ==> r.value == c.sections[section][key]
    ensures r.Ok? && (section == DefaultSection || key !in c.sections[section]) ==>
      r.value == if key in c.defaults then c.defaults[key] else fallback
  {
    if section == DefaultSection then
      Ok(if key in c.defaults then c.defaults[key] else fallback)
    else if section !in c.sections then Err(KeyError(section))
    else if key in c.sections[section] then Ok(c.sections[section][key])
    else Ok(if key in c.defaults then c.defaults[key] else fallback)
  }

  /** Every element of `parts`, stripped. */
  function StripEach(parts: seq<string>): (r: seq<string>)
    ensures |r| == |parts|
    ensures forall i :: 0 <= i < |r| ==> r[i] == Strip(parts[i])
  {
    seq(|parts|, i requires 0 <= i < |parts| => Strip(parts[i]))
  }

  /** `[item.strip() for item in value.split(",")] if value else []`. */
  function OptionList(value: string): seq<string> {
    if value == "" then [] else StripEach(Split(value, ','))
  }

  /** The option list of `key` in `section`; a missing option reads as `""`. */
  function ListSetting(c: Config, section: string, key: string): (r: Result<seq<string>>)
    ensures r.Err? <==> section != DefaultSection && section !in c.sections
    ensures r.Ok? ==> r.value == OptionList(Setting(c, section, key, "").value)
  {
    var value := Setting(c, section, key, "");
    if value.Err? then Err(value.error) else Ok(OptionList(value.value))
  }

  /** `get_llm_options`. */
  function GetLlmOptions(c: Config): (r: Result<seq<string>>)
    ensures r.Err? <==> LlmSection !in c.sections
    ensures r.Ok? ==> r.value == OptionList(Setting(c, LlmSection, ProvidersKey, "").value)
  {
    ListSetting(c, LlmSection, ProvidersKey)
  }

  /** `get_groq_model_options`. */
  function GetGroqModelOptions(c: Config): (r: Result<seq<string>>)
    ensures r.Err? <==> GroqSection !in c.sections
    ensures r.Ok? ==> r.value == OptionList(Setting(c, GroqSection, ModelOptionsKey, "").value)
  {
    ListSetting(c, GroqSection, ModelOptionsKey)
  }

  /** `get_openai_model_options`. */
  function GetOpenAiModelOptions(c: Config): (r: Result<seq<string>>)
    ensures r.Err? <==> OpenAiSection !in c.sections
    ensures r.Ok? ==> r.value == OptionList(Setting(c, OpenAiSection, ModelOptionsKey, "").value)
  {
    ListSetting(c, OpenAiSection, ModelOptionsKey)
  }

  /** `get_anthropic_model_options`. */
  function GetAnthropicModelOptions(c: Config): (r: Result<seq<string>>)
    ensures r.Err? <==> AnthropicSection !in c.sections
    ensures r.Ok? ==> r.value == OptionList(Setting(c, AnthropicSection, ModelOptionsKey, "").value)
  {
    ListSetting(c, AnthropicSection, ModelOptionsKey)
  }

  /** `get_usecase_options`: read from `DEFAULT`, which always exists, so it never fails. */
  function GetUseCaseOptions(c: Config): (r: seq<string>)
    ensures r == OptionList(if UseCaseOptionsKey in c.defaults then c.defaults[UseCaseOptionsKey] else "")
  {
    ListSetting(c, DefaultSection, UseCaseOptionsKey).value
  }

  /** `get_page_title`: the `PAGE_TITLE` of `DEFAULT`, or "YouTube Assistant". */
  function GetPageTitle(c: Config): (r: string)
    ensures PageTitleKey !in c.defaults ==> r == DefaultPageTitle
    ensures PageTitleKey in c.defaults ==> r == c.defaults[PageTitleKey]
  {
    Setting(c, DefaultSection, PageTitleKey, DefaultPageTitle).value
  }

  /** A missing or empty option gives no choices. */
  lemma MissingOptionGivesNoChoices(c: Config, section: string, key: string)
    requires section in c.sections && key !in c.sections[section] && key !in c.defaults
    ensures ListSetting(c, section, key) == Ok([])
  {
  }

  /** A non-empty value gives one choice more than it has commas. */
  lemma OptionCount(value: string)
    requires value != ""
    ensures |OptionList(value)| == multiset(value)[','] + 1
  {
    SplitCount(value, ',');
  }

  /** The choices are the comma-separated pieces in order, each stripped. */
  lemma OptionIsStrippedPiece(value: string, i: nat)
    requires value != "" && i < |OptionList(value)|
    ensures i < |Split(value, ',')| && OptionList(value)[i] == Strip(Split(value, ',')[i])
  {
  }

  /** No choice starts or ends with whitespace, and none holds a comma; empty pieces
      stay as `""`. */
  lemma OptionsStripped(value: string, i: nat)
    requires value != "" && i < |OptionList(value)|
    ensures var o := OptionList(value)[i]; o == [] || (!IsSpace(o[0]) && !IsSpace(o[|o| - 1]))
    ensures ',' !in OptionList(value)[i]
  {
    OptionIsStrippedPiece(value, i);
    var piece := Split(value, ',')[i];
    StripInside(piece);
  }

  /** Stripping keeps a contiguous run of the characters. */
  lemma StripInside(s: string)
    ensures forall c :: c in Strip(s) ==> c in s
  {
    var n := LeadingSpace(s);
    var t := s[n..];
    var r := t[..TrailingSpace(t)];
    assert forall j :: 0 <= j < |r| ==> r[j] == t[j];
    assert forall j :: 0 <= j < |t| ==> t[j] == s[n + j];
  }

  /** Joining the choices with `,` gives the value back when no piece has surrounding
      whitespace. */
  lemma JoinOptionsRoundTrip(value: string)
    requires value != ""
    requires forall i :: 0 <= i < |Split(value, ',')| ==> Strip(Split(value, ',')[i]) == Split(value, ',')[i]
    ensures Join(OptionList(value), ",") == value
  {
    assert OptionList(value) == Split(value, ',');
    JoinSplit(value, ',');
  }

  /** Two commas in a row leave an empty choice between them: `"a,,b"` gives
      `["a", "", "b"]`, for any comma-free `a` and `b` without surrounding whitespace. */
  lemma EmptyPieceKept(a: string, b: string)
    requires a != [] && ',' !in a && !IsSpace(a[0]) && !IsSpace(a[|a| - 1])
    requires ',' !in b && (b == [] || (!IsSpace(b[0]) && !IsSpace(b[|b| - 1])))
    ensures OptionList(a + ",," + b) == [a, "", b]
  {
    var parts := [a, "", b];
    SplitDoubleComma(a, b);
    Unstripped(a);
    Unstripped(b);
    Unstripped("");
    assert forall i :: 0 <= i < |parts| ==> Strip(parts[i]) == parts[i];
    KeptPieces(a + ",," + b, parts);
  }

  /** The option list is the split value itself when every piece is already stripped. */
  lemma KeptPieces(value: string, parts: seq<string>)
    requires |value| > 0 && Split(value, ',') == parts
    requires forall i :: 0 <= i < |parts| ==> Strip(parts[i]) == parts[i]
    ensures OptionList(value) == parts
  {
    StripEachKeeps(parts);
  }

  lemma SplitDoubleComma(a: string, b: string)
    requires ',' !in a && ',' !in b
    ensures Split(a + ",," + b, ',') == [a, "", b]
  {
    CommaPair(a, b);
    DoubleComma(a, b);
  }

  /** A string without surrounding whitespace is its own strip. */
  lemma Unstripped(s: string)
    requires s == [] || (!IsSpace(s[0]) && !IsSpace(s[|s| - 1]))
    ensures Strip(s) == s
  {
  }

  lemma StripEachKeeps(parts: seq<string>)
    requires forall i :: 0 <= i < |parts| ==> Strip(parts[i]) == parts[i]
    ensures StripEach(parts) == parts
  {
  }

  lemma CommaPair(a: string, b: string)
    ensures a + ",," + b == a + [','] + ("" + [','] + b)
  {
    assert ",," == [','] + [','];
    assert a + ",," + b == a + ([','] + ([','] + b));
  }

  /** Two adjacent commas between comma-free ends split into three pieces. */
  lemma DoubleComma(a: string, b: string)
    requires ',' !in a && ',' !in b
    ensures Split(a + [','] + ("" + [','] + b), ',') == [a, "", b]
  {
    SplitAt("", b, ',');
    SplitNone(b, ',');
    SplitAt(a, "" + [','] + b, ',');
  }

  /** A value of blanks, such as `"  "`, gives one empty choice. */
  lemma BlankValueGivesOneEmptyChoice(value: string)
    requires value != "" && AllSpace(value)
    ensures OptionList(value) == [""]
  {
    assert ',' !in value by {
      assert forall i :: 0 <= i < |value| ==> IsSpace(value[i]);
    }
    SplitNone(value, ',');
  }
}
