/** `BaseLLMProvider`: what every model provider shares, namely finding the API key and
    collecting the messages that tell the user what is missing before a client is made. */
module BaseLlm {
  import opened Strings
  import opened Results

  /** The settings a provider hands to its chat client. */
  datatype ChatModel = ChatModel(apiKey: string, model: string)

  /** Python's `a or b`, for strings: `a` when it is non-empty, otherwise `b`. */
  function Or(a: string, b: string): string {
    if a != "" then a else b
  }

  /** The value a chain `v[0] or v[1] or ...` evaluates to: the first non-empty operand,
      or the last operand when all are empty. */
  function FirstTruthy(values: seq<string>): (r: string)
    requires |values| >= 1
    ensures r in values
    ensures r != "" <==> exists i :: 0 <= i < |values| && values[i] != ""
    ensures exists k ::
      0 <= k < |values| && r == values[k] && (forall j :: 0 <= j < k ==> values[j] == "")
      && (r == "" ==> k == |values| - 1)
    decreases |values|
  {
    if |values| == 1 || values[0] != "" then values[0]
    else
      var r := FirstTruthy(values[1..]);
      assert forall j :: 1 <= j < |values| ==> values[j] == values[1..][j - 1];
      r
  }

  /** The message asking for the API key named `apiKeyName`. */
  function KeyMessage(apiKeyName: string): string {
    "Please enter the " + apiKeyName + " API KEY."
  }

  /** The message asking for a model of the provider `modelName`. */
  function ModelMessage(modelName: string): string {
    "Please select a " + modelName + "."
  }

  /** The messages one requirements check adds: the key message when the key is empty,
      then the model message when the model is empty. */
  function RequirementErrors(apiKey: string, model: string, apiKeyName: string, modelName: string): seq<string> {
    (if apiKey == "" then [KeyMessage(apiKeyName)] else [])
    + (if model == "" then [ModelMessage(modelName)] else [])
  }

  class BaseLlmProvider {
    const userInput: map<string, string>
    var llm: Option<ChatModel>
    var errorMessages: seq<string>

    /** `__init__`: keeps the input, no client yet, no messages. */
    constructor(userInput: map<string, string>)
      ensures this.userInput == userInput && llm == None && errorMessages == []
    {
      this.userInput := userInput;
      llm := None;
      errorMessages := [];
    }

    /** `_get_api_key`: `user_input[name] or os.getenv(name) or st.session_state[name]`.
        The environment and the session are passed in; a name missing from the input, or
        from the session when the session is consulted, raises `KeyError`. */
    function GetApiKey(env: map<string, string>, session: map<string, string>, name: string): (r: Result<string>)
      ensures r.Err? <==>
        name !in userInput || (userInput[name] == "" && EnvValue(env, name) == "" && name !in session)
      ensures r.Err? ==> r.error == KeyError(name)
      ensures name in userInput && (userInput[name] != "" || EnvValue(env, name) != "") ==>
        r == Ok(FirstTruthy([userInput[name], EnvValue(env, name)]))
      ensures name in userInput && name in session ==>
        r == Ok(FirstTruthy([userInput[name], EnvValue(env, name), session[name]]))
    {
      if name !in userInput then Err(KeyError(name))
      else
        var fromUser := userInput[name];
        var fromEnv := EnvValue(env, name);
        if Or(fromUser, fromEnv) != "" then Ok(Or(fromUser, fromEnv))
        else if name !in session then Err(KeyError(name))
        else Ok(session[name])
    }

    /** `_validate_requirements`: whether both the key and the model are set, appending one
        message for each that is not. */
    method ValidateRequirements(apiKey: string, model: string, apiKeyName: string, modelName: string)
      returns (isValid: bool)
      modifies this`errorMessages
      ensures isValid <==> apiKey != "" && model != ""
      ensures errorMessages == old(errorMessages) + RequirementErrors(apiKey, model, apiKeyName, modelName)
      ensures old(errorMessages) <= errorMessages
      ensures isValid ==> errorMessages == old(errorMessages)
    {
      isValid := true;
      if apiKey == "" {
        isValid := false;
        errorMessages := errorMessages + [KeyMessage(apiKeyName)];
      }
      if model == "" {
        isValid := false;
        errorMessages := errorMessages + [ModelMessage(modelName)];
      }
    }
  }

  /** `os.getenv(name)` read as a string: an unset variable counts as empty, which is how
      `None` behaves in the `or` chain. */
  function EnvValue(env: map<string, string>, name: string): string {
    if name in env then env[name] else ""
  }

  /** A non-empty key in the input wins outright; the environment and the session are not
      consulted. */
  lemma UserKeyWins(p: BaseLlmProvider, env: map<string, string>, session: map<string, string>, name: string)
    requires name in p.userInput && p.userInput[name] != ""
    ensures p.GetApiKey(env, session, name) == Ok(p.userInput[name])
  {
  }

  /** The key found is empty only when every source was empty: an empty result says the
      session held an empty value too. */
  lemma EmptyKeyMeansAllEmpty(p: BaseLlmProvider, env: map<string, string>, session: map<string, string>, name: string)
    requires p.GetApiKey(env, session, name) == Ok("")
    ensures p.userInput[name] == "" && EnvValue(env, name) == "" && name in session && session[name] == ""
  {
  }

  /** At most two messages, each naming what the caller passed. */
  lemma RequirementErrorsShape(apiKey: string, model: string, apiKeyName: string, modelName: string)
    ensures var errs := RequirementErrors(apiKey, model, apiKeyName, modelName);
      && |errs| == (if apiKey == "" then 1 else 0) + (if model == "" then 1 else 0)
      && (errs == [] <==> apiKey != "" && model != "")
      && (apiKey == "" ==> errs[0] == KeyMessage(apiKeyName))
      && (model == "" ==> errs[|errs| - 1] == ModelMessage(modelName))
  {
  }

  /** The messages embed the names exactly as passed. */
  lemma MessagesNameTheirSubject(apiKeyName: string, modelName: string)
    ensures Contains(KeyMessage(apiKeyName), apiKeyName)
    ensures Contains(ModelMessage(modelName), modelName)
  {
    ContainsInside("Please enter the ", apiKeyName, " API KEY.", apiKeyName);
    ContainsInside("Please select a ", modelName, ".", modelName);
  }
}
