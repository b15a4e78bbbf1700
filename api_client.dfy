/** One call of the chat-completions API: the request it sends, the reply
    text it extracts from either response shape, and how a failed call is
    reported. The HTTP exchange itself is an input, `Attempt`. */
module ApiClient {
  import opened Settings
  import opened Json
  import Text

  /** One chat message of the request payload. */
  datatype Message = Message(role: string, content: string)

  /** What one POST sends: the endpoint, the bearer header, the model, the
      two messages and the fixed integer parameters. */
  datatype Request = Request(
    url: string,
    authorization: string,
    model: string,
    messages: seq<Message>,
    maxTokens: nat,
    timeoutSeconds: nat)

  predicate IsSlash(c: char) {
    c == '/'
  }

  /** The endpoint: the base with every trailing `/` removed, then the
      chat-completions path. */
  function ChatCompletionsUrl(apiBase: string): (url: string)
    ensures |CHAT_COMPLETIONS_PATH| <= |url|
    ensures url[|url| - |CHAT_COMPLETIONS_PATH|..] == CHAT_COMPLETIONS_PATH
    ensures var n := |url| - |CHAT_COMPLETIONS_PATH|;
      && n <= |apiBase| && url[..n] == apiBase[..n]
      && Text.All(apiBase[n..], IsSlash)
      && (n == 0 || url[n - 1] != '/')
  {
    var base := Text.RStrip(apiBase, IsSlash);
    assert (base + CHAT_COMPLETIONS_PATH)[..|base|] == base;
    base + CHAT_COMPLETIONS_PATH
  }

  /** Extra trailing slashes on the base do not change the endpoint. */
  lemma UrlIgnoresTrailingSlash(apiBase: string)
    ensures ChatCompletionsUrl(apiBase + "/") == ChatCompletionsUrl(apiBase)
  {
    Text.RStripAbsorbs(apiBase, '/', IsSlash);
  }

  const BEARER: string := "Bearer "

  /** The request `_call_api` posts for a prompt: the key can be read back
      after `Bearer `, the system instruction comes first and the prompt is
      the user message, unchanged. */
  function MakeRequest(prompt: string, apiKey: string, model: string, apiBase: string): (r: Request)
    ensures BEARER <= r.authorization && r.authorization[|BEARER|..] == apiKey
    ensures |r.messages| == 2
    ensures r.messages[0] == Message("system", SYSTEM_PROMPT)
    ensures r.messages[1] == Message("user", prompt)
    ensures r.model == model && r.url == ChatCompletionsUrl(apiBase)
    ensures r.maxTokens == MAX_TOKENS && r.timeoutSeconds == TIMEOUT_SECONDS
  {
    assert (BEARER + apiKey)[|BEARER|..] == apiKey;
    Request(
      ChatCompletionsUrl(apiBase),
      BEARER + apiKey,
      model,
      [Message("system", SYSTEM_PROMPT), Message("user", prompt)],
      MAX_TOKENS,
      TIMEOUT_SECONDS)
  }

  /** The outcome of reading the reply out of a decoded body: the text, a
      `ValueError` (no known shape), or any other Python exception raised
      while probing the body (a `.get` on a non-dict, a `.strip` on a
      non-string, a failed subscript). */
  datatype Extraction = Ok(reply: string) | ParseErr | OtherErr

  /** The first, OpenAI-compatible step either decides the outcome or lets
      the legacy step run. */
  datatype Step = Done(result: Extraction) | FallThrough

  /** `choices` is a non-empty list, so the first step looks at its first
      item. */
  predicate HasChoiceList(result: map<string, Value>) {
    "choices" in result && result["choices"].JArr? && result["choices"].items != []
  }

  /** The first choice is a dict holding a `message` dict whose `content`
      is a non-empty string: the shape the first step replies to. */
  predicate OpenAiReplies(result: map<string, Value>) {
    && HasChoiceList(result)
    && var first := result["choices"].items[0];
    && first.JObj? && "message" in first.fields
    && var message := first.fields["message"];
    && message.JObj? && "content" in message.fields
    && message.fields["content"].JStr? && message.fields["content"].s != []
  }

  /** `choices[0].message.content` when `choices` is a non-empty list and
      the content is truthy; the defaults `{}` and `""` of the two `.get`
      calls apply when a key is missing. */
  function OpenAiStep(result: map<string, Value>): (step: Step)
    ensures step.Done? ==> HasChoiceList(result)
    ensures step.Done? ==> step.result != ParseErr
    ensures step.Done? && step.result.Ok? <==> OpenAiReplies(result)
    ensures step.Done? && step.result.Ok? ==> Text.Trimmed(step.result.reply, Text.IsWhitespace)
  {
    if "choices" !in result || !result["choices"].JArr? || result["choices"].items == [] then
      FallThrough
    else
      var first := result["choices"].items[0];
      if !first.JObj? then Done(OtherErr)
      else
        var message := if "message" in first.fields then first.fields["message"] else JObj(map[]);
        if !message.JObj? then Done(OtherErr)
        else
          var content := if "content" in message.fields then message.fields["content"] else JStr("");
          if !Truthy(content) then FallThrough
          else if content.JStr? then Done(Ok(Text.Strip(content.s)))
          else Done(OtherErr)
  }

  /** A list whose first item is a dict holding a `message` dict whose
      `content` is a string: the legacy choices shape. */
  predicate LegacyChoiceReplies(choices: Value) {
    && choices.JArr? && choices.items != []
    && var first := choices.items[0];
    && first.JObj? && "message" in first.fields
    && var message := first.fields["message"];
    && message.JObj? && "content" in message.fields && message.fields["content"].JStr?
  }

  /** An `output` the legacy step replies to: a dict whose truthy `choices`
      has the legacy choices shape, or, without truthy `choices`, whose
      `text` is a string. */
  predicate LegacyReplies(output: Value) {
    && output.JObj?
    && if "choices" in output.fields && Truthy(output.fields["choices"])
       then LegacyChoiceReplies(output.fields["choices"])
       else "text" in output.fields && output.fields["text"].JStr?
  }

  /** `output["choices"][0]["message"]["content"]` for a truthy
      `output["choices"]`: every subscript must land on a list or a dict
      holding the key, and the content must be a string. */
  function LegacyChoice(choices: Value): (r: Extraction)
    ensures r != ParseErr
    ensures r.Ok? <==> LegacyChoiceReplies(choices)
    ensures r.Ok? ==> Text.Trimmed(r.reply, Text.IsWhitespace)
  {
    if !choices.JArr? || choices.items == [] then OtherErr
    else
      var first := choices.items[0];
      if !first.JObj? || "message" !in first.fields then OtherErr
      else
        var message := first.fields["message"];
        if !message.JObj? || "content" !in message.fields then OtherErr
        else
          var content := message.fields["content"];
          if content.JStr? then Ok(Text.Strip(content.s)) else OtherErr
  }

  /** The legacy DashScope shape under `output` (default `{}`). Python's
      `in` tests keys on a dict, elements on a list and substrings on a
      string, and raises on anything else; subscripting a list or a string
      with a key then raises too. */
  function LegacyStep(result: map<string, Value>): (r: Extraction)
    ensures r == ParseErr ==> OutputOf(result).JObj? || OutputOf(result).JArr? || OutputOf(result).JStr?
    ensures OutputOf(result).JObj? && "text" in OutputOf(result).fields ==> r != ParseErr
    ensures r.Ok? <==> LegacyReplies(OutputOf(result))
    ensures r.Ok? ==> Text.Trimmed(r.reply, Text.IsWhitespace)
  {
    var output := OutputOf(result);
    match output
    case JObj(fields) =>
      if "choices" in fields && Truthy(fields["choices"]) then LegacyChoice(fields["choices"])
      else if "text" in fields then
        (if fields["text"].JStr? then Ok(Text.Strip(fields["text"].s)) else OtherErr)
      else ParseErr
    case JArr(items) =>
      if JStr("choices") in items || JStr("text") in items then OtherErr else ParseErr
    case JStr(s) =>
      if Text.Substring("choices", s) || Text.Substring("text", s) then OtherErr else ParseErr
    case _ => OtherErr
  }

  /** The response-parsing part of `_call_api`: the OpenAI-compatible shape
      first, then the legacy shape. A body that is not a dict has no
      `.get`. A reply is always stripped of surrounding whitespace. */
  function ExtractReply(body: Value): (r: Extraction)
    ensures !body.JObj? ==> r == OtherErr
    ensures r.Ok? ==> Text.Trimmed(r.reply, Text.IsWhitespace)
  {
    if !body.JObj? then OtherErr
    else
      var step := OpenAiStep(body.fields);
      if step.Done? then step.result else LegacyStep(body.fields)
  }

  /** A first choice that carries a non-empty string content decides the
      reply, whatever else the body holds. */
  lemma OpenAiContentWins(result: map<string, Value>, first: map<string, Value>,
                          message: map<string, Value>, content: string)
    requires "choices" in result && result["choices"].JArr?
    requires result["choices"].items != [] && result["choices"].items[0] == JObj(first)
    requires "message" in first && first["message"] == JObj(message)
    requires "content" in message && message["content"] == JStr(content)
    requires content != []
    ensures ExtractReply(JObj(result)) == Ok(Text.Strip(content))
  {
    assert Truthy(message["content"]);
    assert OpenAiStep(result) == Done(Ok(Text.Strip(content)));
  }

  /** When the first step yields nothing (no choices, an empty list, or a
      first choice without content or with empty content) the body is read
      as if it had no `choices` at all. */
  lemma FallThroughIgnoresChoices(result: map<string, Value>)
    requires OpenAiStep(result) == FallThrough
    ensures ExtractReply(JObj(result)) == ExtractReply(JObj(result - {"choices"}))
  {
    var rest := result - {"choices"};
    assert ("output" in rest) == ("output" in result);
    assert "output" in rest ==> rest["output"] == result["output"];
  }

  /** A content of only whitespace is truthy, so it is taken and yields the
      empty reply. */
  lemma BlankContentGivesEmptyReply(result: map<string, Value>, first: map<string, Value>,
                                    message: map<string, Value>, content: string)
    requires "choices" in result && result["choices"].JArr?
    requires result["choices"].items != [] && result["choices"].items[0] == JObj(first)
    requires "message" in first && first["message"] == JObj(message)
    requires "content" in message && message["content"] == JStr(content)
    requires content != [] && Text.Blank(content)
    ensures ExtractReply(JObj(result)) == Ok([])
  {
    OpenAiContentWins(result, first, message, content);
  }

  /** Under the legacy shape the first choice's content is taken as it is:
      unlike the first step, an empty content is not skipped. */
  lemma LegacyChoiceTakesAnyContent(result: map<string, Value>, output: map<string, Value>,
                                    first: map<string, Value>, message: map<string, Value>, content: string)
    requires "choices" !in result
    requires "output" in result && result["output"] == JObj(output)
    requires "choices" in output && output["choices"].JArr?
    requires output["choices"].items != [] && output["choices"].items[0] == JObj(first)
    requires "message" in first && first["message"] == JObj(message)
    requires "content" in message && message["content"] == JStr(content)
    ensures ExtractReply(JObj(result)) == Ok(Text.Strip(content))
  {
    assert OpenAiStep(result) == FallThrough;
    assert OutputOf(result) == JObj(output);
    assert Truthy(output["choices"]);
    assert LegacyChoice(output["choices"]) == Ok(Text.Strip(content));
  }

  /** Without usable choices anywhere, a string `output.text` is the reply. */
  lemma LegacyTextIsLastResort(result: map<string, Value>, output: map<string, Value>, text: string)
    requires OpenAiStep(result) == FallThrough
    requires "output" in result && result["output"] == JObj(output)
    requires "choices" !in output || !Truthy(output["choices"])
    requires "text" in output && output["text"] == JStr(text)
    ensures ExtractReply(JObj(result)) == Ok(Text.Strip(text))
  {
  }

  /** A dict with neither usable choices nor an `output` entry is a parse
      failure, not a crash. */
  lemma NoKnownShapeIsParseError(result: map<string, Value>)
    requires OpenAiStep(result) == FallThrough
    requires "output" !in result
    ensures ExtractReply(JObj(result)) == ParseErr
  {
  }

  /** An `output` dict with neither truthy `choices` nor a `text` key is a
      parse failure. */
  lemma OutputWithoutKnownKeysIsParseError(result: map<string, Value>, output: map<string, Value>)
    requires OpenAiStep(result) == FallThrough
    requires "output" in result && result["output"] == JObj(output)
    requires "choices" !in output || !Truthy(output["choices"])
    requires "text" !in output
    ensures ExtractReply(JObj(result)) == ParseErr
  {
  }

  /** A first choice that is not a dict has no `.get`: a crash. */
  lemma FirstChoiceNotDictCrashes(result: map<string, Value>)
    requires "choices" in result && result["choices"].JArr? && result["choices"].items != []
    requires !result["choices"].items[0].JObj?
    ensures ExtractReply(JObj(result)) == OtherErr
  {
  }

  /** A `message` entry that is not a dict has no `.get`: a crash. */
  lemma MessageNotDictCrashes(result: map<string, Value>, first: map<string, Value>)
    requires "choices" in result && result["choices"].JArr? && result["choices"].items != []
    requires result["choices"].items[0] == JObj(first)
    requires "message" in first && !first["message"].JObj?
    ensures ExtractReply(JObj(result)) == OtherErr
  {
  }

  /** A truthy content that is not a string has no `.strip`: a crash. */
  lemma ContentNotStringCrashes(result: map<string, Value>, first: map<string, Value>,
                                message: map<string, Value>)
    requires "choices" in result && result["choices"].JArr? && result["choices"].items != []
    requires result["choices"].items[0] == JObj(first)
    requires "message" in first && first["message"] == JObj(message)
    requires "content" in message && Truthy(message["content"]) && !message["content"].JStr?
    ensures ExtractReply(JObj(result)) == OtherErr
  {
  }

  /** `output.get`'s default: a body whose `output` is missing reads as one
      whose `output` is `{}`. */
  function OutputOf(result: map<string, Value>): Value {
    if "output" in result then result["output"] else JObj(map[])
  }

  /** The extraction raises its `ValueError` exactly when the body is a dict,
      the first step yields nothing, and the `output` offers neither key to
      Python's `in`: a dict without truthy `choices` and without `text`, a
      list holding neither string, or a string containing neither word. */
  lemma ParseErrExactly(body: Value)
    ensures ExtractReply(body) == ParseErr <==>
      && body.JObj? && OpenAiStep(body.fields) == FallThrough
      && var output := OutputOf(body.fields);
      || (output.JObj? && !("choices" in output.fields && Truthy(output.fields["choices"])) && "text" !in output.fields)
      || (output.JArr? && JStr("choices") !in output.items && JStr("text") !in output.items)
      || (output.JStr? && !Text.Substring("choices", output.s) && !Text.Substring("text", output.s))
  {
    if body.JObj? && OpenAiStep(body.fields) == FallThrough {
      var output := OutputOf(body.fields);
      assert ExtractReply(body) == LegacyStep(body.fields);
      if output.JObj? && "choices" in output.fields && Truthy(output.fields["choices"]) {
        assert LegacyChoice(output.fields["choices"]) != ParseErr;
      }
    }
  }

  /** The extraction replies exactly when the body is a dict and either
      the first step finds a non-empty string content, or it yields nothing
      and the legacy shape holds a string where it looks. Every other body
      that is not a parse failure (`ParseErrExactly`) crashes. */
  lemma ReplyExactly(body: Value)
    ensures ExtractReply(body).Ok? <==>
      && body.JObj?
      && (|| OpenAiReplies(body.fields)
          || (OpenAiStep(body.fields) == FallThrough && LegacyReplies(OutputOf(body.fields))))
  {
    if body.JObj? && OpenAiStep(body.fields) == FallThrough {
      assert ExtractReply(body) == LegacyStep(body.fields);
    }
  }

  /** The first step yields nothing exactly when there is no non-empty
      `choices` list, or when its first item is a dict whose content, with
      the `.get` defaults, is falsy. */
  lemma FallThroughExactly(result: map<string, Value>)
    ensures OpenAiStep(result) == FallThrough <==>
      || !HasChoiceList(result)
      || (var first := result["choices"].items[0];
          && first.JObj?
          && ("message" !in first.fields
              || (&& first.fields["message"].JObj?
                  && var message := first.fields["message"].fields;
                  "content" !in message || !Truthy(message["content"]))))
  {
  }

  /** An empty or missing content, or a missing `message`, makes the first
      step fall through to the legacy shape. */
  lemma FalsyContentFallsThrough(result: map<string, Value>, first: map<string, Value>)
    requires HasChoiceList(result) && result["choices"].items[0] == JObj(first)
    requires "message" !in first || first["message"].JObj?
    requires var message := if "message" in first then first["message"].fields else map[];
      "content" !in message || !Truthy(message["content"])
    ensures OpenAiStep(result) == FallThrough
  {
    FallThroughExactly(result);
  }

  /** An `output` entry that is null, a boolean or a number makes the `in`
      test raise: that is a crash, not a parse failure. */
  lemma ScalarOutputCrashes(result: map<string, Value>)
    requires OpenAiStep(result) == FallThrough
    requires "output" in result && (result["output"].JNull? || result["output"].JBool? || result["output"].JNum?)
    ensures ExtractReply(JObj(result)) == OtherErr
  {
  }

  /** A string `output` that contains "text" anywhere passes the `in`
      test, and subscripting the string with a key then crashes. */
  lemma TextInStringOutputCrashes(result: map<string, Value>, output: string, k: nat)
    requires OpenAiStep(result) == FallThrough
    requires "output" in result && result["output"] == JStr(output)
    requires k + 4 <= |output| && output[k..k + 4] == "text"
    ensures ExtractReply(JObj(result)) == OtherErr
  {
    Text.SubstringAt("text", output, k);
  }

  /** A parse failure only ever comes from a dict body. */
  lemma ParseErrOnlyForDicts(body: Value)
    requires ExtractReply(body) == ParseErr
    ensures body.JObj? && OpenAiStep(body.fields) == FallThrough
  {
  }

  /** The body `{"choices": [{"message": {"content": c}}]}`. */
  function OpenAiBody(content: string): Value {
    JObj(map["choices" := JArr([JObj(map["message" := JObj(map["content" := JStr(content)])])])])
  }

  /** The body `{"output": {"choices": [{"message": {"content": c}}]}}`. */
  function LegacyChoicesBody(content: string): Value {
    JObj(map["output" := JObj(map["choices" := JArr([JObj(map["message" := JObj(map["content" := JStr(content)])])])])])
  }

  /** The body `{"output": {"text": c}}`. */
  function LegacyTextBody(content: string): Value {
    JObj(map["output" := JObj(map["text" := JStr(content)])])
  }

  /** The caller cannot tell the three shapes apart: for a non-empty
      content each yields the same stripped reply. */
  lemma ShapesAreTransparent(content: string)
    requires content != []
    ensures ExtractReply(OpenAiBody(content)) == Ok(Text.Strip(content))
    ensures ExtractReply(LegacyChoicesBody(content)) == Ok(Text.Strip(content))
    ensures ExtractReply(LegacyTextBody(content)) == Ok(Text.Strip(content))
  {
    var message := map["content" := JStr(content)];
    var first := map["message" := JObj(message)];
    var choices := map["choices" := JArr([JObj(first)])];
    OpenAiContentWins(choices, first, message, content);
    assert |"choices"| != |"output"|;
    LegacyChoiceTakesAnyContent(map["output" := JObj(choices)], choices, first, message, content);
    var text := map["text" := JStr(content)];
    assert |"choices"| != |"text"|;
    LegacyTextIsLastResort(map["output" := JObj(text)], text, content);
  }

  /** What the network did on one attempt, as the model's input:
      - `RequestFailed`: `requests` raised a `RequestException` (connection
        error, timeout, a non-2xx status, or a body that is not JSON);
      - `ValueRaised`: the request layer raised a `ValueError` that is not a
        `RequestException` before a body was decoded (a header value that
        cannot be encoded, or a non-JSON body under a `requests` release
        whose decoding error is a plain `ValueError`);
      - `Crashed`: any other exception before the body was read;
      - `Responded`: the decoded body, with `dump`, the text `json.dumps`
        gives for it, and `fault`, the text of the exception Python raises
        if probing the body crashes. */
  datatype Attempt =
    | RequestFailed(reason: string)
    | ValueRaised(reason: string)
    | Crashed(reason: string)
    | Responded(body: Value, dump: string, fault: string)

  /** The three ways an attempt is reported as failed. */
  datatype Failure =
    | RequestError(detail: string)
    | ParseError(detail: string)
    | UnknownError(detail: string)

  datatype CallResult = Replied(text: string) | Failed(failure: Failure)

  const EXTRACTION_FAILURE_PREFIX: string := "Failed to extract content from API response: "

  /** The `ValueError` text: the dumped body cut to its first 300
      characters after a fixed prefix. */
  function ExtractionFailureText(dump: string): (text: string)
    ensures EXTRACTION_FAILURE_PREFIX <= text
    ensures var shown := text[|EXTRACTION_FAILURE_PREFIX|..];
      && |shown| <= 300 && shown <= dump
      && (|dump| <= 300 ==> shown == dump)
      && (|dump| > 300 ==> |shown| == 300)
  {
    var shown := if |dump| <= 300 then dump else dump[..300];
    assert (EXTRACTION_FAILURE_PREFIX + shown)[|EXTRACTION_FAILURE_PREFIX|..] == shown;
    EXTRACTION_FAILURE_PREFIX + shown
  }

  /** `_call_api` on one attempt, with the exception it raises classified as
      `generate_reply` catches it. */
  function CallApi(attempt: Attempt): (r: CallResult)
    ensures r.Replied? <==> attempt.Responded? && ExtractReply(attempt.body).Ok?
    ensures attempt.Responded? && ExtractReply(attempt.body).Ok? ==> r == Replied(ExtractReply(attempt.body).reply)
    ensures r.Replied? ==> Text.Trimmed(r.text, Text.IsWhitespace)
    ensures r.Failed? && r.failure.RequestError? <==> attempt.RequestFailed?
    ensures attempt.RequestFailed? ==> r == Failed(RequestError(attempt.reason))
    ensures r.Failed? && r.failure.ParseError? <==>
      attempt.ValueRaised? || (attempt.Responded? && ExtractReply(attempt.body) == ParseErr)
    ensures attempt.ValueRaised? ==> r == Failed(ParseError(attempt.reason))
    ensures attempt.Responded? && ExtractReply(attempt.body) == ParseErr ==>
      r == Failed(ParseError(ExtractionFailureText(attempt.dump)))
    ensures r.Failed? && r.failure.UnknownError? <==>
      attempt.Crashed? || (attempt.Responded? && ExtractReply(attempt.body) == OtherErr)
    ensures attempt.Crashed? ==> r == Failed(UnknownError(attempt.reason))
    ensures attempt.Responded? && ExtractReply(attempt.body) == OtherErr ==> r == Failed(UnknownError(attempt.fault))
  {
    match attempt
    case RequestFailed(reason) => Failed(RequestError(reason))
    case ValueRaised(reason) => Failed(ParseError(reason))
    case Crashed(reason) => Failed(UnknownError(reason))
    case Responded(body, dump, fault) =>
      match ExtractReply(body)
      case Ok(text) => Replied(text)
      case ParseErr => Failed(ParseError(ExtractionFailureText(dump)))
      case OtherErr => Failed(UnknownError(fault))
  }

  const REQUEST_FAILED_PREFIX: string := "API request failed: "
  const PARSING_FAILED_PREFIX: string := "Response parsing failed: "
  const UNKNOWN_ERROR_PREFIX: string := "Unknown error: "

  /** The `last_error` text a failure leaves. */
  function ErrorText(f: Failure): (text: string)
    ensures |f.detail| < |text| && text[|text| - |f.detail|..] == f.detail
  {
    match f
    case RequestError(detail) => REQUEST_FAILED_PREFIX + detail
    case ParseError(detail) => PARSING_FAILED_PREFIX + detail
    case UnknownError(detail) => UNKNOWN_ERROR_PREFIX + detail
  }

  /** Reads a `last_error` text back: its prefix names the kind. */
  function ClassifyError(text: string): Option<Failure> {
    if REQUEST_FAILED_PREFIX <= text then Some(RequestError(text[|REQUEST_FAILED_PREFIX|..]))
    else if PARSING_FAILED_PREFIX <= text then Some(ParseError(text[|PARSING_FAILED_PREFIX|..]))
    else if UNKNOWN_ERROR_PREFIX <= text then Some(UnknownError(text[|UNKNOWN_ERROR_PREFIX|..]))
    else None
  }

  datatype Option<T> = None | Some(value: T)

  /** Each failure leaves exactly one of the three prefixes, and the kind
      and the detail can be read back from the text. */
  lemma ErrorTextRoundTrip(f: Failure)
    ensures ClassifyError(ErrorText(f)) == Some(f)
  {
    var t := ErrorText(f);
    match f
    case RequestError(d) =>
      assert t[..|REQUEST_FAILED_PREFIX|] == REQUEST_FAILED_PREFIX;
      assert t[|REQUEST_FAILED_PREFIX|..] == d;
    case ParseError(d) =>
      assert t[..|PARSING_FAILED_PREFIX|] == PARSING_FAILED_PREFIX;
      assert t[0] != REQUEST_FAILED_PREFIX[0];
      assert t[|PARSING_FAILED_PREFIX|..] == d;
    case UnknownError(d) =>
      assert t[..|UNKNOWN_ERROR_PREFIX|] == UNKNOWN_ERROR_PREFIX;
      assert t[0] != REQUEST_FAILED_PREFIX[0] && t[0] != PARSING_FAILED_PREFIX[0];
      assert t[|UNKNOWN_ERROR_PREFIX|..] == d;
  }
}
