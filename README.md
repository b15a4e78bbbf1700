# CyberMolt reply generator: a Dafny model

The CyberMolt reply generator writes an X (Twitter) reply to a tweet by
asking a chat-completions model (Qwen on DashScope, through its
OpenAI-compatible endpoint). `generate_reply` works in five steps:
- It checks its inputs.
- It normalises the author handle.
- It fills a fixed prompt template with the tweet, the handle, a donation
  address and the advisory length bounds.
- It calls the API up to `max_retries` times, sleeping 2, 4, 8, ...
  seconds between failed attempts.
- It returns a `GenerateResult`: the stripped reply with an advisory
  length warning, or the last error.

Each module follows one part of `skills/cybermolt-reply-generator/agent.py`:

- `Settings` (`settings.dfy`): the module-level constants.
- `Text` (`text.dfy`): Python's `str.strip`, `lstrip` and `rstrip`, with
  `isspace` as Python defines it, and the substring test behind `in`.
- `Decimal` (`decimal.dfy`): how `str(n)` renders an integer, and reading
  the digits back.
- `Prompt` (`prompt.dfy`): `build_prompt` as a template with seven literal
  segments around its holes.
- `Json` and `ApiClient` (`json.dfy`, `api_client.dfy`):
  - the request `_call_api` sends;
  - the reply extraction from the OpenAI-compatible shape and the legacy
    DashScope shape, with every Python exception it can raise;
  - the three error kinds `generate_reply` catches, and their texts.
- `ReplyGenerator` (`reply_generator.dfy`): `generate_reply`.
  - `Validate` and `NormalizeAuthor` are pure functions.
  - The retry loop is a method. `RetryLoop` is proved equal to the
    function `RunFrom`, which runs the attempts one by one. Lemmas about
    `RunFrom` show that every run meets the predicate `Retried`.
  - `GenerateReply` calls `RetryLoop` once the inputs pass the checks.

The network is an input. Attempt `k` of the loop gets `network[k-1]`, one
of four kinds:
- a `RequestException` (`RequestFailed`), reported as a request failure;
- a `ValueError` from the request layer that is not a `RequestException`
  (`ValueRaised`), reported as a parsing failure;
- any other exception before a body is read (`Crashed`), reported as an
  unknown error;
- a decoded JSON body (`Responded`), from which the reply is extracted. The model does
not sleep. It returns the waits, in seconds, and the requests it would
have sent.

## Model

| member | source | states |
|---|---|---|
| Text.IsWhitespace | skills/cybermolt-reply-generator/agent.py:199 | The characters Python's `str.isspace` accepts, which `strip()` removes. Its contract is carried by `Strip` and `StripUnique`. |
| Text.Substring | skills/cybermolt-reply-generator/agent.py:171 | Python's `in` on two strings. `SubstringAt` shows that a needle found at any offset passes. |
| Text.LStrip | skills/cybermolt-reply-generator/agent.py:207 | `lstrip(chars)` returns a suffix of its input. Everything it removed is in `chars`, and the result does not start with one of them. |
| Text.RStrip | skills/cybermolt-reply-generator/agent.py:139 | `rstrip(chars)` returns a prefix of its input. Everything it removed is in `chars`, and the result does not end with one of them. |
| Text.Strip | skills/cybermolt-reply-generator/agent.py:199 | `strip()` never lengthens its input. Its result neither starts nor ends with whitespace. The result is empty exactly when the input is empty or all whitespace, which is the `not s.strip()` test. |
| Text.LStripUnique | skills/cybermolt-reply-generator/agent.py:207 | `lstrip` removes exactly a leading run of dropped characters that is followed by a kept one. |
| Text.RStripUnique | skills/cybermolt-reply-generator/agent.py:139 | `rstrip` removes exactly a trailing run of dropped characters that follows a kept one. |
| Text.StripUnique | skills/cybermolt-reply-generator/agent.py:165 | Whitespace around a middle that neither starts nor ends with whitespace is exactly what `strip()` removes: the result is that middle. |
| Text.RStripAbsorbs | skills/cybermolt-reply-generator/agent.py:139 | One more trailing dropped character does not change what `rstrip` leaves. |
| Text.StripTrimmed | skills/cybermolt-reply-generator/agent.py:165 | Stripping a string that already has no surrounding whitespace leaves it unchanged. |
| Text.StripIdempotent | skills/cybermolt-reply-generator/agent.py:209 | Stripping twice gives the same result as stripping once. |
| Text.SubstringAt | skills/cybermolt-reply-generator/agent.py:171 | A needle found at any offset passes Python's `in` test on strings. |
| Decimal.FromNat | skills/cybermolt-reply-generator/agent.py:105-106 | `str(n)` is a non-empty run of digits with no leading zero, unless n is 0. |
| Decimal.FromInt | skills/cybermolt-reply-generator/agent.py:245 | `str(i)` for any integer starts with `-` exactly when i is negative. The digits after it read back as the absolute value. |
| Decimal.ValueFromNat | skills/cybermolt-reply-generator/agent.py:221 | Reading the rendered digits back gives the number. |
| Decimal.QuotedAfter | skills/cybermolt-reply-generator/agent.py:221 | A number rendered after some text reads back from right after that text. |
| Decimal.FromNatInjective | skills/cybermolt-reply-generator/agent.py:224 | Different numbers are rendered differently. |
| Json.Truthy | skills/cybermolt-reply-generator/agent.py:162-164 | Python truthiness of a decoded JSON value: null, false, 0 and empty strings, lists and dicts are falsy. The extraction lemmas state its effect. |
| Prompt.BuildPrompt | skills/cybermolt-reply-generator/agent.py:99-107 | `build_prompt` fills the template with the tweet, the author, the address and the bounds. `TweetRoundTrip`, `QuotesAuthorTwice`, `EndsWithCommonEnding` and `EndingQuotesAddressAndBounds` state what it holds. |
| Prompt.TweetRoundTrip | skills/cybermolt-reply-generator/agent.py:99-107 | The tweet content can be cut back out of the built prompt, so different tweets give different prompts. |
| Prompt.FillQuotesAuthor | skills/cybermolt-reply-generator/agent.py:72-78 | In any filled template, `@` followed by the author sits at both author holes. |
| Prompt.QuotesAuthorTwice | skills/cybermolt-reply-generator/agent.py:99-107 | The built prompt quotes `@author` on the "Original tweet author" line and in the opening rule. |
| Prompt.FillEnding | skills/cybermolt-reply-generator/agent.py:85-90 | Any filled template ends with the template filled from its `{address}` hole on, whatever the tweet and the author. |
| Prompt.EndingLayout | skills/cybermolt-reply-generator/agent.py:85-90 | That ending opens with the address and, after the text before `{min_len}`, holds the two bounds with their separator. |
| Prompt.BoundsRendered | skills/cybermolt-reply-generator/agent.py:22-23 | The bounds are rendered as "80" and "200". |
| Prompt.EndsWithCommonEnding | skills/cybermolt-reply-generator/agent.py:99-107 | Every prompt ends with the same text, whatever the tweet and the author: the template from its `{address}` hole on. |
| Prompt.EndingQuotesAddressAndBounds | skills/cybermolt-reply-generator/agent.py:85-90 | That common ending starts with the donation address and further on holds the two bounds joined by `-`. |
| ApiClient.ChatCompletionsUrl | skills/cybermolt-reply-generator/agent.py:139 | The URL ends with `/chat/completions`. Before that path comes the base with only trailing `/` removed, and it does not end with `/`. |
| ApiClient.UrlIgnoresTrailingSlash | skills/cybermolt-reply-generator/agent.py:139 | A trailing `/` on the base does not change the endpoint. |
| ApiClient.MakeRequest | skills/cybermolt-reply-generator/agent.py:125-156 | The API key reads back after `Bearer `. The system instruction is the first message and the prompt, unchanged, the second. The model and the endpoint are the ones given. `max_tokens` is 1024 and the timeout 30 seconds, the defaults `generate_reply` leaves in place. |
| ApiClient.OpenAiStep | skills/cybermolt-reply-generator/agent.py:161-165 | The first step only decides when `choices` is a non-empty list. It never raises the extraction `ValueError`. It replies exactly when the first choice is a dict whose `message` is a dict with a non-empty string `content`, and the reply is stripped. |
| ApiClient.LegacyChoice | skills/cybermolt-reply-generator/agent.py:169-170 | Following `output["choices"][0]["message"]["content"]` never raises the extraction `ValueError`. It replies exactly when every subscript lands on a list or a dict holding the key and the content is a string; otherwise it crashes. Any reply is stripped. |
| ApiClient.LegacyStep | skills/cybermolt-reply-generator/agent.py:168-174 | The extraction `ValueError` needs an `output` that is a dict, a list or a string. An `output` dict holding `text` never raises it. The step replies exactly when `output` is a dict whose truthy `choices` has the legacy shape, or which has no truthy `choices` and a string `text`. Any reply is stripped. |
| ApiClient.ExtractReply | skills/cybermolt-reply-generator/agent.py:160-174 | A body that is not a dict has no `.get` and crashes. Any extracted reply has no surrounding whitespace. |
| ApiClient.ReplyExactly | skills/cybermolt-reply-generator/agent.py:160-172 | The extraction replies exactly when the body is a dict and either the first step finds a non-empty string content, or it yields nothing and the legacy shape holds a string where it looks. With `ParseErrExactly`, every other body crashes. |
| ApiClient.FallThroughExactly | skills/cybermolt-reply-generator/agent.py:161-164 | The first step yields nothing exactly when there is no non-empty `choices` list, or its first item is a dict whose `message.content`, with the `.get` defaults `{}` and `""`, is falsy. |
| ApiClient.FalsyContentFallsThrough | skills/cybermolt-reply-generator/agent.py:163-164 | A missing `message`, or a missing or falsy content, falls through to the legacy shape. |
| ApiClient.OpenAiContentWins | skills/cybermolt-reply-generator/agent.py:161-165 | A non-empty string at `choices[0].message.content` is the reply, whatever else the body holds. |
| ApiClient.FallThroughIgnoresChoices | skills/cybermolt-reply-generator/agent.py:161-172 | When the first step yields nothing, the outcome is the same as for the body without `choices`. |
| ApiClient.BlankContentGivesEmptyReply | skills/cybermolt-reply-generator/agent.py:163-165 | Content made only of whitespace is truthy, so it is taken and yields an empty reply. |
| ApiClient.LegacyChoiceTakesAnyContent | skills/cybermolt-reply-generator/agent.py:168-170 | In the legacy shape, the first choice's string content is the reply, even when it is empty. |
| ApiClient.LegacyTextIsLastResort | skills/cybermolt-reply-generator/agent.py:171-172 | When there are no usable choices, a string `output.text` is the reply. |
| ApiClient.NoKnownShapeIsParseError | skills/cybermolt-reply-generator/agent.py:168-174 | A dict body with no usable choices and no `output` raises the extraction `ValueError`. |
| ApiClient.OutputWithoutKnownKeysIsParseError | skills/cybermolt-reply-generator/agent.py:168-174 | An `output` dict with neither truthy `choices` nor `text` raises the extraction `ValueError`. |
| ApiClient.FirstChoiceNotDictCrashes | skills/cybermolt-reply-generator/agent.py:163 | A first choice that is not a dict has no `.get`, so the call crashes. |
| ApiClient.MessageNotDictCrashes | skills/cybermolt-reply-generator/agent.py:163 | A `message` that is not a dict has no `.get`, so the call crashes. |
| ApiClient.ContentNotStringCrashes | skills/cybermolt-reply-generator/agent.py:163-165 | A truthy content that is not a string has no `.strip`, so the call crashes. |
| ApiClient.ParseErrExactly | skills/cybermolt-reply-generator/agent.py:160-174 | The extraction `ValueError` is raised exactly when the body is a dict, the first step yields nothing, and `output` offers neither key to `in`. That is a dict without truthy `choices` and without `text`, a list holding neither string, or a string containing neither word. |
| ApiClient.ScalarOutputCrashes | skills/cybermolt-reply-generator/agent.py:168-169 | An `output` that is null, a boolean or a number makes the `in` test raise. That is a crash, not a parse failure. |
| ApiClient.TextInStringOutputCrashes | skills/cybermolt-reply-generator/agent.py:171-172 | A string `output` containing "text" passes `in`, and subscripting it with a key then crashes. |
| ApiClient.ParseErrOnlyForDicts | skills/cybermolt-reply-generator/agent.py:174 | A parse failure only comes from a dict body whose first step yields nothing. |
| ApiClient.ShapesAreTransparent | skills/cybermolt-reply-generator/agent.py:160-172 | The OpenAI shape, the legacy choices shape and the legacy text shape carrying the same non-empty content give the same reply. |
| ApiClient.ExtractionFailureText | skills/cybermolt-reply-generator/agent.py:174 | The `ValueError` text is its fixed prefix followed by the dumped body, cut to its first 300 characters. |
| ApiClient.CallApi | skills/cybermolt-reply-generator/agent.py:135-174 | A call replies exactly when there was a response and extraction succeeded, and then the reply is the extracted, stripped text. A `RequestException` gives a request error with its text. A parse error comes exactly from a `ValueError`: one raised by the request layer, or the extraction failure with its text. Every other exception is an unknown error with its text. |
| ApiClient.ErrorText | skills/cybermolt-reply-generator/agent.py:230-237 | The `last_error` text of a failure ends with the failure's detail. |
| ApiClient.ErrorTextRoundTrip | skills/cybermolt-reply-generator/agent.py:230-237 | Each kind of failure leaves its own prefix, and the kind and the detail can be read back from the error text. |
| ReplyGenerator.Validate | skills/cybermolt-reply-generator/agent.py:199-204 | The inputs pass exactly when the tweet is not blank, the key is non-empty and the author is not blank. Checks run in source order and the first failing one names the error. |
| ReplyGenerator.NormalizeAuthor | skills/cybermolt-reply-generator/agent.py:207 | The handle never starts with `@` and never ends with whitespace. It is the stripped author minus a leading run of `@`. |
| ReplyGenerator.LoneAtSignPassesValidation | skills/cybermolt-reply-generator/agent.py:199-209 | An author of just `@` passes the checks and leaves an empty handle in the prompt. |
| ReplyGenerator.NormalizeDropsAtSigns | skills/cybermolt-reply-generator/agent.py:206-207 | Any run of leading `@` is removed from an otherwise bare handle. A bare handle is left as it is. |
| ReplyGenerator.AtSignsKeepTrimmed | skills/cybermolt-reply-generator/agent.py:207 | Leading `@` signs keep a handle free of surrounding whitespace. |
| ReplyGenerator.LengthWarning | skills/cybermolt-reply-generator/agent.py:218-225 | The warning is empty exactly when 80 <= length <= 200. Otherwise it opens with "Reply length (n)". |
| ReplyGenerator.WarningText | skills/cybermolt-reply-generator/agent.py:220-225 | Below 80 the warning is "Reply length (n) is below the recommended minimum (80)"; above 200 it is "Reply length (n) exceeds the recommended maximum (200)". |
| ReplyGenerator.WarningQuotesLength | skills/cybermolt-reply-generator/agent.py:221-224 | The number quoted in a warning reads back as the reply's length. |
| ReplyGenerator.Rejected | skills/cybermolt-reply-generator/agent.py:200-204 | A refused input gives a failure with that error, no reply and no warning. |
| ReplyGenerator.Succeeded | skills/cybermolt-reply-generator/agent.py:228 | A reply gives a success with that reply and no error. The warning is empty exactly when the reply length is within the bounds. |
| ReplyGenerator.Exhausted | skills/cybermolt-reply-generator/agent.py:245 | Running out of attempts gives a failure with no reply and no warning. |
| ReplyGenerator.ExhaustedQuotesLastError | skills/cybermolt-reply-generator/agent.py:245 | The final error ends with the last attempt's error text, from which the failure can be read back. |
| ReplyGenerator.ExhaustedQuotesRetries | skills/cybermolt-reply-generator/agent.py:245 | The final error opens with "Failed after ", followed by digits that read back as `max_retries`. |
| ReplyGenerator.Backoff | skills/cybermolt-reply-generator/agent.py:241 | `RETRY_BACKOFF_BASE ** attempt`. `RunWaits` and `TotalWait` state the waits it produces. |
| ReplyGenerator.TotalWait | skills/cybermolt-reply-generator/agent.py:240-243 | The waits 2, 4, ..., 2^n add up to 2^(n+1) - 2 seconds. |
| ReplyGenerator.Outcomes | skills/cybermolt-reply-generator/agent.py:215 | Attempt `i + 1` gets what `_call_api` makes of the `i`-th network exchange. |
| ReplyGenerator.Finish | skills/cybermolt-reply-generator/agent.py:228-245 | The result is a success exactly when the run ended with a reply. A reply gives the success result, and running out of attempts gives the failure that quotes the last error text (empty if no attempt was made). |
| ReplyGenerator.RunFrom | skills/cybermolt-reply-generator/agent.py:212-245 | The `for` loop from a given attempt on, one attempt per call: it stops at a reply, waits after each failed attempt but the last, and ends out of attempts with the last failure. `RetryLoop` is proved equal to it, and the `Run...` lemmas state what it does. |
| ReplyGenerator.RunSends | skills/cybermolt-reply-generator/agent.py:212-215 | From attempt k, a run sends the same request at most max_retries - k + 1 times, and at least once exactly when k <= max_retries. |
| ReplyGenerator.RunWaits | skills/cybermolt-reply-generator/agent.py:240-243 | A run from attempt k waits once fewer than it sends, and its i-th wait is 2^(k+i) seconds: a wait follows every failed attempt but the last. |
| ReplyGenerator.RunFailsBeforeLast | skills/cybermolt-reply-generator/agent.py:212-238 | Every attempt before the last one made failed. |
| ReplyGenerator.RunSucceedsOnReply | skills/cybermolt-reply-generator/agent.py:212-228 | A run ends with a reply exactly when one of its remaining attempts replies. |
| ReplyGenerator.RunEndsWithReply | skills/cybermolt-reply-generator/agent.py:212-228 | A run that ends with a reply made at least one attempt, and its last attempt gave that reply. |
| ReplyGenerator.RunExhausts | skills/cybermolt-reply-generator/agent.py:212-245 | A run that runs out of attempts made every remaining attempt, and all of them failed. |
| ReplyGenerator.RunQuotesLastError | skills/cybermolt-reply-generator/agent.py:230-245 | A run that runs out of attempts keeps the failure of its last attempt, or the earlier one if it made none. |
| ReplyGenerator.RunIsRetried | skills/cybermolt-reply-generator/agent.py:210-245 | The whole run from attempt 1 meets `Retried`: the requests sent, the waits, which attempts failed, and the success or the quoted last error. |
| ReplyGenerator.FailedRunWaits | skills/cybermolt-reply-generator/agent.py:240-243 | In a run where every attempt failed, there are max_retries - 1 waits, the j-th one 2^j seconds. |
| ReplyGenerator.FailedRunSleeps | skills/cybermolt-reply-generator/agent.py:240-245 | A run in which every attempt failed sleeps n - 1 times, 2^n - 2 seconds in all (6 seconds with the default 3 retries). |
| ReplyGenerator.RetryLoop | skills/cybermolt-reply-generator/agent.py:210-245 | The loop returns exactly what `RunFrom` gives from attempt 1: the result, the requests sent and the waits. It makes one call per attempt, sleeps between failed attempts and stops at the first reply. |
| ReplyGenerator.RequestCarriesTweet | skills/cybermolt-reply-generator/agent.py:209-215 | The request sent carries the stripped tweet, which can be read back out of its user message. It also carries the key after `Bearer `, and posts to the chat-completions path. |
| ReplyGenerator.GenerateReply | skills/cybermolt-reply-generator/agent.py:177-245 | Refused inputs give the validation error with no call and no wait. Otherwise the run on the request built from the stripped tweet and the normalised author meets `Retried`. The optional arguments default as in Python. |

## Left out

- HTTP, JSON decoding and `time.sleep` are inputs and outputs, not effects.
  - The HTTP exchange is the `network` input, one `Attempt` per call. `GenerateReply` and `RetryLoop` require one `Attempt` for each of the `max_retries` calls.
  - A body that is not JSON raises an error that is also a `RequestException`, so it is a `RequestFailed` attempt.
  - A `ValueError` the request layer raises before a body is decoded is supplied as a `ValueRaised` attempt, not derived.
  - The sleeps are returned as `waits`.
- Several texts Python computes are not recomputed. Each is supplied with the `Responded` attempt:
  - the text of a Python exception (`fault`);
  - the `json.dumps` text of a body (`dump`), because dict key order is not part of a `map`.
- Logging, `load_config`, `setup_logging`, the CLI `main` and the environment lookups are not part of this model.
- The prompt template's instruction prose is replaced by bracketed stand-ins. The text next to every hole (`@{author}`, `{tweet_content}`, `{address}`, `{min_len}-{max_len}`) is exact.
- `_call_api`'s `temperature` (0.75) and `top_p` (0.85) are floats and are not in `Request`. JSON numbers are integers, so floats in a response body are not modelled.
- `_call_api`'s optional `model`, `api_base`, `max_tokens` and `timeout` arguments: `generate_reply` always passes the first two and never the last two. `MakeRequest` therefore takes `model` and `apiBase` and uses 1024 and 30 for the others.
- Strings are sequences of Unicode scalar values, so a lone surrogate (which `json.loads` accepts as a `\ud800` escape, and which `len` counts as one character) cannot occur in a modelled body or reply.
- `None` arguments are not modelled. Strings are never `None` here.
- The docstring of `_call_api` (agent.py:135-137) lists a `ValueError` for an unexpected response format. The code does not always raise it, and the model follows the code. An `output` that is a scalar, a list or a string can make the legacy step crash, which gives an unknown error rather than the extraction `ValueError` (see `ScalarOutputCrashes`, `TextInStringOutputCrashes` and `ParseErrExactly`).
- The tweet-poster skill in the same repository is not part of this model.
