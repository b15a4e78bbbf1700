/** `generate_reply`: input checks, author normalisation, the bounded retry
    loop with exponential backoff, and the advisory length warning. The
    network is an input (one `Attempt` per call); the waits are returned
    instead of slept. */
module ReplyGenerator {
  import opened Settings
  import Text
  import Decimal
  import Prompt
  import opened ApiClient

  /** What `generate_reply` hands back to its caller. */
  datatype GenerateResult = GenerateResult(
    success: bool,
    reply: string,
    error: string,
    lengthWarning: string)

  const EMPTY_TWEET_ERROR: string := "Tweet content cannot be empty"
  const EMPTY_KEY_ERROR: string := "API Key cannot be empty"
  const EMPTY_AUTHOR_ERROR: string := "Author username cannot be empty"

  /** The input checks, in their order: the tweet must hold more than
      whitespace, the key must not be empty (whitespace is accepted), the
      author must hold more than whitespace. The first failing check names
      the error. */
  function Validate(tweetContent: string, apiKey: string, author: string): (error: Option<string>)
    ensures error.None? <==> !Text.Blank(tweetContent) && apiKey != [] && !Text.Blank(author)
    ensures Text.Blank(tweetContent) ==> error == Some(EMPTY_TWEET_ERROR)
    ensures !Text.Blank(tweetContent) && apiKey == [] ==> error == Some(EMPTY_KEY_ERROR)
    ensures !Text.Blank(tweetContent) && apiKey != [] && Text.Blank(author) ==> error == Some(EMPTY_AUTHOR_ERROR)
  {
    if tweetContent == [] || Text.Strip(tweetContent) == [] then Some(EMPTY_TWEET_ERROR)
    else if apiKey == [] then Some(EMPTY_KEY_ERROR)
    else if author == [] || Text.Strip(author) == [] then Some(EMPTY_AUTHOR_ERROR)
    else None
  }

  predicate IsAtSign(c: char) {
    c == '@'
  }

  /** `s.lstrip("@")`: `s` without its leading run of `@`. */
  function DropAtSigns(s: string): (handle: string)
    ensures handle == [] || handle[0] != '@'
    ensures |handle| <= |s| && handle == s[|s| - |handle|..]
    ensures Text.All(s[..|s| - |handle|], IsAtSign)
  {
    Text.LStrip(s, IsAtSign)
  }

  /** `author.strip().lstrip("@")`: the stripped author without any of its
      leading `@`. Whitespace between the `@` and the name survives. */
  function NormalizeAuthor(author: string): (handle: string)
    ensures handle == [] || handle[0] != '@'
    ensures var s := Text.Strip(author);
      && |handle| <= |s| && handle == s[|s| - |handle|..]
      && Text.All(s[..|s| - |handle|], IsAtSign)
    ensures handle == [] || !Text.IsWhitespace(handle[|handle| - 1])
  {
    var s := Text.Strip(author);
    var handle := DropAtSigns(s);
    assert handle == [] || handle[|handle| - 1] == s[|s| - 1];
    handle
  }

  /** An author of a single `@` passes the checks and leaves an empty
      handle: `generate_reply` does not check again after normalising. */
  lemma LoneAtSignPassesValidation(tweetContent: string, apiKey: string)
    requires !Text.Blank(tweetContent) && apiKey != []
    ensures Validate(tweetContent, apiKey, "@") == None
    ensures NormalizeAuthor("@") == []
  {
    assert !Text.IsWhitespace("@"[0]);
    assert Text.LStrip("@", IsAtSign) == [];
  }

  /** Normalising removes any run of leading `@` from a handle that is
      otherwise bare; with no `@`, an already bare handle is left as it
      is. */
  lemma NormalizeDropsAtSigns(atSigns: string, handle: string)
    requires Text.All(atSigns, IsAtSign)
    requires Text.Trimmed(handle, Text.IsWhitespace)
    requires handle == [] || handle[0] != '@'
    ensures NormalizeAuthor(atSigns + handle) == handle
  {
    AtSignsKeepTrimmed(atSigns, handle);
    Text.StripTrimmed(atSigns + handle);
    Text.LStripUnique(atSigns, handle, IsAtSign);
  }

  /** `@` is not whitespace, so leading `@` keep a bare handle bare. */
  lemma AtSignsKeepTrimmed(atSigns: string, handle: string)
    requires Text.All(atSigns, IsAtSign)
    requires Text.Trimmed(handle, Text.IsWhitespace)
    ensures Text.Trimmed(atSigns + handle, Text.IsWhitespace)
  {
    var s := atSigns + handle;
    if atSigns != [] {
      assert s[0] == '@';
      if handle == [] {
        assert s[|s| - 1] == '@';
      } else {
        assert s[|s| - 1] == handle[|handle| - 1];
      }
    }
  }

  const LENGTH_LABEL: string := "Reply length ("
  const BELOW_MINIMUM: string := " is below the recommended minimum ("
  const ABOVE_MAXIMUM: string := " exceeds the recommended maximum ("

  /** The text that opens every length warning: the measured length. */
  function LengthPrefix(length: nat): string {
    LENGTH_LABEL + Decimal.FromNat(length) + ")"
  }

  /** The advisory warning on the reply length: empty within the bounds,
      otherwise one of two messages that quote the measured length. A
      warning never makes the result a failure. */
  function LengthWarning(length: nat): (warning: string)
    ensures warning == [] <==> REPLY_MIN_LEN <= length <= REPLY_MAX_LEN
    ensures warning != [] ==> LengthPrefix(length) <= warning
  {
    if length < REPLY_MIN_LEN then
      LengthPrefix(length) + (BELOW_MINIMUM + Decimal.FromNat(REPLY_MIN_LEN) + ")")
    else if length > REPLY_MAX_LEN then
      LengthPrefix(length) + (ABOVE_MAXIMUM + Decimal.FromNat(REPLY_MAX_LEN) + ")")
    else
      ""
  }

  /** Which warning is given: the bounds appear as "80" and "200". */
  lemma WarningText(length: nat)
    ensures length < REPLY_MIN_LEN ==>
      LengthWarning(length) == LengthPrefix(length) + " is below the recommended minimum (80)"
    ensures length > REPLY_MAX_LEN ==>
      LengthWarning(length) == LengthPrefix(length) + " exceeds the recommended maximum (200)"
  {
    Prompt.BoundsRendered();
  }

  /** The length quoted in a warning reads back as the reply's length. */
  lemma WarningQuotesLength(length: nat)
    requires LengthWarning(length) != []
    ensures var w, k, n := LengthWarning(length), |LENGTH_LABEL|, |Decimal.FromNat(length)|;
      && k + n <= |w|
      && Decimal.AllDigits(w[k..k + n])
      && Decimal.Value(w[k..k + n]) == length
  {
    var w, p := LengthWarning(length), LengthPrefix(length);
    var k, n := |LENGTH_LABEL|, |Decimal.FromNat(length)|;
    Decimal.QuotedAfter(LENGTH_LABEL, length, ")");
    assert p == w[..|p|];
    assert w[k..k + n] == w[..|p|][k..k + n];
  }

  /** The result of a call whose inputs were refused. */
  function Rejected(error: string): (r: GenerateResult)
    ensures !r.success && r.error == error
    ensures r.reply == [] && r.lengthWarning == []
  {
    GenerateResult(false, "", error, "")
  }

  /** The result of the first attempt that produced a reply. */
  function Succeeded(reply: string): (r: GenerateResult)
    ensures r.success && r.reply == reply && r.error == []
    ensures r.lengthWarning == [] <==> REPLY_MIN_LEN <= |reply| <= REPLY_MAX_LEN
  {
    GenerateResult(true, reply, "", LengthWarning(|reply|))
  }

  const EXHAUSTED_LABEL: string := "Failed after "
  const RETRIES_SEPARATOR: string := " retries. Last error: "

  /** The result once every attempt has failed. */
  function Exhausted(maxRetries: int, lastError: string): (r: GenerateResult)
    ensures !r.success && r.reply == [] && r.lengthWarning == []
  {
    GenerateResult(false, "", EXHAUSTED_LABEL + Decimal.FromInt(maxRetries) + RETRIES_SEPARATOR + lastError, "")
  }

  /** The final error of a failed run ends with the last attempt's error
      text, from which `ClassifyError` reads back the failure. */
  lemma ExhaustedQuotesLastError(maxRetries: int, failure: Failure)
    ensures var e, last := Exhausted(maxRetries, ErrorText(failure)).error, ErrorText(failure);
      && |last| <= |e| && e[|e| - |last|..] == last
      && ClassifyError(e[|e| - |last|..]) == Some(failure)
  {
    ErrorTextRoundTrip(failure);
  }

  /** The final error of a failed run opens with the retry count, which
      reads back as `maxRetries`. */
  lemma ExhaustedQuotesRetries(maxRetries: nat, lastError: string)
    ensures var e, k, n := Exhausted(maxRetries, lastError).error, |EXHAUSTED_LABEL|, |Decimal.FromNat(maxRetries)|;
      && EXHAUSTED_LABEL <= e
      && k + n <= |e|
      && Decimal.AllDigits(e[k..k + n])
      && Decimal.Value(e[k..k + n]) == maxRetries
  {
    ExhaustedSpellsOut(maxRetries, lastError);
    Decimal.QuotedAfter(EXHAUSTED_LABEL, maxRetries, RETRIES_SEPARATOR + lastError);
  }

  /** The final error of a failed run, piece by piece. */
  lemma ExhaustedSpellsOut(maxRetries: nat, lastError: string)
    ensures Exhausted(maxRetries, lastError).error
      == EXHAUSTED_LABEL + Decimal.FromNat(maxRetries) + (RETRIES_SEPARATOR + lastError)
  {
    assert Decimal.FromInt(maxRetries) == Decimal.FromNat(maxRetries);
  }

  function Pow(base: nat, exponent: nat): nat {
    if exponent == 0 then 1 else base * Pow(base, exponent - 1)
  }

  /** The wait after failed attempt number `attempt` (counted from 1). */
  function Backoff(attempt: nat): nat {
    Pow(RETRY_BACKOFF_BASE, attempt)
  }

  function Sum(s: seq<nat>): nat {
    if s == [] then 0 else Sum(s[..|s| - 1]) + s[|s| - 1]
  }

  /** The waits 2, 4, ..., 2^n add up to 2^(n+1) - 2 seconds. */
  lemma {:induction false} TotalWait(waits: seq<nat>)
    requires forall i :: 0 <= i < |waits| ==> waits[i] == Backoff(i + 1)
    ensures Sum(waits) == Backoff(|waits| + 1) - 2
  {
    if waits != [] {
      var n := |waits|;
      var earlier := waits[..n - 1];
      assert forall i :: 0 <= i < |earlier| ==> earlier[i] == waits[i];
      TotalWait(earlier);
      assert Sum(waits) == Sum(earlier) + Backoff(n);
      assert Backoff(n + 1) == 2 * Backoff(n);
    }
  }

  /** What `_call_api` gives on each attempt: `Outcomes(network)[i]` is
      the result of attempt `i + 1`. */
  function Outcomes(network: seq<Attempt>): (outcomes: seq<CallResult>)
    ensures |outcomes| == |network|
    ensures forall i :: 0 <= i < |network| ==> outcomes[i] == CallApi(network[i])
  {
    if network == [] then [] else [CallApi(network[0])] + Outcomes(network[1..])
  }

  /** The retry loop of `generate_reply` for one prepared request, as seen
      from outside. `outcomes[i]` is what the call of attempt `i + 1`
      gives; `sent` lists the requests made and `waits` the backoff sleeps,
      in seconds, in order.
      - At most `maxRetries` calls are made, each sending `request`.
      - A wait of 2^k seconds follows failed attempt k unless it was the
        last one; no wait follows a success.
      - Every attempt but the last made one failed.
      - The result is a success exactly when one of the first `maxRetries`
        attempts yields a reply, and then it carries that reply.
      - When all fail, every attempt was made and the error quotes
        `maxRetries` and the last failure (the empty string when no attempt
        was made). */
  predicate Retried(request: Request, maxRetries: int, outcomes: seq<CallResult>,
                    result: GenerateResult, sent: seq<Request>, waits: seq<nat>)
    requires maxRetries <= |outcomes|
  {
    && |sent| <= (if maxRetries < 0 then 0 else maxRetries)
    && (forall i :: 0 <= i < |sent| ==> sent[i] == request)
    && |waits| == (if sent == [] then 0 else |sent| - 1)
    && (forall i :: 0 <= i < |waits| ==> waits[i] == Backoff(i + 1))
    && (forall i :: 0 <= i < |sent| - 1 ==> outcomes[i].Failed?)
    && (result.success <==> exists i :: 0 <= i < maxRetries && outcomes[i].Replied?)
    && (result.success ==>
          sent != [] && outcomes[|sent| - 1] == Replied(result.reply) && result == Succeeded(result.reply))
    && (!result.success ==>
          && |sent| == (if maxRetries < 0 then 0 else maxRetries)
          && (forall i :: 0 <= i < |sent| ==> outcomes[i].Failed?)
          && result == Exhausted(maxRetries, if sent == [] then "" else ErrorText(outcomes[|sent| - 1].failure)))
  }

  /** How a run of attempts ends: with the reply of the attempt that gave
      one, or out of attempts with the last failure, if any attempt was
      made. */
  datatype Ending = GotReply(reply: string) | OutOfAttempts(lastFailure: Option<Failure>)

  /** The `last_error` text: empty before the first failure. */
  function LastErrorText(lastFailure: Option<Failure>): string {
    match lastFailure
    case None => ""
    case Some(f) => ErrorText(f)
  }

  /** What a run of attempts produces: how it ended, the requests sent and
      the waits slept, in order. */
  datatype Run = Run(ending: Ending, sent: seq<Request>, waits: seq<nat>)

  /** The result `generate_reply` returns for a run that ended so. */
  function Finish(maxRetries: int, ending: Ending): (r: GenerateResult)
    ensures r.success <==> ending.GotReply?
    ensures ending.GotReply? ==> r == Succeeded(ending.reply)
    ensures ending.OutOfAttempts? ==> r == Exhausted(maxRetries, LastErrorText(ending.lastFailure))
  {
    match ending
    case GotReply(reply) => Succeeded(reply)
    case OutOfAttempts(lastFailure) => Exhausted(maxRetries, LastErrorText(lastFailure))
  }

  /** How many attempts remain from attempt number `attempt` on. */
  function Remaining(maxRetries: int, attempt: nat): nat {
    if attempt <= maxRetries then maxRetries - attempt + 1 else 0
  }

  /** The attempts from number `attempt` on, once the earlier ones have
      failed, the last of them with `lastFailure`: call, stop at a reply,
      otherwise record the failure and wait unless this was the last
      attempt. */
  function RunFrom(request: Request, maxRetries: int, outcomes: seq<CallResult>,
                   attempt: nat, lastFailure: Option<Failure>): Run
    requires 1 <= attempt && maxRetries <= |outcomes|
    decreases Remaining(maxRetries, attempt)
  {
    if attempt > maxRetries then Run(OutOfAttempts(lastFailure), [], [])
    else
      var outcome := outcomes[attempt - 1];
      if outcome.Replied? then Run(GotReply(outcome.text), [request], [])
      else
        var rest := RunFrom(request, maxRetries, outcomes, attempt + 1, Some(outcome.failure));
        Run(rest.ending, [request] + rest.sent,
            (if attempt < maxRetries then [Backoff(attempt)] else []) + rest.waits)
  }

  /** With no attempt left, the run makes no call and gives up with the
      error it was handed. */
  lemma RunEndStep(request: Request, maxRetries: int, outcomes: seq<CallResult>,
                   attempt: nat, lastFailure: Option<Failure>)
    requires 1 <= attempt && maxRetries <= |outcomes|
    requires attempt > maxRetries
    ensures var run := RunFrom(request, maxRetries, outcomes, attempt, lastFailure);
      run == Run(OutOfAttempts(lastFailure), [], [])
  {
  }

  /** An attempt that replies ends the run with that reply. */
  lemma RunReplyStep(request: Request, maxRetries: int, outcomes: seq<CallResult>,
                     attempt: nat, lastFailure: Option<Failure>)
    requires 1 <= attempt <= maxRetries <= |outcomes|
    requires outcomes[attempt - 1].Replied?
    ensures var run := RunFrom(request, maxRetries, outcomes, attempt, lastFailure);
      && run == Run(GotReply(outcomes[attempt - 1].text), [request], [])
      && outcomes[attempt - 1] == Replied(run.ending.reply)
  {
  }

  /** One failed attempt: the run from it is its request and wait followed
      by the run from the next attempt. */
  lemma RunStep(request: Request, maxRetries: int, outcomes: seq<CallResult>,
                attempt: nat, lastFailure: Option<Failure>)
    requires 1 <= attempt <= maxRetries <= |outcomes|
    requires outcomes[attempt - 1].Failed?
    ensures var rest := RunFrom(request, maxRetries, outcomes, attempt + 1, Some(outcomes[attempt - 1].failure));
      RunFrom(request, maxRetries, outcomes, attempt, lastFailure)
        == Run(rest.ending, [request] + rest.sent,
               (if attempt < maxRetries then [Backoff(attempt)] else []) + rest.waits)
  {
  }

  /** From attempt `attempt` on, every call sends `request`, at most one
      per remaining attempt, and at least one if any remain. */
  lemma {:induction false} RunSends(request: Request, maxRetries: int, outcomes: seq<CallResult>,
                                    attempt: nat, lastFailure: Option<Failure>)
    requires 1 <= attempt && maxRetries <= |outcomes|
    ensures var run := RunFrom(request, maxRetries, outcomes, attempt, lastFailure);
      && |run.sent| <= Remaining(maxRetries, attempt)
      && (attempt <= maxRetries <==> run.sent != [])
      && (forall i :: 0 <= i < |run.sent| ==> run.sent[i] == request)
    decreases Remaining(maxRetries, attempt)
  {
    if attempt > maxRetries {
      RunEndStep(request, maxRetries, outcomes, attempt, lastFailure);
    } else if outcomes[attempt - 1].Replied? {
      RunReplyStep(request, maxRetries, outcomes, attempt, lastFailure);
    } else {
      var next := Some(outcomes[attempt - 1].failure);
      var run, rest := RunFrom(request, maxRetries, outcomes, attempt, lastFailure),
                       RunFrom(request, maxRetries, outcomes, attempt + 1, next);
      RunStep(request, maxRetries, outcomes, attempt, lastFailure);
      RunSends(request, maxRetries, outcomes, attempt + 1, next);
      assert run.sent == [request] + rest.sent;
      forall i | 0 <= i < |run.sent|
        ensures run.sent[i] == request
      {
        if i > 0 {
          assert run.sent[i] == rest.sent[i - 1];
        }
      }
    }
  }

  /** From attempt `attempt` on, one wait falls between two consecutive
      calls, and the wait after attempt k is 2^k seconds. */
  lemma {:induction false} RunWaits(request: Request, maxRetries: int, outcomes: seq<CallResult>,
                                    attempt: nat, lastFailure: Option<Failure>)
    requires 1 <= attempt && maxRetries <= |outcomes|
    ensures var run := RunFrom(request, maxRetries, outcomes, attempt, lastFailure);
      && |run.waits| == (if run.sent == [] then 0 else |run.sent| - 1)
      && (forall i :: 0 <= i < |run.waits| ==> run.waits[i] == Backoff(attempt + i))
    decreases Remaining(maxRetries, attempt)
  {
    if attempt > maxRetries {
      RunEndStep(request, maxRetries, outcomes, attempt, lastFailure);
    } else if outcomes[attempt - 1].Replied? {
      RunReplyStep(request, maxRetries, outcomes, attempt, lastFailure);
    } else {
      var next := Some(outcomes[attempt - 1].failure);
      var run, rest := RunFrom(request, maxRetries, outcomes, attempt, lastFailure),
                       RunFrom(request, maxRetries, outcomes, attempt + 1, next);
      RunStep(request, maxRetries, outcomes, attempt, lastFailure);
      RunWaits(request, maxRetries, outcomes, attempt + 1, next);
      RunSends(request, maxRetries, outcomes, attempt + 1, next);
      var wait := if attempt < maxRetries then [Backoff(attempt)] else [];
      assert run.sent == [request] + rest.sent && run.waits == wait + rest.waits;
      assert attempt < maxRetries <==> rest.sent != [];
      forall i | 0 <= i < |run.waits|
        ensures run.waits[i] == Backoff(attempt + i)
      {
        if i > 0 {
          assert run.waits[i] == rest.waits[i - 1];
        }
      }
    }
  }

  /** From attempt `attempt` on, every call but the last one made failed. */
  lemma {:induction false} RunFailsBeforeLast(request: Request, maxRetries: int, outcomes: seq<CallResult>,
                                              attempt: nat, lastFailure: Option<Failure>)
    requires 1 <= attempt && maxRetries <= |outcomes|
    ensures var run := RunFrom(request, maxRetries, outcomes, attempt, lastFailure);
      && |run.sent| <= Remaining(maxRetries, attempt)
      && (forall i :: attempt - 1 <= i < attempt - 2 + |run.sent| ==> outcomes[i].Failed?)
    decreases Remaining(maxRetries, attempt)
  {
    RunSends(request, maxRetries, outcomes, attempt, lastFailure);
    if attempt > maxRetries {
      RunEndStep(request, maxRetries, outcomes, attempt, lastFailure);
    } else if outcomes[attempt - 1].Replied? {
      RunReplyStep(request, maxRetries, outcomes, attempt, lastFailure);
    } else {
      var next := Some(outcomes[attempt - 1].failure);
      var run, rest := RunFrom(request, maxRetries, outcomes, attempt, lastFailure),
                       RunFrom(request, maxRetries, outcomes, attempt + 1, next);
      RunStep(request, maxRetries, outcomes, attempt, lastFailure);
      RunFailsBeforeLast(request, maxRetries, outcomes, attempt + 1, next);
      assert |run.sent| == 1 + |rest.sent|;
      forall i | attempt - 1 <= i < attempt - 2 + |run.sent|
        ensures outcomes[i].Failed?
      {
        if i > attempt - 1 {
          assert attempt <= i < attempt - 1 + |rest.sent|;
        }
      }
    }
  }

  /** From attempt `attempt` on, the run succeeds exactly when a remaining
      attempt replies. */
  lemma {:induction false} RunSucceedsOnReply(request: Request, maxRetries: int, outcomes: seq<CallResult>,
                                              attempt: nat, lastFailure: Option<Failure>)
    requires 1 <= attempt && maxRetries <= |outcomes|
    ensures var run := RunFrom(request, maxRetries, outcomes, attempt, lastFailure);
      run.ending.GotReply? <==> exists i :: attempt - 1 <= i < maxRetries && outcomes[i].Replied?
    decreases Remaining(maxRetries, attempt)
  {
    if attempt > maxRetries {
      RunEndStep(request, maxRetries, outcomes, attempt, lastFailure);
    } else if outcomes[attempt - 1].Replied? {
      RunReplyStep(request, maxRetries, outcomes, attempt, lastFailure);
    } else {
      var next := Some(outcomes[attempt - 1].failure);
      var run, rest := RunFrom(request, maxRetries, outcomes, attempt, lastFailure),
                       RunFrom(request, maxRetries, outcomes, attempt + 1, next);
      RunStep(request, maxRetries, outcomes, attempt, lastFailure);
      RunSucceedsOnReply(request, maxRetries, outcomes, attempt + 1, next);
      assert run.ending == rest.ending;
      if run.ending.GotReply? {
        var k :| attempt <= k < maxRetries && outcomes[k].Replied?;
      } else {
        forall i | attempt - 1 <= i < maxRetries
          ensures !outcomes[i].Replied?
        {
          if i > attempt - 1 {
            assert attempt <= i < maxRetries;
          }
        }
      }
    }
  }

  /** From attempt `attempt` on, a successful run ends with its one reply:
      the outcome of its last call. */
  lemma {:induction false} RunEndsWithReply(request: Request, maxRetries: int, outcomes: seq<CallResult>,
                                            attempt: nat, lastFailure: Option<Failure>)
    requires 1 <= attempt && maxRetries <= |outcomes|
    ensures var run := RunFrom(request, maxRetries, outcomes, attempt, lastFailure);
      run.ending.GotReply? ==>
        && 1 <= |run.sent| <= Remaining(maxRetries, attempt)
        && outcomes[attempt - 2 + |run.sent|] == Replied(run.ending.reply)
    decreases Remaining(maxRetries, attempt)
  {
    if attempt > maxRetries {
      RunEndStep(request, maxRetries, outcomes, attempt, lastFailure);
    } else if outcomes[attempt - 1].Replied? {
      RunReplyStep(request, maxRetries, outcomes, attempt, lastFailure);
    } else {
      var next := Some(outcomes[attempt - 1].failure);
      var run, rest := RunFrom(request, maxRetries, outcomes, attempt, lastFailure),
                       RunFrom(request, maxRetries, outcomes, attempt + 1, next);
      RunStep(request, maxRetries, outcomes, attempt, lastFailure);
      RunEndsWithReply(request, maxRetries, outcomes, attempt + 1, next);
      if run.ending.GotReply? {
        assert rest.ending.GotReply? && |run.sent| == 1 + |rest.sent|;
        assert attempt - 2 + |run.sent| == (attempt + 1) - 2 + |rest.sent|;
      }
    }
  }

  /** From attempt `attempt` on, a run that fails makes every remaining
      attempt, and each of them failed. */
  lemma {:induction false} RunExhausts(request: Request, maxRetries: int, outcomes: seq<CallResult>,
                                       attempt: nat, lastFailure: Option<Failure>)
    requires 1 <= attempt && maxRetries <= |outcomes|
    ensures var run := RunFrom(request, maxRetries, outcomes, attempt, lastFailure);
      run.ending.OutOfAttempts? ==>
        && |run.sent| == Remaining(maxRetries, attempt)
        && (forall i :: attempt - 1 <= i < attempt - 1 + |run.sent| ==> outcomes[i].Failed?)
    decreases Remaining(maxRetries, attempt)
  {
    if attempt > maxRetries {
      RunEndStep(request, maxRetries, outcomes, attempt, lastFailure);
    } else if outcomes[attempt - 1].Replied? {
      RunReplyStep(request, maxRetries, outcomes, attempt, lastFailure);
    } else {
      var next := Some(outcomes[attempt - 1].failure);
      var run, rest := RunFrom(request, maxRetries, outcomes, attempt, lastFailure),
                       RunFrom(request, maxRetries, outcomes, attempt + 1, next);
      RunStep(request, maxRetries, outcomes, attempt, lastFailure);
      RunExhausts(request, maxRetries, outcomes, attempt + 1, next);
      if run.ending.OutOfAttempts? {
        assert rest.ending.OutOfAttempts? && |run.sent| == 1 + |rest.sent|;
        forall i | attempt - 1 <= i < attempt - 1 + |run.sent|
          ensures outcomes[i].Failed?
        {
          if i > attempt - 1 {
            assert attempt <= i < attempt + |rest.sent|;
          }
        }
      }
    }
  }

  /** From attempt `attempt` on, a run that fails quotes the last failure
      in its error, or `lastFailure` when no attempt remained. */
  lemma {:induction false} RunQuotesLastError(request: Request, maxRetries: int, outcomes: seq<CallResult>,
                                              attempt: nat, lastFailure: Option<Failure>)
    requires 1 <= attempt && maxRetries <= |outcomes|
    ensures var run := RunFrom(request, maxRetries, outcomes, attempt, lastFailure);
      run.ending.OutOfAttempts? ==>
        && |run.sent| <= Remaining(maxRetries, attempt)
        && (run.sent != [] ==> outcomes[attempt - 2 + |run.sent|].Failed?)
        && run.ending.lastFailure
             == (if run.sent == [] then lastFailure else Some(outcomes[attempt - 2 + |run.sent|].failure))
    decreases Remaining(maxRetries, attempt)
  {
    RunSends(request, maxRetries, outcomes, attempt, lastFailure);
    RunExhausts(request, maxRetries, outcomes, attempt, lastFailure);
    if attempt > maxRetries {
      RunEndStep(request, maxRetries, outcomes, attempt, lastFailure);
    } else if outcomes[attempt - 1].Replied? {
      RunReplyStep(request, maxRetries, outcomes, attempt, lastFailure);
    } else {
      var next := Some(outcomes[attempt - 1].failure);
      var run, rest := RunFrom(request, maxRetries, outcomes, attempt, lastFailure),
                       RunFrom(request, maxRetries, outcomes, attempt + 1, next);
      RunStep(request, maxRetries, outcomes, attempt, lastFailure);
      RunQuotesLastError(request, maxRetries, outcomes, attempt + 1, next);
      if run.ending.OutOfAttempts? {
        assert rest.ending.OutOfAttempts? && |run.sent| == 1 + |rest.sent|;
        if rest.sent != [] {
          assert attempt - 2 + |run.sent| == (attempt + 1) - 2 + |rest.sent|;
        }
      }
    }
  }

  /** A whole run, from the first attempt with no error yet, is what
      `Retried` describes. */
  lemma RunIsRetried(request: Request, maxRetries: int, outcomes: seq<CallResult>)
    requires maxRetries <= |outcomes|
    ensures var run := RunFrom(request, maxRetries, outcomes, 1, None);
      Retried(request, maxRetries, outcomes, Finish(maxRetries, run.ending), run.sent, run.waits)
  {
    RunSends(request, maxRetries, outcomes, 1, None);
    RunWaits(request, maxRetries, outcomes, 1, None);
    RunFailsBeforeLast(request, maxRetries, outcomes, 1, None);
    RunSucceedsOnReply(request, maxRetries, outcomes, 1, None);
    RunEndsWithReply(request, maxRetries, outcomes, 1, None);
    RunExhausts(request, maxRetries, outcomes, 1, None);
    RunQuotesLastError(request, maxRetries, outcomes, 1, None);
    var run := RunFrom(request, maxRetries, outcomes, 1, None);
    var result := Finish(maxRetries, run.ending);
    assert Remaining(maxRetries, 1) == (if maxRetries < 0 then 0 else maxRetries);
    if run.ending.GotReply? {
      assert result == Succeeded(run.ending.reply) && result.reply == run.ending.reply;
    } else if run.sent != [] {
      assert LastErrorText(run.ending.lastFailure) == ErrorText(outcomes[|run.sent| - 1].failure);
    }
  }

  /** A run in which every attempt failed has slept 2 + 4 + ... + 2^(n-1)
      seconds, that is 2^n - 2: six seconds with the default three
      retries. */
  lemma FailedRunSleeps(request: Request, maxRetries: int, outcomes: seq<CallResult>,
                        result: GenerateResult, sent: seq<Request>, waits: seq<nat>)
    requires 1 <= maxRetries <= |outcomes|
    requires Retried(request, maxRetries, outcomes, result, sent, waits)
    requires !result.success
    ensures |waits| == maxRetries - 1
    ensures Sum(waits) == Backoff(maxRetries) - 2
    ensures maxRetries == MAX_RETRIES ==> Sum(waits) == 6
  {
    FailedRunWaits(request, maxRetries, outcomes, result, sent, waits);
    TotalWait(waits);
  }

  /** A run in which every attempt failed waited after each attempt but
      the last. */
  lemma FailedRunWaits(request: Request, maxRetries: int, outcomes: seq<CallResult>,
                       result: GenerateResult, sent: seq<Request>, waits: seq<nat>)
    requires 1 <= maxRetries <= |outcomes|
    requires Retried(request, maxRetries, outcomes, result, sent, waits)
    requires !result.success
    ensures |waits| == maxRetries - 1
    ensures forall i :: 0 <= i < |waits| ==> waits[i] == Backoff(i + 1)
  {
  }

  /** The `for` loop of `generate_reply`: one call per attempt, a backoff
      sleep between failed attempts, stopping at the first reply. */
  method RetryLoop(request: Request, maxRetries: int, network: seq<Attempt>)
    returns (result: GenerateResult, sent: seq<Request>, waits: seq<nat>)
    requires maxRetries <= |network|
    ensures var run := RunFrom(request, maxRetries, Outcomes(network), 1, None);
      result == Finish(maxRetries, run.ending) && sent == run.sent && waits == run.waits
  {
    ghost var outcomes := Outcomes(network);
    ghost var lastFailure: Option<Failure> := None;
    var lastError := "";
    sent, waits := [], [];
    var attempt := 1;
    while attempt <= maxRetries
      invariant 1 <= attempt
      invariant lastError == LastErrorText(lastFailure)
      invariant var rest := RunFrom(request, maxRetries, outcomes, attempt, lastFailure);
        RunFrom(request, maxRetries, outcomes, 1, None) == Run(rest.ending, sent + rest.sent, waits + rest.waits)
      decreases Remaining(maxRetries, attempt)
    {
      ghost var before := RunFrom(request, maxRetries, outcomes, attempt, lastFailure);
      ghost var sentBefore, waitsBefore := sent, waits;
      var outcome := CallApi(network[attempt - 1]);
      assert outcome == outcomes[attempt - 1];
      sent := sent + [request];
      if outcome.Replied? {
        result := Succeeded(outcome.text);
        return;
      }
      var wait := if attempt < maxRetries then [Backoff(attempt)] else [];
      RunStep(request, maxRetries, outcomes, attempt, lastFailure);
      lastError := ErrorText(outcome.failure);
      lastFailure := Some(outcome.failure);
      waits := waits + wait;
      attempt := attempt + 1;
      ghost var after := RunFrom(request, maxRetries, outcomes, attempt, lastFailure);
      assert before == Run(after.ending, [request] + after.sent, wait + after.waits);
      assert sentBefore + before.sent == sent + after.sent;
      assert waitsBefore + before.waits == waits + after.waits;
    }
    result := Exhausted(maxRetries, lastError);
  }

  /** The request `generate_reply` sends carries the stripped tweet, which
      can be read back out of its user message, and posts to the
      chat-completions path. */
  lemma RequestCarriesTweet(tweetContent: string, apiKey: string, author: string, model: string, apiBase: string)
    ensures var request := MakeRequest(Prompt.BuildPrompt(Text.Strip(tweetContent), NormalizeAuthor(author)),
                                       apiKey, model, apiBase);
      && Prompt.TweetOf(request.messages[1].content, NormalizeAuthor(author)) == Text.Strip(tweetContent)
      && request.authorization[|BEARER|..] == apiKey
      && CHAT_COMPLETIONS_PATH <= request.url[|request.url| - |CHAT_COMPLETIONS_PATH|..]
  {
    Prompt.TweetRoundTrip(Text.Strip(tweetContent), NormalizeAuthor(author));
  }

  /** The author `generate_reply` assumes when none is given. */
  const DEFAULT_AUTHOR: string := "cz_binance"

  /** `generate_reply`: refused inputs make no call and no wait; otherwise
      the retry loop runs on the request built from the stripped tweet and
      the normalised author. The optional arguments take the same defaults
      as in Python. */
  method GenerateReply(tweetContent: string, apiKey: string, network: seq<Attempt>,
                       author: string := DEFAULT_AUTHOR, model: string := DEFAULT_MODEL,
                       apiBase: string := DEFAULT_API_BASE, maxRetries: int := MAX_RETRIES)
    returns (result: GenerateResult, sent: seq<Request>, waits: seq<nat>)
    requires maxRetries <= |network|
    ensures Validate(tweetContent, apiKey, author).Some? ==>
      result == Rejected(Validate(tweetContent, apiKey, author).value) && sent == [] && waits == []
    ensures Validate(tweetContent, apiKey, author).None? ==>
      var request := MakeRequest(Prompt.BuildPrompt(Text.Strip(tweetContent), NormalizeAuthor(author)),
                                 apiKey, model, apiBase);
      Retried(request, maxRetries, Outcomes(network), result, sent, waits)
  {
    var refusal := Validate(tweetContent, apiKey, author);
    if refusal.Some? {
      return Rejected(refusal.value), [], [];
    }
    var handle := NormalizeAuthor(author);
    var prompt := Prompt.BuildPrompt(Text.Strip(tweetContent), handle);
    var request := MakeRequest(prompt, apiKey, model, apiBase);
    result, sent, waits := RetryLoop(request, maxRetries, network);
    RunIsRetried(request, maxRetries, Outcomes(network));
  }
}
