/** A structured-output call that is validated against a schema and, while
    the response does not validate, re-prompted with the previous response
    and a readable account of its validation error. */
module RunnableWithRetries {
  import opened Collections
  import opened Strings

  // =====================================================================
  // Values and validation errors
  // =====================================================================

  /** A parsed JSON value, as a structured-output call returns it. */
  datatype Json =
    | JNull
    | JBool(b: bool)
    | JNum(n: int)
    | JStr(s: string)
    | JArr(items: seq<Json>)
    | JObj(fields: seq<(string, Json)>)

  /** A JavaScript value met while walking into a response. */
  datatype JsValue = Defined(json: Json) | Undefined

  /** One step of a validation issue's path: a property name or an array index. */
  datatype PathSeg = Key(key: string) | Index(index: nat)

  datatype IssueCode = InvalidType | OtherCode(name: string)

  /** A validation issue: its code, where it is, and (for type errors) the
      type found and the type wanted. */
  datatype ZodIssue = ZodIssue(code: IssueCode, path: seq<PathSeg>, received: string, expected: string)

  /** A validation error: its issues and the text `toString()` gives for it. */
  datatype ZodError = ZodError(issues: seq<ZodIssue>, text: string)

  /** The formatter's result: a message, or the exception the path walk (or
      the length of an undefined serialisation) raises. */
  datatype FormatResult = Formatted(message: string) | Threw

  // =====================================================================
  // formatZodErrorForLlm
  // =====================================================================

  /** `x[p]`: indexing `undefined` or `null` throws (None); a missing
      property or index is `undefined`. */
  function Step(x: JsValue, p: PathSeg): Option<JsValue> {
    match x
    case Undefined => None
    case Defined(JNull) => None
    case Defined(JObj(fields)) =>
      var k := match p case Key(k) => k case Index(n) => NatToString(n);
      Some(match Lookup(fields, k) case Some(v) => Defined(v) case None => Undefined)
    case Defined(JArr(items)) =>
      Some(match p case Index(n) => (if n < |items| then Defined(items[n]) else Undefined) case Key(_) => Undefined)
    case Defined(_) => Some(Undefined)
  }

  /** The loop `for (const p of issue.path) x = x[p]`. */
  function Walk(x: JsValue, path: seq<PathSeg>): Option<JsValue>
    decreases |path|
  {
    if path == [] then Some(x)
    else match Step(x, path[0])
         case None => None
         case Some(y) => Walk(y, path[1..])
  }

  /** `issue.path.join(".")` */
  function PathText(path: seq<PathSeg>): string {
    JoinWith(seq(|path|, i requires 0 <= i < |path| => match path[i] case Key(k) => k case Index(n) => NatToString(n)), ".")
  }

  function UndefinedMessage(issue: ZodIssue): string {
    "response." + PathText(issue.path) + " is undefined, but it should be a " + issue.expected
  }

  function WrongValueMessage(wrongValue: string, issue: ZodIssue): string {
    "You wrote\n\n" + wrongValue + "\n\nbut that has the wrong type " + issue.received + ". Change it to have type " + issue.expected + "."
  }

  /** Values whose serialisation is at most this long get the generic message. */
  const ShortValueLength: nat := 10

  /** `formatZodErrorForLlm(value, e)`; `stringify` is `JSON.stringify`. */
  function FormatZodErrorForLlm(value: Json, e: ZodError, stringify: Json -> string): FormatResult {
    if |e.issues| == 1 && e.issues[0].code == InvalidType then
      var issue := e.issues[0];
      if issue.received == "undefined" then Formatted(UndefinedMessage(issue))
      else match Walk(Defined(value), issue.path)
           case None => Threw
           case Some(Undefined) => Threw
           case Some(Defined(x)) =>
             if |stringify(x)| > ShortValueLength then Formatted(WrongValueMessage(stringify(x), issue))
             else Formatted(e.text)
    else Formatted(e.text)
  }

  /** A single type issue about a missing value is reported by its path and expected type. */
  lemma FormatMissingValue(value: Json, e: ZodError, stringify: Json -> string)
    requires |e.issues| == 1 && e.issues[0].code == InvalidType && e.issues[0].received == "undefined"
    ensures FormatZodErrorForLlm(value, e, stringify) == Formatted(UndefinedMessage(e.issues[0]))
    ensures EndsWith(UndefinedMessage(e.issues[0]), e.issues[0].expected)
  {
  }

  /** A single type issue about a value that serialises to more than ten
      characters shows that serialisation, verbatim, after "You wrote". */
  lemma FormatLongWrongValue(value: Json, e: ZodError, stringify: Json -> string, x: Json)
    requires |e.issues| == 1 && e.issues[0].code == InvalidType && e.issues[0].received != "undefined"
    requires Walk(Defined(value), e.issues[0].path) == Some(Defined(x))
    requires |stringify(x)| > ShortValueLength
    ensures FormatZodErrorForLlm(value, e, stringify) == Formatted(WrongValueMessage(stringify(x), e.issues[0]))
    ensures OccursAt(WrongValueMessage(stringify(x), e.issues[0]), stringify(x), 11)
  {
    var w := stringify(x);
    var m := WrongValueMessage(w, e.issues[0]);
    assert m[11..11 + |w|] == w;
  }

  /** Every other error gets `e.toString()`: several issues, another issue
      code, or a wrong value whose serialisation is short. */
  lemma FormatFallsBack(value: Json, e: ZodError, stringify: Json -> string)
    requires || |e.issues| != 1
             || e.issues[0].code != InvalidType
             || (&& e.issues[0].received != "undefined"
                 && exists x :: Walk(Defined(value), e.issues[0].path) == Some(Defined(x)) && |stringify(x)| <= ShortValueLength)
    ensures FormatZodErrorForLlm(value, e, stringify) == Formatted(e.text)
  {
  }

  /** The formatter throws exactly when a single type issue with a found
      value points at a path that cannot be walked, or at nothing. */
  lemma FormatThrowsIff(value: Json, e: ZodError, stringify: Json -> string)
    ensures FormatZodErrorForLlm(value, e, stringify) == Threw <==>
            && |e.issues| == 1 && e.issues[0].code == InvalidType && e.issues[0].received != "undefined"
            && (Walk(Defined(value), e.issues[0].path).None? || Walk(Defined(value), e.issues[0].path) == Some(Undefined))
  {
  }

  /** Only a single type issue ever gets a message of its own. */
  lemma FormatSpecialOnlyForSingleTypeIssue(value: Json, e: ZodError, stringify: Json -> string)
    requires FormatZodErrorForLlm(value, e, stringify).Formatted?
    requires FormatZodErrorForLlm(value, e, stringify).message != e.text
    ensures |e.issues| == 1 && e.issues[0].code == InvalidType
  {
  }

  /** Walking an object by a property it has finds that property's value. */
  lemma {:induction false} WalkFindsField(fields: Dict<Json>, i: nat)
    requires i < |fields|
    ensures Walk(Defined(JObj(fields)), [Key(fields[i].0)]) == Some(Defined(fields[i].1))
  {
    LookupAt(fields, i);
  }

  // =====================================================================
  // The validated runner of createValidatedRunnable
  // =====================================================================

  /** The validator's verdict: the parsed data, or the error. */
  datatype Validation<Z> = Valid(data: Z) | Invalid(error: ZodError)

  /** What one provider call is sent: the caller's parameters through the
      original prompt, or the revision prompt filled with the rendered
      original prompt, the last completion and the formatted error. */
  datatype RunRequest =
    | Original
    | Revise(originalPrompt: string, completion: string, error: string)

  /** How a run ends: the validated data, the "after maximum attempts"
      error, or an exception from formatting the error. */
  datatype RunOutcome<Z> = Returned(data: Z) | Exhausted | FormatterThrew

  const DefaultMaxAttempts: int := 3

  /** Everything a run depends on: the provider's answer to call number
      `k`, the schema validator, `JSON.stringify`, the rendered original
      prompt, and `maxAttempts`. */
  datatype RunEnv<Z> = RunEnv(
    provider: (nat, RunRequest) -> Json,
    validate: Json -> Validation<Z>,
    stringify: Json -> string,
    renderedPrompt: string,
    maxAttempts: int)

  /** The retry loop from `attempt` on, having got `response` with `lastError`. */
  function Retries<Z>(env: RunEnv<Z>, attempt: int, response: Json, lastError: ZodError, requests: seq<RunRequest>): (RunOutcome<Z>, seq<RunRequest>)
    decreases if attempt <= env.maxAttempts then env.maxAttempts - attempt + 1 else 0
  {
    if attempt > env.maxAttempts then (Exhausted, requests)
    else match FormatZodErrorForLlm(response, lastError, env.stringify)
         case Threw => (FormatterThrew, requests)
         case Formatted(error) =>
           var request := Revise(env.renderedPrompt, env.stringify(response), error);
           var next := env.provider(|requests|, request);
           match env.validate(next)
           case Valid(data) => (Returned(data), requests + [request])
           case Invalid(err) => Retries(env, attempt + 1, next, err, requests + [request])
  }

  /** A whole run: the outcome and the requests sent, in order. */
  function ValidatedRun<Z>(env: RunEnv<Z>): (RunOutcome<Z>, seq<RunRequest>) {
    var response := env.provider(0, Original);
    match env.validate(response)
    case Valid(data) => (Returned(data), [Original])
    case Invalid(err) => Retries(env, 1, response, err, [Original])
  }

  /** The response to call `k` of a run. */
  function Response<Z>(env: RunEnv<Z>, requests: seq<RunRequest>, k: nat): Json
    requires k < |requests|
  {
    env.provider(k, requests[k])
  }

  /** Call `k` follows an invalid response to call `k - 1` and is built from
      that response and its error alone. */
  ghost predicate RevisesPrevious<Z>(env: RunEnv<Z>, requests: seq<RunRequest>, k: nat)
    requires 0 < k < |requests|
  {
    var prev := Response(env, requests, k - 1);
    && env.validate(prev).Invalid?
    && FormatZodErrorForLlm(prev, env.validate(prev).error, env.stringify).Formatted?
    && requests[k] == Revise(env.renderedPrompt, env.stringify(prev), FormatZodErrorForLlm(prev, env.validate(prev).error, env.stringify).message)
  }

  /** The first call sends the original prompt; every later one revises the previous. */
  ghost predicate Chained<Z>(env: RunEnv<Z>, requests: seq<RunRequest>) {
    && |requests| >= 1
    && requests[0] == Original
    && forall k :: 0 < k < |requests| ==> RevisesPrevious(env, requests, k)
  }

  function MaxCalls(maxAttempts: int): nat {
    if maxAttempts > 0 then 1 + maxAttempts else 1
  }

  /** What a finished run guarantees. */
  ghost predicate RunFacts<Z>(env: RunEnv<Z>, outcome: RunOutcome<Z>, requests: seq<RunRequest>) {
    && Chained(env, requests)
    && |requests| <= MaxCalls(env.maxAttempts)
    && var last := Response(env, requests, |requests| - 1);
       && (outcome.Returned? <==> env.validate(last).Valid?)
       && (outcome.Returned? ==> env.validate(last) == Valid(outcome.data))
       && (outcome.Exhausted? <==> |requests| == MaxCalls(env.maxAttempts) && env.validate(last).Invalid?)
       && (outcome.FormatterThrew? ==> |requests| < MaxCalls(env.maxAttempts)
                                       && FormatZodErrorForLlm(last, env.validate(last).error, env.stringify) == Threw)
  }

  lemma ChainedSnoc<Z>(env: RunEnv<Z>, requests: seq<RunRequest>, err: ZodError, error: string)
    requires Chained(env, requests)
    requires env.validate(Response(env, requests, |requests| - 1)) == Invalid(err)
    requires FormatZodErrorForLlm(Response(env, requests, |requests| - 1), err, env.stringify) == Formatted(error)
    ensures Chained(env, requests + [Revise(env.renderedPrompt, env.stringify(Response(env, requests, |requests| - 1)), error)])
  {
    var r := requests + [Revise(env.renderedPrompt, env.stringify(Response(env, requests, |requests| - 1)), error)];
    forall k | 0 < k < |r| ensures RevisesPrevious(env, r, k) {
      assert r[k - 1] == requests[k - 1];
      if k < |requests| {
        assert r[k] == requests[k];
        assert RevisesPrevious(env, requests, k);
      }
    }
  }

  lemma {:induction false} RetriesSpec<Z>(env: RunEnv<Z>, attempt: int, response: Json, lastError: ZodError, requests: seq<RunRequest>)
    requires 1 <= attempt <= MaxCalls(env.maxAttempts) && |requests| == attempt
    requires Chained(env, requests)
    requires Response(env, requests, attempt - 1) == response
    requires env.validate(response) == Invalid(lastError)
    ensures var (outcome, reqs) := Retries(env, attempt, response, lastError, requests);
            RunFacts(env, outcome, reqs)
    decreases if attempt <= env.maxAttempts then env.maxAttempts - attempt + 1 else 0
  {
    if attempt <= env.maxAttempts {
      match FormatZodErrorForLlm(response, lastError, env.stringify)
      case Threw =>
      case Formatted(error) =>
        var request := Revise(env.renderedPrompt, env.stringify(response), error);
        var requests' := requests + [request];
        ChainedSnoc(env, requests, lastError, error);
        var next := env.provider(|requests|, request);
        assert Response(env, requests', attempt) == next;
        match env.validate(next)
        case Valid(data) =>
        case Invalid(err) =>
          RetriesSpec(env, attempt + 1, next, err, requests');
    }
  }

  /** The run makes at most `maxAttempts + 1` calls (one when `maxAttempts`
      is not positive); each call after the first is built from the previous
      response and its error; the run returns exactly when the last response
      validates, its data; it gives up exactly when every call is spent and
      the last response is invalid, so the formatter can only throw before
      the last call. */
  lemma ValidatedRunSpec<Z>(env: RunEnv<Z>)
    ensures var (outcome, requests) := ValidatedRun(env);
            RunFacts(env, outcome, requests)
  {
    var response := env.provider(0, Original);
    match env.validate(response)
    case Valid(data) =>
    case Invalid(err) =>
      RetriesSpec(env, 1, response, err, [Original]);
  }

  /** The run returns the first response that validates: every earlier one is invalid. */
  lemma ReturnsFirstValid<Z>(env: RunEnv<Z>)
    ensures var (outcome, requests) := ValidatedRun(env);
            forall k :: 0 <= k < |requests| - 1 ==> env.validate(Response(env, requests, k)).Invalid?
  {
    ValidatedRunSpec(env);
    var (outcome, requests) := ValidatedRun(env);
    forall k | 0 <= k < |requests| - 1 ensures env.validate(Response(env, requests, k)).Invalid? {
      assert RevisesPrevious(env, requests, k + 1);
    }
  }

  /** With the default `maxAttempts` of 3 a run makes at most four calls,
      and gives up only after the fourth. */
  lemma DefaultRunMakesAtMostFourCalls<Z>(env: RunEnv<Z>)
    requires env.maxAttempts == DefaultMaxAttempts
    ensures |ValidatedRun(env).1| <= 4
    ensures ValidatedRun(env).0.Exhausted? ==> |ValidatedRun(env).1| == 4
  {
    ValidatedRunSpec(env);
  }

  /** With `maxAttempts` not positive there is one call and no retry. */
  lemma NoRetriesWithoutAttempts<Z>(env: RunEnv<Z>)
    requires env.maxAttempts <= 0
    ensures ValidatedRun(env).1 == [Original]
    ensures ValidatedRun(env).0.Returned? || ValidatedRun(env).0.Exhausted?
  {
  }

  /** `createValidatedRunnable(...).invoke(params)`: the happy path, then the
      retry loop. */
  method RunValidated<Z>(env: RunEnv<Z>) returns (outcome: RunOutcome<Z>, requests: seq<RunRequest>)
    ensures (outcome, requests) == ValidatedRun(env)
    ensures RunFacts(env, outcome, requests)
  {
    ValidatedRunSpec(env);
    requests := [Original];
    var response := env.provider(0, Original);
    var validationResult := env.validate(response);
    if validationResult.Valid? {
      return Returned(validationResult.data), requests;
    }
    var attempt := 1;
    var lastError := validationResult.error;
    while attempt <= env.maxAttempts
      invariant 1 <= attempt && |requests| == attempt
      invariant Retries(env, attempt, response, lastError, requests) == ValidatedRun(env)
      decreases env.maxAttempts - attempt + 1
    {
      var lastResponse := response;
      var formatted := FormatZodErrorForLlm(lastResponse, lastError, env.stringify);
      if formatted.Threw? {
        return FormatterThrew, requests;
      }
      var request := Revise(env.renderedPrompt, env.stringify(lastResponse), formatted.message);
      response := env.provider(|requests|, request);
      requests := requests + [request];
      validationResult := env.validate(response);
      if validationResult.Valid? {
        return Returned(validationResult.data), requests;
      } else {
        lastError := validationResult.error;
        attempt := attempt + 1;
      }
    }
    return Exhausted, requests;
  }
}
