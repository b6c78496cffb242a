/** The `GET` handler of the kayak route (app/api/kayaks/route.ts): the
    static-export and API-key guards, fence stripping and bracket repair of
    the completion, the whole-text parse with fragment recovery as its
    fallback, the array check, and the validator filter capped at four
    records. Every failure is a `{error, details}` body with status 500. */
module KayaksRoute {

  import opened Wrappers
  import opened Text
  import opened Seqs
  import opened JsValues
  import opened Fences
  import opened Recovery
  import opened KayakValidator

  /** The two environment variables the handler reads. */
  datatype Env = Env(nodeEnv: Option<string>, apiKey: Option<string>)

  /** `process.env.NODE_ENV === 'production'`. */
  predicate Production(env: Env)
  {
    env.nodeEnv == Some("production")
  }

  /** `!process.env.NEXT_PUBLIC_OPENROUTER_API_KEY` is false: the variable
      is set to a non-empty string. */
  predicate KeyConfigured(env: Env)
  {
    env.apiKey.Some? && |env.apiKey.value| > 0
  }

  /** What `await queryOpenRouter(prompt)` gives the handler: the completion
      text, or the value it throws (`Some(message)` for an `Error`, `None`
      for anything else). */
  datatype Upstream = Completion(text: string) | Failed(thrown: Option<string>)

  /** A response: the JSON array of records (status 200), or an
      `{error, details}` object with its status. */
  datatype Response = Data(records: seq<JsValue>) | Error(status: nat, error: string, details: string)

  function Status(r: Response): nat
  {
    if r.Data? then 200 else r.status
  }

  const StaticExportError: Response :=
    Error(500, "API endpoint not available in static export", "This endpoint requires a server environment")
  const MissingKeyError: Response :=
    Error(500, "OpenRouter API key is not configured", "Please check your environment variables")
  const NothingParsedError: Response :=
    Error(500, "No valid entries found", "Could not parse any complete kayak entries")
  const NothingMatchedError: Response :=
    Error(500, "No valid kayak entries found", "Response did not contain any valid kayak data")
  const NotAnArrayError: Response :=
    Error(500, "Invalid response format", "API response was not an array")
  const NoValidRecordError: Response :=
    Error(500, "No valid kayak entries found", "API response contained no valid kayak data")

  function UpstreamError(thrown: Option<string>): Response
  {
    Error(500, "OpenRouter API error", if thrown.Some? then thrown.value else "Unknown API error")
  }

  function ParseError(message: string): Response
  {
    Error(500, "Failed to parse API response", message)
  }

  /** Appends `}` when the text ends with `{`, then `]` when it does not
      end with `]`. */
  function RepairBrackets(clean: string): (r: string)
    ensures EndsWith(r, ']')
    ensures |clean| <= |r| <= |clean| + 2 && r[..|clean|] == clean
    ensures EndsWith(clean, '{') ==> r == clean + "}]"
    ensures EndsWith(clean, ']') ==> r == clean
    ensures !EndsWith(clean, '{') && !EndsWith(clean, ']') ==> r == clean + "]"
  {
    var c := if EndsWith(clean, '{') then clean + "}" else clean;
    if EndsWith(c, ']') then c else c + "]"
  }

  /** The cleaned text the handler parses. */
  function CleanText(completion: string): (r: string)
    ensures EndsWith(r, ']')
  {
    RepairBrackets(StripFences(completion))
  }

  /** Where the parse stage ends: a JavaScript value, or an error response. */
  datatype Stage = Value(value: JsValue) | Failure(response: Response)

  /** The whole-text parse, falling back to fragment recovery and a parse
      of the rebuilt array when the whole text does not parse. */
  function ParseStage(clean: string, parse: string -> ParseResult): (r: Stage)
    ensures parse(clean).Parsed? ==> r == Value(parse(clean).value)
    ensures parse(clean).SyntaxError? && |Fragments(clean)| == 0 ==> r == Failure(NothingMatchedError)
    ensures parse(clean).SyntaxError? && |Fragments(clean)| > 0 && NoneParses(Take(Fragments(clean), 4), parse)
            ==> r == Failure(NothingParsedError)
    ensures r.Value? && parse(clean).SyntaxError? ==>
              exists survivors :: SurvivorsOf(survivors, Take(Fragments(clean), 4), parse)
                && parse("[" + Join(survivors, ",") + "]") == Parsed(r.value)
    ensures r.Failure? ==> r.response.Error? && r.response.status == 500
    ensures parse(clean).SyntaxError? && Recover(clean, parse).Rebuilt? ==>
              var rebuilt := parse(Recover(clean, parse).text);
              && (rebuilt.Parsed? ==> r == Value(rebuilt.value))
              && (rebuilt.SyntaxError? ==> r == Failure(ParseError(rebuilt.message)))
  {
    match parse(clean)
    case Parsed(v) => Value(v)
    case SyntaxError(_) =>
      match Recover(clean, parse)
      case NoMatch => Failure(NothingMatchedError)
      case NoneParsed => Failure(NothingParsedError)
      case Rebuilt(survivors, text) =>
        assert SurvivorsOf(survivors, Take(Fragments(clean), 4), parse);
        match parse(text)
        case Parsed(v) => Value(v)
        case SyntaxError(m) => Failure(ParseError(m))
  }

  /** `kayakData.filter(isValidKayakReview).slice(0, 4)`. */
  function Select(data: seq<JsValue>): (r: seq<JsValue>)
    ensures |r| == if Count(IsValidKayakReview, data) <= 4 then Count(IsValidKayakReview, data) else 4
    ensures forall i :: 0 <= i < |r| ==> IsReviewRecord(r[i])
    ensures IsSubsequence(r, data)
  {
    var valid := Filter(IsValidKayakReview, data);
    TakeIsSubsequence(valid, 4);
    SubsequenceTransitive(Take(valid, 4), valid, data);
    assert forall i :: 0 <= i < |Take(valid, 4)| ==> IsReviewRecord(Take(valid, 4)[i]) by {
      forall i | 0 <= i < |Take(valid, 4)| {
        ValidatorAcceptsExactlyRecords(Take(valid, 4)[i]);
      }
    }
    Take(valid, 4)
  }

  /** The handler after a completion arrives. */
  function Extract(completion: string, parse: string -> ParseResult): (r: Response)
    ensures r.Error? ==> r.status == 500
    ensures r.Data? ==> 1 <= |r.records| <= 4
    ensures r.Data? ==> forall i :: 0 <= i < |r.records| ==> IsReviewRecord(r.records[i])
    ensures r.Data? ==>
              var s := ParseStage(CleanText(completion), parse);
              s.Value? && s.value.Arr? && IsSubsequence(r.records, s.value.elems)
              && r.records == Select(s.value.elems)
    ensures ParseStage(CleanText(completion), parse).Failure? ==>
              r == ParseStage(CleanText(completion), parse).response
    ensures ParseStage(CleanText(completion), parse).Value? && !ParseStage(CleanText(completion), parse).value.Arr?
            ==> r == NotAnArrayError
    ensures var s := ParseStage(CleanText(completion), parse);
            s.Value? && s.value.Arr? && Count(IsValidKayakReview, s.value.elems) == 0 ==> r == NoValidRecordError
    ensures var s := ParseStage(CleanText(completion), parse);
            s.Value? && s.value.Arr? && Count(IsValidKayakReview, s.value.elems) > 0 ==> r == Data(Select(s.value.elems))
  {
    match ParseStage(CleanText(completion), parse)
    case Failure(e) => e
    case Value(v) =>
      if !v.Arr? then NotAnArrayError
      else
        var valid := Select(v.elems);
        if |valid| == 0 then NoValidRecordError else Data(valid)
  }

  /** The whole handler. The upstream result is consulted only after both
      guards pass, as the query is made only then. */
  function HandleGet(env: Env, upstream: Upstream, parse: string -> ParseResult): (r: Response)
    ensures Production(env) ==> r == StaticExportError
    ensures !Production(env) && !KeyConfigured(env) ==> r == MissingKeyError
    ensures r.Error? ==> r.status == 500
    ensures r.Data? ==> 1 <= |r.records| <= 4 && upstream.Completion?
    ensures r.Data? ==> forall i :: 0 <= i < |r.records| ==> IsValidKayakReview(r.records[i])
    ensures !Production(env) && KeyConfigured(env) && upstream.Failed? ==> r == UpstreamError(upstream.thrown)
    ensures !Production(env) && KeyConfigured(env) && upstream.Completion? ==> r == Extract(upstream.text, parse)
  {
    if Production(env) then StaticExportError
    else if !KeyConfigured(env) then MissingKeyError
    else
      match upstream
      case Failed(thrown) => UpstreamError(thrown)
      case Completion(text) =>
        var r := Extract(text, parse);
        assert r.Data? ==> forall i :: 0 <= i < |r.records| ==> IsValidKayakReview(r.records[i]) by {
          if r.Data? {
            forall i | 0 <= i < |r.records| {
              ValidatorAcceptsExactlyRecords(r.records[i]);
            }
          }
        }
        r
  }

  /** Past both guards, a completion whose parsed array holds a valid record
      is answered with data: the first four valid records. */
  lemma ValidRecordsServed(env: Env, text: string, parse: string -> ParseResult)
    requires !Production(env) && KeyConfigured(env)
    requires var s := ParseStage(CleanText(text), parse);
             s.Value? && s.value.Arr? && Count(IsValidKayakReview, s.value.elems) > 0
    ensures HandleGet(env, Completion(text), parse) == Data(Select(ParseStage(CleanText(text), parse).value.elems))
    ensures 1 <= |HandleGet(env, Completion(text), parse).records| <= 4
  {
  }

  /** In production, and without an API key, the answer does not depend on
      what the model would have said. */
  lemma GuardsPrecedeQuery(env: Env, u1: Upstream, u2: Upstream, p1: string -> ParseResult, p2: string -> ParseResult)
    requires Production(env) || !KeyConfigured(env)
    ensures HandleGet(env, u1, p1) == HandleGet(env, u2, p2)
    ensures HandleGet(env, u1, p1).Error?
  {
  }

  /** Four or more valid records give exactly the first four of them; fewer
      give all of them. */
  lemma {:induction false} SelectTakesLeadingRecords(a: seq<JsValue>, b: seq<JsValue>)
    requires Count(IsValidKayakReview, a) >= 4
    ensures Select(a + b) == Select(a)
  {
    FilterConcat(IsValidKayakReview, a, b);
    TakeOfPrefix(Filter(IsValidKayakReview, a), Filter(IsValidKayakReview, b), 4);
  }

  /** Records before which nothing is valid are skipped. */
  lemma {:induction false} SelectSkipsInvalid(a: seq<JsValue>, b: seq<JsValue>)
    requires Count(IsValidKayakReview, a) == 0
    ensures Select(a + b) == Select(b)
  {
    FilterConcat(IsValidKayakReview, a, b);
    assert Filter(IsValidKayakReview, a) == [];
    assert Filter(IsValidKayakReview, a) + Filter(IsValidKayakReview, b) == Filter(IsValidKayakReview, b);
  }

  /** An array of records is cut to its first four. */
  lemma {:induction false} SelectOfRecords(data: seq<JsValue>)
    requires forall i :: 0 <= i < |data| ==> IsReviewRecord(data[i])
    ensures Select(data) == Take(data, 4)
  {
    forall i | 0 <= i < |data|
      ensures IsValidKayakReview(data[i])
    {
      ValidatorAcceptsExactlyRecords(data[i]);
    }
    FilterAll(IsValidKayakReview, data);
  }

  /** A fenced completion holding an array of at least one record parses
      whole, and the handler answers with its first four records. */
  lemma FencedArrayServed(body: string, parse: string -> ParseResult, records: seq<JsValue>)
    requires NoBacktick(body) && EndsWith(Trim(body), ']')
    requires parse(Trim(body)) == Parsed(Arr(records))
    requires |records| > 0 && forall i :: 0 <= i < |records| ==> IsReviewRecord(records[i])
    ensures Extract("```json\n" + body + "\n```", parse) == Data(Take(records, 4))
  {
    FencedPayloadRecovered(body);
    assert CleanText("```json\n" + body + "\n```") == Trim(body);
    SelectOfRecords(records);
  }

  /** A completion without any `{` that does not parse whole has no
      fragment to recover. */
  lemma NoBraceNoEntries(completion: string, parse: string -> ParseResult)
    requires '{' !in completion
    requires parse(CleanText(completion)).SyntaxError?
    ensures Extract(completion, parse) == NothingMatchedError
  {
    NoBraceSurvivesCleaning(completion);
    FragmentsNeedBrace(CleanText(completion));
  }

  /** Cleaning only deletes characters, so it adds no `{`. */
  lemma NoBraceSurvivesCleaning(completion: string)
    requires '{' !in completion
    ensures '{' !in CleanText(completion)
  {
    var removed := RemoveFences(completion);
    if '{' in removed {
      SubsequenceMembers(removed, completion, '{');
    }
    var t := StripFences(completion);
    assert t == TrimEnd(TrimStart(removed));
    assert '{' !in TrimStart(removed);
    assert '{' !in t;
  }
}
