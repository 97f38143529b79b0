/**
 * The client-side search hook: the state a search page renders, the record-spread
 * transitions a search applies to it, and how a reply of the search endpoint (or a
 * failure to get one) ends up in that state.
 */
module NewsSearch {
  import opened Wrappers
  import opened JsValues
  import Text
  import Constants
  import NewsParser
  import SearchRoute

  /** The hook's state. `news` and `ticker` hold whatever the endpoint's JSON carried. */
  datatype SearchState = SearchState(
    news: JsValue,
    ticker: JsValue,
    isLoading: bool,
    error: Option<string>,
    hasSearched: bool)

  const InitialState := SearchState(Arr([]), Null, false, None, false)

  const BlankInputMessage := "Por favor, introduce un ticker para buscar"
  const UnknownErrorMessage := "Error desconocido"

  /** The hook's blank-input message is the shared `TICKER_REQUIRED` message. */
  lemma BlankInputMessageIsShared()
    ensures BlankInputMessage == Constants.TickerRequiredMessage
  {
  }

  // The state updaters.

  /** A blank input only records the error. */
  function Refused(prev: SearchState): SearchState {
    prev.(error := Some(BlankInputMessage))
  }

  /** The search starts: loading, no error, and a search has happened. */
  function Started(prev: SearchState): SearchState {
    prev.(isLoading := true, error := None, hasSearched := true)
  }

  /** The endpoint answered with news: keep its news and ticker. */
  function Succeeded(prev: SearchState, news: JsValue, ticker: JsValue): SearchState {
    prev.(news := news, ticker := ticker, isLoading := false, error := None)
  }

  /** Anything was thrown: drop the news, keep the previous ticker, show the message. */
  function Failed(prev: SearchState, message: string): SearchState {
    prev.(news := Arr([]), isLoading := false, error := Some(message))
  }

  // The request and what comes back.

  /** `JSON.stringify({ ticker: trimmedTicker })`, as the value it encodes. */
  function RequestBody(trimmed: string): JsValue {
    Obj(map["ticker" := Str(trimmed)])
  }

  /** What `fetch` and `response.json()` give: a rejection, or a status and the body
    * read as JSON (a body that is not JSON rejects with an error of its own). */
  datatype HttpOutcome =
    | Rejected(reason: Thrown)
    | Answered(status: int, json: Result<JsValue, Thrown>)

  /** The endpoint as the client sees it: from the request body to the outcome. */
  type Transport = JsValue -> HttpOutcome

  /** `err instanceof Error ? err.message : "Error desconocido"`. */
  function ThrownMessage(t: Thrown): (m: string)
    ensures t.ErrorInstance? ==> m == t.message
    ensures t.OtherValue? ==> m == UnknownErrorMessage
  {
    match t
    case ErrorInstance(_, message, _) => message
    case OtherValue(_) => UnknownErrorMessage
  }

  /** `data.error || \`Error ${response.status}\``, converted by `new Error(…)`. */
  function StatusMessage(data: JsValue, status: int): string
    requires !IsNullish(data)
  {
    var e := Get(data, "error").value;
    if Truthy(e) then ToJsString(e) else "Error " + Text.IntToDecimal(status)
  }

  /** A 2xx reply whose body is `null`. The success updater reads `data.news` only when
    * React runs it, which is outside the search's `try`: the TypeError is thrown when
    * the component renders, and the update is never applied. */
  predicate UpdaterThrows(outcome: HttpOutcome) {
    outcome.Answered? && outcome.json.Success? && IsNullish(outcome.json.value)
    && SearchRoute.IsOk(outcome.status)
  }

  /** The transition that ends a started search. Reading `data.error` of a `null` body
    * after an error status throws inside the `try`, with a TypeError message that belongs
    * to the engine: `nullAccess` gives it for the property's name. A 2xx `null` body
    * leaves the state as it was (see UpdaterThrows). */
  function Settled(prev: SearchState, outcome: HttpOutcome, nullAccess: string -> string): SearchState {
    match outcome
    case Rejected(reason) => Failed(prev, ThrownMessage(reason))
    case Answered(status, json) =>
      match json
      case Failure(reason) => Failed(prev, ThrownMessage(reason))
      case Success(data) =>
        if !SearchRoute.IsOk(status) then
          if IsNullish(data) then Failed(prev, nullAccess("error")) else Failed(prev, StatusMessage(data, status))
        else if IsNullish(data) then prev
        else Succeeded(prev, Get(data, "news").value, Get(data, "ticker").value)
  }

  /** The state a `search(input)` call leaves behind. */
  function Searched(prev: SearchState, input: string, transport: Transport, nullAccess: string -> string): SearchState {
    var trimmed := Text.Trim(input);
    if trimmed == [] then Refused(prev)
    else Settled(Started(prev), transport(RequestBody(trimmed)), nullAccess)
  }

  /** The error the component's next render throws after `search(input)`: the engine's
    * message for reading `news` of `null`, exactly when the search was sent and its
    * updater throws. */
  function RenderError(input: string, transport: Transport, nullAccess: string -> string): (r: Option<string>)
    ensures r.Some? <==> !Text.AllSpace(input) && UpdaterThrows(transport(RequestBody(Text.Trim(input))))
    ensures r.Some? ==> r.value == nullAccess("news")
  {
    Text.TrimEmptyIff(input);
    var trimmed := Text.Trim(input);
    if trimmed != [] && UpdaterThrows(transport(RequestBody(trimmed))) then Some(nullAccess("news")) else None
  }

  /** A successful outcome: a 2xx status with a body that is neither `null` nor unreadable. */
  predicate Delivered(outcome: HttpOutcome) {
    outcome.Answered? && outcome.json.Success? && !IsNullish(outcome.json.value)
    && SearchRoute.IsOk(outcome.status)
  }

  /** The hook: its state and the two operations it returns. */
  class NewsSearchHook {
    var state: SearchState

    constructor()
      ensures state == InitialState
    {
      state := InitialState;
    }

    /** `search(tickerInput)`: two or three updates around one request, and the error,
      * if any, that an update throws when React applies it during the next render. */
    method Search(input: string, transport: Transport, nullAccess: string -> string)
      returns (renderError: Option<string>)
      modifies this
      ensures state == Searched(old(state), input, transport, nullAccess)
      ensures renderError == RenderError(input, transport, nullAccess)
    {
      var trimmed := Text.Trim(input);
      renderError := None;
      if trimmed == [] {
        state := Refused(state);
        return;
      }
      state := Started(state);
      var outcome := transport(RequestBody(trimmed));
      if UpdaterThrows(outcome) {
        renderError := Some(nullAccess("news"));
      }
      state := Settled(state, outcome, nullAccess);
    }

    /** `reset()`: back to the initial state. */
    method Reset()
      modifies this
      ensures state == InitialState
    {
      state := InitialState;
    }
  }

  // Properties of a search.

  /** A blank input sends nothing: only the error changes, whatever the endpoint would
    * have answered. */
  lemma BlankInputOnlySetsError(prev: SearchState, input: string, f: Transport, g: Transport, nullAccess: string -> string)
    requires Text.AllSpace(input)
    ensures Searched(prev, input, f, nullAccess) == prev.(error := Some(Constants.TickerRequiredMessage))
    ensures Searched(prev, input, f, nullAccess) == Searched(prev, input, g, nullAccess)
  {
  }

  /** The search sends the trimmed input, with its case kept, and depends on the
    * endpoint only through the answer to that request. */
  lemma OnlyTheTrimmedRequestMatters(prev: SearchState, input: string, f: Transport, g: Transport, nullAccess: string -> string)
    requires f(RequestBody(Text.Trim(input))) == g(RequestBody(Text.Trim(input)))
    ensures Searched(prev, input, f, nullAccess) == Searched(prev, input, g, nullAccess)
  {
  }

  /** Once a non-blank search ends it counts as searched, and it is no longer loading
    * unless its success updater threw, which leaves the in-flight state in place. It shows
    * an error exactly when the outcome was neither a successful one nor one whose updater
    * threw, and a failure keeps the previous ticker and drops the news. */
  lemma SearchSettles(prev: SearchState, input: string, transport: Transport, nullAccess: string -> string)
    requires !Text.AllSpace(input)
    ensures var s := Searched(prev, input, transport, nullAccess);
      s.hasSearched && (!s.isLoading <==> !UpdaterThrows(transport(RequestBody(Text.Trim(input)))))
    ensures var s := Searched(prev, input, transport, nullAccess);
      UpdaterThrows(transport(RequestBody(Text.Trim(input)))) ==> s == Started(prev)
    ensures var s := Searched(prev, input, transport, nullAccess);
      s.error.None? <==>
        Delivered(transport(RequestBody(Text.Trim(input)))) || UpdaterThrows(transport(RequestBody(Text.Trim(input))))
    ensures var s := Searched(prev, input, transport, nullAccess);
      s.error.Some? ==> s.news == Arr([]) && s.ticker == prev.ticker
  {
  }

  /** While the request is in flight the previous news and ticker stay on screen,
    * with the loading flag set and no error. */
  lemma LoadingKeepsPreviousResults(prev: SearchState)
    ensures var s := Started(prev);
      s.isLoading && s.error.None? && s.hasSearched && s.news == prev.news && s.ticker == prev.ticker
  {
  }

  /** A successful outcome shows the endpoint's news and ticker. */
  lemma SuccessShowsReply(prev: SearchState, input: string, transport: Transport, nullAccess: string -> string)
    requires !Text.AllSpace(input) && Delivered(transport(RequestBody(Text.Trim(input))))
    ensures var data := transport(RequestBody(Text.Trim(input))).json.value;
      var s := Searched(prev, input, transport, nullAccess);
      s.news == Get(data, "news").value && s.ticker == Get(data, "ticker").value
  {
  }

  /** A request that throws, or a body that cannot be read as JSON, shows what was
    * thrown: an Error's own message, or the generic message for any other value. */
  lemma ThrownFailureShowsItsMessage(prev: SearchState, input: string, transport: Transport, nullAccess: string -> string)
    requires !Text.AllSpace(input)
    ensures var o := transport(RequestBody(Text.Trim(input)));
      var s := Searched(prev, input, transport, nullAccess);
      o.Rejected? ==> s.error == Some(ThrownMessage(o.reason))
    ensures var o := transport(RequestBody(Text.Trim(input)));
      var s := Searched(prev, input, transport, nullAccess);
      o.Answered? && o.json.Failure? ==> s.error == Some(ThrownMessage(o.json.error))
  {
    Text.TrimEmptyIff(input);
  }

  /** An error status without an error message in the body is reported with the status,
    * which can be read back from the message. */
  lemma StatusNamedWhenBodyIsSilent(prev: SearchState, data: JsValue, status: int, nullAccess: string -> string)
    requires !IsNullish(data) && !SearchRoute.IsOk(status) && !Truthy(Get(data, "error").value)
    ensures var m := Settled(prev, Answered(status, Success(data)), nullAccess).error.value;
      Text.StartsWith(m, "Error ") && Text.SignedDecimalValue(m[6..]) == status
  {
    var m := "Error " + Text.IntToDecimal(status);
    Text.SignedDecimalRoundTrip(status);
    assert m[..6] == "Error " && m[6..] == Text.IntToDecimal(status);
  }

  // The hook against the search endpoint.

  /** `NextResponse.json(body)`: a reply body as the JSON value the client reads. */
  function ReplyJson(body: SearchRoute.ReplyBody): (v: JsValue)
    ensures v.Obj?
    ensures body.NewsBody? ==> "ticker" in v.fields && v.fields["ticker"] == Str(body.ticker)
    ensures !body.NewsBody? ==> "error" in v.fields && v.fields["error"] == Str(body.error)
  {
    match body
    case ErrorBody(e) => Obj(map["error" := Str(e)])
    case ParseFailureBody(e, raw) => Obj(map["error" := Str(e), "rawContent" := raw])
    case NewsBody(t, news, usage) =>
      Obj(map["ticker" := Str(t), "news" := Arr(NewsParser.ToJsonList(news)), "usage" := usage])
  }

  /** The endpoint reached over HTTP: the handler's reply, delivered. */
  function Endpoint(apiKey: Option<string>, fetch: SearchRoute.Fetch, parse: JsonParser, today: string): Transport
  {
    body => var reply := SearchRoute.Post(Success(body), apiKey, fetch, parse, today).0;
      Answered(reply.status, Success(ReplyJson(reply.body)))
  }

  /** How a search settles on a reply of the endpoint: news replies show their ticker
    * and no error, error replies show their message. */
  lemma SettledOnReply(prev: SearchState, reply: SearchRoute.Reply, nullAccess: string -> string)
    ensures var s := Settled(prev, Answered(reply.status, Success(ReplyJson(reply.body))), nullAccess);
      reply.status == 200 && reply.body.NewsBody? ==> s.error.None? && s.ticker == Str(reply.body.ticker)
    ensures var s := Settled(prev, Answered(reply.status, Success(ReplyJson(reply.body))), nullAccess);
      SearchRoute.IsError(reply) && reply.body.error != "" && !SearchRoute.IsOk(reply.status) ==>
        s.error == Some(reply.body.error)
  {
  }

  /** Searching through the endpoint: a 200 reply shows the ticker trimmed and
    * upper-cased, with no error; any other reply shows the endpoint's own message. */
  lemma EndpointReplyIsShown(prev: SearchState, input: string, apiKey: Option<string>, fetch: SearchRoute.Fetch,
                             parse: JsonParser, today: string, nullAccess: string -> string)
    requires !Text.AllSpace(input)
    ensures var reply := SearchRoute.Post(Success(RequestBody(Text.Trim(input))), apiKey, fetch, parse, today).0;
      var s := Searched(prev, input, Endpoint(apiKey, fetch, parse, today), nullAccess);
      reply.status == 200 ==> s.error.None? && s.ticker == Str(Text.ToUpper(Text.Trim(input)))
    ensures var reply := SearchRoute.Post(Success(RequestBody(Text.Trim(input))), apiKey, fetch, parse, today).0;
      var s := Searched(prev, input, Endpoint(apiKey, fetch, parse, today), nullAccess);
      reply.status != 200 ==> s.error == Some(reply.body.error)
  {
    var trimmed := Text.Trim(input);
    Text.TrimEmptyIff(input);
    Text.TrimIdempotent(input);
    var body := RequestBody(trimmed);
    var reply := SearchRoute.Post(Success(body), apiKey, fetch, parse, today).0;
    assert Endpoint(apiKey, fetch, parse, today)(body) == Answered(reply.status, Success(ReplyJson(reply.body)));
    SettledOnReply(Started(prev), reply, nullAccess);
  }
}
