/**
 * The news-search endpoint (`POST /api/busqueda`): admission of the request body,
 * the prompt sent to the search provider, and the mapping of the provider's reply
 * to the endpoint's reply. The provider call itself is a parameter.
 */
module SearchRoute {
  import opened Wrappers
  import opened JsValues
  import opened NewsTypes
  import Text
  import Constants
  import NewsParser

  // ---------------------------------------------------------------------------
  // Prompts

  const SystemPrompt :=
    "Eres un especialista en análisis de noticias "
    + "financieras con acceso a información de mercado "
    + "en tiempo real. Tu rol es extraer y validar "
    + "noticias relevantes sobre acciones específicas, "
    + "priorizando:\n"
    + "1. Fuentes verificadas y reconocidas (Reuters, "
    + "Bloomberg, Financial Times, AP, etc.)\n"
    + "2. Información factual y contrastada, no "
    + "especulaciones\n"
    + "3. Impacto en el mercado (relevancia para "
    + "inversores)\n"
    + "4. Estructura de datos consistente y parseable\n"
    + "\n"
    + "Siempre valida que:\n"
    + "- Las URLs sean accesibles y contengan el "
    + "artículo completo\n"
    + "- Las fechas sean recientes (últimas 72 horas "
    + "preferentemente)\n"
    + "- Los resúmenes capturen información material, "
    + "no trivial"

  /** The user prompt up to the ticker. */
  const PromptHead :=
    "Busca y extrae las últimas 5 noticias "
    + "financieras MÁS RELEVANTES sobre la acción "

  /** The user prompt from the ticker to the list of suggested tags. */
  const PromptBody :=
    ".\n"
    + "\n"
    + "CRITERIOS DE BÚSQUEDA:\n"
    + "- Período: último mes\n"
    + "- Relevancia: solo noticias con impacto en "
    + "precio o decisiones de inversión\n"
    + "- Fuentes: medios financieros reconocidos "
    + "(Reuters, Bloomberg, CNBC, Financial Times, "
    + "WSJ, etc.)\n"
    + "- Excluir noticias duplicadas o repetidas\n"
    + "\n"
    + "IDIOMA: TODO el contenido debe estar en "
    + "ESPAÑOL. Traduce los títulos y resúmenes al "
    + "español.\n"
    + "\n"
    + "RESPONDE ÚNICAMENTE CON UN ARRAY JSON VÁLIDO "
    + "con este formato exacto:\n"
    + "[\n"
    + "  {\n"
    + "    \"title\": \"Título de la noticia EN ESPAÑOL\",\n"
    + "    \"summary\": \"Resumen EN ESPAÑOL de máximo "
    + "120 palabras explicando QUÉ pasó, POR QUÉ es "
    + "relevante e IMPACTO esperado\",\n"
    + "    \"date\": \"2024-12-14\",\n"
    + "    \"source\": \"Nombre del medio\",\n"
    + "    \"url\": \"https://ejemplo.com/noticia\",\n"
    + "    \"impact_level\": \"HIGH\",\n"
    + "    \"tags\": [\"earnings\", \"acquisition\"]\n"
    + "  }\n"
    + "]\n"
    + "\n"
    + "REGLAS:\n"
    + "- IMPORTANTE: Títulos y resúmenes SIEMPRE en "
    + "español\n"
    + "- impact_level debe ser: \"HIGH\", \"MEDIUM\" o "
    + "\"LOW\"\n"
    + "- tags pueden incluir: "

  /** The tags the prompt suggests, in the order it lists them. */
  const PromptTags: seq<string> := [
    "earnings", "acquisition", "regulatory", "partnership", "product", "analyst", "lawsuit",
    "ceo", "dividend", "guidance"
  ]

  /** The user prompt after the list of suggested tags. */
  const PromptTail :=
    "\n"
    + "- Si no encuentras noticias relevantes, "
    + "devuelve un array vacío: []\n"
    + "- NO incluyas texto adicional antes o después "
    + "del JSON\n"
    + "- Solo devuelve el array JSON, nada más"

  /** The suggested tags as the prompt writes them: joined by a comma and a space. */
  const PromptTagList := Text.Join(PromptTags, ", ")

  /** Everything in the user prompt after the ticker; it does not depend on the ticker. */
  const PromptRest := PromptBody + PromptTagList + PromptTail

  /** `buildUserPrompt`: the fixed instructions with the ticker inserted once. */
  function BuildUserPrompt(ticker: string): string
  {
    PromptHead + ticker + PromptRest
  }

  /** Distinct tickers give distinct prompts. */
  lemma UserPromptInjective(a: string, b: string)
    requires BuildUserPrompt(a) == BuildUserPrompt(b)
    ensures a == b
  {
    SameSurroundings(PromptHead, a, b, PromptRest);
  }

  /** Two concatenations with the same head and tail agree in the middle too. */
  lemma SameSurroundings(head: string, a: string, b: string, tail: string)
    requires head + a + tail == head + b + tail
    ensures a == b
  {
    var p := head + a + tail;
    assert |a| == |b|;
    assert p[|head|..|head| + |a|] == a;
    assert (head + b + tail)[|head|..|head| + |b|] == b;
  }

  /** Every tag the prompt suggests belongs to the application's tag vocabulary. */
  lemma PromptTagsAreKnown()
    ensures forall i :: 0 <= i < |PromptTags| ==> PromptTags[i] in Constants.NewsTags
  {
  }

  // ---------------------------------------------------------------------------
  // The provider request

  /** What the endpoint sends to the provider: the two-message conversation (the system
    * instruction, then the user instruction) and the settings. The sampling parameters,
    * which are floating point, are not part of the model. */
  datatype ProviderRequest = ProviderRequest(
    url: string,
    authorization: string,
    model: string,
    systemMessage: string,
    userMessage: string,
    maxTokens: int,
    searchRecency: string,
    searchContextSize: string)

  // The literals the endpoint writes into its request.
  const RouteUrl := "https://api.perplexity.ai/chat/completions"
  const RouteModel := "sonar-pro"
  const RouteMaxTokens := 2500
  const RouteSearchRecency := "month"
  const RouteSearchContextSize := "high"

  /** The request for a normalised ticker and a credential. */
  function RequestFor(ticker: string, apiKey: string): ProviderRequest
  {
    ProviderRequest(
      RouteUrl, "Bearer " + apiKey, RouteModel, SystemPrompt, BuildUserPrompt(ticker),
      RouteMaxTokens, RouteSearchRecency, RouteSearchContextSize)
  }

  /** The endpoint writes the same provider settings the central configuration holds. */
  lemma RequestAgreesWithConfiguration()
    ensures RouteUrl == Constants.PerplexityUrl && RouteModel == Constants.PerplexityModel
    ensures RouteMaxTokens == Constants.PerplexityMaxTokens
    ensures RouteSearchRecency == Constants.PerplexitySearchRecency
    ensures RouteSearchContextSize == Constants.PerplexitySearchContextSize
  {
  }

  // ---------------------------------------------------------------------------
  // Replies

  const TickerRequired := "El ticker es requerido"
  const MissingApiKey := "API key de Perplexity no configurada"
  const NoContent := "No se recibió respuesta de la API"
  const ParseFailure := "Error al parsear la respuesta de la API"
  const InternalError := "Error interno del servidor"
  const UpstreamErrorPrefix := "Error de la API de Perplexity: "

  datatype ReplyBody =
    | ErrorBody(error: string)
    | ParseFailureBody(error: string, rawContent: JsValue)
    | NewsBody(ticker: string, news: seq<NewsItem>, usage: JsValue)

  datatype Reply = Reply(status: int, body: ReplyBody)

  /** A reply whose body carries an error message. */
  predicate IsError(r: Reply) {
    r.body.ErrorBody? || r.body.ParseFailureBody?
  }

  // ---------------------------------------------------------------------------
  // Admission

  /** A request the endpoint lets through: the normalised ticker and the credential. */
  datatype Admitted = Admitted(ticker: string, apiKey: string)

  /** `process.env.PERPLEXITY_API_KEY`, unset or set. */
  predicate HasKey(apiKey: Option<string>) {
    apiKey.Some? && apiKey.value != ""
  }

  /** The ticker field of a parsed body when it is a non-empty string. */
  predicate HasTicker(body: JsValue) {
    var t := Get(body, "ticker");
    t.Some? && t.value.Str? && t.value.s != ""
  }

  /** `ticker.trim().toUpperCase()`. */
  function NormalisedTicker(body: JsValue): string
    requires HasTicker(body)
  {
    Text.ToUpper(Text.Trim(Get(body, "ticker").value.s))
  }

  /** The steps before the provider call: read the body (a failed read or a `null` body
    * throws and is answered 500), require a non-empty string ticker (400), require the
    * credential (500), then normalise the ticker and build the request. */
  function Admit(body: Result<JsValue, SyntaxError>, apiKey: Option<string>): (r: Result<Admitted, Reply>)
    ensures r.Success? <==> body.Success? && HasTicker(body.value) && HasKey(apiKey)
    ensures r.Failure? ==> IsError(r.error) && r.error.status in {400, 500} && r.error.body.error != ""
    ensures r.Success? ==>
      var t := NormalisedTicker(body.value);
      r.value == Admitted(t, apiKey.value)
  {
    match body
    case Failure(_) => Failure(Reply(500, ErrorBody(InternalError)))
    case Success(b) =>
      match Get(b, "ticker")
      case None => Failure(Reply(500, ErrorBody(InternalError)))
      case Some(t) =>
        if !Truthy(t) || !t.Str? then Failure(Reply(400, ErrorBody(TickerRequired)))
        else if !HasKey(apiKey) then Failure(Reply(500, ErrorBody(MissingApiKey)))
        else
          var ticker := NormalisedTicker(b);
          Success(Admitted(ticker, apiKey.value))
  }

  /** A missing or non-string ticker is answered 400 whatever the credential: the ticker
    * is checked first. */
  lemma TickerCheckedBeforeKey(body: JsValue, apiKey: Option<string>)
    requires !IsNullish(body) && !HasTicker(body)
    ensures Admit(Success(body), apiKey) == Failure(Reply(400, ErrorBody(TickerRequired)))
  {
  }

  /** With a ticker present, a missing credential is answered 500 and nothing is sent. */
  lemma MissingKeyIsServerError(body: JsValue, apiKey: Option<string>)
    requires HasTicker(body) && !HasKey(apiKey)
    ensures Admit(Success(body), apiKey) == Failure(Reply(500, ErrorBody(MissingApiKey)))
  {
  }

  /** A normalised ticker carries no surrounding whitespace and no lower-case ASCII
    * letter. */
  lemma NormalisedTickerShape(s: string)
    ensures var t := Text.ToUpper(Text.Trim(s));
      && (|t| == 0 || (!Text.IsJsSpace(t[0]) && !Text.IsJsSpace(t[|t| - 1])))
      && forall i :: 0 <= i < |t| ==> !('a' <= t[i] <= 'z')
  {
  }

  /** Upper-casing never turns a non-space into a space. */
  lemma UpperKeepsNonSpace(c: char)
    requires !Text.IsJsSpace(c)
    ensures !Text.IsJsSpace(Text.UpperChar(c))
  {
  }

  /** The endpoint does not validate the ticker's shape: a ticker of spaces passes the
    * presence check and an empty ticker is searched for. */
  lemma BlankTickerIsSearched(spaces: string, apiKey: string)
    requires |spaces| > 0 && Text.AllSpace(spaces) && apiKey != ""
    ensures var r := Admit(Success(Obj(map["ticker" := Str(spaces)])), Some(apiKey));
      r.Success? && r.value.ticker == ""
  {
  }

  // ---------------------------------------------------------------------------
  // The provider's reply

  /** The outcome of `fetch`: it throws (network failure), or yields a status and the
    * result `response.json()` would give. */
  datatype UpstreamReply =
    | NetworkFailure
    | HttpReply(status: int, json: Result<JsValue, SyntaxError>)

  /** `response.ok`. */
  predicate IsOk(status: int) {
    200 <= status <= 299
  }

  /** `data.choices[0]?.message?.content`, or None where it throws (`data` or
    * `data.choices` nullish). */
  function ContentOf(data: JsValue): (r: Option<JsValue>)
    ensures r.None? <==> IsNullish(data) || IsNullish(Get(data, "choices").value)
  {
    match Get(data, "choices")
    case None => None
    case Some(choices) =>
      match At0(choices)
      case None => None
      case Some(first) => Some(GetOptional(GetOptional(first, "message"), "content"))
  }

  /** The provider's content of a well-formed completion. */
  lemma ContentOfCompletion(content: JsValue, rest: seq<JsValue>)
    ensures ContentOf(Obj(map["choices" := Arr([Obj(map["message" := Obj(map["content" := content])])] + rest)]))
      == Some(content)
  {
  }

  /** The parse block applied to string content: clean, extract, parse, filter and
    * coerce (see NewsParser.ParseNews). */
  type ContentParser = string -> Result<seq<NewsItem>, NewsParser.ParseError>

  /** The endpoint's parse block for a given `JSON.parse` and date of today. */
  function ParseBlock(parse: JsonParser, today: string): (p: ContentParser)
    ensures forall c :: p(c) == NewsParser.ParseNews(c, parse, today)
  {
    c => NewsParser.ParseNews(c, parse, today)
  }

  /** A status `NextResponse.json` can build a reply with: `Response` throws a RangeError
    * outside 200 to 599 and a TypeError for the statuses whose responses carry no body. */
  predicate CanCarryBody(status: int) {
    200 <= status <= 599 && status != 204 && status != 205 && status != 304
  }

  /** Everything after the provider call: a thrown call or body read is answered 500;
    * a non-2xx status is passed through when a reply can carry it (otherwise building
    * the reply throws and the outer handler answers 500); missing content is answered 500; content that
    * is not a string (it has no `trim`) or that the parse block rejects is answered 500
    * with the raw content; otherwise the normalised ticker, the sanitised news and the
    * usage. */
  function Respond(ticker: string, upstream: UpstreamReply, parseNews: ContentParser): (r: Reply)
    ensures IsError(r) <==> r.status != 200
    ensures IsError(r) ==> r.body.error != "" && !IsOk(r.status)
    ensures r.body.NewsBody? ==> r.body.ticker == ticker
  {
    match upstream
    case NetworkFailure => Reply(500, ErrorBody(InternalError))
    case HttpReply(status, json) =>
      if !IsOk(status) then
        if CanCarryBody(status) then Reply(status, ErrorBody(UpstreamErrorPrefix + Text.IntToDecimal(status)))
        else Reply(500, ErrorBody(InternalError))
      else
        match json
        case Failure(_) => Reply(500, ErrorBody(InternalError))
        case Success(data) =>
          match ContentOf(data)
          case None => Reply(500, ErrorBody(InternalError))
          case Some(content) =>
            if !Truthy(content) then Reply(500, ErrorBody(NoContent))
            else if !content.Str? then Reply(500, ParseFailureBody(ParseFailure, content))
            else
              match parseNews(content.s)
              case Failure(_) => Reply(500, ParseFailureBody(ParseFailure, content))
              case Success(news) => Reply(200, NewsBody(ticker, news, Get(data, "usage").value))
  }

  /** A non-2xx status that a reply can carry reaches the client unchanged, with a
    * message naming it. */
  lemma UpstreamStatusPassedThrough(ticker: string, status: int, json: Result<JsValue, SyntaxError>,
                                     parseNews: ContentParser)
    requires !IsOk(status) && CanCarryBody(status)
    ensures var r := Respond(ticker, HttpReply(status, json), parseNews);
      && r.status == status
      && r.body.ErrorBody?
      && Text.StartsWith(r.body.error, UpstreamErrorPrefix)
      && Text.SignedDecimalValue(r.body.error[|UpstreamErrorPrefix|..]) == status
  {
    var e := UpstreamErrorPrefix + Text.IntToDecimal(status);
    Text.SignedDecimalRoundTrip(status);
    assert e[..|UpstreamErrorPrefix|] == UpstreamErrorPrefix;
    assert e[|UpstreamErrorPrefix|..] == Text.IntToDecimal(status);
  }

  /** A non-2xx status that no reply can carry (304, or one outside 200 to 599) makes
    * building the reply throw, and the outer handler answers 500. */
  lemma UnsendableStatusIsInternalError(ticker: string, status: int, json: Result<JsValue, SyntaxError>,
                                        parseNews: ContentParser)
    requires !IsOk(status) && !CanCarryBody(status)
    ensures Respond(ticker, HttpReply(status, json), parseNews) == Reply(500, ErrorBody(InternalError))
  {
  }

  /** The string content of a 2xx completion, if it has any. */
  predicate HasStringContent(upstream: UpstreamReply) {
    && upstream.HttpReply? && IsOk(upstream.status) && upstream.json.Success?
    && var c := ContentOf(upstream.json.value);
    c.Some? && c.value.Str? && c.value.s != ""
  }

  /** A 200 reply happens exactly when the provider answered 2xx with string content that
    * the parse block accepts, and then it carries that block's news. */
  lemma SuccessCarriesParsedNews(ticker: string, upstream: UpstreamReply, parseNews: ContentParser)
    ensures var r := Respond(ticker, upstream, parseNews);
      r.status == 200 <==>
        HasStringContent(upstream) && parseNews(ContentOf(upstream.json.value).value.s).Success?
    ensures var r := Respond(ticker, upstream, parseNews);
      r.status == 200 ==>
        r.body.news == parseNews(ContentOf(upstream.json.value).value.s).value
  {
  }

  /** Content that is present but not a string is reported as a parse failure, with the
    * content echoed back. */
  lemma NonStringContentIsParseFailure(ticker: string, data: JsValue, parseNews: ContentParser)
    requires ContentOf(data).Some? && Truthy(ContentOf(data).value) && !ContentOf(data).value.Str?
    ensures Respond(ticker, HttpReply(200, Success(data)), parseNews)
      == Reply(500, ParseFailureBody(ParseFailure, ContentOf(data).value))
  {
  }

  /** A 2xx completion whose content is missing or falsy (`undefined`, `null`, `""`) is
    * answered 500 with the no-content message. */
  lemma MissingContentIsServerError(ticker: string, status: int, data: JsValue, parseNews: ContentParser)
    requires IsOk(status) && ContentOf(data).Some? && !Truthy(ContentOf(data).value)
    ensures Respond(ticker, HttpReply(status, Success(data)), parseNews) == Reply(500, ErrorBody(NoContent))
  {
  }

  /** String content that the parse block rejects is answered 500, with the content
    * echoed back. */
  lemma RejectedContentIsParseFailure(ticker: string, status: int, data: JsValue, parseNews: ContentParser)
    requires IsOk(status) && ContentOf(data).Some? && ContentOf(data).value.Str?
    requires ContentOf(data).value.s != "" && parseNews(ContentOf(data).value.s).Failure?
    ensures Respond(ticker, HttpReply(status, Success(data)), parseNews)
      == Reply(500, ParseFailureBody(ParseFailure, ContentOf(data).value))
  {
  }

  // ---------------------------------------------------------------------------
  // The whole handler

  /** The provider call, as the function from the request sent to what comes back. */
  type Fetch = ProviderRequest -> UpstreamReply

  /** The handler: the reply, and the request sent to the provider if one was sent. */
  function Post(body: Result<JsValue, SyntaxError>, apiKey: Option<string>, fetch: Fetch,
                parse: JsonParser, today: string): (r: (Reply, Option<ProviderRequest>))
    ensures r.1.Some? <==> Admit(body, apiKey).Success?
    ensures r.1.Some? ==> r.1.value == RequestFor(NormalisedTicker(body.value), apiKey.value)
    ensures r.0.status == 200 ==> r.1.Some? && r.0.body.NewsBody?
    ensures r.0.body.NewsBody? ==>
      body.Success? && HasTicker(body.value) && r.0.body.ticker == NormalisedTicker(body.value)
    ensures r.0.status != 200 ==> IsError(r.0) && r.0.body.error != "" && !IsOk(r.0.status)
  {
    match Admit(body, apiKey)
    case Failure(reply) => (reply, None)
    case Success(Admitted(ticker, key)) =>
      var request := RequestFor(ticker, key);
      (Respond(ticker, fetch(request), ParseBlock(parse, today)), Some(request))
  }

  /** At most one provider call per request, and none when the request is refused: the
    * refusal does not depend on what the provider would have answered. */
  lemma RefusalIgnoresProvider(body: Result<JsValue, SyntaxError>, apiKey: Option<string>,
                               f: Fetch, g: Fetch, parse: JsonParser, today: string)
    requires !Admit(body, apiKey).Success?
    ensures Post(body, apiKey, f, parse, today) == Post(body, apiKey, g, parse, today)
    ensures Post(body, apiKey, f, parse, today).0.status in {400, 500}
  {
  }

  /** Two requests whose tickers normalise alike are handled alike. */
  lemma NormalisedTickersAreEquivalent(a: string, b: string, apiKey: string, fetch: Fetch,
                                       parse: JsonParser, today: string)
    requires a != "" && b != "" && apiKey != ""
    requires Text.ToUpper(Text.Trim(a)) == Text.ToUpper(Text.Trim(b))
    ensures Post(Success(Obj(map["ticker" := Str(a)])), Some(apiKey), fetch, parse, today)
      == Post(Success(Obj(map["ticker" := Str(b)])), Some(apiKey), fetch, parse, today)
  {
    var ba, bb := Obj(map["ticker" := Str(a)]), Obj(map["ticker" := Str(b)]);
    assert NormalisedTicker(ba) == NormalisedTicker(bb);
    assert Admit(Success(ba), Some(apiKey)) == Admit(Success(bb), Some(apiKey));
  }
}
