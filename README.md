# News search by ticker: a Dafny model

This project models the server and client logic of a small web application. A user enters a stock ticker. The application asks an AI search provider for the five most relevant recent news items about that ticker. It then turns the provider's loosely formatted text answer into a list of news items.

The model covers six parts:

- **The search endpoint** (`POST /api/busqueda`), in `search_route.dfy`. It admits the request body: a missing or non-string ticker is answered 400, and a missing credential 500. It normalises the ticker (trim, then upper case) and builds the user prompt and the provider request. It then maps the provider's reply to the endpoint's reply:
  - a non-2xx status is passed through unchanged when a reply can carry it; otherwise (304, or a status outside 200 to 599) building the reply throws and the endpoint answers 500;
  - missing content is answered 500;
  - content that cannot be parsed is answered 500, with the raw content echoed back;
  - otherwise the reply is 200 with the normalised ticker, the news and the token usage.
- **The tolerant parser** of the provider's answer, in `news_parser.dfy`. It does four things in order:
  - it removes markdown fences;
  - it cuts out the greedy `[...]` span, or failing that the `{...}` span, which is wrapped as a one-item list;
  - it parses what it cut out;
  - it keeps the objects whose `title` and `summary` are strings, and fills in fallbacks for their missing fields.
- **The in-memory fixed-window rate limiter**, in `rate_limit.dfy`: a class over a map from client identifier to `{count, resetTime}`. It covers the per-call check, the sweep of expired records and the rate-limit response headers.
- **The structured logger**, in `logger.dfy`:
  - level gating;
  - redaction of context keys that contain a sensitive word;
  - truncation of long string values;
  - the conditional `context` field of an entry;
  - the context an exception is logged with.
- **The shared constants**, in `constants.dfy`:
  - the ticker pattern and its length bounds;
  - the success message;
  - the cache directive, whose `max-age` is proved to equal the cache TTL;
  - the rate-limit defaults;
  - the tag vocabulary.
- **The client search hook**, in `news_search.dfy`. It models the state a search page renders, and the record-spread transitions `search` and `reset` apply to it. It also shows how an endpoint reply reaches that state: the lemma `EndpointReplyIsShown` connects the hook to the endpoint model.

Supporting modules:

- `text.dfy` covers the JavaScript string built-ins the code uses (`trim`, ASCII case mapping, `includes`, decimal conversion). It also has first and last index searches. These stand for the greedy regexes `/\[[\s\S]*\]/` and `/\{[\s\S]*\}/` that cut out the JSON text; `NewsParser.EnclosedIsGreedyMatch` proves them equal to those matches.
- `js_values.dfy` covers JSON values, truthiness, property access (a `TypeError` on `null` or `undefined` becomes `None`) and `String()`.
- `news_types.dfy` holds the news item type.
- `wrappers.dfy` holds `Option` and `Result`.

Inputs that are not modelled become parameters:

- the clock (`now`, `today`, the log timestamp);
- `JSON.parse`;
- the provider call (`fetch`);
- the client's transport;
- `NODE_ENV`.

Some behaviour of the code is worth stating outright:

- The endpoint does not call the rate limiter. It also does not apply the ticker pattern, enforce the 30-second timeout, or attach the rate-limit or cache headers. There is therefore no 429 or 504 path, and a ticker of spaces is searched as the empty string (`SearchRoute.BlankTickerIsSearched`). The limiter and the constants are modelled as separate components.
- A rate-limit window expires only when `now > resetTime` (strict). At `now == resetTime` the window is still live (`RateLimit.ResetInstantIsLive`).
- `tags` is copied as it is whenever it is an array: its elements are not filtered to strings. A truthy `date`, `source` or `url` of any type is copied unchanged. A coerced item is therefore well typed only when the provider sent strings (`NewsParser.CoerceWellTyped`).
- A `[...]` span that fails to parse fails the whole step: the `{...}` span is not tried as a fallback (`NewsParser.UnparsableListFails`).
- An own `__proto__` key in a log context (which `JSON.parse` can produce) is not copied by the sanitiser, because assigning it on a plain object sets the prototype instead (`Logger.ProtoOnlyContextIsDropped`).
- The sensitive-key list contains the mixed-case entry `apiKey`. That entry can never match a lower-cased key, so a context key named `apiKey` is logged in the clear (`Logger.ApiKeyIsNotRedacted`).

## Model

| member | source | states |
|---|---|---|
| SearchRoute.UserPromptInjective | src/app/api/busqueda/route.ts:47-78 | the user prompt embeds the ticker once between fixed text: equal prompts mean equal tickers |
| SearchRoute.BuildUserPrompt | src/app/api/busqueda/route.ts:47-78 | the user prompt for a ticker. It is specified by `SearchRoute.UserPromptInjective` and `SearchRoute.PromptTagsAreKnown` |
| SearchRoute.RequestFor | src/app/api/busqueda/route.ts:102-124 | the provider request for a normalised ticker and credential. Its fixed fields are stated by `SearchRoute.RequestAgreesWithConfiguration`, its use by `SearchRoute.Post` |
| SearchRoute.PromptTagsAreKnown | src/app/api/busqueda/route.ts:74 | every tag the prompt suggests is in the application's tag vocabulary |
| SearchRoute.RequestAgreesWithConfiguration | src/app/api/busqueda/route.ts:107-123 | the URL, model, token cap, recency filter and context size the endpoint sends equal the central provider configuration |
| SearchRoute.Admit | src/app/api/busqueda/route.ts:80-105 | the request is admitted iff the body was read, its ticker is a non-empty string and the credential is set; refusals are error replies with status 400 or 500; an admitted request carries the trimmed, upper-cased ticker |
| SearchRoute.TickerCheckedBeforeKey | src/app/api/busqueda/route.ts:84-89 | a missing or non-string ticker is answered 400 "El ticker es requerido" whether or not the credential is set |
| SearchRoute.MissingKeyIsServerError | src/app/api/busqueda/route.ts:91-98 | with a valid ticker and no credential the reply is 500 with the missing-key message |
| SearchRoute.NormalisedTickerShape | src/app/api/busqueda/route.ts:100 | a normalised ticker has no surrounding whitespace and no lower-case ASCII letter |
| SearchRoute.BlankTickerIsSearched | src/app/api/busqueda/route.ts:84-100 | a ticker made only of whitespace passes the presence check and is searched as the empty ticker |
| SearchRoute.ContentOf | src/app/api/busqueda/route.ts:136 | reading `choices[0]?.message?.content` throws exactly when the body or its `choices` is null or undefined |
| SearchRoute.ContentOfCompletion | src/app/api/busqueda/route.ts:135-136 | the content of a well-formed completion is its first choice's message content |
| SearchRoute.Respond | src/app/api/busqueda/route.ts:126-211 | a reply is an error reply iff its status is not 200; error replies carry a non-empty message and a status outside 2xx; a news reply carries the normalised ticker |
| SearchRoute.MissingContentIsServerError | src/app/api/busqueda/route.ts:135-143 | a 2xx completion with missing or falsy content is answered 500 with "No se recibió respuesta de la API" |
| SearchRoute.RejectedContentIsParseFailure | src/app/api/busqueda/route.ts:145-205 | non-empty string content that the parse block rejects is answered 500 with the parse-failure message and the content echoed back |
| SearchRoute.UpstreamStatusPassedThrough | src/app/api/busqueda/route.ts:126-133 | a non-2xx provider status that a reply can carry is returned unchanged, with a message whose suffix reads back as that status |
| SearchRoute.UnsendableStatusIsInternalError | src/app/api/busqueda/route.ts:126-133 | a non-2xx status no reply can carry (304, or one outside 200 to 599) makes the reply construction throw, and the outer handler at lines 212-217 answers 500 |
| SearchRoute.SuccessCarriesParsedNews | src/app/api/busqueda/route.ts:135-211 | the reply is 200 iff the provider answered 2xx with non-empty string content that the parse block accepts, and it then carries exactly the parsed news |
| SearchRoute.NonStringContentIsParseFailure | src/app/api/busqueda/route.ts:145-205 | truthy content that is not a string is answered 500 with the parse-failure message and the content echoed back |
| SearchRoute.Post | src/app/api/busqueda/route.ts:80-218 | a provider request is sent iff the request is admitted, and it is built from the normalised ticker and the credential; a 200 reply is a news reply for that ticker; every other reply is an error reply with a non-empty message and a non-2xx status |
| SearchRoute.RefusalIgnoresProvider | src/app/api/busqueda/route.ts:84-98 | a refused request's reply does not depend on the provider and has status 400 or 500 |
| SearchRoute.NormalisedTickersAreEquivalent | src/app/api/busqueda/route.ts:100-105 | two tickers that trim and upper-case alike are handled identically |
| NewsParser.StripLeadingFence | src/app/api/busqueda/route.ts:152 | removing the opening fence only drops a prefix of the text |
| NewsParser.StripLeadingFenceIsRegexReplace | src/app/api/busqueda/route.ts:152 | the text changes iff the case-insensitive pattern three backticks, `jso`, optional `n`, whitespace matches at its start, and then exactly the longest match is removed |
| NewsParser.BareFenceIsKept | src/app/api/busqueda/route.ts:152 | an opening fence without the `json` tag is left in place |
| NewsParser.TaggedFenceIsRemoved | src/app/api/busqueda/route.ts:152 | an upper-case `JSON` tag goes with its fence and the following newline |
| NewsParser.StripTrailingFence | src/app/api/busqueda/route.ts:153 | removing the closing fence only drops a suffix of the text |
| NewsParser.StripTrailingFenceIsRegexReplace | src/app/api/busqueda/route.ts:153 | the text changes iff a fence followed only by whitespace ends it, and the text is then cut exactly at that fence |
| NewsParser.CleanContent | src/app/api/busqueda/route.ts:148-154 | the trim, the two fence removals and the second trim. Whatever brackets they leave is stated by `NewsParser.CleaningIsTransparent` |
| NewsParser.Enclosed | src/app/api/busqueda/route.ts:157-162 | the bracketed text the extraction cuts out. It is specified by `NewsParser.EnclosedIsGreedyMatch` |
| NewsParser.RawNews | src/app/api/busqueda/route.ts:157-172 | the value assigned to `news`. It is specified by `NewsParser.UnparsableListFails`, `NewsParser.UnparsableObjectFails`, `NewsParser.LoneObjectIsWrapped`, `NewsParser.NoJsonGivesNoNews` and `NewsParser.RawNewsIgnoresBracketFreeEnds` |
| NewsParser.ParseNews | src/app/api/busqueda/route.ts:145-193 | the whole parse block. It is specified by `NewsParser.ParseNewsOfRaw`, `NewsParser.WrappedAnswerParsesAsBare` and `NewsParser.ParsedListIsSanitised` |
| NewsParser.Coerce | src/app/api/busqueda/route.ts:183-193 | the per-item map. It is specified by `NewsParser.CoercePopulated`, `NewsParser.CoerceWellTyped`, `NewsParser.PopulatedItemPassesThrough`, `NewsParser.MissingFieldsFallBack` and `NewsParser.CoerceIdempotent` |
| NewsParser.EnclosedIsGreedyMatch | src/app/api/busqueda/route.ts:157-162 | a span is found iff an opening bracket precedes a closing one, and it runs from the first opening to the last closing bracket |
| NewsParser.CleaningIsTransparent | src/app/api/busqueda/route.ts:149-159 | trimming and fence removal never change what the extraction finds |
| NewsParser.ParseNewsOfRaw | src/app/api/busqueda/route.ts:145-193 | the parse block gives the same result on the raw content as on the cleaned content |
| NewsParser.RawNewsIgnoresBracketFreeEnds | src/app/api/busqueda/route.ts:149-173 | text without brackets before or after the answer does not change the extracted value |
| NewsParser.WrappedAnswerParsesAsBare | src/app/api/busqueda/route.ts:149-193 | an answer wrapped in fences, a language tag or bracket-free prose gives the same news as the bare answer |
| NewsParser.UnparsableListFails | src/app/api/busqueda/route.ts:157-159 | a `[...]` span that does not parse fails the step; the object span is not tried |
| NewsParser.UnparsableObjectFails | src/app/api/busqueda/route.ts:162-164 | without a list span, an object span that does not parse fails the step |
| NewsParser.LoneObjectIsWrapped | src/app/api/busqueda/route.ts:162-166 | without a list span, a parsed object is treated as a list of one |
| NewsParser.NoJsonGivesNoNews | src/app/api/busqueda/route.ts:167-172 | text with neither span gives an empty list and no error |
| NewsParser.ParsedListIsSanitised | src/app/api/busqueda/route.ts:157-193 | a list span that parses to an array gives exactly that array's sanitised items |
| NewsParser.Kept | src/app/api/busqueda/route.ts:176-182 | the filter keeps no more items than it was given, and only candidates |
| NewsParser.KeptMembers | src/app/api/busqueda/route.ts:176-182 | a value is kept iff it is among the items and is a candidate (a non-null object with string `title` and `summary`) |
| NewsParser.KeptConcat | src/app/api/busqueda/route.ts:176-182 | the filter distributes over concatenation, so kept items keep their order |
| NewsParser.KeptAllIff | src/app/api/busqueda/route.ts:176-182 | nothing is dropped iff every item is a candidate |
| NewsParser.ImpactOf | src/app/api/busqueda/route.ts:189-191 | the impact level is the given one when it is HIGH, MEDIUM or LOW, and MEDIUM for any other value |
| NewsParser.Sanitize | src/app/api/busqueda/route.ts:176-193 | one output item per kept candidate, so never more items than given |
| NewsParser.CoercePopulated | src/app/api/busqueda/route.ts:183-188 | every coerced item has a non-empty title and summary and, given a date for today, a truthy date, source and url |
| NewsParser.CoerceWellTyped | src/app/api/busqueda/route.ts:183-193 | a coerced item matches its declared type when the provider sent strings (or nothing) for date, source and url and only strings as tags |
| NewsParser.PopulatedItemPassesThrough | src/app/api/busqueda/route.ts:183-193 | a fully populated item passes through the coercion unchanged |
| NewsParser.MissingFieldsFallBack | src/app/api/busqueda/route.ts:184-192 | an item with only title and summary gets today's date, "Fuente desconocida", "#", MEDIUM and no tags |
| NewsParser.CoerceIdempotent | src/app/api/busqueda/route.ts:183-193 | coercing an item the endpoint emitted gives it back unchanged |
| NewsParser.SanitizeIdempotent | src/app/api/busqueda/route.ts:176-193 | sanitising the endpoint's own output again changes nothing |
| NewsParser.SanitizeConcat | src/app/api/busqueda/route.ts:176-193 | sanitising distributes over concatenation |
| NewsParser.SanitizeDropsNonCandidates | src/app/api/busqueda/route.ts:176-182 | a list without candidates gives no news |
| NewsParser.ToJson | src/app/api/busqueda/route.ts:207-211 | an emitted news item is again a filter candidate |
| RateLimit.DefaultsAgreeWithConfiguration | src/lib/rate-limit.ts:77 | the limiter's defaults (10 calls, 60000 ms) are the configured rate-limit defaults |
| RateLimit.Verdict | src/lib/rate-limit.ts:77-116 | a call that opens a window succeeds with `limit - 1` left and the whole window; in a live window it succeeds iff the count is below the limit, with the reset time minus now (never negative) left; a refusal reports 0 remaining |
| RateLimit.NextRecord | src/lib/rate-limit.ts:81-108 | a new window starts at count 1 and ends `windowMs` from now; in a live window the reset time is kept and the count grows by one unless the limit is reached |
| RateLimit.Stored | src/lib/rate-limit.ts:76-110 | the store after a call. It is specified by `RateLimit.RateLimiter.Check`, `RateLimit.CallTouchesOnlyCaller`, `RateLimit.RefusalChangesNothing` and `RateLimit.CallKeepsCountsWithin` |
| RateLimit.Swept | src/lib/rate-limit.ts:22-28 | the sweep keeps exactly the records whose window is still live, unchanged |
| RateLimit.RateLimiter.constructor | src/lib/rate-limit.ts:12 | the store starts empty |
| RateLimit.RateLimiter.Check | src/lib/rate-limit.ts:73-116 | the call answers the verdict for the caller's old record and stores the caller's next record |
| RateLimit.RateLimiter.Sweep | src/lib/rate-limit.ts:22-28 | deleting entries one by one leaves exactly the swept store |
| RateLimit.CallTouchesOnlyCaller | src/lib/rate-limit.ts:77-108 | a call adds at most the caller's identifier and leaves every other record unchanged |
| RateLimit.RefusalChangesNothing | src/lib/rate-limit.ts:98-105 | a refused call leaves the store as it was |
| RateLimit.CallKeepsCountsWithin | src/lib/rate-limit.ts:98-108 | with a limit of at least 1, counts stay between 1 and the limit |
| RateLimit.SweepIsInvisibleToCall | src/lib/rate-limit.ts:22-28 | sweeping at the instant of a call changes neither the call's answer nor the caller's next record |
| RateLimit.ResetInstantIsLive | src/lib/rate-limit.ts:82 | at the reset instant itself the window is still live and the call is counted against it |
| RateLimit.Run | src/lib/rate-limit.ts:73-116 | a run of calls gives one answer per call |
| RateLimit.RunInLiveWindow | src/lib/rate-limit.ts:98-115 | within a live window the i-th further call succeeds iff the count plus i is below the limit, with the matching remaining count |
| RateLimit.FixedWindow | src/lib/rate-limit.ts:65-116 | calls within one window succeed for the first `limit` of them with `remaining` counting down `limit-1, …, 0` and fail after |
| RateLimit.CeilDiv | src/lib/rate-limit.ts:125 | the rounded-up quotient is the least multiple count covering the dividend |
| RateLimit.RateLimitHeaders | src/lib/rate-limit.ts:121-127 | exactly the three rate-limit headers are emitted |
| RateLimit.HeadersReadBack | src/lib/rate-limit.ts:121-127 | the headers read back as the limit, the remaining count, and a whole number of seconds covering the time to the reset |
| Logger.CreateLogEntry | src/lib/logger.ts:22-33 | the entry has the level, message and timestamp, and a context field iff the context is defined and has at least one key |
| Logger.IncludesAny | src/lib/logger.ts:55 | true iff the text contains one of the listed words |
| Logger.SanitizeEntry | src/lib/logger.ts:54-62 | the value one context entry is logged with. It is specified by `Logger.SanitizeEntryCases` and `Logger.SensitiveIffMatchable` |
| Logger.SetProperty | src/lib/logger.ts:55-62 | an assignment adds or replaces the key and keeps the others, except that `__proto__` creates no own key |
| Logger.SanitizedContext | src/lib/logger.ts:38-66 | an undefined context stays undefined; otherwise the key set is kept, less an own `__proto__` key |
| Logger.SanitizeContext | src/lib/logger.ts:38-66 | the key-by-key loop builds exactly the sanitised context |
| Logger.MixedCaseEntryNeverMatches | src/lib/logger.ts:45-55 | no lower-cased key contains the list entry `apiKey` |
| Logger.SensitiveIffMatchable | src/lib/logger.ts:41-56 | a key is redacted iff its lower-cased form contains password, token, api_key, secret, authorization or cookie |
| Logger.ApiKeyIsNotRedacted | src/lib/logger.ts:41-56 | a key named `apiKey` is not redacted |
| Logger.AuthorizationIsRedacted | src/lib/logger.ts:54-56 | the key `Authorization` is redacted whatever its case |
| Logger.RefreshTokenIsRedacted | src/lib/logger.ts:54-56 | a key that merely contains `token` (`refreshToken`) is redacted |
| Logger.SanitizeEntryCases | src/lib/logger.ts:55-62 | redaction wins over truncation; a non-sensitive string over 500 characters becomes its first 500 characters plus "...[truncated]" (514 in all); anything else, nested objects included, is unchanged |
| Logger.SanitizedContextBounds | src/lib/logger.ts:53-63 | in a sanitised context no string exceeds 514 characters and every sensitive key holds "[REDACTED]" |
| Logger.SanitizeIdempotent | src/lib/logger.ts:38-66 | sanitising a sanitised context changes nothing |
| Logger.ShouldLog | src/lib/logger.ts:71-79 | a message is dropped iff it is a debug message outside development |
| Logger.Log | src/lib/logger.ts:94-134 | an entry is produced iff the level passes the gate; it has the level, message and timestamp, and a context iff the given one has a key other than `__proto__`, with those keys |
| Logger.ProtoOnlyContextIsDropped | src/lib/logger.ts:27-32 | a context whose only key is `__proto__` is logged without a context field |
| Logger.LoggedContextIsSanitised | src/lib/logger.ts:124-128 | every logged context value is the sanitised value of the caller's |
| Logger.ErrorValue | src/lib/logger.ts:142-149 | an Error is described by its name, message and stack, the stack present only in development; any other value by its string conversion |
| Logger.ErrorContext | src/lib/logger.ts:140-150 | the exception context has the caller's keys plus `error`, keeps the caller's other values and overwrites any caller `error` |
| Logger.Exception | src/lib/logger.ts:139-153 | an exception is always logged, with a context holding `error` |
| Logger.ExceptionContextContents | src/lib/logger.ts:139-153 | the logged context holds the caller's other keys (but `__proto__`), sanitised, and the error description, which an Error keeps unchanged |
| Logger.ErrorKeyIsNotSensitive | src/lib/logger.ts:41-56 | the key `error` is not redacted |
| Logger.StackOnlyInDevelopment | src/lib/logger.ts:147 | outside development an Error's stack is never logged |
| Constants.MatchesTickerPattern | src/lib/constants.ts:34 | the pattern matches iff the text is non-empty and every character is an ASCII letter, a digit, '.', '-' or '^' |
| Constants.IsValidTicker | src/lib/constants.ts:30-35 | a ticker of 1 to 10 characters that matches the pattern. It is specified by `Constants.ValidTickerExamples`, `Constants.RejectedTickerExamples` and `Constants.PatternBoundsNoLength` |
| Constants.ValidTickerExamples | src/lib/constants.ts:29-34 | "BRK.B", "BF-B", "^GSPC" and "aapl" are valid tickers |
| Constants.RejectedTickerExamples | src/lib/constants.ts:34 | "AA PL" fails the character class and the empty text is invalid |
| Constants.PatternBoundsNoLength | src/lib/constants.ts:31-34 | a thirteen-letter ticker matches the pattern but fails the length bound |
| Constants.NormalisedTickerExample | src/app/api/busqueda/route.ts:100 | " aapl " normalises to "AAPL" |
| Constants.PrivateMaxAgeRoundTrip | src/lib/constants.ts:65 | a `private, max-age=<n>` directive carries the age n |
| Constants.SearchCacheControlMatchesTtl | src/lib/constants.ts:61-66 | the search cache directive's max-age equals the search TTL, 300 seconds |
| Constants.SearchSuccessMessage | src/lib/constants.ts:88-89 | the message is "Se encontraron <count> noticia para <ticker>" when the count is 1 and "Se encontraron <count> noticias para <ticker>" otherwise, with nothing in between |
| Constants.NewsTagsDistinct | src/lib/constants.ts:106-121 | the tag vocabulary has no duplicates |
| NewsSearch.BlankInputMessageIsShared | src/hooks/useNewsSearch.ts:73 | the hook's blank-input message is the shared ticker-required message |
| NewsSearch.ThrownMessage | src/hooks/useNewsSearch.ts:115 | a thrown Error is shown by its own message, any other thrown value as "Error desconocido" |
| NewsSearch.Settled | src/hooks/useNewsSearch.ts:95-117 | the transition ending a started search. It is specified by `NewsSearch.SearchSettles`, `NewsSearch.SuccessShowsReply`, `NewsSearch.ThrownFailureShowsItsMessage` and `NewsSearch.StatusNamedWhenBodyIsSilent` |
| NewsSearch.Searched | src/hooks/useNewsSearch.ts:67-117 | the state a search leaves. It is specified by `NewsSearch.BlankInputOnlySetsError`, `NewsSearch.OnlyTheTrimmedRequestMatters` and `NewsSearch.SearchSettles` |
| NewsSearch.RenderError | src/hooks/useNewsSearch.ts:101-108 | a render error exists iff the input is not blank and the reply was 2xx with a `null` body. It is the engine's message for reading `news` of `null` |
| NewsSearch.NewsSearchHook.constructor | src/hooks/useNewsSearch.ts:56-62 | the hook starts with no news, a null ticker, no error, not loading and not searched |
| NewsSearch.NewsSearchHook.Search | src/hooks/useNewsSearch.ts:67-118 | the updates applied in order leave the state `Searched` gives, and the error returned is the one the success updater throws at render, if any |
| NewsSearch.NewsSearchHook.Reset | src/hooks/useNewsSearch.ts:123-131 | reset restores exactly the initial state |
| NewsSearch.BlankInputOnlySetsError | src/hooks/useNewsSearch.ts:68-76 | a blank input only sets the ticker-required error, and no request matters |
| NewsSearch.OnlyTheTrimmedRequestMatters | src/hooks/useNewsSearch.ts:68-93 | the search depends on the endpoint only through its answer to the trimmed ticker, case kept |
| NewsSearch.LoadingKeepsPreviousResults | src/hooks/useNewsSearch.ts:79-84 | while in flight the search is loading with no error, counts as searched, and keeps the previous news and ticker |
| NewsSearch.SearchSettles | src/hooks/useNewsSearch.ts:79-117 | a finished search counts as searched. Only a 2xx `null` body leaves it loading, with the in-flight state unchanged. It shows an error iff the outcome was neither a readable non-null 2xx body nor a 2xx `null` body. A failure empties the news and keeps the previous ticker |
| NewsSearch.SuccessShowsReply | src/hooks/useNewsSearch.ts:101-108 | a successful outcome shows the reply's news and ticker |
| NewsSearch.ThrownFailureShowsItsMessage | src/hooks/useNewsSearch.ts:86-117 | a rejected request or an unreadable body leaves the thrown value's message as the search's error |
| NewsSearch.StatusNamedWhenBodyIsSilent | src/hooks/useNewsSearch.ts:97-99 | a non-ok reply without an error message is shown as "Error <status>", and the status reads back from it |
| NewsSearch.ReplyJson | src/app/api/busqueda/route.ts:207-211 | a news reply's JSON carries its ticker, an error reply's JSON its message |
| NewsSearch.SettledOnReply | src/hooks/useNewsSearch.ts:95-117 | an endpoint news reply shows its ticker with no error; an endpoint error reply shows its message |
| NewsSearch.EndpointReplyIsShown | src/hooks/useNewsSearch.ts:86-108 | searching through the endpoint, a 200 reply shows the trimmed, upper-cased input as the ticker, and any other reply shows the endpoint's own message |

## Left out

- Network, console and process I/O are not modelled: the provider `fetch`, the client `fetch`, `console.*`, `JSON.stringify` of log entries, and `process.env` (`NODE_ENV` and the credential become parameters).
- `JSON.parse` and `response.json()` are not modelled: they are function parameters, and their error messages belong to the engine.
- The clock and timers are not modelled: `Date.now()`, `new Date()`, and the `setInterval`/`unref` scheduling of the sweep. Only the sweep body is modelled, with `now` and `today` as parameters.
- The provider request sends the constant floating-point sampling parameters `temperature` (0.3) and `top_p` (0.9). The model's `ProviderRequest` leaves these two fields out.
- Numbers are integers. JavaScript's floating-point `limit`, `windowMs`, counts and statuses are not modelled.
- Strings are sequences of Unicode scalar values. UTF-16 code-unit lengths (for the 500-character truncation) and non-ASCII case mapping are not modelled. Whitespace follows ECMAScript's `trim`.
- JSON serialisation is modelled by the value it encodes. The model does not capture that `JSON.stringify` drops `undefined`-valued fields (such as a development-only `stack`, or an absent `usage`), nor the key order of objects.
- The text of the system and user prompts is modelled, but its wording is not checked against any rule.
- The endpoint's outer `catch` is modelled for an unreadable or `null` request body, a failed provider call and an unreadable provider body. Each of these gets the 500 internal-error reply. Other runtime exceptions are not modelled.
- `SearchRoute.Respond` takes the parse block as a parameter (`ContentParser`); `SearchRoute.ParseBlock` supplies the real one. This keeps the endpoint's proofs independent of the parser's.
- `NewsSearch.NewsSearchHook.Search`: the time between starting the request and settling it is not modelled, so no other update can interleave with a search. The engine's message for reading a property of a `null` body is a parameter, given for the property's name. After an error status, reading `error` of a `null` body throws inside the `try` and is shown as the error. After a 2xx status, the success updater reads `news` only when React runs it, outside the `try`. The model then keeps the in-flight state and returns the render error (`NewsSearch.RenderError`). What the component's error boundary does with that error is not modelled.
- `RateLimit.RateLimiter.Check`: records are values in the map, so the in-place `record.count++` on a shared object is modelled as storing an updated record.
- `Logger.SanitizedContext` models a context as a map, so the key order of `Object.entries` is not part of the model.
- `Logger.SetProperty`: writing an own `__proto__` key replaces the sanitised object's prototype. The model keeps only the visible effect, that no own key is created; the new prototype is not modelled.
- The rate limiter's wiring into the endpoint, the ticker-pattern validation, the 30-second timeout and the cache and rate-limit headers on replies are not modelled: the endpoint code does none of these.
