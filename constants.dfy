/** The application's centralised constants and the one message-building function. */
module Constants {
  import opened Wrappers
  import Text

  // Upstream provider configuration (the floating-point sampling parameters are not modelled).
  const PerplexityUrl := "https://api.perplexity.ai/chat/completions"
  const PerplexityModel := "sonar-pro"
  const PerplexityMaxTokens := 2500
  const PerplexitySearchRecency := "month"
  const PerplexitySearchContextSize := "high"
  const PerplexityTimeoutMs := 30000

  // Ticker validation.
  const TickerMinLength := 1
  const TickerMaxLength := 10
  const TickerErrorMessage :=
    "Ticker invalido. Solo se permiten letras, numeros, puntos y guiones (1-10 caracteres)"

  /** One character of the class `[A-Z0-9.\-^]` under the case-insensitive flag. */
  predicate IsTickerChar(c: char) {
    ('A' <= c <= 'Z') || ('a' <= c <= 'z') || ('0' <= c <= '9') || c == '.' || c == '-' || c == '^'
  }

  /** The anchored pattern `^[A-Z0-9.\-^]+$` (flag `i`), matched character by character. */
  function MatchesTickerPattern(s: string): (r: bool)
    ensures r <==> |s| > 0 && forall i :: 0 <= i < |s| ==> IsTickerChar(s[i])
  {
    |s| > 0 && IsTickerChar(s[0]) && (|s| == 1 || MatchesTickerPattern(s[1..]))
  }

  /** A valid ticker: within the length bounds and matching the pattern (which bounds no length). */
  predicate IsValidTicker(s: string) {
    TickerMinLength <= |s| <= TickerMaxLength && MatchesTickerPattern(s)
  }

  /** Tickers with a class, a share-series suffix or an index caret pass, and so does
    * lower case. */
  lemma ValidTickerExamples()
    ensures IsValidTicker("BRK.B") && IsValidTicker("BF-B") && IsValidTicker("^GSPC")
    ensures IsValidTicker("aapl")
  {
  }

  /** The route's normalisation trims and upper-cases a lower-case ticker. */
  lemma NormalisedTickerExample()
    ensures Text.ToUpper(Text.Trim(" aapl ")) == "AAPL"
  {
    TrimExample();
    var u := Text.ToUpper("aapl");
    assert u[0] == 'A' && u[1] == 'A' && u[2] == 'P' && u[3] == 'L';
  }

  lemma TrimExample()
    ensures Text.Trim(" aapl ") == "aapl"
  {
    var s := " aapl ";
    assert Text.SkipSpace(s, 1) == 1;
    assert Text.SkipSpaceBack(s, 1, 5) == 5;
    assert s[1..5] == "aapl";
  }

  /** An embedded space fails the character class; the empty string fails both checks. */
  lemma RejectedTickerExamples()
    ensures !MatchesTickerPattern("AA PL") && !IsValidTicker("")
  {
  }

  /** The pattern bounds no length: a thirteen-letter ticker passes it but not the
    * length bound. */
  lemma PatternBoundsNoLength()
    ensures MatchesTickerPattern("TOOLONGTICKER") && !IsValidTicker("TOOLONGTICKER")
  {
    var t := "TOOLONGTICKER";
    assert forall i :: 0 <= i < |t| ==> IsTickerChar(t[i]);
  }

  // Rate limiting.
  const RateLimitDefaultLimit := 10
  const RateLimitDefaultWindowMs := 60 * 1000
  const RateLimitErrorMessage :=
    "Demasiadas solicitudes. Por favor, espera un momento antes de intentar de nuevo."

  // Caching of search answers.
  const SearchTtlSeconds := 300
  const SearchCacheControl := "private, max-age=300"

  /** Optional whitespace of HTTP lists: spaces and horizontal tabs. */
  predicate IsOws(c: char) {
    c == ' ' || c == '\t'
  }

  function StripOwsStart(s: string): (r: string)
    ensures r == [] || !IsOws(r[0])
  {
    if |s| > 0 && IsOws(s[0]) then StripOwsStart(s[1..]) else s
  }

  function StripOwsEnd(s: string): (r: string)
    ensures r == [] || !IsOws(r[|r| - 1])
  {
    if |s| > 0 && IsOws(s[|s| - 1]) then StripOwsEnd(s[..|s| - 1]) else s
  }

  /** The elements of a comma-separated header list. */
  function SplitOnComma(s: string): (r: seq<string>)
    ensures |r| >= 1
    decreases |s|
  {
    match Text.IndexOf(s, ',')
    case None => [s]
    case Some(k) => [s[..k]] + SplitOnComma(s[k + 1..])
  }

  const MaxAgePrefix := "max-age="

  /** The delta-seconds of one directive if it is `max-age=<digits>` (name compared
    * case-insensitively, surrounding whitespace ignored). */
  function MaxAgeOf(directive: string): Option<nat>
  {
    var d := StripOwsEnd(StripOwsStart(directive));
    if |d| > |MaxAgePrefix| && Text.ToLower(d[..|MaxAgePrefix|]) == MaxAgePrefix
       && Text.AllDigits(d[|MaxAgePrefix|..])
    then Some(Text.DecimalValue(d[|MaxAgePrefix|..]))
    else None
  }

  function FirstMaxAge(directives: seq<string>): Option<nat>
  {
    if directives == [] then None
    else if MaxAgeOf(directives[0]).Some? then MaxAgeOf(directives[0])
    else FirstMaxAge(directives[1..])
  }

  /** The `max-age` response directive of a Cache-Control value (section 5.2.2.1 of
    * RFC 9111), if there is one. */
  function MaxAge(cacheControl: string): Option<nat>
  {
    FirstMaxAge(SplitOnComma(cacheControl))
  }

  /** `private, max-age=<digits>` splits into its two directives. */
  lemma SplitPrivateMaxAge(digits: string)
    requires AllDigitsNonEmpty(digits)
    ensures SplitOnComma("private, max-age=" + digits) == ["private", " max-age=" + digits]
  {
    var s := "private, max-age=" + digits;
    var rest := " max-age=" + digits;
    assert s[7] == ',' && forall k :: 0 <= k < 7 ==> s[k] != ',';
    Text.IndexOfFirst(s, ',');
    assert s[..7] == "private" && s[8..] == rest;
    forall i | 0 <= i < |rest| ensures rest[i] != ',' {
      if i >= 9 {
        assert rest[i] == digits[i - 9];
      }
    }
    Text.IndexOfFirst(rest, ',');
  }

  predicate AllDigitsNonEmpty(s: string) {
    |s| >= 1 && Text.AllDigits(s)
  }

  /** A ` max-age=<digits>` directive carries the number the digits denote. */
  lemma MaxAgeOfDirective(digits: string)
    requires AllDigitsNonEmpty(digits)
    ensures MaxAgeOf(" max-age=" + digits) == Some(Text.DecimalValue(digits))
  {
    var rest := " max-age=" + digits;
    var d := "max-age=" + digits;
    assert StripOwsStart(rest) == d by {
      assert rest[1..] == d;
    }
    assert StripOwsEnd(d) == d by {
      assert d[|d| - 1] == digits[|digits| - 1];
    }
    assert d[..|MaxAgePrefix|] == MaxAgePrefix && d[|MaxAgePrefix|..] == digits;
    assert Text.ToLower(MaxAgePrefix) == MaxAgePrefix;
  }

  /** A `private` response that may be reused for `n` seconds carries exactly that age. */
  lemma {:induction false} PrivateMaxAgeRoundTrip(n: nat)
    ensures MaxAge("private, max-age=" + Text.NatToDecimal(n)) == Some(n)
  {
    var digits := Text.NatToDecimal(n);
    var rest := " max-age=" + digits;
    SplitPrivateMaxAge(digits);
    assert MaxAgeOf("private").None?;
    MaxAgeOfDirective(digits);
    Text.DecimalRoundTrip(n);
    assert FirstMaxAge(["private", rest]) == Some(n) by {
      assert ["private", rest][1..] == [rest];
    }
  }

  /** The cache directive of search answers states the search TTL. */
  lemma SearchCacheControlMatchesTtl()
    ensures MaxAge(SearchCacheControl) == Some(SearchTtlSeconds)
  {
    assert Text.NatToDecimal(300) == "300" by {
      assert Text.NatToDecimal(3) == "3";
      assert Text.NatToDecimal(30) == "3" + "0";
    }
    assert SearchCacheControl == "private, max-age=" + Text.NatToDecimal(SearchTtlSeconds);
    PrivateMaxAgeRoundTrip(SearchTtlSeconds);
  }

  // Messages.
  const TickerRequiredMessage := "Por favor, introduce un ticker para buscar"

  /** `UI_MESSAGES.SUCCESS.SEARCH(count, ticker)`. */
  function SearchSuccessMessage(count: nat, ticker: string): (r: string)
    ensures Text.StartsWith(r, "Se encontraron " + Text.NatToDecimal(count) + " noticia")
    ensures Text.EndsWith(r, " para " + ticker)
    ensures count == 1 <==> Text.EndsWith(r, " noticia para " + ticker)
    ensures count != 1 ==> Text.EndsWith(r, " noticias para " + ticker)
    ensures |r| == |"Se encontraron " + Text.NatToDecimal(count) + " noticia para " + ticker|
                   + (if count == 1 then 0 else 1)
  {
    var head := "Se encontraron " + Text.NatToDecimal(count) + " noticia";
    var plural := if count != 1 then "s" else "";
    var tail := " para " + ticker;
    var r := head + plural + tail;
    assert r[..|head|] == head;
    assert r[|r| - |tail|..] == tail;
    if count != 1 then
      var suffix := " noticia para " + ticker;
      assert r[|head| - 7] == 'n';
      assert r[|r| - |suffix|..][0] != suffix[0];
      assert r[|r| - |suffix| - 1..] == " noticias para " + ticker;
      r
    else
      assert r[|r| - 14 - |ticker|..] == " noticia para " + ticker;
      r
  }

  // The tag vocabulary.
  const NewsTags: seq<string> := [
    "earnings", "acquisition", "regulatory", "partnership", "product", "analyst", "lawsuit",
    "ceo", "dividend", "guidance", "ipo", "buyback", "layoffs", "expansion"
  ]

  lemma NewsTagsDistinct()
    ensures forall i, j :: 0 <= i < j < |NewsTags| ==> NewsTags[i] != NewsTags[j]
  {
  }
}
