/**
 * The tolerant parser of the search endpoint: it cleans the provider's text
 * completion of markdown fences, cuts out the bracketed JSON text, parses it, and
 * keeps and coerces the news items it finds.
 */
module NewsParser {
  import opened Wrappers
  import opened JsValues
  import opened NewsTypes
  import Text

  const NoTitle := "Sin título"
  const NoSummary := "Sin resumen"
  const UnknownSource := "Fuente desconocida"
  const NoUrl := "#"
  const Fence := "```"

  // ---------------------------------------------------------------------------
  // Cleaning

  /** The first fence removal: an opening fence at the very start tagged `jso` or `json`
    * (in any case), with the whitespace after it. A bare fence is left alone. */
  function StripLeadingFence(s: string): (r: string)
    ensures |r| <= |s| && r == s[|s| - |r|..]
  {
    if |s| >= 6 && s[..3] == Fence && Text.ToLower(s[3..6]) == "jso" then
      var rest := if |s| > 6 && Text.LowerChar(s[6]) == 'n' then s[7..] else s[6..];
      Text.TrimStart(rest)
    else s
  }

  /** The case-insensitive regex `^```json?\s*` matches the first `n` characters of `s`:
    * three backticks, `jso` in any case, an optional `n` in either case, then whitespace. */
  predicate FenceHeadAt(s: string, n: int) {
    && 6 <= n <= |s| && s[..3] == Fence && Text.ToLower(s[3..6]) == "jso"
    && (Text.AllSpace(s[6..n]) || (7 <= n && Text.LowerChar(s[6]) == 'n' && Text.AllSpace(s[7..n])))
  }

  /** The first replacement changes the text exactly when the pattern matches at the
    * start, and then it removes the longest match. */
  lemma StripLeadingFenceIsRegexReplace(s: string)
    ensures var r := StripLeadingFence(s);
      && (r != s <==> exists n :: FenceHeadAt(s, n))
      && (r != s ==> FenceHeadAt(s, |s| - |r|))
      && forall n :: FenceHeadAt(s, n) ==> n <= |s| - |r|
  {
    var r := StripLeadingFence(s);
    if |s| >= 6 && s[..3] == Fence && Text.ToLower(s[3..6]) == "jso" {
      var m := if |s| > 6 && Text.LowerChar(s[6]) == 'n' then 7 else 6;
      var rest := s[m..];
      var k := |s| - |r|;
      forall i | m <= i < k ensures Text.IsJsSpace(s[i]) {
        assert rest[i - m] == s[i];
      }
      assert k == |s| || !Text.IsJsSpace(s[k]) by {
        if k < |s| {
          assert r[0] == s[k];
        }
      }
      assert FenceHeadAt(s, k) by {
        if m == 7 {
          assert forall i :: 0 <= i < k - 7 ==> s[7..k][i] == s[i + 7];
        } else {
          assert forall i :: 0 <= i < k - 6 ==> s[6..k][i] == s[i + 6];
        }
      }
      forall n | FenceHeadAt(s, n) ensures n <= k {
        if m <= n {
          forall j | 0 <= j < n - m ensures Text.IsJsSpace(rest[j]) {
            assert rest[j] == s[j + m];
            if m == 6 {
              assert s[6..n][j] == s[j + 6];
            } else {
              assert s[7..n][j] == s[j + 7];
              assert s[6..n][j + 1] == s[j + 7];
            }
          }
          Text.SkipSpaceCoversRun(rest, 0, n - m);
        }
      }
    }
  }

  /** A fence without the `json` tag is left for the second replacement. */
  lemma BareFenceIsKept()
    ensures StripLeadingFence("```\n[]") == "```\n[]"
  {
    var s := "```\n[]";
    assert Text.ToLower(s[3..6])[0] == Text.LowerChar(s[3]) == '\n';
  }

  /** A tagged fence goes with the whitespace after it, whatever the tag's case. */
  lemma TaggedFenceIsRemoved()
    ensures StripLeadingFence("```JSON\n[]") == "[]"
  {
    var s := "```JSON\n[]";
    assert s[..3] == Fence;
    assert Text.ToLower(s[3..6]) == "jso";
    assert Text.LowerChar(s[6]) == 'n';
    assert s[7..] == "\n[]";
    assert Text.SkipSpace("\n[]", 1) == 1;
  }

  /** The regex `/```\s*$/` matches at `p`. */
  predicate FenceTailAt(s: string, p: int) {
    0 <= p && p + 3 <= |s| && s[p..p + 3] == Fence && Text.AllSpace(s[p + 3..])
  }

  /** The second fence removal: a closing fence and the whitespace after it, at the very end. */
  function StripTrailingFence(s: string): (r: string)
    ensures |r| <= |s| && r == s[..|r|]
  {
    var t := Text.TrimEnd(s);
    if Text.EndsWith(t, Fence) then t[..|t| - 3] else s
  }

  /** The regex replacement removes the one place where the pattern matches, or nothing. */
  lemma StripTrailingFenceIsRegexReplace(s: string)
    ensures var r := StripTrailingFence(s);
      && (r != s <==> exists p :: FenceTailAt(s, p))
      && forall p :: FenceTailAt(s, p) ==> r == s[..p]
  {
    var t := Text.TrimEnd(s);
    assert forall k :: |t| <= k < |s| ==> Text.IsJsSpace(s[k]) by {
      forall k | |t| <= k < |s| ensures Text.IsJsSpace(s[k]) {
        assert s[|t|..][k - |t|] == s[k];
      }
    }
    forall p | FenceTailAt(s, p) ensures p == |t| - 3 && Text.EndsWith(t, Fence) {
      assert s[p..p + 3][2] == s[p + 2] == '`';
      assert p + 3 <= |t|;
      assert forall k :: p + 3 <= k < |s| ==> Text.IsJsSpace(s[k]) by {
        forall k | p + 3 <= k < |s| ensures Text.IsJsSpace(s[k]) {
          assert s[p + 3..][k - (p + 3)] == s[k];
        }
      }
      assert t[|t| - 1] == s[|t| - 1];
      assert s[p..p + 3] == t[|t| - 3..];
    }
    if Text.EndsWith(t, Fence) {
      assert FenceTailAt(s, |t| - 3) by {
        assert s[|t| - 3..] == t[|t| - 3..] + s[|t|..];
      }
    }
  }

  /** The text after `trim`, both fence removals and a second `trim`. */
  function CleanContent(content: string): string {
    Text.Trim(StripTrailingFence(StripLeadingFence(Text.Trim(content))))
  }

  // ---------------------------------------------------------------------------
  // Extraction

  /** The greedy match of `open [\s\S]* close`: from the first `open` to the last `close`. */
  predicate IsGreedySpan(s: string, open: char, close: char, i: int, j: int) {
    && 0 <= i < j < |s| && s[i] == open && s[j] == close
    && (forall k :: 0 <= k < i ==> s[k] != open)
    && (forall k :: j < k < |s| ==> s[k] != close)
  }

  /** The first match of `open`, any characters, `close`, where the pattern's middle is
    * greedy: from the first `open` to the last `close` after it. */
  function Enclosed(s: string, open: char, close: char): Option<string>
  {
    var i := Text.IndexOf(s, open);
    var j := Text.LastIndexOf(s, close);
    if i.Some? && j.Some? && i.value < j.value then Some(s[i.value..j.value + 1]) else None
  }

  /** The extraction finds text exactly when an `open` comes before a `close`, and what it
    * finds is the greedy span. */
  lemma EnclosedIsGreedyMatch(s: string, open: char, close: char)
    ensures var r := Enclosed(s, open, close);
      && (r.Some? <==> exists i, j :: 0 <= i < j < |s| && s[i] == open && s[j] == close)
      && (r.Some? ==> exists i, j :: IsGreedySpan(s, open, close, i, j) && r.value == s[i..j + 1])
  {
    var i := Text.IndexOf(s, open);
    var j := Text.LastIndexOf(s, close);
    if i.Some? && j.Some? && i.value < j.value {
      assert IsGreedySpan(s, open, close, i.value, j.value);
    }
  }

  /** Why the endpoint's parse step fails: the bracketed text is not JSON, or the value
    * to filter is not a list (`news.filter` is then not a function). */
  datatype ParseError = InvalidJson | NotAList

  /** The value the extraction assigns to `news`: the parsed `[...]` text when there is
    * one (whatever it parses to); otherwise the parsed `{...}` text, wrapped in a list
    * unless it is one; otherwise the empty list. */
  function RawNews(clean: string, parse: JsonParser): Result<JsValue, ParseError>
  {
    match Enclosed(clean, '[', ']')
    case Some(arrayText) =>
      (match parse(arrayText)
       case Success(v) => Success(v)
       case Failure(_) => Failure(InvalidJson))
    case None =>
      match Enclosed(clean, '{', '}')
      case Some(objectText) =>
        (match parse(objectText)
         case Success(v) => Success(if v.Arr? then v else Arr([v]))
         case Failure(_) => Failure(InvalidJson))
      case None => Success(Arr([]))
  }

  // ---------------------------------------------------------------------------
  // What cleaning changes

  /** The characters the extraction looks for. */
  predicate IsBracket(c: char) {
    c == '[' || c == ']' || c == '{' || c == '}'
  }

  predicate BracketFree(s: string) {
    forall k :: 0 <= k < |s| ==> !IsBracket(s[k])
  }

  /** No bracket lies outside the window `s[lo..hi]`. */
  predicate BracketsWithin(s: string, lo: nat, hi: nat) {
    && lo <= hi <= |s|
    && (forall k :: 0 <= k < lo ==> !IsBracket(s[k]))
    && (forall k :: hi <= k < |s| ==> !IsBracket(s[k]))
  }

  /** Cutting away text that holds neither `open` nor `close` does not change what the
    * extraction finds. */
  lemma EnclosedOfWindow(s: string, lo: nat, hi: nat, open: char, close: char)
    requires lo <= hi <= |s|
    requires forall k :: 0 <= k < lo ==> s[k] != open && s[k] != close
    requires forall k :: hi <= k < |s| ==> s[k] != open && s[k] != close
    ensures Enclosed(s, open, close) == Enclosed(s[lo..hi], open, close)
  {
    var m := s[lo..hi];
    var i := Text.IndexOf(m, open);
    var j := Text.LastIndexOf(m, close);
    Text.IndexOfWindow(s, open, lo, hi);
    Text.LastIndexOfWindow(s, close, lo, hi);
    if i.Some? && j.Some? && i.value < j.value {
      SliceOfWindow(s, lo, hi, i.value, j.value + 1);
    }
  }

  /** Cutting away text without brackets does not change what the extraction finds. */
  lemma EnclosedOfBracketWindow(s: string, lo: nat, hi: nat, open: char, close: char)
    requires BracketsWithin(s, lo, hi) && IsBracket(open) && IsBracket(close)
    ensures Enclosed(s, open, close) == Enclosed(s[lo..hi], open, close)
  {
    OnlyInWindow(s, lo, hi, open);
    OnlyInWindow(s, lo, hi, close);
    EnclosedOfWindow(s, lo, hi, open, close);
  }

  lemma OnlyInWindow(s: string, lo: nat, hi: nat, c: char)
    requires BracketsWithin(s, lo, hi) && IsBracket(c)
    ensures forall k :: 0 <= k < lo ==> s[k] != c
    ensures forall k :: hi <= k < |s| ==> s[k] != c
  {
  }

  lemma SliceOfWindow(s: string, lo: nat, hi: nat, x: nat, y: nat)
    requires lo <= hi <= |s| && x <= y <= hi - lo
    ensures s[lo..hi][x..y] == s[lo + x..lo + y]
  {
    var m := s[lo..hi];
    forall k | 0 <= k < y - x ensures m[x..y][k] == s[lo + x..lo + y][k] {
      assert m[x + k] == s[lo + x + k];
    }
  }

  lemma TrimKeepsEnclosed(s: string, open: char, close: char)
    requires IsBracket(open) && IsBracket(close)
    ensures Enclosed(Text.Trim(s), open, close) == Enclosed(s, open, close)
  {
    var i, j := Text.TrimFrom(s), Text.TrimTo(s);
    SpaceIsNoBracket(s, i, j);
    EnclosedOfBracketWindow(s, i, j, open, close);
  }

  lemma SpaceIsNoBracket(s: string, lo: nat, hi: nat)
    requires lo <= hi <= |s|
    requires forall k :: 0 <= k < lo ==> Text.IsJsSpace(s[k])
    requires forall k :: hi <= k < |s| ==> Text.IsJsSpace(s[k])
    ensures BracketsWithin(s, lo, hi)
  {
  }

  /** A character that lower-cases to an ASCII letter is that letter in one of its cases. */
  lemma LowerToLetter(c: char, l: char)
    requires 'a' <= l <= 'z' && Text.LowerChar(c) == l
    ensures !IsBracket(c)
  {
  }

  /** An opening fence tagged `jso` in any case holds no bracket. */
  lemma FenceTagIsBracketFree(s: string)
    requires |s| >= 6 && s[..3] == Fence && Text.ToLower(s[3..6]) == "jso"
    ensures forall k :: 0 <= k < 6 ==> !IsBracket(s[k])
  {
    forall k | 0 <= k < 6 ensures !IsBracket(s[k]) {
      if k < 3 {
        assert s[..3][k] == s[k];
      } else {
        assert Text.ToLower(s[3..6])[k - 3] == Text.LowerChar(s[k]);
        LowerToLetter(s[k], "jso"[k - 3]);
      }
    }
  }

  /** What the first fence removal drops (backticks, the letters of the tag, whitespace)
    * holds no bracket. */
  lemma LeadingFenceIsBracketFree(s: string)
    ensures BracketsWithin(s, |s| - |StripLeadingFence(s)|, |s|)
  {
    var r := StripLeadingFence(s);
    if |s| >= 6 && s[..3] == Fence && Text.ToLower(s[3..6]) == "jso" {
      var n := if |s| > 6 && Text.LowerChar(s[6]) == 'n' then 7 else 6;
      var rest := s[n..];
      assert r == Text.TrimStart(rest);
      FenceTagIsBracketFree(s);
      if n == 7 {
        LowerToLetter(s[6], 'n');
      }
      forall k | n <= k < |s| - |r| ensures Text.IsJsSpace(s[k]) {
        assert rest[k - n] == s[k];
      }
    }
  }

  lemma StripLeadingFenceKeepsEnclosed(s: string, open: char, close: char)
    requires IsBracket(open) && IsBracket(close)
    ensures Enclosed(StripLeadingFence(s), open, close) == Enclosed(s, open, close)
  {
    var r := StripLeadingFence(s);
    LeadingFenceIsBracketFree(s);
    assert s[|s| - |r|..|s|] == r;
    EnclosedOfBracketWindow(s, |s| - |r|, |s|, open, close);
  }

  /** What the second fence removal drops (backticks and whitespace) holds no bracket. */
  lemma TrailingFenceIsBracketFree(s: string)
    ensures BracketsWithin(s, 0, |StripTrailingFence(s)|)
  {
    var r := StripTrailingFence(s);
    var t := Text.TrimEnd(s);
    if Text.EndsWith(t, Fence) {
      forall k | |r| <= k < |t| ensures !IsBracket(s[k]) {
        assert t[|t| - 3..][k - |r|] == s[k];
      }
    }
  }

  lemma StripTrailingFenceKeepsEnclosed(s: string, open: char, close: char)
    requires IsBracket(open) && IsBracket(close)
    ensures Enclosed(StripTrailingFence(s), open, close) == Enclosed(s, open, close)
  {
    var r := StripTrailingFence(s);
    TrailingFenceIsBracketFree(s);
    assert s[0..|r|] == r;
    EnclosedOfBracketWindow(s, 0, |r|, open, close);
  }

  /** Cleaning never changes which bracketed text is extracted: everything it removes
    * (whitespace, fences, the `json` tag) lies outside the first opening and the last
    * closing bracket. */
  lemma CleanKeepsEnclosed(s: string, open: char, close: char)
    requires IsBracket(open) && IsBracket(close)
    ensures Enclosed(CleanContent(s), open, close) == Enclosed(s, open, close)
  {
    var t1 := Text.Trim(s);
    var t2 := StripLeadingFence(t1);
    var t3 := StripTrailingFence(t2);
    TrimKeepsEnclosed(s, open, close);
    StripLeadingFenceKeepsEnclosed(t1, open, close);
    StripTrailingFenceKeepsEnclosed(t2, open, close);
    TrimKeepsEnclosed(t3, open, close);
  }

  /** The value extracted from the cleaned text is the one the raw text gives. */
  lemma CleaningIsTransparent(content: string, parse: JsonParser)
    ensures RawNews(CleanContent(content), parse) == RawNews(content, parse)
  {
    CleanKeepsEnclosed(content, '[', ']');
    CleanKeepsEnclosed(content, '{', '}');
    RawNewsOfSameExtracts(CleanContent(content), content, parse);
  }

  /** The extraction depends on the text only through what the two patterns match. */
  lemma RawNewsOfSameExtracts(x: string, y: string, parse: JsonParser)
    requires Enclosed(x, '[', ']') == Enclosed(y, '[', ']')
    requires Enclosed(x, '{', '}') == Enclosed(y, '{', '}')
    ensures RawNews(x, parse) == RawNews(y, parse)
  {
  }

  /** The parse block gives what the raw text's extraction gives. */
  lemma ParseNewsOfRaw(content: string, parse: JsonParser, today: string)
    ensures ParseNews(content, parse, today) == NewsFrom(RawNews(content, parse), today)
  {
    CleaningIsTransparent(content, parse);
  }

  lemma RawNewsIgnoresBracketFreeEnds(pre: string, body: string, post: string, parse: JsonParser)
    requires BracketFree(pre) && BracketFree(post)
    ensures RawNews(pre + body + post, parse) == RawNews(body, parse)
  {
    var s := pre + body + post;
    var lo, hi := |pre|, |pre| + |body|;
    forall k | 0 <= k < lo ensures !IsBracket(s[k]) {
      assert s[k] == pre[k];
    }
    forall k | hi <= k < |s| ensures !IsBracket(s[k]) {
      assert s[k] == post[k - hi];
    }
    assert s[lo..hi] == body;
    EnclosedOfBracketWindow(s, lo, hi, '[', ']');
    EnclosedOfBracketWindow(s, lo, hi, '{', '}');
  }

  /** An answer wrapped in fences, a language tag or prose without brackets parses as
    * the bare answer does. */
  lemma WrappedAnswerParsesAsBare(pre: string, body: string, post: string, parse: JsonParser, today: string)
    requires BracketFree(pre) && BracketFree(post)
    ensures ParseNews(pre + body + post, parse, today) == ParseNews(body, parse, today)
  {
    ParseNewsOfRaw(pre + body + post, parse, today);
    ParseNewsOfRaw(body, parse, today);
    RawNewsIgnoresBracketFreeEnds(pre, body, post, parse);
  }

  /** A bracketed list that does not parse fails the whole step: it is not retried as an
    * object. */
  lemma UnparsableListFails(content: string, parse: JsonParser, today: string)
    requires Enclosed(content, '[', ']').Some?
    requires parse(Enclosed(content, '[', ']').value).Failure?
    ensures ParseNews(content, parse, today) == Failure(InvalidJson)
  {
    ParseNewsOfRaw(content, parse, today);
    assert RawNews(content, parse) == Failure(InvalidJson);
  }

  /** Without a bracketed list, a braced object that does not parse fails the step. */
  lemma UnparsableObjectFails(content: string, parse: JsonParser, today: string)
    requires Enclosed(content, '[', ']').None? && Enclosed(content, '{', '}').Some?
    requires parse(Enclosed(content, '{', '}').value).Failure?
    ensures ParseNews(content, parse, today) == Failure(InvalidJson)
  {
    ParseNewsOfRaw(content, parse, today);
    assert RawNews(content, parse) == Failure(InvalidJson);
  }

  /** Without a bracketed list, a lone object is taken as a list of one. */
  lemma LoneObjectIsWrapped(content: string, parse: JsonParser, today: string)
    requires Enclosed(content, '[', ']').None? && Enclosed(content, '{', '}').Some?
    requires parse(Enclosed(content, '{', '}').value).Success?
    requires parse(Enclosed(content, '{', '}').value).value.Obj?
    ensures ParseNews(content, parse, today)
      == Success(Sanitize([parse(Enclosed(content, '{', '}').value).value], today))
  {
    var v := parse(Enclosed(content, '{', '}').value).value;
    ParseNewsOfRaw(content, parse, today);
    assert RawNews(content, parse) == Success(Arr([v]));
  }

  /** Text with neither a bracketed list nor a braced object gives no news, and no error. */
  lemma NoJsonGivesNoNews(content: string, parse: JsonParser, today: string)
    requires Enclosed(content, '[', ']').None? && Enclosed(content, '{', '}').None?
    ensures ParseNews(content, parse, today) == Success([])
  {
    ParseNewsOfRaw(content, parse, today);
    assert RawNews(content, parse) == Success(Arr([]));
  }

  /** A bracketed list that parses to an array gives exactly its sanitised items,
    * whatever surrounds it. */
  lemma ParsedListIsSanitised(content: string, parse: JsonParser, today: string)
    requires Enclosed(content, '[', ']').Some?
    requires parse(Enclosed(content, '[', ']').value).Success?
    requires parse(Enclosed(content, '[', ']').value).value.Arr?
    ensures ParseNews(content, parse, today)
      == Success(Sanitize(parse(Enclosed(content, '[', ']').value).value.items, today))
  {
    var v := parse(Enclosed(content, '[', ']').value).value;
    ParseNewsOfRaw(content, parse, today);
    assert RawNews(content, parse) == Success(v);
  }

  // ---------------------------------------------------------------------------
  // Sanitising

  /** The filter's test: a non-null object whose `title` and `summary` are strings. */
  predicate IsNewsCandidate(v: JsValue) {
    && v.Obj?
    && "title" in v.fields && v.fields["title"].Str?
    && "summary" in v.fields && v.fields["summary"].Str?
  }

  /** `items.filter(IsNewsCandidate)`. */
  function Kept(items: seq<JsValue>): (r: seq<JsValue>)
    ensures |r| <= |items|
    ensures forall i :: 0 <= i < |r| ==> IsNewsCandidate(r[i])
  {
    if items == [] then []
    else
      var rest := Kept(items[1..]);
      if IsNewsCandidate(items[0]) then [items[0]] + rest else rest
  }

  /** The filter keeps exactly the candidates among the items. */
  lemma {:induction false} KeptMembers(items: seq<JsValue>)
    ensures forall x :: x in Kept(items) <==> x in items && IsNewsCandidate(x)
  {
    if items != [] {
      KeptMembers(items[1..]);
      assert forall x :: x in items <==> x == items[0] || x in items[1..];
    }
  }

  /** The filter works element by element: it distributes over concatenation, so the
    * kept items keep their relative order. */
  lemma {:induction false} KeptConcat(a: seq<JsValue>, b: seq<JsValue>)
    ensures Kept(a + b) == Kept(a) + Kept(b)
  {
    if a != [] {
      assert (a + b)[1..] == a[1..] + b;
      KeptConcat(a[1..], b);
    } else {
      assert a + b == b;
    }
  }

  lemma KeptSingleton(x: JsValue)
    ensures Kept([x]) == if IsNewsCandidate(x) then [x] else []
  {
  }

  /** Nothing is dropped exactly when every item is a candidate. */
  lemma {:induction false} KeptAllIff(items: seq<JsValue>)
    ensures Kept(items) == items <==> forall i :: 0 <= i < |items| ==> IsNewsCandidate(items[i])
  {
    if items != [] {
      KeptAllIff(items[1..]);
      if !IsNewsCandidate(items[0]) {
        assert |Kept(items)| <= |items[1..]| < |items|;
      } else if Kept(items) == items {
        assert Kept(items[1..]) == items[1..];
      }
    }
  }

  /** A field's value when it is truthy, else the fallback (`item.f || fallback`). */
  function OrElse(v: JsValue, fallback: JsValue): JsValue {
    if Truthy(v) then v else fallback
  }

  /** `["HIGH", "MEDIUM", "LOW"].includes(v) ? v : "MEDIUM"`. */
  function ImpactOf(v: JsValue): (r: ImpactLevel)
    ensures v == Str(ImpactName(r)) || (r == Medium && forall l :: v != Str(ImpactName(l)))
  {
    if v == Str("HIGH") then High
    else if v == Str("LOW") then Low
    else Medium
  }

  /** The map step, for one kept item. */
  function Coerce(item: JsValue, today: string): NewsItem
    requires IsNewsCandidate(item)
  {
    var title := item.fields["title"].s;
    var summary := item.fields["summary"].s;
    var tags := Get(item, "tags").value;
    NewsItem(
      if title != "" then title else NoTitle,
      if summary != "" then summary else NoSummary,
      OrElse(Get(item, "date").value, Str(today)),
      OrElse(Get(item, "source").value, Str(UnknownSource)),
      OrElse(Get(item, "url").value, Str(NoUrl)),
      ImpactOf(Get(item, "impact_level").value),
      if tags.Arr? then tags.items else [])
  }

  /** The filter/map chain: keep the candidates, coerce each. */
  function Sanitize(items: seq<JsValue>, today: string): (r: seq<NewsItem>)
    ensures |r| == |Kept(items)| <= |items|
  {
    var kept := Kept(items);
    seq(|kept|, i requires 0 <= i < |kept| => Coerce(kept[i], today))
  }

  /** Every coerced item has a title and a summary, and, given a non-empty date for today,
    * a truthy date, source and url. */
  lemma CoercePopulated(v: JsValue, today: string)
    requires IsNewsCandidate(v)
    ensures var r := Coerce(v, today); r.title != "" && r.summary != ""
    ensures var r := Coerce(v, today);
      today != "" ==> Truthy(r.date) && Truthy(r.source) && Truthy(r.url)
  {
  }

  /** A field that holds a string, or nothing truthy. */
  predicate StringOrFalsy(v: JsValue) {
    v.Str? || !Truthy(v)
  }

  /** The coerced item matches its declared type when the provider gave strings (or
    * nothing) for the date, source and url, and only strings as tags. Otherwise it need
    * not: a truthy non-string value is copied as it is. */
  lemma CoerceWellTyped(v: JsValue, today: string)
    requires IsNewsCandidate(v)
    requires StringOrFalsy(Get(v, "date").value)
    requires StringOrFalsy(Get(v, "source").value)
    requires StringOrFalsy(Get(v, "url").value)
    requires var tags := Get(v, "tags").value;
      tags.Arr? ==> forall i :: 0 <= i < |tags.items| ==> tags.items[i].Str?
    ensures WellTyped(Coerce(v, today))
  {
  }

  /** A news item written back as the JSON object the endpoint emits for it. */
  function ToJson(item: NewsItem): (v: JsValue)
    ensures IsNewsCandidate(v)
  {
    Obj(map[
      "title" := Str(item.title),
      "summary" := Str(item.summary),
      "date" := item.date,
      "source" := item.source,
      "url" := item.url,
      "impact_level" := Str(ImpactName(item.impactLevel)),
      "tags" := Arr(item.tags)])
  }

  function ToJsonList(items: seq<NewsItem>): (r: seq<JsValue>)
    ensures |r| == |items|
  {
    seq(|items|, i requires 0 <= i < |items| => ToJson(items[i]))
  }

  /** Coercing an item the endpoint emitted gives it back unchanged. */
  lemma CoerceIdempotent(v: JsValue, today: string)
    requires IsNewsCandidate(v)
    ensures Coerce(ToJson(Coerce(v, today)), today) == Coerce(v, today)
  {
    var r := Coerce(v, today);
    var w := ToJson(r);
    assert Get(w, "impact_level").value == Str(ImpactName(r.impactLevel));
    assert ImpactOf(Str(ImpactName(r.impactLevel))) == r.impactLevel;
  }

  /** A fully populated item passes through the coercion unchanged. */
  lemma PopulatedItemPassesThrough(item: NewsItem, today: string)
    requires item.title != "" && item.summary != ""
    requires Truthy(item.date) && Truthy(item.source) && Truthy(item.url)
    ensures Coerce(ToJson(item), today) == item
  {
    assert ImpactOf(Str(ImpactName(item.impactLevel))) == item.impactLevel;
  }

  /** An item with only a title and a summary gets today's date, the unknown-source
    * label, the `#` link, medium impact and no tags. */
  lemma MissingFieldsFallBack(title: string, summary: string, today: string)
    requires title != "" && summary != ""
    ensures Coerce(Obj(map["title" := Str(title), "summary" := Str(summary)]), today)
      == NewsItem(title, summary, Str(today), Str(UnknownSource), Str(NoUrl), Medium, [])
  {
  }

  /** Sanitising the endpoint's own output again changes nothing. */
  lemma SanitizeIdempotent(items: seq<JsValue>, today: string)
    ensures var r := Sanitize(items, today); Sanitize(ToJsonList(r), today) == r
  {
    var r := Sanitize(items, today);
    var js := ToJsonList(r);
    KeptAllIff(js);
    assert Kept(js) == js;
    forall i | 0 <= i < |r| ensures Coerce(js[i], today) == r[i] {
      CoerceIdempotent(Kept(items)[i], today);
    }
  }

  /** Sanitising works item by item: it distributes over concatenation. */
  lemma SanitizeConcat(a: seq<JsValue>, b: seq<JsValue>, today: string)
    ensures Sanitize(a + b, today) == Sanitize(a, today) + Sanitize(b, today)
  {
    KeptConcat(a, b);
  }

  /** Items that are not candidates contribute nothing. */
  lemma SanitizeDropsNonCandidates(items: seq<JsValue>, today: string)
    requires forall i :: 0 <= i < |items| ==> !IsNewsCandidate(items[i])
    ensures Sanitize(items, today) == []
  {
    KeptNone(items);
  }

  lemma {:induction false} KeptNone(items: seq<JsValue>)
    requires forall i :: 0 <= i < |items| ==> !IsNewsCandidate(items[i])
    ensures Kept(items) == []
  {
    if items != [] {
      KeptNone(items[1..]);
    }
  }

  /** The list step after extraction: the value must be a list, which is then filtered
    * and coerced. */
  function NewsFrom(raw: Result<JsValue, ParseError>, today: string): Result<seq<NewsItem>, ParseError>
  {
    match raw
    case Failure(e) => Failure(e)
    case Success(v) => if v.Arr? then Success(Sanitize(v.items, today)) else Failure(NotAList)
  }

  /** The whole parse block: clean, extract, parse, filter and coerce. */
  function ParseNews(content: string, parse: JsonParser, today: string): Result<seq<NewsItem>, ParseError>
  {
    NewsFrom(RawNews(CleanContent(content), parse), today)
  }
}
