/**
 * The structured logger: level gating, redaction and truncation of the context
 * handed to a log call, the conditional `context` field of an entry, and the
 * context an exception is logged with. The console and `JSON.stringify` are not
 * modelled: a log call yields the entry it would print, or nothing.
 */
module Logger {
  import opened Wrappers
  import opened JsValues
  import Text

  datatype LogLevel = Debug | Info | Warn | Error

  /** A log context: an object's own properties. Key order is not modelled. */
  type LogContext = map<string, JsValue>

  datatype LogEntry = LogEntry(level: LogLevel, message: string, timestamp: string, context: Option<LogContext>)

  /** `createLogEntry`: the `context` field is present only for a defined context with at
    * least one key. The timestamp (`new Date().toISOString()`) is a parameter. */
  function CreateLogEntry(level: LogLevel, message: string, context: Option<LogContext>, timestamp: string): (e: LogEntry)
    ensures e.level == level && e.message == message && e.timestamp == timestamp
    ensures e.context.Some? <==> context.Some? && |context.value| > 0
    ensures e.context.Some? ==> e.context == context
  {
    var included := context.Some? && |context.value| > 0;
    LogEntry(level, message, timestamp, if included then context else None)
  }

  // Redaction and truncation.

  /** The list the sanitiser matches keys against, in its order. */
  const SensitiveKeys: seq<string> := ["password", "token", "api_key", "apiKey", "secret", "authorization", "cookie"]

  /** The entries a lower-cased key can actually contain: all but the mixed-case one. */
  const MatchableKeys: seq<string> := ["password", "token", "api_key", "secret", "authorization", "cookie"]

  const Redacted := "[REDACTED]"
  const TruncatedMarker := "...[truncated]"
  const MaxValueLength := 500

  /** `subs.some((sk) => s.includes(sk))`. */
  function IncludesAny(s: string, subs: seq<string>): (r: bool)
    ensures r <==> exists i :: 0 <= i < |subs| && Text.Contains(s, subs[i])
  {
    if subs == [] then false
    else if Text.Contains(s, subs[0]) then true
    else
      var rest := IncludesAny(s, subs[1..]);
      assert forall i :: 1 <= i < |subs| ==> subs[i] == subs[1..][i - 1];
      rest
  }

  /** A key is sensitive when its lower-cased form contains an entry of the list. */
  predicate IsSensitiveKey(key: string) {
    IncludesAny(Text.ToLower(key), SensitiveKeys)
  }

  /** The value a context entry is logged with. */
  function SanitizeEntry(key: string, value: JsValue): JsValue {
    if IsSensitiveKey(key) then Str(Redacted)
    else if value.Str? && |value.s| > MaxValueLength then Str(value.s[..MaxValueLength] + TruncatedMarker)
    else value
  }

  /** The one key an assignment on a plain object does not create: writing it calls the
    * inherited prototype setter instead. */
  const ProtoKey := "__proto__"

  /** `obj[key] = value` on an object built from `{}`: it adds or replaces an own key,
    * except `__proto__`, which leaves the own keys as they were. */
  function SetProperty(obj: LogContext, key: string, value: JsValue): (r: LogContext)
    ensures key != ProtoKey ==> r.Keys == obj.Keys + {key} && r[key] == value
    ensures key == ProtoKey ==> r == obj
    ensures forall k :: k in obj && k != key ==> k in r && r[k] == obj[k]
  {
    if key == ProtoKey then obj else obj[key := value]
  }

  /** What `sanitizeContext` returns: nothing for an undefined context, otherwise each
    * key with its sanitised value, except an own `__proto__` key, which the assignment
    * does not copy. */
  function SanitizedContext(context: Option<LogContext>): (r: Option<LogContext>)
    ensures r.None? <==> context.None?
    ensures r.Some? ==> r.value.Keys == context.value.Keys - {ProtoKey}
  {
    match context
    case None => None
    case Some(c) => Some(map k | k in c && k != ProtoKey :: SanitizeEntry(k, c[k]))
  }

  /** `sanitizeContext`: builds the sanitised object key by key. */
  method SanitizeContext(context: Option<LogContext>) returns (r: Option<LogContext>)
    ensures r == SanitizedContext(context)
  {
    if context.None? {
      return None;
    }
    var c := context.value;
    var sanitized: LogContext := map[];
    var pending := c.Keys;
    while pending != {}
      invariant pending <= c.Keys
      invariant sanitized.Keys == c.Keys - pending - {ProtoKey}
      invariant forall k :: k in sanitized ==> sanitized[k] == SanitizeEntry(k, c[k])
      decreases pending
    {
      var key :| key in pending;
      var value := c[key];
      var lowerKey := Text.ToLower(key);
      if IncludesAny(lowerKey, SensitiveKeys) {
        sanitized := SetProperty(sanitized, key, Str(Redacted));
      } else if value.Str? && |value.s| > MaxValueLength {
        sanitized := SetProperty(sanitized, key, Str(value.s[..MaxValueLength] + TruncatedMarker));
      } else {
        sanitized := SetProperty(sanitized, key, value);
      }
      pending := pending - {key};
    }
    assert sanitized == map k | k in c && k != ProtoKey :: SanitizeEntry(k, c[k]);
    return Some(sanitized);
  }

  /** No lower-cased key contains the mixed-case entry `apiKey`. */
  lemma MixedCaseEntryNeverMatches(key: string)
    ensures !Text.Contains(Text.ToLower(key), "apiKey")
  {
    var s := Text.ToLower(key);
    forall i ensures !Text.OccursAt(s, "apiKey", i) {
      if 0 <= i && i + 6 <= |s| {
        Text.ToLowerHasNoUpper(key, i + 3);
        assert s[i..i + 6][3] == s[i + 3];
      }
    }
  }

  /** Redaction is decided by the lower-case entries alone. */
  lemma SensitiveIffMatchable(key: string)
    ensures IsSensitiveKey(key) <==> exists i :: 0 <= i < |MatchableKeys| && Text.Contains(Text.ToLower(key), MatchableKeys[i])
  {
    var s := Text.ToLower(key);
    MixedCaseEntryNeverMatches(key);
    if IsSensitiveKey(key) {
      var i :| 0 <= i < |SensitiveKeys| && Text.Contains(s, SensitiveKeys[i]);
      var j := if i < 3 then i else i - 1;
      assert MatchableKeys[j] == SensitiveKeys[i];
    }
    if j :| 0 <= j < |MatchableKeys| && Text.Contains(s, MatchableKeys[j]) {
      var i := if j < 3 then j else j + 1;
      assert SensitiveKeys[i] == MatchableKeys[j];
    }
  }

  /** A property named `apiKey` is logged in the clear: its lower-cased form `apikey`
    * contains none of the entries. */
  lemma ApiKeyIsNotRedacted()
    ensures !IsSensitiveKey("apiKey")
  {
    var s := Text.ToLower("apiKey");
    assert s == "apikey";
    SensitiveIffMatchable("apiKey");
    forall j | 0 <= j < |MatchableKeys| ensures !Text.Contains(s, MatchableKeys[j]) {
      var m := MatchableKeys[j];
      forall i ensures !Text.OccursAt(s, m, i) {
        if 0 <= i && i + |m| <= |s| {
          assert s[i..i + |m|][0] == s[i];
        }
      }
    }
  }

  /** Keys that merely contain a sensitive word are redacted, whatever their case. */
  lemma AuthorizationIsRedacted()
    ensures IsSensitiveKey("Authorization")
  {
    var a := Text.ToLower("Authorization");
    assert a == "authorization";
    assert Text.OccursAt(a, SensitiveKeys[5], 0);
  }

  lemma RefreshTokenIsRedacted()
    ensures IsSensitiveKey("refreshToken")
  {
    var t := Text.ToLower("refreshToken");
    assert t == "refreshtoken";
    assert Text.OccursAt(t, SensitiveKeys[1], 7);
  }

  /** How one entry is logged: redaction wins over truncation; a long string keeps its
    * first 500 characters and gains the marker; anything else is unchanged, including
    * nested objects, which are not examined. */
  lemma SanitizeEntryCases(key: string, value: JsValue)
    ensures IsSensitiveKey(key) ==> SanitizeEntry(key, value) == Str("[REDACTED]")
    ensures !IsSensitiveKey(key) && value.Str? && |value.s| > 500 ==>
      var r := SanitizeEntry(key, value);
      r.Str? && |r.s| == 514 && r.s[..500] == value.s[..500] && r.s[500..] == "...[truncated]"
    ensures !IsSensitiveKey(key) && !(value.Str? && |value.s| > 500) ==> SanitizeEntry(key, value) == value
  {
  }

  /** Every string in a sanitised context is at most 514 characters long, and a
    * sensitive key never carries its original value. */
  lemma SanitizedContextBounds(context: LogContext)
    ensures var r := SanitizedContext(Some(context)).value;
      forall k :: k in r && r[k].Str? ==> |r[k].s| <= 514
    ensures var r := SanitizedContext(Some(context)).value;
      forall k :: k in r && IsSensitiveKey(k) ==> r[k] == Str("[REDACTED]")
  {
  }

  /** Sanitising a sanitised context changes nothing. */
  lemma SanitizeIdempotent(context: Option<LogContext>)
    ensures SanitizedContext(SanitizedContext(context)) == SanitizedContext(context)
  {
    if context.Some? {
      var c := context.value;
      var once := SanitizedContext(context).value;
      var twice := SanitizedContext(Some(once)).value;
      forall k | k in once ensures twice[k] == once[k] {
        SanitizeEntryCases(k, c[k]);
        SanitizeEntryCases(k, once[k]);
        if !IsSensitiveKey(k) && c[k].Str? && |c[k].s| > 500 {
          assert once[k].s[..500] == c[k].s[..500];
        }
      }
      assert twice == once;
    }
  }

  // Level gating.

  /** `process.env.NODE_ENV === "development"`; the variable may be unset. */
  predicate IsDevelopment(nodeEnv: Option<string>) {
    nodeEnv == Some("development")
  }

  /** `shouldLog`: debug messages only in development, every other level always. */
  function ShouldLog(level: LogLevel, nodeEnv: Option<string>): (r: bool)
    ensures !r <==> level == Debug && !IsDevelopment(nodeEnv)
  {
    if level == Debug then IsDevelopment(nodeEnv) else true
  }

  /** `logger.debug`/`info`/`warn`/`error`: the entry printed, if any. */
  function Log(level: LogLevel, message: string, context: Option<LogContext>, nodeEnv: Option<string>, timestamp: string): (r: Option<LogEntry>)
    ensures r.Some? <==> ShouldLog(level, nodeEnv)
    ensures r.Some? ==> r.value.level == level && r.value.message == message && r.value.timestamp == timestamp
    ensures r.Some? ==> (r.value.context.Some? <==> context.Some? && context.value.Keys - {ProtoKey} != {})
    ensures r.Some? && r.value.context.Some? ==> r.value.context.value.Keys == context.value.Keys - {ProtoKey}
  {
    if !ShouldLog(level, nodeEnv) then None
    else Some(CreateLogEntry(level, message, SanitizedContext(context), timestamp))
  }

  /** An entry never carries a sensitive key's value or an over-long string. */
  lemma LoggedContextIsSanitised(level: LogLevel, message: string, context: Option<LogContext>, nodeEnv: Option<string>, timestamp: string)
    ensures var r := Log(level, message, context, nodeEnv, timestamp);
      r.Some? && r.value.context.Some? ==>
        forall k :: k in r.value.context.value ==>
          r.value.context.value[k] == SanitizeEntry(k, context.value[k])
  {
  }

  /** A context whose only key is `__proto__` sanitises to an object with no own keys,
    * so the entry has no `context` field. */
  lemma ProtoOnlyContextIsDropped(level: LogLevel, message: string, value: JsValue, nodeEnv: Option<string>, timestamp: string)
    requires ShouldLog(level, nodeEnv)
    ensures var r := Log(level, message, Some(map[ProtoKey := value]), nodeEnv, timestamp);
      r.Some? && r.value.context.None?
  {
  }

  // Exceptions.

  /** The `error` property an exception is logged with: an `Error`'s name and message,
    * its stack only in development, or the string conversion of any other value. */
  function ErrorValue(error: Thrown, nodeEnv: Option<string>): (v: JsValue)
    ensures error.OtherValue? ==> v == Str(ToJsString(error.value))
    ensures error.ErrorInstance? ==> v.Obj? && v.fields.Keys == {"name", "message", "stack"}
    ensures error.ErrorInstance? ==> v.fields["name"] == Str(error.name) && v.fields["message"] == Str(error.message)
    ensures error.ErrorInstance? ==>
      (v.fields["stack"] != Undefined <==> IsDevelopment(nodeEnv) && error.stack.Some?)
  {
    match error
    case ErrorInstance(name, message, stack) =>
      var shown := if IsDevelopment(nodeEnv) && stack.Some? then Str(stack.value) else Undefined;
      Obj(map["name" := Str(name), "message" := Str(message), "stack" := shown])
    case OtherValue(value) => Str(ToJsString(value))
  }

  /** `{ ...context, error: … }`: the caller's keys, with `error` set last. */
  function ErrorContext(context: Option<LogContext>, error: Thrown, nodeEnv: Option<string>): (r: LogContext)
    ensures r.Keys == (if context.Some? then context.value.Keys else {}) + {"error"}
    ensures r["error"] == ErrorValue(error, nodeEnv)
    ensures context.Some? ==> forall k :: k in context.value && k != "error" ==> r[k] == context.value[k]
  {
    var base := if context.Some? then context.value else map[];
    base["error" := ErrorValue(error, nodeEnv)]
  }

  /** `logger.exception`: logged at error level, so always printed. */
  function Exception(message: string, error: Thrown, context: Option<LogContext>, nodeEnv: Option<string>, timestamp: string): (r: Option<LogEntry>)
    ensures r.Some? && r.value.level == Error && r.value.context.Some?
    ensures "error" in r.value.context.value
  {
    Log(Error, message, Some(ErrorContext(context, error, nodeEnv)), nodeEnv, timestamp)
  }

  /** An exception entry keeps the caller's other keys but `__proto__` (sanitised), and its `error`
    * property is the error description, truncated when it is an over-long string. */
  lemma ExceptionContextContents(message: string, error: Thrown, context: Option<LogContext>, nodeEnv: Option<string>, timestamp: string)
    ensures var logged := Exception(message, error, context, nodeEnv, timestamp).value.context.value;
      logged["error"] == SanitizeEntry("error", ErrorValue(error, nodeEnv))
    ensures var logged := Exception(message, error, context, nodeEnv, timestamp).value.context.value;
      context.Some? ==> forall k :: k in context.value && k != "error" && k != ProtoKey ==>
        k in logged && logged[k] == SanitizeEntry(k, context.value[k])
    ensures var logged := Exception(message, error, context, nodeEnv, timestamp).value.context.value;
      error.ErrorInstance? ==> logged["error"] == ErrorValue(error, nodeEnv)
  {
    ErrorKeyIsNotSensitive();
  }

  /** The key the error description is stored under is not itself redacted. */
  lemma ErrorKeyIsNotSensitive()
    ensures !IsSensitiveKey("error")
  {
    var errorKey := Text.ToLower("error");
    assert errorKey == "error";
    forall j | 0 <= j < |SensitiveKeys| ensures !Text.Contains(errorKey, SensitiveKeys[j]) {
      var m := SensitiveKeys[j];
      forall i ensures !Text.OccursAt(errorKey, m, i) {
        if 0 <= i && i + |m| <= |errorKey| {
          assert errorKey[i..i + |m|][0] == errorKey[i];
        }
      }
    }
  }

  /** Outside development an `Error`'s stack is never logged. */
  lemma StackOnlyInDevelopment(message: string, name: string, msg: string, stack: Option<string>, context: Option<LogContext>, nodeEnv: Option<string>, timestamp: string)
    requires !IsDevelopment(nodeEnv)
    ensures var logged := Exception(message, ErrorInstance(name, msg, stack), context, nodeEnv, timestamp).value.context.value;
      logged["error"].Obj? && logged["error"].fields["stack"] == Undefined
  {
    ExceptionContextContents(message, ErrorInstance(name, msg, stack), context, nodeEnv, timestamp);
  }
}
