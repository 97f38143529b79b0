/**
 * The in-memory fixed-window rate limiter: a store from client identifier to a
 * `{count, resetTime}` record, the per-call check that updates it, the periodic
 * sweep of expired records, and the response headers a check result turns into.
 * The clock is a parameter (`now`, in milliseconds).
 */
module RateLimit {
  import opened Wrappers
  import Text
  import Constants

  datatype RateLimitRecord = RateLimitRecord(count: int, resetTime: int)

  /** The caller's options; an absent field takes its default. */
  datatype RateLimitOptions = RateLimitOptions(limit: Option<int>, windowMs: Option<int>)

  datatype RateLimitResult = RateLimitResult(success: bool, remaining: int, limit: int, resetIn: int)

  const DefaultLimit := 10
  const DefaultWindowMs := 60000
  const CleanupIntervalMs := 5 * 60 * 1000

  /** The limiter's defaults are the application's configured ones. */
  lemma DefaultsAgreeWithConfiguration()
    ensures DefaultLimit == Constants.RateLimitDefaultLimit
    ensures DefaultWindowMs == Constants.RateLimitDefaultWindowMs
  {
  }

  function LimitOf(options: RateLimitOptions): int {
    if options.limit.Some? then options.limit.value else DefaultLimit
  }

  function WindowOf(options: RateLimitOptions): int {
    if options.windowMs.Some? then options.windowMs.value else DefaultWindowMs
  }

  /** A record's window is over once `now` is strictly past its reset time. */
  predicate Expired(record: RateLimitRecord, now: int) {
    now > record.resetTime
  }

  function Lookup(store: map<string, RateLimitRecord>, identifier: string): Option<RateLimitRecord> {
    if identifier in store then Some(store[identifier]) else None
  }

  /** Whether a call opens a new window: no record, or an expired one. */
  predicate Opens(record: Option<RateLimitRecord>, now: int) {
    record.None? || Expired(record.value, now)
  }

  /** What one call answers, given the caller's record before it. */
  function Verdict(record: Option<RateLimitRecord>, limit: int, windowMs: int, now: int): (r: RateLimitResult)
    ensures r.limit == limit
    ensures Opens(record, now) ==> r == RateLimitResult(true, limit - 1, limit, windowMs)
    ensures !Opens(record, now) ==> r.resetIn == record.value.resetTime - now >= 0
    ensures !Opens(record, now) ==> (r.success <==> record.value.count < limit)
    ensures !Opens(record, now) && r.success ==> r.remaining == limit - record.value.count - 1
    ensures !r.success ==> r.remaining == 0
  {
    if Opens(record, now) then RateLimitResult(true, limit - 1, limit, windowMs)
    else if record.value.count >= limit then
      RateLimitResult(false, 0, limit, record.value.resetTime - now)
    else RateLimitResult(true, limit - (record.value.count + 1), limit, record.value.resetTime - now)
  }

  /** The caller's record after one call: a fresh window, the same record when the
    * limit is reached, or the count one higher. */
  function NextRecord(record: Option<RateLimitRecord>, limit: int, windowMs: int, now: int): (r: RateLimitRecord)
    ensures Opens(record, now) ==> r == RateLimitRecord(1, now + windowMs)
    ensures !Opens(record, now) ==> r.resetTime == record.value.resetTime
    ensures !Opens(record, now) ==>
      r.count == if record.value.count >= limit then record.value.count else record.value.count + 1
  {
    if Opens(record, now) then RateLimitRecord(1, now + windowMs)
    else if record.value.count >= limit then record.value
    else RateLimitRecord(record.value.count + 1, record.value.resetTime)
  }

  /** The store after one call by `identifier`. */
  function Stored(store: map<string, RateLimitRecord>, identifier: string, limit: int, windowMs: int,
                  now: int): map<string, RateLimitRecord>
  {
    store[identifier := NextRecord(Lookup(store, identifier), limit, windowMs, now)]
  }

  /** The store after a sweep at `now`: the records whose window is still live. */
  function Swept(store: map<string, RateLimitRecord>, now: int): (r: map<string, RateLimitRecord>)
    ensures r.Keys <= store.Keys
    ensures forall k :: k in r <==> k in store && !Expired(store[k], now)
    ensures forall k :: k in r ==> r[k] == store[k]
  {
    map k | k in store && !Expired(store[k], now) :: store[k]
  }

  /** The process-wide store and the operations on it. */
  class RateLimiter {
    var store: map<string, RateLimitRecord>

    constructor()
      ensures store == map[]
    {
      store := map[];
    }

    /** `rateLimit(identifier, options)` at time `now`. */
    method Check(identifier: string, options: RateLimitOptions, now: int) returns (result: RateLimitResult)
      modifies this
      ensures result == Verdict(Lookup(old(store), identifier), LimitOf(options), WindowOf(options), now)
      ensures store == Stored(old(store), identifier, LimitOf(options), WindowOf(options), now)
    {
      var limit := LimitOf(options);
      var windowMs := WindowOf(options);
      if identifier !in store || now > store[identifier].resetTime {
        store := store[identifier := RateLimitRecord(1, now + windowMs)];
        return RateLimitResult(true, limit - 1, limit, windowMs);
      }
      var record := store[identifier];
      if record.count >= limit {
        return RateLimitResult(false, 0, limit, record.resetTime - now);
      }
      store := store[identifier := record.(count := record.count + 1)];
      result := RateLimitResult(true, limit - (record.count + 1), limit, record.resetTime - now);
    }

    /** The body of the periodic cleanup: delete every record whose window is over,
      * visiting the entries one by one. */
    method Sweep(now: int)
      modifies this
      ensures store == Swept(old(store), now)
    {
      var pending := store.Keys;
      ghost var start := store;
      while pending != {}
        invariant pending <= start.Keys
        invariant store.Keys <= start.Keys
        invariant forall k :: k in store ==> store[k] == start[k]
        invariant forall k :: k in start ==>
          (k in store <==> k in pending || !Expired(start[k], now))
        decreases pending
      {
        var k :| k in pending;
        if now > store[k].resetTime {
          store := store - {k};
        }
        pending := pending - {k};
      }
    }
  }

  /** A call touches only the caller's entry: every other identifier keeps its record,
    * and no other identifier is added. */
  lemma CallTouchesOnlyCaller(store: map<string, RateLimitRecord>, identifier: string, limit: int,
                              windowMs: int, now: int)
    ensures var s := Stored(store, identifier, limit, windowMs, now);
      && s.Keys == store.Keys + {identifier}
      && forall k :: k in store && k != identifier ==> s[k] == store[k]
  {
  }

  /** A refused call leaves the store as it was. */
  lemma RefusalChangesNothing(store: map<string, RateLimitRecord>, identifier: string, limit: int,
                              windowMs: int, now: int)
    requires !Verdict(Lookup(store, identifier), limit, windowMs, now).success
    ensures Stored(store, identifier, limit, windowMs, now) == store
  {
  }

  /** Every record counts at most `limit` calls. */
  predicate CountsWithin(store: map<string, RateLimitRecord>, limit: int) {
    forall k :: k in store ==> 1 <= store[k].count <= limit
  }

  /** A call keeps every count between 1 and the limit (for a limit of at least 1). */
  lemma CallKeepsCountsWithin(store: map<string, RateLimitRecord>, identifier: string, limit: int,
                              windowMs: int, now: int)
    requires limit >= 1 && CountsWithin(store, limit)
    ensures CountsWithin(Stored(store, identifier, limit, windowMs, now), limit)
  {
  }

  /** The sweep uses the same strict test as the call, so sweeping at the instant of a
    * call changes neither that call's answer nor the caller's record after it. */
  lemma SweepIsInvisibleToCall(store: map<string, RateLimitRecord>, identifier: string, limit: int,
                               windowMs: int, now: int)
    ensures Verdict(Lookup(Swept(store, now), identifier), limit, windowMs, now)
         == Verdict(Lookup(store, identifier), limit, windowMs, now)
    ensures Stored(Swept(store, now), identifier, limit, windowMs, now)[identifier]
         == Stored(store, identifier, limit, windowMs, now)[identifier]
  {
  }

  /** At the reset time itself the window is still live: the call is counted against it. */
  lemma ResetInstantIsLive(record: RateLimitRecord, limit: int, windowMs: int)
    requires record.count < limit
    ensures var r := Verdict(Some(record), limit, windowMs, record.resetTime);
      r.success && r.resetIn == 0 && r.remaining == limit - record.count - 1
  {
  }

  // ---------------------------------------------------------------------------
  // A sequence of calls by one client

  /** The answers to calls at the given instants, starting from `record`. */
  function Run(record: Option<RateLimitRecord>, limit: int, windowMs: int, times: seq<int>): (r: seq<RateLimitResult>)
    ensures |r| == |times|
    decreases |times|
  {
    if times == [] then []
    else
      [Verdict(record, limit, windowMs, times[0])]
        + Run(Some(NextRecord(record, limit, windowMs, times[0])), limit, windowMs, times[1..])
  }

  /** Within a live window that already counts `count` calls, the i-th further call
    * succeeds exactly when `count + i` is below the limit. */
  lemma {:induction false} RunInLiveWindow(count: int, resetTime: int, limit: int, windowMs: int, times: seq<int>)
    requires count >= 1
    requires forall i :: 0 <= i < |times| ==> times[i] <= resetTime
    ensures var r := Run(Some(RateLimitRecord(count, resetTime)), limit, windowMs, times);
      forall i :: 0 <= i < |times| ==>
        && (r[i].success <==> count + i < limit)
        && r[i].remaining == (if count + i < limit then limit - (count + i) - 1 else 0)
    decreases |times|
  {
    if times != [] {
      var rec := RateLimitRecord(count, resetTime);
      var next := NextRecord(Some(rec), limit, windowMs, times[0]);
      var r := Run(Some(rec), limit, windowMs, times);
      var c := if count >= limit then count else count + 1;
      assert next == RateLimitRecord(c, resetTime);
      RunInLiveWindow(c, resetTime, limit, windowMs, times[1..]);
      var tail := Run(Some(next), limit, windowMs, times[1..]);
      forall i | 1 <= i < |times|
        ensures (r[i].success <==> count + i < limit)
        ensures r[i].remaining == (if count + i < limit then limit - (count + i) - 1 else 0)
      {
        assert r[i] == tail[i - 1];
        assert 0 <= i - 1 < |times[1..]|;
        assert tail == Run(Some(RateLimitRecord(c, resetTime)), limit, windowMs, times[1..]);
        assert tail[i - 1].success <==> c + (i - 1) < limit;
      }
    }
  }

  /** The fixed window: calls that open a window and then stay within it succeed for
    * the first `limit` of them, with `remaining` counting down to 0, and fail after. */
  lemma FixedWindow(record: Option<RateLimitRecord>, limit: int, windowMs: int, times: seq<int>)
    requires |times| >= 1 && Opens(record, times[0])
    requires forall i :: 0 <= i < |times| ==> times[i] <= times[0] + windowMs
    ensures var r := Run(record, limit, windowMs, times);
      forall i :: 0 <= i < |times| ==>
        && (r[i].success <==> i == 0 || i < limit)
        && (i == 0 || r[i].remaining == (if i < limit then limit - i - 1 else 0))
    ensures Run(record, limit, windowMs, times)[0].remaining == limit - 1
  {
    var r := Run(record, limit, windowMs, times);
    var next := RateLimitRecord(1, times[0] + windowMs);
    RunInLiveWindow(1, times[0] + windowMs, limit, windowMs, times[1..]);
    var tail := Run(Some(next), limit, windowMs, times[1..]);
    forall i | 1 <= i < |times|
      ensures (r[i].success <==> i < limit)
      ensures r[i].remaining == (if i < limit then limit - i - 1 else 0)
    {
      assert r[i] == tail[i - 1];
      assert 0 <= i - 1 < |times[1..]|;
      assert tail == Run(Some(RateLimitRecord(1, times[0] + windowMs)), limit, windowMs, times[1..]);
      assert tail[i - 1].success <==> 1 + (i - 1) < limit;
    }
  }

  // ---------------------------------------------------------------------------
  // Headers

  /** `Math.ceil(x / d)` for a positive divisor. */
  function CeilDiv(x: int, d: int): (r: int)
    requires d > 0
    ensures (r - 1) * d < x <= r * d
  {
    -((-x) / d)
  }

  const LimitHeader := "X-RateLimit-Limit"
  const RemainingHeader := "X-RateLimit-Remaining"
  const ResetHeader := "X-RateLimit-Reset"

  /** `getRateLimitHeaders`: the limit, the remaining calls and the seconds to the reset,
    * rounded up, as decimal strings. */
  function RateLimitHeaders(result: RateLimitResult): (h: map<string, string>)
    ensures h.Keys == {LimitHeader, RemainingHeader, ResetHeader}
  {
    map[
      LimitHeader := Text.IntToDecimal(result.limit),
      RemainingHeader := Text.IntToDecimal(result.remaining),
      ResetHeader := Text.IntToDecimal(CeilDiv(result.resetIn, 1000))]
  }

  /** A client reading the headers back gets the limit, the remaining calls, and a
    * whole number of seconds that covers the time to the reset. */
  lemma HeadersReadBack(result: RateLimitResult)
    ensures var h := RateLimitHeaders(result);
      && Text.SignedDecimalValue(h[LimitHeader]) == result.limit
      && Text.SignedDecimalValue(h[RemainingHeader]) == result.remaining
    ensures var s := Text.SignedDecimalValue(RateLimitHeaders(result)[ResetHeader]);
      (s - 1) * 1000 < result.resetIn <= s * 1000
  {
    Text.SignedDecimalRoundTrip(result.limit);
    Text.SignedDecimalRoundTrip(result.remaining);
    Text.SignedDecimalRoundTrip(CeilDiv(result.resetIn, 1000));
  }
}
