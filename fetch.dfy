/**
  The retrying fetcher (`fetchWithRetry`): one logical GET request, retried
  after a failure while its retry budget lasts. The network is replaced by the
  sequence of outcomes its successive attempts meet, and the sleeps are
  recorded as data (the milliseconds handed to the timer) instead of being
  slept.
 */
module Fetch {
  import opened Wrappers

  /** The error a failed request is rejected with: no HTTP response at all (a
      network error), or a response whose status, body message and
      `retry-after` header are kept. */
  datatype HttpError =
    | NoResponse
    | ErrorResponse(status: int, message: string, retryAfter: Option<string>)

  /** The outcome of one request: the body it returned, or the error thrown. */
  datatype Response<D> = Ok(data: D) | Failed(error: HttpError)

  /** The retry budget a logical request starts with. */
  const MaxRetries: nat := 5
  /** The wait, in seconds, when a rate limit gives no usable hint. */
  const DefaultRetryAfterSeconds: int := 60
  /** The wait, in milliseconds, before retrying any other failure. */
  const RetryDelayMs: int := 1000

  // ---------------------------------------------------------------------------
  // Recognising a rate limit

  /** `s.includes(t)`. */
  predicate Contains(s: string, t: string)
    decreases |s|
  {
    (|t| <= |s| && s[..|t|] == t) || (s != [] && Contains(s[1..], t))
  }

  /** A message holding the phrase anywhere is recognised. */
  lemma {:induction false} ContainsInfix(a: string, t: string, b: string)
    ensures Contains(a + t + b, t)
    decreases |a|
  {
    if a == [] {
      assert (a + t + b)[..|t|] == t;
    } else {
      ContainsInfix(a[1..], t, b);
      assert (a + t + b)[1..] == a[1..] + t + b;
    }
  }

  /** `t` occurs in `s` starting at position `i`. */
  predicate OccursAt(s: string, t: string, i: int) {
    0 <= i && i + |t| <= |s| && s[i..i + |t|] == t
  }

  /** `Contains` holds exactly when `t` occurs in `s` at some position. */
  lemma ContainsAt(s: string, t: string)
    ensures Contains(s, t) <==> exists i :: OccursAt(s, t, i)
  {
    if Contains(s, t) {
      ContainedOccurs(s, t);
    }
    if exists i :: OccursAt(s, t, i) {
      var i :| OccursAt(s, t, i);
      OccurrenceContained(s, t, i);
    }
  }

  lemma {:induction false} ContainedOccurs(s: string, t: string)
    requires Contains(s, t)
    ensures exists i :: OccursAt(s, t, i)
    decreases |s|
  {
    if |t| <= |s| && s[..|t|] == t {
      assert s[0..0 + |t|] == s[..|t|];
      assert OccursAt(s, t, 0);
    } else {
      ContainedOccurs(s[1..], t);
      var i :| OccursAt(s[1..], t, i);
      assert s[i + 1..i + 1 + |t|] == s[1..][i..i + |t|];
      assert OccursAt(s, t, i + 1);
    }
  }

  lemma {:induction false} OccurrenceContained(s: string, t: string, i: int)
    requires OccursAt(s, t, i)
    ensures Contains(s, t)
    decreases i
  {
    if i == 0 {
      assert s[..|t|] == s[0..0 + |t|];
    } else {
      assert s[1..][i - 1..i - 1 + |t|] == s[i..i + |t|];
      OccurrenceContained(s[1..], t, i - 1);
    }
  }

  /** A 403 response whose message mentions a rate limit. */
  predicate IsRateLimit(e: HttpError) {
    e.ErrorResponse? && e.status == 403 && Contains(e.message, "rate limit")
  }

  /** A 403 whose message mentions "rate limit" anywhere is a rate limit; no
      other status, and no failure without a response, is one. */
  lemma RateLimitRecognised(a: string, b: string, status: int, message: string, retryAfter: Option<string>)
    ensures IsRateLimit(ErrorResponse(403, message, retryAfter)) <==>
      exists i :: OccursAt(message, "rate limit", i)
    ensures IsRateLimit(ErrorResponse(403, a + "rate limit" + b, retryAfter))
    ensures status != 403 ==> !IsRateLimit(ErrorResponse(status, message, retryAfter))
    ensures !IsRateLimit(NoResponse)
  {
    ContainsInfix(a, "rate limit", b);
    ContainsAt(message, "rate limit");
  }

  // ---------------------------------------------------------------------------
  // `parseInt(header, 10)`

  /** The white space and line terminators `parseInt` skips before a number. */
  predicate IsWhiteSpace(c: char) {
    || c == '\t' || c == '\n' || c == '\U{B}' || c == '\U{C}' || c == '\r' || c == ' '
    || c == '\U{A0}' || c == '\U{1680}' || ('\U{2000}' <= c <= '\U{200A}')
    || c == '\U{2028}' || c == '\U{2029}' || c == '\U{202F}' || c == '\U{205F}'
    || c == '\U{3000}' || c == '\U{FEFF}'
  }

  predicate IsDigit(c: char) {
    '0' <= c <= '9'
  }

  predicate AllDigits(s: string) {
    forall i :: 0 <= i < |s| ==> IsDigit(s[i])
  }

  /** `s` without its leading white space. */
  function TrimStart(s: string): (t: string)
    ensures t == [] || !IsWhiteSpace(t[0])
  {
    if s != [] && IsWhiteSpace(s[0]) then TrimStart(s[1..]) else s
  }

  /** The longest prefix of `s` made of decimal digits. */
  function DigitPrefix(s: string): (ds: string)
    ensures AllDigits(ds) && |ds| <= |s| && ds == s[..|ds|]
    ensures |ds| == |s| || !IsDigit(s[|ds|])
  {
    if s != [] && IsDigit(s[0]) then [s[0]] + DigitPrefix(s[1..]) else []
  }

  /** The number a string of decimal digits denotes. */
  function DigitsValue(ds: string): nat
    requires AllDigits(ds)
  {
    if ds == [] then 0
    else DigitsValue(ds[..|ds| - 1]) * 10 + (ds[|ds| - 1] as int - '0' as int)
  }

  /** `t` without its sign, if it starts with one. */
  function Unsigned(t: string): string {
    if t != [] && (t[0] == '-' || t[0] == '+') then t[1..] else t
  }

  /** `parseInt(s, 10)`: leading white space, an optional sign, then as many
      decimal digits as there are; None stands for NaN (no digit at all). */
  function ParseInt(s: string): (r: Option<int>)
    ensures r.None? <==> Unsigned(TrimStart(s)) == [] || !IsDigit(Unsigned(TrimStart(s))[0])
    ensures r.Some? && r.value < 0 ==> TrimStart(s)[0] == '-'
  {
    var t := TrimStart(s);
    var negative := t != [] && t[0] == '-';
    var digits := DigitPrefix(Unsigned(t));
    if digits == [] then None
    else if negative then Some(-(DigitsValue(digits) as int))
    else Some(DigitsValue(digits))
  }

  /** The decimal numeral of `n`, as a server writes it in a header. */
  function Decimal(n: nat): (s: string)
    ensures s != [] && AllDigits(s)
  {
    if n < 10 then [('0' as int + n) as char]
    else Decimal(n / 10) + [('0' as int + n % 10) as char]
  }

  lemma {:induction false} DecimalValue(n: nat)
    ensures DigitsValue(Decimal(n)) == n
  {
    if n >= 10 {
      DecimalValue(n / 10);
      var s := Decimal(n);
      assert s[..|s| - 1] == Decimal(n / 10);
    }
  }

  lemma {:induction false} DigitPrefixStops(ds: string, rest: string)
    requires AllDigits(ds)
    requires rest == [] || !IsDigit(rest[0])
    ensures DigitPrefix(ds + rest) == ds
  {
    if ds != [] {
      DigitPrefixStops(ds[1..], rest);
      assert (ds + rest)[1..] == ds[1..] + rest;
    }
  }

  lemma {:induction false} TrimStartSkips(ws: string, s: string)
    requires forall i :: 0 <= i < |ws| ==> IsWhiteSpace(ws[i])
    requires s == [] || !IsWhiteSpace(s[0])
    ensures TrimStart(ws + s) == s
  {
    if ws != [] {
      TrimStartSkips(ws[1..], s);
      assert (ws + s)[0] == ws[0];
      assert (ws + s)[1..] == ws[1..] + s;
    } else {
      assert ws + s == s;
    }
  }

  /** `parseInt` reads the integer a header starts with, whatever white space
      precedes it and whatever non-digit follows it. */
  lemma ParseIntReadsLeadingInteger(ws: string, n: nat, rest: string)
    requires forall i :: 0 <= i < |ws| ==> IsWhiteSpace(ws[i])
    requires rest == [] || !IsDigit(rest[0])
    ensures ParseInt(ws + Decimal(n) + rest) == Some(n)
    ensures ParseInt(ws + "-" + Decimal(n) + rest) == Some(-(n as int))
  {
    DecimalValue(n);
    DigitPrefixStops(Decimal(n), rest);
    ReadsUnsigned(ws, Decimal(n), rest, n);
    ReadsNegative(ws, Decimal(n), rest, n);
  }

  lemma ReadsUnsigned(ws: string, d: string, rest: string, n: nat)
    requires forall i :: 0 <= i < |ws| ==> IsWhiteSpace(ws[i])
    requires d != [] && AllDigits(d) && DigitPrefix(d + rest) == d && DigitsValue(d) == n
    ensures ParseInt(ws + d + rest) == Some(n)
  {
    assert (d + rest)[0] == d[0];
    ParseUnsigned(ws, d + rest, n);
    assert ws + d + rest == ws + (d + rest);
  }

  lemma ReadsNegative(ws: string, d: string, rest: string, n: nat)
    requires forall i :: 0 <= i < |ws| ==> IsWhiteSpace(ws[i])
    requires d != [] && DigitPrefix(d + rest) == d && DigitsValue(d) == n
    ensures ParseInt(ws + "-" + d + rest) == Some(-(n as int))
  {
    ParseNegative(ws, d + rest, n);
    assert ws + "-" + d + rest == ws + "-" + (d + rest);
  }

  lemma ParseUnsigned(ws: string, t: string, n: nat)
    requires forall i :: 0 <= i < |ws| ==> IsWhiteSpace(ws[i])
    requires t != [] && IsDigit(t[0])
    requires DigitPrefix(t) != [] && DigitsValue(DigitPrefix(t)) == n
    ensures ParseInt(ws + t) == Some(n)
  {
    TrimStartSkips(ws, t);
    assert Unsigned(t) == t;
  }

  lemma ParseNegative(ws: string, t: string, n: nat)
    requires forall i :: 0 <= i < |ws| ==> IsWhiteSpace(ws[i])
    requires DigitPrefix(t) != [] && DigitsValue(DigitPrefix(t)) == n
    ensures ParseInt(ws + "-" + t) == Some(-(n as int))
  {
    TrimStartSkips(ws, "-" + t);
    assert ws + "-" + t == ws + ("-" + t);
    assert Unsigned("-" + t) == t;
  }

  // ---------------------------------------------------------------------------
  // The wait before retrying

  /** A `retry-after` header that `parseInt` reads as a nonzero number. */
  predicate UsableHint(retryAfter: Option<string>) {
    retryAfter.Some? && ParseInt(retryAfter.value).Some? && ParseInt(retryAfter.value).value != 0
  }

  /** `parseInt(retryAfter, 10) || 60`: the hinted number of seconds, unless the
      header is missing, unreadable (NaN) or zero. */
  function RetryAfterSeconds(retryAfter: Option<string>): (secs: int)
    ensures secs != 0
    ensures UsableHint(retryAfter) ==> secs == ParseInt(retryAfter.value).value
    ensures !UsableHint(retryAfter) ==> secs == DefaultRetryAfterSeconds
  {
    match retryAfter
    case None => DefaultRetryAfterSeconds
    case Some(header) =>
      match ParseInt(header)
      case None => DefaultRetryAfterSeconds
      case Some(n) => if n == 0 then DefaultRetryAfterSeconds else n
  }

  /** A nonzero `retry-after: n` is obeyed to the second; zero or no header
      means the 60-second default. */
  lemma RetryAfterObeysHint(n: nat)
    ensures RetryAfterSeconds(Some(Decimal(n))) == if n == 0 then DefaultRetryAfterSeconds else n
    ensures RetryAfterSeconds(None) == DefaultRetryAfterSeconds
  {
    ParseIntReadsLeadingInteger("", n, "");
    assert "" + Decimal(n) + "" == Decimal(n);
  }

  /** The milliseconds slept after a failed attempt that is followed by a retry
      (and, for a rate limit, also before the final rethrow). */
  function BackoffMs(e: HttpError): (ms: int)
    ensures !IsRateLimit(e) ==> ms == 1000
    ensures IsRateLimit(e) && UsableHint(e.retryAfter) ==> ms == ParseInt(e.retryAfter.value).value * 1000
    ensures IsRateLimit(e) && !UsableHint(e.retryAfter) ==> ms == 60000
  {
    if IsRateLimit(e) then RetryAfterSeconds(e.retryAfter) * 1000 else RetryDelayMs
  }

  // ---------------------------------------------------------------------------
  // The retry state machine

  /** How a logical request ends: the body returned or the error thrown, the
      milliseconds slept along the way, and the number of requests sent. */
  datatype Fetched<D> = Fetched(outcome: Response<D>, waits: seq<int>, attempts: nat)

  /** `fetchWithRetry(url, config, retries)`, where `responses[i]` is what the
      i-th request of this call meets. Both failure branches recurse with
      `retries - 1`; the rate-limit branch sleeps before it looks at the budget,
      the other branch only when it is going to retry. */
  function FetchWithRetry<D>(responses: seq<Response<D>>, retries: nat): (f: Fetched<D>)
    requires retries < |responses|
    ensures 1 <= f.attempts <= retries + 1
    decreases retries
  {
    match responses[0]
    case Ok(data) => Fetched(Ok(data), [], 1)
    case Failed(e) =>
      if IsRateLimit(e) then
        var wait := BackoffMs(e);
        if retries > 0 then
          var next := FetchWithRetry(responses[1..], retries - 1);
          Fetched(next.outcome, [wait] + next.waits, next.attempts + 1)
        else
          Fetched(Failed(e), [wait], 1)
      else if retries > 0 then
        var next := FetchWithRetry(responses[1..], retries - 1);
        Fetched(next.outcome, [BackoffMs(e)] + next.waits, next.attempts + 1)
      else
        Fetched(Failed(e), [], 1)
  }

  /** The position of the first success among the first `n` responses, or `n`
      when all of them failed. */
  function FirstOk<D>(responses: seq<Response<D>>, n: nat): (k: nat)
    requires n <= |responses|
    ensures k <= n
    ensures k < n ==> responses[k].Ok?
    ensures forall i :: 0 <= i < k ==> responses[i].Failed?
  {
    if n == 0 then 0
    else if responses[0].Ok? then 0
    else 1 + FirstOk(responses[1..], n - 1)
  }

  /** With budget `retries` the call sends the requests up to the first success
      but never more than `retries + 1`; it returns the first success's body,
      or else throws the error of the last request. Every failure that is
      retried is preceded by its backoff; when the budget is spent, a rate
      limit still sleeps before the throw and any other failure throws at once. */
  lemma {:induction false} FetchWithRetryMeetsSpec<D>(responses: seq<Response<D>>, retries: nat)
    requires retries < |responses|
    ensures var f := FetchWithRetry(responses, retries);
            var k := FirstOk(responses, retries + 1);
            && f.attempts == (if k <= retries then k + 1 else retries + 1)
            && f.outcome == (if k <= retries then responses[k] else responses[retries])
            && |f.waits| == (if k <= retries then k
                             else if IsRateLimit(responses[retries].error) then retries + 1
                             else retries)
            && forall i :: 0 <= i < |f.waits| ==> f.waits[i] == BackoffMs(responses[i].error)
    decreases retries
  {
    if responses[0].Failed? && retries > 0 {
      FetchWithRetryMeetsSpec(responses[1..], retries - 1);
    }
  }

  /** With the default budget of `MaxRetries` a logical request sends at most
      six requests, and when all six fail it throws the sixth error. */
  lemma {:induction false} DefaultBudget<D>(responses: seq<Response<D>>)
    requires MaxRetries < |responses|
    ensures FetchWithRetry(responses, MaxRetries).attempts <= 6
    ensures (forall i :: 0 <= i < 6 ==> responses[i].Failed?) ==>
      FetchWithRetry(responses, MaxRetries).attempts == 6
      && FetchWithRetry(responses, MaxRetries).outcome == responses[5]
  {
    FetchWithRetryMeetsSpec(responses, MaxRetries);
  }
}
