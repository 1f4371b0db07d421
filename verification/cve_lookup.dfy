/** The GitHub issue search behind each CVE line: one lookup sends the same
    search request up to five times, waits between attempts while the
    service answers 403 Forbidden, and reduces a successful answer to the
    link and the heading shown for the CVE.

    The HTTP exchange is input data: the i-th request of a lookup receives
    `exchanges[i].response`, and `exchanges[i].nowMs` is the local clock
    (Unix milliseconds) when that response is examined. The waits the lookup
    performs come back as a trace instead of being slept. */
module CveLookup {
  import opened Basics
  import opened Text

  /** At most this many requests per lookup. */
  const MaxRetries: nat := 5

  /** The first exponential-backoff wait, in milliseconds. */
  const InitialDelayMs: nat := 2000

  /** The privacy sentinel that stands in for a link (and, when there is no
      match at all, for the heading too). */
  const Redacted: string := "An external link was removed to protect your privacy."

  /** The heading used when the issue title has no '|' or is missing. */
  const NoTitle: string := "No title available"

  /** The range of Unix seconds DateTimeOffset.FromUnixTimeSeconds accepts. */
  const MinUnixSeconds: int := -62_135_596_800
  const MaxUnixSeconds: int := 253_402_300_799

  /** The longest wait Task.Delay(TimeSpan) accepts, in whole milliseconds
      (the timer limit of .NET 6 and later). */
  const MaxDelayMs: nat := 4_294_967_294

  /** The X-RateLimit-Reset header of a 403 answer: absent, an integer
      number of Unix seconds, or text that long.Parse rejects. */
  datatype ResetHeader = NoReset | ResetAt(epochSeconds: int) | Unparsable(text: string)

  /** One element of the `items` array of the search answer; a field that
      the JSON lacks is None. */
  datatype Item = Item(htmlUrl: Option<string>, title: Option<string>)

  /** A status EnsureSuccessStatusCode rejects that is not 403 Forbidden:
      anything outside 200-299 other than 403. */
  type ErrorStatus = s: int | s != 403 && !(200 <= s <= 299) witness 404

  /** The three kinds of answer the lookup distinguishes: 403 Forbidden,
      any other non-success status, and success (2xx) with its `items`
      array, None when the answer has no `items`. */
  datatype Response =
    | Forbidden(reset: ResetHeader)
    | OtherError(status: ErrorStatus)
    | Ok(items: Option<seq<Item>>)

  datatype Exchange = Exchange(response: Response, nowMs: int)

  /** A wait performed before the next attempt, in milliseconds. */
  datatype Wait = ResetWait(ms: nat) | BackoffWait(ms: nat)

  /** The `(url, header)` pair a lookup returns; url None is the null that
      a missing `html_url` produces. */
  datatype Issue = Issue(url: Option<string>, header: string)

  /** The exceptions a lookup can end with: the final "Rate limit
      exceeded", EnsureSuccessStatusCode's HttpRequestException, and the
      FormatException / OverflowException / ArgumentOutOfRangeException of
      reading a bad reset header, and Task.Delay's
      ArgumentOutOfRangeException for a reset time too far ahead. */
  datatype LookupError = RateLimitExceeded | HttpError(status: ErrorStatus) | BadResetHeader | DelayOutOfRange

  /** How a lookup ends: with the `items` of a successful answer, which
      Classify reduces to the returned pair, or with an exception. */
  datatype Outcome = Found(items: Option<seq<Item>>) | Failed(error: LookupError)

  /** A finished lookup: its outcome, the waits it performed in order, and
      how many requests it sent. */
  datatype Lookup = Lookup(outcome: Outcome, waits: seq<Wait>, requests: nat)

  // ---------------------------------------------------------------- answer classification

  /** The heading taken from an issue title: the second '|'-separated
      piece, trimmed, or NoTitle when the title has no '|'. */
  function Header(title: string): string {
    var parts := Split(title, '|');
    if |parts| > 1 then Trim(parts[1]) else NoTitle
  }

  /** The pair a successful answer is reduced to. */
  function Classify(items: Option<seq<Item>>): Issue {
    if items.Some? && |items.value| > 0 then
      var first := items.value[0];
      match first.title
      case None => Issue(Some(Redacted), NoTitle)
      case Some(title) => Issue(first.htmlUrl, Header(title))
    else Issue(Some(Redacted), Redacted)
  }

  // ---------------------------------------------------------------- the retry loop

  /** max(0, reset - now), with the reset time in Unix seconds and now in
      Unix milliseconds. */
  function ResetDelayMs(epochSeconds: int, nowMs: int): nat {
    if epochSeconds * 1000 - nowMs < 0 then 0 else epochSeconds * 1000 - nowMs
  }

  predicate InUnixRange(seconds: int) {
    MinUnixSeconds <= seconds <= MaxUnixSeconds
  }

  /** `l`, preceded by the waits `ws`. */
  function After(ws: seq<Wait>, l: Lookup): Lookup {
    l.(waits := ws + l.waits)
  }

  /** What the loop body makes of one answer: wait and go on with the
      given next backoff delay, or stop with an outcome. */
  datatype Step = Retry(wait: Wait, nextDelay: nat) | Stop(outcome: Outcome)

  /** One pass of the loop body on the answer `ex`, when the next backoff
      wait would be `delay`: a 403 without a reset header backs off and
      doubles the delay; one with a readable reset time waits until then and
      keeps the delay, unless that wait is longer than Task.Delay accepts;
      an unreadable reset header or any other failure status throws;
      success ends the lookup with the answer's items. */
  function Examine(ex: Exchange, delay: nat): Step {
    match ex.response
    case Forbidden(NoReset) => Retry(BackoffWait(delay), delay * 2)
    case Forbidden(ResetAt(seconds)) =>
      if !InUnixRange(seconds) then Stop(Failed(BadResetHeader))
      else if ResetDelayMs(seconds, ex.nowMs) > MaxDelayMs then Stop(Failed(DelayOutOfRange))
      else Retry(ResetWait(ResetDelayMs(seconds, ex.nowMs)), delay)
    case Forbidden(Unparsable(_)) => Stop(Failed(BadResetHeader))
    case OtherError(status) => Stop(Failed(HttpError(status)))
    case Ok(items) => Stop(Found(items))
  }

  /** Attempts `attempt` to MaxRetries - 1 of a lookup whose next backoff
      wait is `delay` milliseconds; once all are used up the lookup throws
      "Rate limit exceeded". */
  function Attempts(exchanges: seq<Exchange>, attempt: nat, delay: nat): (r: Lookup)
    requires attempt <= MaxRetries <= |exchanges|
    ensures attempt <= r.requests <= MaxRetries
    ensures attempt < MaxRetries ==> attempt < r.requests
    ensures |r.waits| <= r.requests - attempt
    decreases MaxRetries - attempt
  {
    if attempt == MaxRetries then Lookup(Failed(RateLimitExceeded), [], MaxRetries)
    else
      match Examine(exchanges[attempt], delay)
      case Retry(w, next) => After([w], Attempts(exchanges, attempt + 1, next))
      case Stop(outcome) => Lookup(outcome, [], attempt + 1)
  }

  /** GetCveIssueUrlAsync: a whole lookup. */
  function Resolve(exchanges: seq<Exchange>): (r: Lookup)
    requires MaxRetries <= |exchanges|
    ensures 1 <= r.requests <= MaxRetries
    ensures |r.waits| <= r.requests
  {
    Attempts(exchanges, 0, InitialDelayMs)
  }

  /** The lookup as the source writes it: a counted loop that sleeps and
      continues on 403, and returns or throws on anything else. */
  method GetCveIssueUrl(exchanges: seq<Exchange>) returns (r: Lookup)
    requires MaxRetries <= |exchanges|
    ensures r == Resolve(exchanges)
  {
    var delay := InitialDelayMs;
    var waits: seq<Wait> := [];
    var attempt := 0;
    while attempt < MaxRetries
      invariant 0 <= attempt <= MaxRetries
      invariant Resolve(exchanges) == After(waits, Attempts(exchanges, attempt, delay))
    {
      var ex := exchanges[attempt];
      match ex.response {
        case Forbidden(NoReset) =>
          var w := BackoffWait(delay);
          AfterAfter(waits, [w], Attempts(exchanges, attempt + 1, delay * 2));
          waits := waits + [w];
          delay := delay * 2;
        case Forbidden(ResetAt(seconds)) =>
          if !InUnixRange(seconds) {
            return Lookup(Failed(BadResetHeader), waits, attempt + 1);
          }
          var ms := ResetDelayMs(seconds, ex.nowMs);
          if ms > MaxDelayMs {
            return Lookup(Failed(DelayOutOfRange), waits, attempt + 1);
          }
          var w := ResetWait(ms);
          AfterAfter(waits, [w], Attempts(exchanges, attempt + 1, delay));
          waits := waits + [w];
        case Forbidden(Unparsable(_)) =>
          return Lookup(Failed(BadResetHeader), waits, attempt + 1);
        case OtherError(status) =>
          return Lookup(Failed(HttpError(status)), waits, attempt + 1);
        case Ok(items) =>
          return Lookup(Found(items), waits, attempt + 1);
      }
      attempt := attempt + 1;
    }
    assert waits + [] == waits;
    r := Lookup(Failed(RateLimitExceeded), waits, MaxRetries);
  }

  /** The backoff delay after answer `resp`. */
  function NextDelay(resp: Response, delay: nat): nat {
    if resp == Forbidden(NoReset) then delay * 2 else delay
  }

  /** Examine, stated through Retried, WaitFor, NextDelay and Terminal. */
  lemma ExamineMeaning(ex: Exchange, delay: nat)
    ensures Examine(ex, delay).Retry? <==> Retried(ex)
    ensures Retried(ex) ==>
      Examine(ex, delay) == Retry(WaitFor(ex, delay), NextDelay(ex.response, delay))
    ensures !Retried(ex) ==> Examine(ex, delay) == Stop(Terminal(ex))
  {
  }

  /** One step of the lookup, in terms of Retried and Terminal. */
  lemma AttemptsStep(exchanges: seq<Exchange>, attempt: nat, delay: nat)
    requires attempt < MaxRetries <= |exchanges|
    ensures var ex := exchanges[attempt];
      if Retried(ex) then
        Attempts(exchanges, attempt, delay)
          == After([WaitFor(ex, delay)], Attempts(exchanges, attempt + 1, NextDelay(ex.response, delay)))
      else Attempts(exchanges, attempt, delay) == Lookup(Terminal(ex), [], attempt + 1)
  {
    ExamineMeaning(exchanges[attempt], delay);
  }

  lemma AfterAfter(ws: seq<Wait>, vs: seq<Wait>, l: Lookup)
    ensures After(ws, After(vs, l)) == After(ws + vs, l)
  {
    assert ws + (vs + l.waits) == (ws + vs) + l.waits;
  }

  // ---------------------------------------------------------------- the protocol, stated

  /** An answer after which the lookup waits and tries again: a 403
      without a reset header, or with a readable reset time that is at most
      MaxDelayMs ahead of the clock. */
  predicate Retried(ex: Exchange) {
    var resp := ex.response;
    resp.Forbidden?
    && (resp.reset.NoReset?
        || (resp.reset.ResetAt? && InUnixRange(resp.reset.epochSeconds)
            && ResetDelayMs(resp.reset.epochSeconds, ex.nowMs) <= MaxDelayMs))
  }

  /** What an answer the lookup does not retry makes of it. */
  function Terminal(ex: Exchange): Outcome
    requires !Retried(ex)
  {
    match ex.response
    case Forbidden(ResetAt(seconds)) => if InUnixRange(seconds) then Failed(DelayOutOfRange) else Failed(BadResetHeader)
    case Forbidden(_) => Failed(BadResetHeader)
    case OtherError(status) => Failed(HttpError(status))
    case Ok(items) => Found(items)
  }

  /** Answers `from` to MaxRetries - 1 are all retried 403s. */
  predicate AllRetried(exchanges: seq<Exchange>, from: nat)
    requires MaxRetries <= |exchanges|
  {
    forall k :: from <= k < MaxRetries ==> Retried(exchanges[k])
  }

  /** Every answer before the last one a lookup reads was a retried 403. */
  lemma {:induction false} AttemptsRetryPrefix(exchanges: seq<Exchange>, attempt: nat, delay: nat)
    requires attempt <= MaxRetries <= |exchanges|
    ensures forall k :: attempt <= k < Attempts(exchanges, attempt, delay).requests - 1
                        ==> Retried(exchanges[k])
    decreases MaxRetries - attempt
  {
    if attempt < MaxRetries {
      AttemptsStep(exchanges, attempt, delay);
    }
    if attempt < MaxRetries && Retried(exchanges[attempt]) {
      var next := NextDelay(exchanges[attempt].response, delay);
      AttemptsRetryPrefix(exchanges, attempt + 1, next);
    }
  }

  /** RateLimitExceeded comes exactly from answers that are all retried
      403s; it then follows MaxRetries requests, each followed by a wait. */
  lemma {:induction false} AttemptsExhaustion(exchanges: seq<Exchange>, attempt: nat, delay: nat)
    requires attempt <= MaxRetries <= |exchanges|
    ensures var r := Attempts(exchanges, attempt, delay);
      && (r.outcome.Failed? && r.outcome.error.RateLimitExceeded? <==> AllRetried(exchanges, attempt))
      && (r.outcome == Failed(RateLimitExceeded) ==> r.requests == MaxRetries && |r.waits| == MaxRetries - attempt)
    decreases MaxRetries - attempt
  {
    if attempt < MaxRetries {
      AttemptsStep(exchanges, attempt, delay);
      if Retried(exchanges[attempt]) {
        var next := NextDelay(exchanges[attempt].response, delay);
        AttemptsExhaustion(exchanges, attempt + 1, next);
      } else {
        assert !Retried(exchanges[attempt]);
      }
    }
  }

  /** Any other outcome is decided by the last answer read, which is not a
      retried 403, and every answer before it cost exactly one wait. */
  lemma {:induction false} AttemptsStop(exchanges: seq<Exchange>, attempt: nat, delay: nat)
    requires attempt <= MaxRetries <= |exchanges|
    ensures var r := Attempts(exchanges, attempt, delay);
      r.outcome != Failed(RateLimitExceeded) ==>
        && !Retried(exchanges[r.requests - 1])
        && r.outcome == Terminal(exchanges[r.requests - 1])
        && |r.waits| == r.requests - 1 - attempt
    decreases MaxRetries - attempt
  {
    if attempt < MaxRetries {
      AttemptsStep(exchanges, attempt, delay);
    }
    if attempt < MaxRetries && Retried(exchanges[attempt]) {
      var next := NextDelay(exchanges[attempt].response, delay);
      AttemptsStop(exchanges, attempt + 1, next);
    }
  }

  /** The whole lookup: between one and five requests; every answer but
      the last was a retried 403; five retried 403s, and only they, end in
      RateLimitExceeded with five waits and no pair returned; otherwise the
      last answer decides the outcome and each earlier one cost one wait. */
  lemma ResolveProtocol(exchanges: seq<Exchange>)
    requires MaxRetries <= |exchanges|
    ensures var r := Resolve(exchanges);
      && 1 <= r.requests <= MaxRetries
      && (forall k :: 0 <= k < r.requests - 1 ==> Retried(exchanges[k]))
      && (r.outcome.Failed? && r.outcome.error.RateLimitExceeded? <==> AllRetried(exchanges, 0))
      && (r.outcome == Failed(RateLimitExceeded) ==> r.requests == MaxRetries && |r.waits| == MaxRetries)
      && (r.outcome != Failed(RateLimitExceeded) ==>
            && r.outcome == Terminal(exchanges[r.requests - 1])
            && |r.waits| == r.requests - 1)
  {
    AttemptsRetryPrefix(exchanges, 0, InitialDelayMs);
    AttemptsExhaustion(exchanges, 0, InitialDelayMs);
    AttemptsStop(exchanges, 0, InitialDelayMs);
  }

  /** Any other non-success status on the first attempt fails the lookup
      at once: one request, no wait. */
  lemma HardFailureFirst(exchanges: seq<Exchange>, status: ErrorStatus)
    requires MaxRetries <= |exchanges| && exchanges[0].response == OtherError(status)
    ensures Resolve(exchanges) == Lookup(Failed(HttpError(status)), [], 1)
  {
  }

  /** A first answer whose reset time lies further ahead than Task.Delay
      can wait fails the lookup at once: one request, no wait. */
  lemma ResetTooFarFirst(exchanges: seq<Exchange>, seconds: int)
    requires MaxRetries <= |exchanges| && exchanges[0].response == Forbidden(ResetAt(seconds))
    requires InUnixRange(seconds) && seconds * 1000 - exchanges[0].nowMs > MaxDelayMs
    ensures Resolve(exchanges) == Lookup(Failed(DelayOutOfRange), [], 1)
  {
  }

  // ---------------------------------------------------------------- the waits

  function Pow2(n: nat): nat {
    if n == 0 then 1 else 2 * Pow2(n - 1)
  }

  /** `delay` doubled `n` times. */
  function Doubled(delay: nat, n: nat): nat
    decreases n
  {
    if n == 0 then delay else Doubled(delay * 2, n - 1)
  }

  lemma {:induction false} DoubledIsPow2(delay: nat, n: nat)
    ensures Doubled(delay, n) == delay * Pow2(n)
    decreases n
  {
    if n > 0 {
      DoubledIsPow2(delay * 2, n - 1);
      assert (delay * 2) * Pow2(n - 1) == delay * (2 * Pow2(n - 1));
    }
  }

  /** How many of the answers `from` to `to` - 1 are 403s without a
      reset header. */
  function CountBackoffs(exchanges: seq<Exchange>, from: nat, to: nat): nat
    requires from <= to <= |exchanges|
    decreases |exchanges| - from
  {
    if from == to then 0
    else (if exchanges[from].response == Forbidden(NoReset) then 1 else 0) + CountBackoffs(exchanges, from + 1, to)
  }

  /** The wait a retried answer causes when the backoff delay is `delay`. */
  function WaitFor(ex: Exchange, delay: nat): Wait
    requires Retried(ex)
  {
    if ex.response.reset.ResetAt? then ResetWait(ResetDelayMs(ex.response.reset.epochSeconds, ex.nowMs))
    else BackoffWait(delay)
  }

  /** The k-th wait of the trace answers the k-th response: a reset header
      gives max(0, reset - now); otherwise the delay has been doubled once
      for every earlier 403 without a header, and never for one with. */
  lemma {:induction false} AttemptsWaits(exchanges: seq<Exchange>, attempt: nat, delay: nat, k: nat)
    requires attempt <= MaxRetries <= |exchanges|
    requires k < |Attempts(exchanges, attempt, delay).waits|
    ensures attempt + k < MaxRetries && Retried(exchanges[attempt + k])
    ensures Attempts(exchanges, attempt, delay).waits[k]
         == WaitFor(exchanges[attempt + k], Doubled(delay, CountBackoffs(exchanges, attempt, attempt + k)))
    decreases k
  {
    assert attempt < MaxRetries;
    var ex := exchanges[attempt];
    var next := NextDelay(ex.response, delay);
    var rest := Attempts(exchanges, attempt + 1, next).waits;
    assert Retried(ex) && Attempts(exchanges, attempt, delay).waits == [WaitFor(ex, delay)] + rest by {
      AttemptsStep(exchanges, attempt, delay);
    }
    if k > 0 {
      var c := CountBackoffs(exchanges, attempt + 1, attempt + k);
      assert attempt + k < MaxRetries && Retried(exchanges[attempt + k])
          && rest[k - 1] == WaitFor(exchanges[attempt + k], Doubled(next, c)) by {
        AttemptsWaits(exchanges, attempt + 1, next, k - 1);
      }
      if ex.response == Forbidden(NoReset) {
        assert Doubled(delay, c + 1) == Doubled(next, c);
      }
    }
  }

  lemma ResolveWaits(exchanges: seq<Exchange>, k: nat)
    requires MaxRetries <= |exchanges| && k < |Resolve(exchanges).waits|
    ensures k < MaxRetries && Retried(exchanges[k])
    ensures Resolve(exchanges).waits[k]
         == WaitFor(exchanges[k], InitialDelayMs * Pow2(CountBackoffs(exchanges, 0, k)))
  {
    AttemptsWaits(exchanges, 0, InitialDelayMs, k);
    DoubledIsPow2(InitialDelayMs, CountBackoffs(exchanges, 0, k));
  }

  /** A 403 with a reset header makes the lookup wait max(0, reset - now). */
  lemma ResetWaitIsClamped(exchanges: seq<Exchange>, k: nat, seconds: int)
    requires MaxRetries <= |exchanges| && k < |Resolve(exchanges).waits|
    requires exchanges[k].response == Forbidden(ResetAt(seconds))
    ensures var w := Resolve(exchanges).waits[k]; var now := exchanges[k].nowMs;
      && w.ResetWait?
      && (seconds * 1000 >= now ==> w.ms == seconds * 1000 - now)
      && (seconds * 1000 < now ==> w.ms == 0)
  {
    ResolveWaits(exchanges, k);
  }

  /** The backoff waits of a trace, in order. */
  function Backoffs(waits: seq<Wait>): seq<nat>
    decreases |waits|
  {
    if waits == [] then []
    else (if waits[0].BackoffWait? then [waits[0].ms] else []) + Backoffs(waits[1..])
  }

  lemma {:induction false} AttemptsBackoffs(exchanges: seq<Exchange>, attempt: nat, delay: nat)
    requires attempt <= MaxRetries <= |exchanges|
    ensures var b := Backoffs(Attempts(exchanges, attempt, delay).waits);
            |b| <= MaxRetries - attempt && forall j :: 0 <= j < |b| ==> b[j] == Doubled(delay, j)
    decreases MaxRetries - attempt
  {
    if attempt < MaxRetries {
      var ex := exchanges[attempt];
      var next := NextDelay(ex.response, delay);
      var rest := Attempts(exchanges, attempt + 1, next).waits;
      if Retried(ex) {
        var w := WaitFor(ex, delay);
        assert Attempts(exchanges, attempt, delay).waits == [w] + rest by {
          AttemptsStep(exchanges, attempt, delay);
        }
        assert |Backoffs(rest)| <= MaxRetries - attempt - 1
            && forall j :: 0 <= j < |Backoffs(rest)| ==> Backoffs(rest)[j] == Doubled(next, j) by {
          AttemptsBackoffs(exchanges, attempt + 1, next);
        }
        BackoffsCons(w, rest);
        if ex.response == Forbidden(NoReset) {
          assert w == BackoffWait(delay) && next == delay * 2;
          DoublingShift(delay, Backoffs(rest));
        } else {
          assert !w.BackoffWait? && next == delay;
        }
      } else {
        assert Attempts(exchanges, attempt, delay).waits == [] by {
          AttemptsStep(exchanges, attempt, delay);
        }
      }
    }
  }

  /** A schedule doubling from `2 * delay`, preceded by `delay`, doubles
      from `delay`. */
  lemma DoublingShift(delay: nat, c: seq<nat>)
    requires forall j :: 0 <= j < |c| ==> c[j] == Doubled(delay * 2, j)
    ensures forall j :: 0 <= j < |[delay] + c| ==> ([delay] + c)[j] == Doubled(delay, j)
  {
    forall j | 0 < j < |[delay] + c| ensures ([delay] + c)[j] == Doubled(delay, j) {
      assert ([delay] + c)[j] == c[j - 1];
    }
  }

  lemma BackoffsCons(w: Wait, rest: seq<Wait>)
    ensures Backoffs([w] + rest) == (if w.BackoffWait? then [w.ms] else []) + Backoffs(rest)
  {
    assert ([w] + rest)[1..] == rest;
  }

  /** The j-th backoff wait of a lookup (counting from 0) is 2000 * 2^j
      milliseconds, whatever reset-header waits come between; there are at
      most five, so the largest is 32000 ms. */
  lemma BackoffSchedule(exchanges: seq<Exchange>)
    requires MaxRetries <= |exchanges|
    ensures var b := Backoffs(Resolve(exchanges).waits);
            |b| <= MaxRetries && forall j :: 0 <= j < |b| ==> b[j] == InitialDelayMs * Pow2(j)
  {
    AttemptsBackoffs(exchanges, 0, InitialDelayMs);
    var b := Backoffs(Resolve(exchanges).waits);
    forall j | 0 <= j < |b| ensures b[j] == InitialDelayMs * Pow2(j) {
      DoubledIsPow2(InitialDelayMs, j);
    }
  }

  // ---------------------------------------------------------------- the answer, stated

  /** A title without '|' has NoTitle as its heading. */
  lemma HeaderWithoutBar(title: string)
    requires '|' !in title
    ensures Header(title) == NoTitle
  {
    SplitFree(title, '|');
  }

  /** With the first '|' of the title at `i` and the next one at `j` (or
      none after it, `j` being the length), the heading is the text between
      them, trimmed. */
  lemma HeaderBetweenBars(title: string, i: nat, j: nat)
    requires i < j <= |title| && title[i] == '|'
    requires '|' !in title[..i] && '|' !in title[i + 1..j]
    requires j == |title| || title[j] == '|'
    ensures Header(title) == Trim(title[i + 1..j])
  {
    SecondPiece(title, '|', i, j);
  }

  /** A title "a|b" with no other '|' has the heading Trim(b). */
  lemma HeaderOfPair(a: string, b: string)
    requires '|' !in a && '|' !in b
    ensures Header(a + ['|'] + b) == Trim(b)
  {
    var parts := Split(a + ['|'] + b, '|');
    assert parts == [a, b] by {
      SplitAtFirst(a, b, '|');
      SplitFree(b, '|');
    }
    assert parts[1] == b;
  }

  /** The usual title shape "<id> | <heading>": the heading comes back
      exactly, whatever the identifier before the bar. */
  lemma HeaderOfTitle(id: string, heading: string)
    requires '|' !in id && '|' !in heading
    requires heading != [] && !IsWhiteSpace(heading[0]) && !IsWhiteSpace(heading[|heading| - 1])
    ensures Header(id + " | " + heading) == heading
  {
    NotInConcat('|', id, " ");
    NotInConcat('|', " ", heading);
    assert id + " | " + heading == (id + " ") + ['|'] + (" " + heading);
    HeaderOfPair(id + " ", " " + heading);
    TrimPadded(heading);
  }

  /** No `items`, or an empty array, gives the sentinel in both fields. */
  lemma NoMatchIsRedacted(items: Option<seq<Item>>)
    requires items.None? || items.value == []
    ensures Classify(items) == Issue(Some(Redacted), Redacted)
  {
  }

  /** A first item without a title gives the sentinel link and NoTitle,
      even when it has a URL. */
  lemma MissingTitleIsRedacted(url: Option<string>, rest: seq<Item>)
    ensures Classify(Some([Item(url, None)] + rest)) == Issue(Some(Redacted), NoTitle)
  {
  }

  /** Only the first item matters, and its URL is returned verbatim. */
  lemma FirstItemDecides(first: Item, rest: seq<Item>)
    ensures Classify(Some([first] + rest)) == Classify(Some([first]))
    ensures first.title.Some? ==> Classify(Some([first] + rest)) == Issue(first.htmlUrl, Header(first.title.value))
  {
  }
}
