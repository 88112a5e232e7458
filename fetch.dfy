/**
 Fetching one page with retries and exponential backoff.

 The HTTP session is replaced by `server`, which answers the request for
 `page` on zero-based attempt `k` with `server(page, k)`. Sleeping is replaced
 by an event in the returned log, so the log records every request issued and
 every pause taken, in order.
 */
module Fetch {
  import opened Types
  import opened Extract

  /** What one GET gives the scraper. `Failed` is every
      `requests.exceptions.RequestException`: a transport error or timeout, a
      4xx or 5xx status other than 429 (`raise_for_status`), or a body that
      does not decode as JSON. Any other status whose body decodes is `Ok`. */
  datatype Response = RateLimited | Failed | Ok(body: WellFormedResponse)

  /** A body extraction can read without raising: the scraper does not catch
      the `KeyError`/`TypeError` a malformed item would cause. */
  type WellFormedResponse = r: ApiResponse | AllWellFormed(ItemsOf(r)) witness ApiResponse(None)

  type Server = (int, nat) -> Response

  /** An observable effect: a GET for a page, a backoff sleep of a whole
      number of seconds, or the politeness delay between pages. */
  datatype Event = Get(page: int) | Backoff(seconds: nat) | Pause(delay: real)

  /** `2 ** k`. */
  function Pow2(k: nat): (r: nat)
    ensures r >= 1
  {
    if k == 0 then 1 else 2 * Pow2(k - 1)
  }

  /** Attempts `range(maxRetries)` allows. */
  function Budget(maxRetries: int): nat {
    if maxRetries < 0 then 0 else maxRetries
  }

  /** The first attempt in `from..limit` that succeeds, if any. */
  function FirstSuccess(server: Server, page: int, from: nat, limit: int): (r: Option<nat>)
    ensures r.Some? ==> from <= r.value < limit && server(page, r.value).Ok?
    ensures r.Some? ==> forall k: nat :: from <= k < r.value ==> !server(page, k).Ok?
    ensures r.None? ==> forall k: nat :: from <= k < limit ==> !server(page, k).Ok?
    decreases limit - from
  {
    if limit <= from then None
    else if server(page, from).Ok? then Some(from)
    else FirstSuccess(server, page, from + 1, limit)
  }

  /** The events of `n` attempts that each failed and were followed by their
      backoff sleep: request, sleep `2 ** 0`, request, sleep `2 ** 1`, … */
  function Retries(page: int, n: nat): (log: seq<Event>)
    ensures |log| == 2 * n
  {
    if n == 0 then [] else Retries(page, n - 1) + [Get(page), Backoff(Pow2(n - 1))]
  }

  /** What `scrape_page` returns, as a function of the server's answers: the
      extraction of the first successful attempt within the budget, else no
      result. */
  function PageResult(server: Server, page: int, maxRetries: int): Option<seq<Record>> {
    match FirstSuccess(server, page, 0, maxRetries)
    case Some(k) => Some(Extraction(ItemsOf(server(page, k).body), page))
    case None => None
  }

  /** What `scrape_page` does: one request per attempt, each failed attempt
      followed by a sleep of `2 ** attempt`, except that a request error on
      the last permitted attempt gives up at once; a 429 on the last attempt
      still sleeps. */
  function PageLog(server: Server, page: int, maxRetries: int): seq<Event> {
    match FirstSuccess(server, page, 0, maxRetries)
    case Some(k) => Retries(page, k) + [Get(page)]
    case None =>
      if maxRetries > 0 && server(page, maxRetries - 1).Failed? then Retries(page, maxRetries - 1) + [Get(page)]
      else Retries(page, Budget(maxRetries))
  }

  /** `scrape_page`: up to `maxRetries` attempts with exponential backoff. */
  method ScrapePage(server: Server, page: int, maxRetries: int) returns (result: Option<seq<Record>>, log: seq<Event>)
    ensures result == PageResult(server, page, maxRetries)
    ensures log == PageLog(server, page, maxRetries)
  {
    log := [];
    var attempt: nat := 0;
    while attempt < maxRetries
      invariant attempt <= Budget(maxRetries)
      invariant log == Retries(page, attempt)
      invariant FirstSuccess(server, page, 0, maxRetries) == FirstSuccess(server, page, attempt, maxRetries)
      invariant 0 < attempt == maxRetries ==> server(page, attempt - 1).RateLimited?
      decreases maxRetries - attempt
    {
      log := log + [Get(page)];
      match server(page, attempt) {
        case RateLimited =>
          log := log + [Backoff(Pow2(attempt))];
        case Failed =>
          if attempt < maxRetries - 1 {
            log := log + [Backoff(Pow2(attempt))];
          } else {
            return None, log;
          }
        case Ok(body) =>
          var records := ExtractAnimeData(body, page);
          return Some(records), log;
      }
      attempt := attempt + 1;
    }
    result := None;
  }

  // ---------------------------------------------------------------------------
  // Reading the log
  // ---------------------------------------------------------------------------

  /** Requests issued. */
  function CountGets(log: seq<Event>): nat {
    if log == [] then 0 else (if log[0].Get? then 1 else 0) + CountGets(log[1..])
  }

  /** Politeness delays taken. */
  function CountPauses(log: seq<Event>): nat {
    if log == [] then 0 else (if log[0].Pause? then 1 else 0) + CountPauses(log[1..])
  }

  /** Backoff durations, in the order they were slept. */
  function Sleeps(log: seq<Event>): seq<nat> {
    if log == [] then [] else (if log[0].Backoff? then [log[0].seconds] else []) + Sleeps(log[1..])
  }

  lemma {:induction false} LogAppend(a: seq<Event>, b: seq<Event>)
    ensures CountGets(a + b) == CountGets(a) + CountGets(b)
    ensures CountPauses(a + b) == CountPauses(a) + CountPauses(b)
    ensures Sleeps(a + b) == Sleeps(a) + Sleeps(b)
    decreases |a|
  {
    if a == [] {
      assert a + b == b;
    } else {
      assert (a + b)[0] == a[0];
      assert (a + b)[1..] == a[1..] + b;
      LogAppend(a[1..], b);
    }
  }

  lemma SingleEvent(e: Event)
    ensures CountGets([e]) == (if e.Get? then 1 else 0)
    ensures CountPauses([e]) == (if e.Pause? then 1 else 0)
    ensures Sleeps([e]) == (if e.Backoff? then [e.seconds] else [])
  {
    assert [e][1..] == [];
  }

  lemma {:induction false} RetriesAt(page: int, n: nat, j: nat)
    requires j < n
    ensures Retries(page, n)[2 * j] == Get(page)
    ensures Retries(page, n)[2 * j + 1] == Backoff(Pow2(j))
    decreases n
  {
    if j < n - 1 {
      RetriesAt(page, n - 1, j);
    }
  }

  /** Every request in `log` is for `page`. */
  predicate OnlyRequests(log: seq<Event>, page: int) {
    forall e :: e in log && e.Get? ==> e.page == page
  }

  /** The backoff durations `2 ** 0, …, 2 ** (n - 1)`. */
  function Schedule(n: nat): (d: seq<nat>)
    ensures |d| == n
  {
    if n == 0 then [] else Schedule(n - 1) + [Pow2(n - 1)]
  }

  lemma {:induction false} ScheduleAt(n: nat, j: nat)
    requires j < n
    ensures Schedule(n)[j] == Pow2(j)
    decreases n
  {
    if j < n - 1 {
      ScheduleAt(n - 1, j);
    }
  }

  /** `n` failed attempts: `n` requests for this page, no politeness delay,
      and the sleeps of the backoff schedule. */
  lemma {:induction false} RetriesSummary(page: int, n: nat)
    ensures CountGets(Retries(page, n)) == n
    ensures CountPauses(Retries(page, n)) == 0
    ensures Sleeps(Retries(page, n)) == Schedule(n)
    ensures OnlyRequests(Retries(page, n), page)
    decreases n
  {
    if n > 0 {
      RetriesSummary(page, n - 1);
      LogAppend(Retries(page, n - 1), [Get(page), Backoff(Pow2(n - 1))]);
      LogAppend([Get(page)], [Backoff(Pow2(n - 1))]);
      SingleEvent(Get(page));
      SingleEvent(Backoff(Pow2(n - 1)));
      assert [Get(page), Backoff(Pow2(n - 1))] == [Get(page)] + [Backoff(Pow2(n - 1))];
    }
  }

  /** `n` failed attempts, optionally followed by one more request that is
      not slept on: `n` or `n + 1` requests for this page, no politeness
      delay, and the sleeps `2 ** 0, …, 2 ** (n - 1)` in that order. */
  lemma AttemptsSummary(page: int, n: nat, final: bool)
    ensures var log := Retries(page, n) + (if final then [Get(page)] else []);
      && CountGets(log) == (if final then n + 1 else n)
      && CountPauses(log) == 0
      && |Sleeps(log)| == n
      && (forall j :: 0 <= j < n ==> Sleeps(log)[j] == Pow2(j))
      && OnlyRequests(log, page)
  {
    var tail: seq<Event> := if final then [Get(page)] else [];
    SingleEvent(Get(page));
    assert CountGets(tail) == (if final then 1 else 0) && CountPauses(tail) == 0 && Sleeps(tail) == [];
    RetriesSummary(page, n);
    LogAppend(Retries(page, n), tail);
    assert Sleeps(Retries(page, n) + tail) == Schedule(n);
    forall j | 0 <= j < n ensures Schedule(n)[j] == Pow2(j) {
      ScheduleAt(n, j);
    }
  }

  // ---------------------------------------------------------------------------
  // Properties of one page fetch
  // ---------------------------------------------------------------------------

  /** Every page fetch is `n` failed attempts with their sleeps, possibly
      followed by one last request that is not slept on (a success, or a
      request error on the last permitted attempt). */
  lemma FetchPageShape(server: Server, page: int, maxRetries: int) returns (n: nat, final: bool)
    ensures PageLog(server, page, maxRetries) == Retries(page, n) + (if final then [Get(page)] else [])
    ensures final ==> n < maxRetries
    ensures !final ==> n == Budget(maxRetries) && PageResult(server, page, maxRetries).None?
  {
    match FirstSuccess(server, page, 0, maxRetries)
    case Some(k) =>
      n, final := k, true;
    case None =>
      if maxRetries > 0 && server(page, maxRetries - 1).Failed? {
        n, final := maxRetries - 1, true;
      } else {
        n, final := Budget(maxRetries), false;
        assert Retries(page, n) + [] == Retries(page, n);
      }
  }

  /** At most `maxRetries` requests, all for this page, and at least one when
      the budget allows any; no politeness delay inside a page. With a budget
      of zero or less nothing is requested and there is no result. */
  lemma FetchPageRequests(server: Server, page: int, maxRetries: int)
    ensures 1 <= CountGets(PageLog(server, page, maxRetries)) <= maxRetries || maxRetries <= 0
    ensures CountPauses(PageLog(server, page, maxRetries)) == 0
    ensures OnlyRequests(PageLog(server, page, maxRetries), page)
    ensures maxRetries <= 0 ==> PageResult(server, page, maxRetries) == None && PageLog(server, page, maxRetries) == []
  {
    var n, final := FetchPageShape(server, page, maxRetries);
    AttemptsSummary(page, n, final);
  }

  /** A result exactly when some attempt within the budget succeeds; it is
      the extraction of the first such attempt, reached after one request and
      one sleep for each earlier attempt. */
  lemma FetchPageResult(server: Server, page: int, maxRetries: int)
    ensures PageResult(server, page, maxRetries).Some? <==>
      exists k: nat :: k < maxRetries && server(page, k).Ok?
    ensures forall k: nat :: k < maxRetries && server(page, k).Ok? && (forall j: nat :: j < k ==> !server(page, j).Ok?) ==>
      && PageResult(server, page, maxRetries) == Some(Extraction(ItemsOf(server(page, k).body), page))
      && CountGets(PageLog(server, page, maxRetries)) == k + 1
      && |Sleeps(PageLog(server, page, maxRetries))| == k
  {
    match FirstSuccess(server, page, 0, maxRetries)
    case Some(first) =>
      assert server(page, first).Ok?;
      AttemptsSummary(page, first, true);
      forall k: nat | k < maxRetries && server(page, k).Ok? && (forall j: nat :: j < k ==> !server(page, j).Ok?)
        ensures PageResult(server, page, maxRetries) == Some(Extraction(ItemsOf(server(page, k).body), page))
        ensures CountGets(PageLog(server, page, maxRetries)) == k + 1
        ensures |Sleeps(PageLog(server, page, maxRetries))| == k
      {
        assert k == first;
      }
    case None =>
  }

  /** Backoff after zero-based attempt `j` is exactly `2 ** j`: the sleeps in
      the log are `1, 2, 4, …`, one per request except the last one when that
      request succeeded. */
  lemma BackoffSchedule(server: Server, page: int, maxRetries: int)
    ensures forall j :: 0 <= j < |Sleeps(PageLog(server, page, maxRetries))| ==>
      Sleeps(PageLog(server, page, maxRetries))[j] == Pow2(j)
    ensures PageResult(server, page, maxRetries).Some? ==>
      |Sleeps(PageLog(server, page, maxRetries))| + 1 == CountGets(PageLog(server, page, maxRetries))
  {
    var n, final := FetchPageShape(server, page, maxRetries);
    AttemptsSummary(page, n, final);
  }

  /** A request error on the last permitted attempt gives up without
      sleeping: `maxRetries` requests but only `maxRetries - 1` sleeps, and
      the log ends with the request. */
  lemma ErrorOnLastAttemptSkipsSleep(server: Server, page: int, maxRetries: int)
    requires maxRetries > 0
    requires forall k: nat :: k < maxRetries ==> !server(page, k).Ok?
    requires server(page, maxRetries - 1).Failed?
    ensures PageResult(server, page, maxRetries) == None
    ensures CountGets(PageLog(server, page, maxRetries)) == maxRetries
    ensures |Sleeps(PageLog(server, page, maxRetries))| == maxRetries - 1
    ensures PageLog(server, page, maxRetries)[|PageLog(server, page, maxRetries)| - 1] == Get(page)
  {
    assert FirstSuccess(server, page, 0, maxRetries).None?;
    AttemptsSummary(page, maxRetries - 1, true);
  }

  /** A 429 on the last permitted attempt still sleeps `2 ** (maxRetries - 1)`
      before giving up: as many sleeps as requests. */
  lemma RateLimitOnLastAttemptSleeps(server: Server, page: int, maxRetries: int)
    requires maxRetries > 0
    requires forall k: nat :: k < maxRetries ==> !server(page, k).Ok?
    requires server(page, maxRetries - 1).RateLimited?
    ensures PageResult(server, page, maxRetries) == None
    ensures CountGets(PageLog(server, page, maxRetries)) == maxRetries
    ensures |Sleeps(PageLog(server, page, maxRetries))| == maxRetries
    ensures PageLog(server, page, maxRetries)[|PageLog(server, page, maxRetries)| - 1] == Backoff(Pow2(maxRetries - 1))
  {
    assert FirstSuccess(server, page, 0, maxRetries).None?;
    assert Retries(page, maxRetries) + [] == Retries(page, maxRetries);
    AttemptsSummary(page, maxRetries, false);
    RetriesAt(page, maxRetries, maxRetries - 1);
  }

  /** Two 429s and then a success: the scraper sleeps 1 and then 2 seconds
      and returns the third attempt's records. */
  lemma RateLimitedTwiceThenSuccess(body: WellFormedResponse, page: int)
    ensures var server := (p: int, k: nat) => if k < 2 then RateLimited else Ok(body);
      && PageResult(server, page, 3) == Some(Extraction(ItemsOf(body), page))
      && PageLog(server, page, 3) == [Get(page), Backoff(1), Get(page), Backoff(2), Get(page)]
  {
    var server := (p: int, k: nat) => if k < 2 then RateLimited else Ok(body);
    assert server(page, 0) == RateLimited && server(page, 1) == RateLimited && server(page, 2) == Ok(body);
    assert FirstSuccess(server, page, 2, 3) == Some(2);
    assert FirstSuccess(server, page, 1, 3) == Some(2);
    assert FirstSuccess(server, page, 0, 3) == Some(2);
    assert Retries(page, 2) == [Get(page), Backoff(1), Get(page), Backoff(2)] by {
      assert Pow2(1) == 2;
      assert Retries(page, 1) == [Get(page), Backoff(1)];
    }
  }
}
