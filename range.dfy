/**
 Fetching a range of pages one after another and concatenating their
 records, with a politeness delay between consecutive pages.
 */
module Range {
  import opened Types
  import opened Extract
  import opened Fetch

  /** `scrape_range` calls `scrape_page` with its default budget. */
  const MaxRetries := 3

  /** What page `page` adds to the accumulator: its records when the fetch
      gave any, nothing when it gave no result or an empty list. */
  function PageContribution(server: Server, page: int): seq<Record>
  {
    match PageResult(server, page, MaxRetries)
    case Some(records) => records
    case None => []
  }

  /** The contributions of pages `from..upto` (exclusive), in page order. */
  function Concat(contribution: int -> seq<Record>, from: int, upto: int): seq<Record>
    requires from <= upto
    decreases upto - from
  {
    if upto == from then []
    else Concat(contribution, from, upto - 1) + contribution(upto - 1)
  }

  /** The records `scrape_range` collects from pages `from..upto` (exclusive). */
  function Collected(server: Server, from: int, upto: int): seq<Record>
    requires from <= upto
  {
    Concat(page => PageContribution(server, page), from, upto)
  }

  /** The events of pages `from..upto` (exclusive) of a run that ends at
      `last`: each page's requests and backoffs, then a delay unless the page
      is `last`. */
  function RangeLog(server: Server, from: int, upto: int, last: int, delay: real): seq<Event>
    requires from <= upto
    decreases upto - from
  {
    if upto == from then []
    else
      var fetched := RangeLog(server, from, upto - 1, last, delay) + PageLog(server, upto - 1, MaxRetries);
      if upto - 1 < last then fetched + [Pause(delay)] else fetched
  }

  /** One iteration of `scrape_range`'s loop: the page's records are
      appended only when the fetch gave a non-empty list, and the page's
      events are followed by a delay unless it is the last page. */
  lemma Step(server: Server, from: int, upto: int, last: int, delay: real,
             pageData: Option<seq<Record>>, pageLog: seq<Event>)
    requires from <= upto
    requires pageData == PageResult(server, upto, MaxRetries)
    requires pageLog == PageLog(server, upto, MaxRetries)
    ensures Collected(server, from, upto + 1) ==
      Collected(server, from, upto) + (if pageData.Some? && pageData.value != [] then pageData.value else [])
    ensures upto < last ==>
      RangeLog(server, from, upto + 1, last, delay) == RangeLog(server, from, upto, last, delay) + pageLog + [Pause(delay)]
    ensures upto >= last ==>
      RangeLog(server, from, upto + 1, last, delay) == RangeLog(server, from, upto, last, delay) + pageLog
  {
  }

  /** `scrape_range`: pages `startPage..endPage` inclusive, in order. */
  method ScrapeRange(server: Server, startPage: int, endPage: int, delay: real) returns (all: seq<Record>, log: seq<Event>)
    ensures startPage > endPage ==> all == [] && log == []
    ensures startPage <= endPage ==> all == Collected(server, startPage, endPage + 1)
    ensures startPage <= endPage ==> log == RangeLog(server, startPage, endPage + 1, endPage, delay)
  {
    all := [];
    log := [];
    var page := startPage;
    while page <= endPage
      invariant startPage <= page
      invariant page <= endPage + 1 || page == startPage
      invariant page == startPage ==> all == [] && log == []
      invariant all == Collected(server, startPage, page)
      invariant log == RangeLog(server, startPage, page, endPage, delay)
      decreases endPage - page
    {
      var pageData, pageLog := ScrapePage(server, page, MaxRetries);
      Step(server, startPage, page, endPage, delay, pageData, pageLog);
      log := log + pageLog;
      if pageData.Some? && pageData.value != [] {
        all := all + pageData.value;
      }
      if page < endPage {
        log := log + [Pause(delay)];
      }
      page := page + 1;
    }
  }

  // ---------------------------------------------------------------------------
  // Properties of a range
  // ---------------------------------------------------------------------------

  /** Later pages only append: the records of a shorter range are a prefix of
      those of a longer one, whatever the later pages gave. */
  lemma {:induction false} ConcatPrefix(contribution: int -> seq<Record>, from: int, mid: int, upto: int)
    requires from <= mid <= upto
    ensures |Concat(contribution, from, mid)| <= |Concat(contribution, from, upto)|
    ensures Concat(contribution, from, upto)[..|Concat(contribution, from, mid)|] == Concat(contribution, from, mid)
    decreases upto - mid
  {
    if mid < upto {
      ConcatPrefix(contribution, from, mid, upto - 1);
      var shorter := Concat(contribution, from, mid);
      var before := Concat(contribution, from, upto - 1);
      var all := before + contribution(upto - 1);
      assert Concat(contribution, from, upto) == all;
      assert all[..|before|] == before;
      assert before[..|shorter|] == shorter;
      assert all[..|shorter|] == shorter;
    } else {
      assert Concat(contribution, from, mid)[..|Concat(contribution, from, mid)|] == Concat(contribution, from, mid);
    }
  }

  lemma CollectedPrefix(server: Server, from: int, mid: int, upto: int)
    requires from <= mid <= upto
    ensures |Collected(server, from, mid)| <= |Collected(server, from, upto)|
    ensures Collected(server, from, upto)[..|Collected(server, from, mid)|] == Collected(server, from, mid)
  {
    ConcatPrefix(page => PageContribution(server, page), from, mid, upto);
  }

  /** The pages of a range followed by the last one: at least one and at most
      `MaxRetries` requests per page, and one delay after every page except
      `last`. */
  lemma {:induction false} RangeLogCounts(server: Server, from: int, upto: int, last: int, delay: real)
    requires from <= upto <= last + 1
    ensures upto - from <= CountGets(RangeLog(server, from, upto, last, delay)) <= MaxRetries * (upto - from)
    ensures upto <= last ==> CountPauses(RangeLog(server, from, upto, last, delay)) == upto - from
    ensures from < upto == last + 1 ==> CountPauses(RangeLog(server, from, upto, last, delay)) == upto - from - 1
    decreases upto - from
  {
    if from < upto {
      var page := upto - 1;
      var before := RangeLog(server, from, page, last, delay);
      var fetched := PageLog(server, page, MaxRetries);
      RangeLogCounts(server, from, page, last, delay);
      FetchPageRequests(server, page, MaxRetries);
      LogAppend(before, fetched);
      if page < last {
        LogAppend(before + fetched, [Pause(delay)]);
        SingleEvent(Pause(delay));
      }
    }
  }

  /** `scrape_range`'s log: one delay between each two consecutive pages and
      none after the last, between one and `MaxRetries` requests per page;
      an empty range makes no request. */
  lemma RangeDelays(server: Server, startPage: int, endPage: int, delay: real)
    requires startPage <= endPage
    ensures CountPauses(RangeLog(server, startPage, endPage + 1, endPage, delay)) == endPage - startPage
    ensures endPage - startPage + 1 <= CountGets(RangeLog(server, startPage, endPage + 1, endPage, delay))
                                    <= MaxRetries * (endPage - startPage + 1)
    ensures !RangeLog(server, startPage, endPage + 1, endPage, delay)[|RangeLog(server, startPage, endPage + 1, endPage, delay)| - 1].Pause?
  {
    RangeLogCounts(server, startPage, endPage + 1, endPage, delay);
    var before := RangeLog(server, startPage, endPage, endPage, delay);
    var fetched := PageLog(server, endPage, MaxRetries);
    FetchPageRequests(server, endPage, MaxRetries);
    assert fetched != [];
    assert RangeLog(server, startPage, endPage + 1, endPage, delay) == before + fetched;
    assert (before + fetched)[|before + fetched| - 1] == fetched[|fetched| - 1];
    assert fetched[|fetched| - 1] in fetched;
    if fetched[|fetched| - 1].Pause? {
      CountPausesPositive(fetched, |fetched| - 1);
    }
  }

  lemma {:induction false} CountPausesPositive(log: seq<Event>, i: nat)
    requires i < |log| && log[i].Pause?
    ensures CountPauses(log) > 0
    decreases i
  {
    if i > 0 {
      CountPausesPositive(log[1..], i - 1);
    }
  }

  /** The listing API's page size: no page the scraper parses holds more than
      `PageSize` items. */
  ghost predicate PagesWithinSize(server: Server, from: int, upto: int) {
    forall p: int, k: nat :: from <= p < upto && server(p, k).Ok? ==> |ItemsOf(server(p, k).body)| <= PageSize
  }

  /** Every id of `rs` lies in the window `(lo, hi]`. */
  predicate IdsWithin(rs: seq<Record>, lo: int, hi: int) {
    forall i :: 0 <= i < |rs| ==> lo < rs[i].id <= hi
  }

  /** No id of `rs` lies in the window `(lo, hi]`. */
  predicate IdsAvoid(rs: seq<Record>, lo: int, hi: int) {
    forall i :: 0 <= i < |rs| ==> !(lo < rs[i].id <= hi)
  }

  /** The ids of `rs` grow strictly, so none is repeated. */
  predicate IdsAscending(rs: seq<Record>) {
    forall i, j :: 0 <= i < j < |rs| ==> rs[i].id < rs[j].id
  }

  /** Appending records of a later window keeps the ids ascending. */
  lemma AppendWindows(a: seq<Record>, b: seq<Record>, ab: seq<Record>, lo: int, mid: int, hi: int)
    requires ab == a + b
    requires lo <= mid <= hi
    requires IdsWithin(a, lo, mid) && IdsAscending(a)
    requires IdsWithin(b, mid, hi) && IdsAscending(b)
    ensures IdsWithin(ab, lo, hi) && IdsAscending(ab)
  {
    forall i, j | 0 <= i < j < |a + b|
      ensures (a + b)[i].id < (a + b)[j].id
    {
      if j < |a| {
        assert (a + b)[i] == a[i] && (a + b)[j] == a[j];
      } else if |a| <= i {
        assert (a + b)[i] == b[i - |a|] && (a + b)[j] == b[j - |a|];
      } else {
        assert (a + b)[i] == a[i] && (a + b)[j] == b[j - |a|];
      }
    }
    forall i | 0 <= i < |a + b|
      ensures lo < (a + b)[i].id <= hi
    {
      if i < |a| {
        assert (a + b)[i] == a[i];
      } else {
        assert (a + b)[i] == b[i - |a|];
      }
    }
  }

  /** Ids inside one window avoid every window that does not overlap it. */
  lemma WindowsApart(rs: seq<Record>, lo: int, hi: int, lo2: int, hi2: int)
    requires IdsWithin(rs, lo, hi) && (hi <= lo2 || hi2 <= lo)
    ensures IdsAvoid(rs, lo2, hi2)
  {
  }

  lemma AppendAvoiding(a: seq<Record>, b: seq<Record>, ab: seq<Record>, lo: int, hi: int)
    requires ab == a + b
    requires IdsAvoid(a, lo, hi) && IdsAvoid(b, lo, hi)
    ensures IdsAvoid(ab, lo, hi)
  {
    forall i | 0 <= i < |a + b|
      ensures !(lo < (a + b)[i].id <= hi)
    {
      if i < |a| {
        assert (a + b)[i] == a[i];
      } else {
        assert (a + b)[i] == b[i - |a|];
      }
    }
  }

  /** A page's records carry the ids `(page - 1) * 25 + 1, …` of its own
      window, whichever attempt delivered them. */
  lemma ContributionIds(server: Server, page: int)
    requires PagesWithinSize(server, page, page + 1)
    ensures forall i :: 0 <= i < |PageContribution(server, page)| ==>
      PageContribution(server, page)[i].id == (page - 1) * PageSize + i + 1
    ensures IdsWithin(PageContribution(server, page), (page - 1) * PageSize, page * PageSize)
    ensures IdsAscending(PageContribution(server, page))
  {
    match FirstSuccess(server, page, 0, MaxRetries)
    case Some(k) =>
      PageIds(ItemsOf(server(page, k).body), page);
    case None =>
  }

  /** Every page of `from..upto` contributes ascending ids inside its window. */
  ghost predicate Windowed(contribution: int -> seq<Record>, from: int, upto: int) {
    forall page :: from <= page < upto ==>
      IdsWithin(contribution(page), (page - 1) * PageSize, page * PageSize) && IdsAscending(contribution(page))
  }

  lemma {:induction false} ConcatIdsAscending(contribution: int -> seq<Record>, from: int, upto: int)
    requires from <= upto
    requires Windowed(contribution, from, upto)
    ensures IdsWithin(Concat(contribution, from, upto), (from - 1) * PageSize, (upto - 1) * PageSize)
    ensures IdsAscending(Concat(contribution, from, upto))
    decreases upto - from
  {
    if from < upto {
      var page := upto - 1;
      ConcatIdsAscending(contribution, from, page);
      AppendWindows(Concat(contribution, from, page), contribution(page), Concat(contribution, from, upto),
                    (from - 1) * PageSize, (page - 1) * PageSize, page * PageSize);
    }
  }

  lemma {:induction false} ConcatLeavesGap(contribution: int -> seq<Record>, from: int, upto: int, gap: int)
    requires from <= gap < upto
    requires Windowed(contribution, from, upto)
    requires contribution(gap) == []
    ensures IdsAvoid(Concat(contribution, from, upto), (gap - 1) * PageSize, gap * PageSize)
    decreases upto - from
  {
    var page := upto - 1;
    var lo, hi := (gap - 1) * PageSize, gap * PageSize;
    if page == gap {
      ConcatIdsAscending(contribution, from, page);
      WindowsApart(Concat(contribution, from, page), (from - 1) * PageSize, (page - 1) * PageSize, lo, hi);
    } else {
      ConcatLeavesGap(contribution, from, page, gap);
      assert hi <= (page - 1) * PageSize;
      WindowsApart(contribution(page), (page - 1) * PageSize, page * PageSize, lo, hi);
    }
    AppendAvoiding(Concat(contribution, from, page), contribution(page), Concat(contribution, from, upto), lo, hi);
  }

  lemma CollectedWindowed(server: Server, from: int, upto: int)
    requires PagesWithinSize(server, from, upto)
    ensures Windowed(page => PageContribution(server, page), from, upto)
  {
    forall page | from <= page < upto
      ensures IdsWithin(PageContribution(server, page), (page - 1) * PageSize, page * PageSize)
      ensures IdsAscending(PageContribution(server, page))
    {
      ContributionIds(server, page);
    }
  }

  /** Ids grow strictly through the whole result and stay inside the windows
      of the pages requested, so no id is ever repeated. */
  lemma CollectedIdsAscending(server: Server, from: int, upto: int)
    requires from <= upto
    requires PagesWithinSize(server, from, upto)
    ensures IdsWithin(Collected(server, from, upto), (from - 1) * PageSize, (upto - 1) * PageSize)
    ensures IdsAscending(Collected(server, from, upto))
  {
    CollectedWindowed(server, from, upto);
    ConcatIdsAscending(page => PageContribution(server, page), from, upto);
  }

  /** A page that contributes no records (its fetch gave no result or an
      empty list) leaves its whole window of ids unused: later pages are not
      renumbered to close the gap. */
  lemma FailedPageLeavesGap(server: Server, from: int, upto: int, failed: int)
    requires from <= failed < upto
    requires PagesWithinSize(server, from, upto)
    requires PageContribution(server, failed) == []
    ensures IdsAvoid(Collected(server, from, upto), (failed - 1) * PageSize, failed * PageSize)
  {
    CollectedWindowed(server, from, upto);
    ConcatLeavesGap(page => PageContribution(server, page), from, upto, failed);
  }
}
