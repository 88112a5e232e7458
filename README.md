# Jikan anime scraper: a Dafny model

This project models the scraping core of `JikanScraper` in `scrape.py`. The
scraper pages through the Jikan v4 `/anime` listing and flattens each anime
into a nine-field record: a synthetic `id`, the default `title`, `score`,
`scored_by`, `rank`, `popularity`, `members`, `favorites`, and the genre
names joined into one string. The core has three parts:

- **Record extraction** (`_extract_anime_data`), in `extract.dfy`. It is the
  loop method `Extract.ExtractAnimeData`, proved equal to the specification
  function `Extract.Extraction`. The title lookup (`Extract.DefaultTitle`)
  and the genre join (`Extract.Join`) are pure functions.
- **Fetching one page with retries** (`scrape_page`), in `fetch.dfy`. It is
  the loop method `Fetch.ScrapePage`, proved equal to two specification
  functions: `Fetch.PageResult` (what it returns) and `Fetch.PageLog` (what
  it did).
- **Fetching a range of pages** (`scrape_range`), in `range.dfy`. It is the
  loop method `Range.ScrapeRange`, proved equal to two specification
  functions: `Range.Collected` (the records) and `Range.RangeLog` (the
  events).

The HTTP session is a function `server(page, attempt)`. It answers each
request with `RateLimited` (status 429), `Failed` (any
`RequestException`), or `Ok(body)`. The methods do not sleep. Instead they
return a log of events, in order:

- `Get(page)` for every request;
- `Backoff(seconds)` for every retry sleep;
- `Pause(delay)` for every politeness delay between pages.

The contracts and lemmas state facts about this log: how many requests were
made, the backoff schedule, and the number of delays.

`types.dfy` holds the decoded JSON as the scraper reads it. Python's
`dict.get` answers `None` both for a missing key and for a JSON `null`. Each
optional field is an `Option` that stands for that answer, with the value
narrowed to the type the API documents for the field (see "Left out").

## Model

| member | source | states |
|---|---|---|
| Extract.DefaultTitle | scrape.py:52-56 | The result is the `title` of the first variant whose type is "Default", even when that title is null. When no variant is typed "Default", the result is the scalar `title`. |
| Extract.GenreNames | scrape.py:60 | One name per genre entry, in source order. |
| Extract.JoinLength | scrape.py:61 | Joining no parts gives "". Otherwise the result's length is the parts' total length plus one separator per neighbouring pair, and it begins with the first part. |
| Extract.JoinSnoc | scrape.py:61 | Adding a part at the end appends the separator and then that part. |
| Extract.Extraction | scrape.py:48-80 | The result has exactly one record per item of `data`. |
| Extract.ExtractionAt | scrape.py:50-78 | Record `i` is built from item `i` at zero-based index `i`. |
| Extract.ExtractionSpec | scrape.py:50-78 | For every index `i`, record `i` has `id == (page-1)*25 + i + 1`, the default title, the genres joined with ", ", and all six numeric fields copied unchanged from item `i`. |
| Extract.PageIds | scrape.py:64 | The ids on a page rise contiguously from `(page-1)*25 + 1`. When a page has at most 25 items, they stay inside that page's window `((page-1)*25, page*25]`. |
| Extract.ExtractAnimeData | scrape.py:44-80 | The loop's result equals `Extraction` of the `data` list. A missing `data` key gives an empty list. |
| Extract.TitleAndGenreExamples | scrape.py:52-61 | Worked cases: a "Default" variant beats an earlier "Japanese" one; no "Default" variant falls back to the scalar title; the genres give "Action, Comedy"; no genres give "". |
| Fetch.FirstSuccess | scrape.py:18-32 | Returns the first attempt in the range whose response is a success, with no success before it. Returns nothing exactly when no attempt in the range succeeds. |
| Fetch.ScrapePage | scrape.py:14-42 | The loop returns `PageResult` and produces the log `PageLog`. |
| Fetch.RetriesAt | scrape.py:23-37 | After `n` failed attempts, event `2j` is a request and event `2j+1` is a sleep of `2**j` seconds. |
| Fetch.RetriesSummary | scrape.py:18-37 | `n` failed attempts issue `n` requests, all for this page. Their sleeps are `2**0, ..., 2**(n-1)` in order, and no politeness delay occurs. |
| Fetch.FetchPageShape | scrape.py:18-42 | Every fetch is `n` failed attempts with their sleeps, optionally followed by one last request that is not slept on, with `n < max_retries` in that case. Without that last request, `n` is the whole budget and the result is `None`. |
| Fetch.FetchPageRequests | scrape.py:18-42 | A fetch issues between 1 and `max_retries` requests, all for this page, and no politeness delay. With `max_retries <= 0` it issues no request and returns `None`. |
| Fetch.FetchPageResult | scrape.py:18-32 | There is a result exactly when some attempt below `max_retries` succeeds. The result is then the extraction of the first successful attempt `k`, reached after `k + 1` requests and `k` sleeps. |
| Fetch.BackoffSchedule | scrape.py:23-37 | The `j`-th sleep is `2**j`. When there is a result, there is one sleep fewer than requests. |
| Fetch.ErrorOnLastAttemptSkipsSleep | scrape.py:34-40 | A request error on the last attempt returns `None` at once. The log has `max_retries` requests but `max_retries - 1` sleeps, and it ends with the request. |
| Fetch.RateLimitOnLastAttemptSleeps | scrape.py:23-42 | A 429 on the last attempt still sleeps `2**(max_retries-1)` and then returns `None`. The log has `max_retries` requests and `max_retries` sleeps, and it ends with that sleep. |
| Fetch.RateLimitedTwiceThenSuccess | scrape.py:18-32 | Two 429s and then a success (budget 3) give the third attempt's records. The log is request, sleep 1, request, sleep 2, request. |
| Range.Step | scrape.py:91-100 | In one page iteration, the page's records are appended only when the fetch gave a non-empty list; `None` or `[]` leaves the records unchanged. The page's events are followed by one delay unless it is the last page. |
| Range.ScrapeRange | scrape.py:82-102 | When `start_page > end_page`, the result is empty and no request is made. Otherwise the loop returns `Collected` over `start_page..end_page` and produces `RangeLog`. |
| Range.ConcatPrefix | scrape.py:92-93 | Later pages only append. The records of a shorter range are a prefix of those of a longer one. |
| Range.CollectedPrefix | scrape.py:88-93 | The records of pages `start..mid` are a prefix of the records of `start..end`. |
| Range.RangeLogCounts | scrape.py:88-100 | A run over `n` pages makes between `n` and `3n` requests in total. Each page before the last is followed by one delay. |
| Range.RangeDelays | scrape.py:88-100 | For `start_page <= end_page`, there are exactly `end_page - start_page` delays. The total number of requests lies between the number of pages and 3 times that number. The log does not end with a delay. |
| Range.ContributionIds | scrape.py:64 | A page's records carry the ids of its own window, whichever attempt delivered them. |
| Range.ConcatIdsAscending | scrape.py:88-93 | When every page adds ascending ids inside its own window, the concatenation is ascending and lies within the windows of the pages requested. |
| Range.CollectedIdsAscending | scrape.py:88-93 | When each page holds at most 25 items, ids strictly ascend through the whole result, so no id repeats. |
| Range.ConcatLeavesGap | scrape.py:91-96 | A page that adds nothing leaves its window of ids unused in the concatenation. |
| Range.FailedPageLeavesGap | scrape.py:91-96 | A page whose fetch gives `None` or `[]` leaves its 25 ids unused. Later pages are not renumbered. |

## Left out

- The HTTP session, the URL and `response.json()` (scrape.py lines 12, 20-21 and 29-30) are replaced by the function `server`.
  - The JSON decoding error counts as `Failed`. With versions of `requests` where it is a plain `ValueError`, that error escapes `scrape_page` instead.
- `time.sleep` is not modelled. Each sleep is an event in the returned log, and no clock exists.
  - The inter-page `delay` is a `real`.
  - A negative `delay` makes `time.sleep` raise. That is not modelled.
- All `print` output is left out, because it is console output only.
- `save_to_csv`, `save_to_json`, `display_sample_data` and `main` are left out. They are file I/O, console output and configuration.
- A body whose items the extraction cannot read is excluded by the type `Fetch.WellFormedResponse`. Such an item has a "Default" title entry without a `title` key, or a genre without a `name`. The source raises there and does not catch the error.
- `data`, `titles` or `genres` present with a JSON `null` value are not modelled (the source raises `TypeError` there). Neither are entries that are not objects.
- `scrape_range` always calls `scrape_page` with its default budget. The model fixes that budget as `Range.MaxRetries = 3`.
- Range.CollectedIdsAscending, Range.ContributionIds, Range.FailedPageLeavesGap: assume that every page holds at most 25 items (`Range.PagesWithinSize`). The source assumes the same when it numbers records, and with more items per page the ids of neighbouring pages would collide. `Range.PagesWithinSize` bounds every successful answer for a page, on any attempt `k`, not only those below `Range.MaxRetries`.
- Field values are narrowed to the types the API documents: `title` values are strings, `score` is a `real`, and the counters are integers. The source copies any JSON value through unchanged, at scrape.py lines 55 and 69-74. A decoded body that is not a JSON object is not modelled either. The source's `api_response.get` raises `AttributeError` there (scrape.py line 50), and nothing catches it.
