# Code-search scraper: retry, paging and merge, modelled in Dafny

The scraper runs once per invocation. For each configured keyword it pages
through a code-search API (pages 1, 2, … of 100 hits) until a page comes back
empty. For every hit it looks up the date of the file's last commit and keeps
the hit when that date is strictly after a fixed cutoff. It then merges the
hits into the entries stored by earlier runs (one entry per file url, the
newest date wins), sorts them newest first and overwrites the output file.
Every API call goes through `fetchWithRetry`, which retries up to five times.
A rate limit (HTTP 403 whose message mentions "rate limit") waits for the
`retry-after` hint, 60 seconds by default. Any other failure waits one second.
A rate-limited search call ends the run early without writing anything.

The model has six modules, one file each:

- `Wrappers` (wrappers.dfy): `Option`.
- `Fetch` (fetch.dfy): the retry state machine as a pure function over the
  sequence of outcomes its attempts meet. It includes the rate-limit test and
  JavaScript's `parseInt(…, 10)` for the `retry-after` header. The sleeps are
  recorded as data: the milliseconds handed to the timer.
- `Merge` (merge.dfy): `Entry`, the merge loop as a method over a sequence,
  `findIndex`, the stable sort by date, and the merge's invariants and
  guarantees.
- `MergeIdempotence` (idempotence.dfy): merging the merged output into the
  same stored entries again changes nothing.
- `Keywords` (keywords.dfy): how the keyword list comes out of the `KEY`
  environment variable: as written, and as corrected (see Findings).
- `Driver` (driver.dfy): the keyword loop, the page loop and the item loop as
  methods. Each is proved against a specification function, and the run
  ties search and merge together.

Timestamps are integers (milliseconds). The search API is a function from a
keyword's position in the loop to the outcome of requesting each page of that
keyword's search, taken after the fetcher's retries. Because it is indexed by
position and not by query text, a keyword that occurs twice may meet
different pages the second time, as live requests may. Each hit carries the outcome of its date lookup.

## Model

| member | source | states |
|---|---|---|
| `Fetch.ContainsAt` | 1.js:17 | the `includes` test holds exactly when the phrase occurs in the message at some position, in both directions |
| `Fetch.ContainedOccurs` | 1.js:17 | a message the `includes` test accepts holds the phrase at some position |
| `Fetch.OccurrenceContained` | 1.js:17 | a message holding the phrase at any position is accepted by the `includes` test |
| `Fetch.ContainsInfix` | 1.js:17 | a body message that holds "rate limit" anywhere is recognised by the `includes` test |
| `Fetch.TrimStart` | 1.js:18 | `parseInt` skips leading white space: what is left starts with a non-space |
| `Fetch.DigitPrefix` | 1.js:18 | `parseInt` reads the longest run of decimal digits: all digits, a prefix of the input, followed by a non-digit or the end |
| `Fetch.ParseIntReadsLeadingInteger` | 1.js:18 | `parseInt(header, 10)` yields the integer the header starts with, with or without a minus sign, whatever white space precedes it and whatever non-digit follows |
| `Fetch.RateLimitRecognised` | 1.js:17 | a 403 is a rate limit exactly when "rate limit" occurs somewhere in its message; no other status and no failure without a response is one (the same test decides the graceful exit at 1.js:102) |
| `Fetch.ParseInt` | 1.js:18 | `parseInt(header, 10)` is NaN exactly when no digit follows the leading white space and optional sign, and negative only after a minus sign |
| `Fetch.RetryAfterSeconds` | 1.js:18 | the rate-limit wait is never 0: it is the parsed header value when that is a nonzero number, and 60 seconds in every other case (no header, NaN, zero) |
| `Fetch.RetryAfterObeysHint` | 1.js:18 | a `retry-after: n` with n ≠ 0 gives exactly n seconds; n = 0 or a missing header gives 60 |
| `Fetch.BackoffMs` | 1.js:17-29 | the milliseconds handed to the timer: 1000 for a failure that is not a rate limit; for a rate limit the parsed nonzero hint times 1000, else 60000 |
| `Fetch.FetchWithRetry` | 1.js:12-34 | a call with budget r sends at least 1 and at most r + 1 requests |
| `Fetch.FirstOk` | 1.js:13-15 | locates the first successful attempt: every earlier attempt failed |
| `Fetch.FetchWithRetryMeetsSpec` | 1.js:12-34 | the call returns the body of the first success within r + 1 attempts, else throws the last attempt's error; it sends exactly up to that attempt; every retried failure is preceded by its backoff (the hinted wait ×1000 for a rate limit, 1000 ms otherwise); with the budget spent, a rate limit still waits before throwing and any other failure throws without waiting |
| `Fetch.DefaultBudget` | 1.js:10-12 | with the default budget `MAX_RETRIES` = 5 a call sends at most six requests, and when all six fail it throws the sixth error |
| `Merge.FindIndex` | 1.js:114 | `findIndex`: the first position holding the url, or -1 exactly when no entry has it |
| `Merge.Upsert` | 1.js:114-121 | one loop step: each stored entry stays or is replaced in place by a strictly newer result with its url; the length grows by one exactly when the url was absent, and then the result is the new last entry |
| `Merge.SortByDateDesc` | 1.js:123 | the sort returns a permutation of its input ordered newest first |
| `Merge.SortIsStable` | 1.js:123 | entries with equal dates keep their relative order through the sort |
| `Merge.MergeResults` | 1.js:112-123 | the merge loop followed by the sort yields `Merged(existing, results)`, sorted newest first, with distinct urls when the stored urls were distinct |
| `Merge.UpsertHoldsNewest` | 1.js:114-118 | one loop step keeps, for every url, an entry at least as new as every entry seen so far with that url, the step's own result included |
| `Merge.UpsertDisplacedOnlyByNewer` | 1.js:116-117 | one loop step never displaces a stored entry except by a strictly newer one |
| `Merge.MergeAllUrls` | 1.js:112-122 | after the loop the urls present are exactly the stored urls together with the found urls |
| `Merge.MergeAllDrawnFrom` | 1.js:112-122 | after the loop every entry is a stored entry or a result |
| `Merge.MergeAllUnique` | 1.js:113-122 | the loop keeps urls pairwise distinct when the stored urls are |
| `Merge.MergeAllHoldsNewest` | 1.js:114-118 | after the loop no stored entry or result is newer than the entry kept for its url |
| `Merge.MergeAllDisplacedOnlyByNewer` | 1.js:116-117 | after the loop a stored entry that is gone was displaced by a strictly newer one |
| `Merge.MergedUrlsUnique` | 1.js:113-122 | if the stored urls are pairwise distinct, so are the merged urls, even when the results repeat a url |
| `Merge.MergedKeepsNewest` | 1.js:114-118 | every merged entry is a stored entry or a result, and its date is at least that of every stored entry and result with its url, so it is the maximum |
| `Merge.MergedReplacesOnlyOlder` | 1.js:116-117 | a stored entry is displaced only by a result with its url and a strictly later date |
| `Merge.MergedKeepsUnbeaten` | 1.js:116-117 | a stored entry that no result beats for its url survives unchanged, keyword included |
| `Merge.MergedCoversAllUrls` | 1.js:112-122 | every stored or found url is in the output; the output length is the stored length plus the number of distinct new urls |
| `Merge.MergeAllInPlace` | 1.js:117-120 | before the sort every stored entry keeps its position (replacement is in place) and new urls are appended after them |
| `MergeIdempotence.MergeAllOfRefreshed` | 1.js:112-122 | merging back distinct-url entries taken from a merge's output refreshes each stored entry in place from that output and appends the new urls in the order given |
| `MergeIdempotence.SortedFixedByDates` | 1.js:123 | two lists sorted newest first that agree, date by date, on which entries they hold and in what order are equal, so the stable sort's output depends only on that order |
| `MergeIdempotence.MergedIsIdempotent` | 1.js:112-123 | when the stored urls are distinct, merging the merged output into the same stored entries again returns the merged output unchanged |
| `Keywords.KeywordsAsWritten` | 1.js:75 | iterating the `KEY` string yields one single-character keyword per character |
| `Keywords.KeywordsAsWrittenSplitsWords` | 1.js:75 | a two-letter `KEY` is searched as its two letters, never as the word |
| `Keywords.SplitKeywords` | 1.js:75 | correction of the 1.js:75 finding: the keywords of `KEY` are its comma-separated pieces; there is at least one and none holds a comma |
| `Keywords.JoinSplitKeywords` | 1.js:75 | correction of the 1.js:75 finding: joining the pieces with commas gives `KEY` back |
| `Keywords.SplitJoinKeywords` | 1.js:75 | correction of the 1.js:75 finding: splitting comma-joined, comma-free keywords gives the same keywords |
| `Keywords.SingleKeyword` | 1.js:75 | correction of the 1.js:75 finding: a `KEY` without a comma is searched as one keyword |
| `Driver.FirstStop` | 1.js:81 | locates the first page that is empty or fails; every earlier page had hits |
| `Driver.KeywordRequests` | 1.js:76-100 | a keyword's page requests are for pages 1, 2, …, n in that order |
| `Driver.RecordHits` | 1.js:82-99 | the item loop yields `Recorded`: the hits with a date after the cutoff, skipping failed lookups |
| `Driver.PageThrough` | 1.js:76-109 | the page loop requests pages 1 to s + 1, where page s + 1 is the first empty or failed page; it returns that page and what pages 1 to s recorded |
| `Driver.Search` | 1.js:74-110 | the keyword loop yields `SearchAll` and sends exactly `Requests`; a search error stops it at that keyword |
| `Driver.AbortIsFinal` | 1.js:101-107 | once a keyword's search has failed, later keywords add neither results nor requests |
| `Driver.RecordedExactly` | 1.js:86-98 | an entry is recorded for a page exactly when a hit on it had a successful lookup with a date strictly after the cutoff |
| `Driver.KeywordResultsExactly` | 1.js:78-100 | the same for all pages read for one keyword |
| `Driver.SearchRecordsOnlyAfterCutoff` | 1.js:89-95 | every entry handed to the merge is dated strictly after the cutoff and was found by one of the keywords |
| `Driver.SearchRecordsEveryRecentHit` | 1.js:82-100 | every hit after the cutoff on a page that was read reaches the merge, unless the loop ended early |
| `Driver.SearchRecordsOnlyReadHits` | 1.js:82-100 | every entry handed to the merge is the entry of a hit, dated strictly after the cutoff, on a page read for one of the keywords |
| `Driver.RequestsStopAtFirstEmptyPage` | 1.js:76-100 | only keywords are searched and pages start at 1: every request is for the keyword at some position k, within the pages `api(k)` gives up to its first empty or failed one |
| `Driver.RequestsPrefix` | 1.js:74-110 | the requests for the first m keywords are a prefix of all requests sent: later keywords only add to the end |
| `Driver.RequestsOfPosition` | 1.js:76-100 | when the loop reaches position k, it sends pages 1 to `FirstStop(api(k)) + 1` of that keyword right after the earlier keywords' requests, so each position stops at its own first empty or failed page even when the keyword repeats |
| `Driver.RunKeywords` | 1.js:73-124 | for a keyword list: a completed search writes `Merged(stored or [], results)`; a rate-limited search ends the run with no merge and no write; any other search error propagates and nothing is written |
| `Driver.Run` | 1.js:73-124 | the run as written: the same outcomes for the keyword loop over the characters of `KEY` |
| `Driver.RunAsIntended` | 1.js:75 | correction of the 1.js:75 finding: the same outcomes for the keyword loop over the comma-separated keywords of `KEY` |

## Left out

- HTTP through `axios`, and the construction of request URLs and headers (1.js:14, 36-58). They are a foreign library and network I/O. A request is its outcome: a body, or an `HttpError` (no response, or status, message and `retry-after` header).
- Searches are not linked to `FetchWithRetry` inside the driver. Each page's outcome is taken as already retried, and the waits of those calls are not summed over a run.
- `getFileLastModifiedDate` (1.js:47-58): the commit request and the `data[0].commit.committer.date` access. Each hit carries only its lookup outcome. A failed request and an empty history both become None, because the caller treats every throw the same way.
- The `full_name.split('/')` that only feeds the commit request (1.js:85).
- Reading and writing the output file, and `JSON.parse`/`JSON.stringify` (1.js:60-71). `stored` is the read outcome (None: missing or unparsable file, which counts as no entries). `Written(data)` is what would be written.
- `moment` (1.js:88, 92, 116, 123): dates are integer timestamps. Unparsable date strings in a stored file are not modelled; `moment` would compare them as invalid.
- The cutoff is a parameter of the run. The source fixes it at 2024-09-01, local midnight.
- `setTimeout` and the async scheduling (1.js:20, 28). Waits are recorded in milliseconds and not slept. A negative `retry-after` is recorded as the negative value the source hands to the timer.
- Environment variables other than `KEY`, and all `console` output (1.js:5-9, 19, 27, 97, 103, 125).
- An unset `KEY` (a `TypeError` at the `for…of`) is not modelled.
- A body message that is not a string (a `TypeError` from `includes`) is not modelled.
- `parseInt` is modelled on integers. Rounding of digit strings beyond 2^53 is left out.
- Fetch.FetchWithRetry: requires at least `retries + 1` outcomes, that is, an answer for every request the call may send.
- Driver.Search: requires that every keyword's paging ends, meaning some page is empty or fails. A search that returns hits forever would not terminate in the source either.
- Merge.MergedUrlsUnique: the guarantees about the merge assume the stored urls are distinct, as every earlier run leaves them. With duplicate stored urls, `findIndex` only ever sees the first one. `MergeResults` models that case, but the lemmas do not cover it.
- MergeIdempotence.MergedIsIdempotent: assumes distinct stored urls for the same reason.

## Findings

| source | as written | input that shows it | evidently intended | confidence | as-written member | corrected member |
|---|---|---|---|---|---|---|
| 1.js:75 | `for (const keyword of SEARCH_KEYWORDS)` iterates the characters of the `KEY` string, so each character is searched and recorded as a keyword | `KEY=ab` searches `a` and then `b`, never `ab` (`Keywords.KeywordsAsWrittenSplitsWords`) | each configured keyword is searched whole; several are separated by commas | medium, not executed | `Keywords.KeywordsAsWritten` | `Keywords.SplitKeywords` (used by `Driver.RunAsIntended`; proved by `Keywords.JoinSplitKeywords`, `Keywords.SplitJoinKeywords`, `Keywords.SingleKeyword`) |
