/**
  The search driver (the top-level function of the scraper): for every
  keyword in turn it requests result pages 1, 2, ... until a page comes back
  empty, looks up each hit's last-modified date, records the hits modified
  after the cutoff, and finally merges what it found into the stored entries.
  The search API is given as the outcome, after the fetcher's retries, of
  requesting each page of a query; the date lookup is given per hit.
 */
module Driver {
  import opened Wrappers
  import opened Fetch
  import opened Merge
  import opened Keywords

  /** A code-search hit: its file url, and what looking up its last commit
      gave (None when the lookup threw: its request failed after the retries,
      or the commit history was empty). */
  datatype Item = Item(url: string, lastModified: Option<int>)

  /** What requesting one result page ends with. */
  type Page = Response<seq<Item>>

  /** The code-search API as the keyword loop meets it: `api(k)[p - 1]` is
      the outcome of requesting page `p` for the keyword at position `k`. Each
      search is a call of its own, so a keyword that occurs twice may meet
      different pages, or a failure, the second time. */
  type SearchApi = nat -> seq<Page>

  /** One call of the code-search endpoint. */
  datatype PageRequest = PageRequest(query: string, page: nat)

  /** How the keyword loop ends: with the entries it recorded, by the graceful
      exit on a rate-limited search, or by a search error that propagates. */
  datatype SearchOutcome = Found(results: seq<Entry>) | RateLimitExit | Fatal(error: HttpError)

  /** How a run ends: the entries written to the output file, or no write at all. */
  datatype RunResult = Written(data: seq<Entry>) | ExitedOnRateLimit | Crashed(error: HttpError)

  /** A page after which no further page of the query is requested. */
  predicate EndsPaging(page: Page) {
    page.Failed? || page.data == []
  }

  /** The index of the first page that ends paging (`|pages|` if none does). */
  function FirstStop(pages: seq<Page>): (n: nat)
    ensures n <= |pages|
    ensures n < |pages| ==> EndsPaging(pages[n])
    ensures forall i :: 0 <= i < n ==> !EndsPaging(pages[i])
  {
    if pages == [] || EndsPaging(pages[0]) then 0 else 1 + FirstStop(pages[1..])
  }

  /** Every keyword's paging comes to an end: some page is empty or fails. */
  predicate AllTerminate(keywords: seq<string>, api: SearchApi) {
    forall k :: 0 <= k < |keywords| ==> FirstStop(api(k)) < |api(k)|
  }

  /** A hit is recorded when its date lookup succeeded with a date strictly
      after the cutoff. */
  predicate IsRecorded(item: Item, cutoff: int) {
    item.lastModified.Some? && item.lastModified.value > cutoff
  }

  function EntryOf(keyword: string, item: Item): Entry
    requires item.lastModified.Some?
  {
    Entry(keyword, item.lastModified.value, item.url)
  }

  /** The entries the item loop records for one page, in order. */
  function Recorded(keyword: string, items: seq<Item>, cutoff: int): seq<Entry>
  {
    if items == [] then []
    else
      var last := items[|items| - 1];
      Recorded(keyword, items[..|items| - 1], cutoff)
        + (if IsRecorded(last, cutoff) then [EntryOf(keyword, last)] else [])
  }

  /** The entries recorded for the first `n` pages of a keyword. */
  function KeywordResults(keyword: string, pages: seq<Page>, cutoff: int, n: nat): seq<Entry>
    requires n <= FirstStop(pages)
  {
    if n == 0 then []
    else KeywordResults(keyword, pages, cutoff, n - 1) + Recorded(keyword, pages[n - 1].data, cutoff)
  }

  /** The requests for pages 1 to `n` of a query, in that order. */
  function KeywordRequests(query: string, n: nat): (requests: seq<PageRequest>)
    ensures |requests| == n
    ensures forall i :: 0 <= i < n ==> requests[i] == PageRequest(query, i + 1)
  {
    if n == 0 then [] else KeywordRequests(query, n - 1) + [PageRequest(query, n)]
  }

  lemma AllTerminatePrefix(keywords: seq<string>, api: SearchApi, k: nat)
    requires AllTerminate(keywords, api) && k <= |keywords|
    ensures AllTerminate(keywords[..k], api)
  {
  }

  /** What the keyword loop ends with. */
  function SearchAll(keywords: seq<string>, api: SearchApi, cutoff: int): SearchOutcome
    requires AllTerminate(keywords, api)
  {
    if keywords == [] then Found([])
    else
      var keyword := keywords[|keywords| - 1];
      AllTerminatePrefix(keywords, api, |keywords| - 1);
      match SearchAll(keywords[..|keywords| - 1], api, cutoff)
      case Found(results) =>
        var pages := api(|keywords| - 1);
        var n := FirstStop(pages);
        (match pages[n]
         case Ok(_) => Found(results + KeywordResults(keyword, pages, cutoff, n))
         case Failed(e) => if IsRateLimit(e) then RateLimitExit else Fatal(e))
      case aborted => aborted
  }

  /** The search requests the keyword loop sends, in order. */
  function Requests(keywords: seq<string>, api: SearchApi, cutoff: int): seq<PageRequest>
    requires AllTerminate(keywords, api)
  {
    if keywords == [] then []
    else
      var keyword := keywords[|keywords| - 1];
      var before := keywords[..|keywords| - 1];
      AllTerminatePrefix(keywords, api, |keywords| - 1);
      if SearchAll(before, api, cutoff).Found? then
        Requests(before, api, cutoff) + KeywordRequests(keyword, FirstStop(api(|keywords| - 1)) + 1)
      else
        Requests(before, api, cutoff)
  }

  // ---------------------------------------------------------------------------
  // What the driver promises

  /** The item loop records exactly the hits whose lookup gave a date after
      the cutoff. */
  lemma {:induction false} RecordedExactly(keyword: string, items: seq<Item>, cutoff: int, e: Entry)
    ensures e in Recorded(keyword, items, cutoff) <==>
      exists j :: 0 <= j < |items| && IsRecorded(items[j], cutoff) && e == EntryOf(keyword, items[j])
  {
    if items != [] {
      var prefix, last := items[..|items| - 1], items[|items| - 1];
      RecordedExactly(keyword, prefix, cutoff, e);
      assert forall j :: 0 <= j < |prefix| ==> prefix[j] == items[j];
    }
  }

  /** A keyword's first `n` pages record exactly their hits dated after the cutoff. */
  lemma {:induction false} KeywordResultsExactly(keyword: string, pages: seq<Page>, cutoff: int, n: nat, e: Entry)
    requires n <= FirstStop(pages)
    ensures e in KeywordResults(keyword, pages, cutoff, n) <==>
      exists i, j :: 0 <= i < n && 0 <= j < |pages[i].data|
        && IsRecorded(pages[i].data[j], cutoff) && e == EntryOf(keyword, pages[i].data[j])
  {
    if n > 0 {
      KeywordResultsExactly(keyword, pages, cutoff, n - 1, e);
      RecordedExactly(keyword, pages[n - 1].data, cutoff, e);
    }
  }

  /** Every entry the keyword loop hands to the merge was found by one of the
      keywords and is dated strictly after the cutoff. */
  lemma {:induction false} SearchRecordsOnlyAfterCutoff(keywords: seq<string>, api: SearchApi, cutoff: int)
    requires AllTerminate(keywords, api)
    ensures SearchAll(keywords, api, cutoff).Found? ==>
      forall e :: e in SearchAll(keywords, api, cutoff).results ==> e.date > cutoff && e.keyword in keywords
  {
    if keywords != [] {
      var before, keyword := keywords[..|keywords| - 1], keywords[|keywords| - 1];
      AllTerminatePrefix(keywords, api, |keywords| - 1);
      SearchRecordsOnlyAfterCutoff(before, api, cutoff);
      var outcome := SearchAll(keywords, api, cutoff);
      if outcome.Found? {
        var pages := api(|keywords| - 1);
        var n := FirstStop(pages);
        forall e | e in KeywordResults(keyword, pages, cutoff, n) ensures e.date > cutoff && e.keyword == keyword {
          KeywordResultsExactly(keyword, pages, cutoff, n, e);
        }
      }
    }
  }

  /** Every hit on a page that was read (one before the page that ended its
      keyword's paging) and whose date is after the cutoff is handed to the
      merge, unless the loop ended early. */
  lemma {:induction false} SearchRecordsEveryRecentHit(keywords: seq<string>, api: SearchApi, cutoff: int,
                                                        k: nat, i: nat, j: nat)
    requires AllTerminate(keywords, api)
    requires k < |keywords| && i < FirstStop(api(k)) && j < |api(k)[i].data|
    requires IsRecorded(api(k)[i].data[j], cutoff)
    ensures SearchAll(keywords, api, cutoff).Found? ==>
      EntryOf(keywords[k], api(k)[i].data[j]) in SearchAll(keywords, api, cutoff).results
    decreases |keywords|
  {
    var before, keyword := keywords[..|keywords| - 1], keywords[|keywords| - 1];
    AllTerminatePrefix(keywords, api, |keywords| - 1);
    if SearchAll(keywords, api, cutoff).Found? {
      if k < |keywords| - 1 {
        assert before[k] == keywords[k];
        SearchRecordsEveryRecentHit(before, api, cutoff, k, i, j);
      } else {
        var pages := api(k);
        KeywordResultsExactly(keyword, pages, cutoff, FirstStop(pages), EntryOf(keyword, pages[i].data[j]));
      }
    }
  }

  /** Conversely, every entry handed to the merge comes from a recorded hit
      on a page that was read for one of the keywords. */
  lemma {:induction false} SearchRecordsOnlyReadHits(keywords: seq<string>, api: SearchApi, cutoff: int, e: Entry)
    requires AllTerminate(keywords, api)
    ensures SearchAll(keywords, api, cutoff).Found? && e in SearchAll(keywords, api, cutoff).results ==>
      exists k, i, j :: 0 <= k < |keywords| && 0 <= i < FirstStop(api(k))
        && 0 <= j < |api(k)[i].data|
        && IsRecorded(api(k)[i].data[j], cutoff)
        && e == EntryOf(keywords[k], api(k)[i].data[j])
    decreases |keywords|
  {
    if keywords != [] && SearchAll(keywords, api, cutoff).Found? && e in SearchAll(keywords, api, cutoff).results {
      var before, keyword := keywords[..|keywords| - 1], keywords[|keywords| - 1];
      AllTerminatePrefix(keywords, api, |keywords| - 1);
      var earlier := SearchAll(before, api, cutoff).results;
      var pages := api(|keywords| - 1);
      var n := FirstStop(pages);
      if e in earlier {
        SearchRecordsOnlyReadHits(before, api, cutoff, e);
        var k, i, j :| 0 <= k < |before| && 0 <= i < FirstStop(api(k))
          && 0 <= j < |api(k)[i].data|
          && IsRecorded(api(k)[i].data[j], cutoff)
          && e == EntryOf(before[k], api(k)[i].data[j]);
        assert before[k] == keywords[k];
      } else {
        KeywordResultsExactly(keyword, pages, cutoff, n, e);
        var i, j :| 0 <= i < n && 0 <= j < |pages[i].data|
          && IsRecorded(pages[i].data[j], cutoff) && e == EntryOf(keyword, pages[i].data[j]);
        assert keywords[|keywords| - 1] == keyword;
      }
    }
  }

  /** `r` asks for a page of the keyword at some position `k` of `keywords`,
      numbered from 1 and no later than the first empty or failed page that
      keyword's search meets. */
  ghost predicate WithinSearch(keywords: seq<string>, api: SearchApi, r: PageRequest)
  {
    exists k :: 0 <= k < |keywords| && r.query == keywords[k] && 1 <= r.page <= FirstStop(api(k)) + 1
  }

  /** Only keywords are searched, pages are numbered from 1, and no page after
      the first empty or failed one of a keyword's search is ever requested. */
  lemma {:induction false} RequestsStopAtFirstEmptyPage(keywords: seq<string>, api: SearchApi, cutoff: int)
    requires AllTerminate(keywords, api)
    ensures forall r :: r in Requests(keywords, api, cutoff) ==> WithinSearch(keywords, api, r)
  {
    if keywords != [] {
      var last := |keywords| - 1;
      var before, keyword := keywords[..last], keywords[last];
      AllTerminatePrefix(keywords, api, last);
      RequestsStopAtFirstEmptyPage(before, api, cutoff);
      var n := FirstStop(api(last)) + 1;
      forall r | r in Requests(keywords, api, cutoff) ensures WithinSearch(keywords, api, r) {
        if r in Requests(before, api, cutoff) {
          WithinLongerSearch(keywords, api, r, last);
        } else {
          var t :| 0 <= t < n && KeywordRequests(keyword, n)[t] == r;
          assert r.query == keywords[last] && 1 <= r.page <= FirstStop(api(last)) + 1;
        }
      }
    }
  }

  /** A request within the search of a prefix of the keywords is within the
      search of all of them. */
  lemma WithinLongerSearch(keywords: seq<string>, api: SearchApi, r: PageRequest, m: nat)
    requires m <= |keywords| && WithinSearch(keywords[..m], api, r)
    ensures WithinSearch(keywords, api, r)
  {
    var k :| 0 <= k < m && r.query == keywords[..m][k] && 1 <= r.page <= FirstStop(api(k)) + 1;
    assert r.query == keywords[k];
  }

  /** The requests sent for the first `m` keywords are where the whole
      request sequence starts: later keywords only add to the end. */
  lemma {:induction false} RequestsPrefix(keywords: seq<string>, api: SearchApi, cutoff: int, m: nat)
    requires AllTerminate(keywords, api) && m <= |keywords|
    ensures Requests(keywords[..m], api, cutoff) <= Requests(keywords, api, cutoff)
    decreases |keywords| - m
  {
    if m == |keywords| {
      assert keywords[..m] == keywords;
    } else {
      var before := keywords[..|keywords| - 1];
      assert before[..m] == keywords[..m];
      RequestsPrefix(before, api, cutoff, m);
    }
  }

  /** When the loop reaches the keyword at position `k`, what it sends for
      that keyword is pages 1 to `FirstStop(api(k)) + 1` of it, right after
      the requests of the keywords before it: that position asks for no page
      after its own first empty or failed one, whatever other positions hold
      the same keyword. */
  lemma RequestsOfPosition(keywords: seq<string>, api: SearchApi, cutoff: int, k: nat)
    requires AllTerminate(keywords, api) && k < |keywords|
    requires SearchAll(keywords[..k], api, cutoff).Found?
    ensures Requests(keywords[..k], api, cutoff) + KeywordRequests(keywords[k], FirstStop(api(k)) + 1)
            <= Requests(keywords, api, cutoff)
  {
    var upTo := keywords[..k + 1];
    assert upTo[..|upTo| - 1] == keywords[..k];
    assert upTo[|upTo| - 1] == keywords[k];
    assert Requests(upTo, api, cutoff) ==
      Requests(keywords[..k], api, cutoff) + KeywordRequests(keywords[k], FirstStop(api(k)) + 1);
    RequestsPrefix(keywords, api, cutoff, k + 1);
  }

  /** Once a keyword's search has ended the loop, later keywords change nothing. */
  lemma {:induction false} AbortIsFinal(keywords: seq<string>, api: SearchApi, cutoff: int, k: nat)
    requires AllTerminate(keywords, api) && k <= |keywords|
    requires AllTerminate(keywords[..k], api) && !SearchAll(keywords[..k], api, cutoff).Found?
    ensures SearchAll(keywords, api, cutoff) == SearchAll(keywords[..k], api, cutoff)
    ensures Requests(keywords, api, cutoff) == Requests(keywords[..k], api, cutoff)
    decreases |keywords| - k
  {
    if k < |keywords| {
      var before := keywords[..|keywords| - 1];
      AllTerminatePrefix(keywords, api, |keywords| - 1);
      assert before[..k] == keywords[..k];
      AbortIsFinal(before, api, cutoff, k);
    } else {
      assert keywords[..k] == keywords;
    }
  }

  /** The item loop over one page: hits whose lookup failed are skipped, the
      others are recorded when their date is after the cutoff. */
  method RecordHits(keyword: string, items: seq<Item>, cutoff: int) returns (found: seq<Entry>)
    ensures found == Recorded(keyword, items, cutoff)
  {
    found := [];
    for j := 0 to |items|
      invariant found == Recorded(keyword, items[..j], cutoff)
    {
      var item := items[j];
      match item.lastModified
      case Some(date) =>
        if date > cutoff {
          found := found + [Entry(keyword, date, item.url)];
        }
      case None =>
        // the lookup threw: the hit is logged and skipped
      assert items[..j + 1][..j] == items[..j];
    }
    assert items[..|items|] == items;
  }

  /** The page loop for one keyword: pages 1, 2, ... are requested until one
      comes back empty or fails; that page is returned with what the earlier
      pages recorded and the requests sent. */
  method PageThrough(keyword: string, pages: seq<Page>, cutoff: int)
    returns (last: Page, found: seq<Entry>, requested: seq<PageRequest>)
    requires FirstStop(pages) < |pages|
    ensures last == pages[FirstStop(pages)]
    ensures found == KeywordResults(keyword, pages, cutoff, FirstStop(pages))
    ensures requested == KeywordRequests(keyword, FirstStop(pages) + 1)
  {
    ghost var stop := FirstStop(pages);
    found, requested := [], [];
    var page := 1;
    while true
      invariant 1 <= page <= stop + 1
      invariant found == KeywordResults(keyword, pages, cutoff, page - 1)
      invariant requested == KeywordRequests(keyword, page - 1)
      decreases stop + 1 - page
    {
      requested := requested + [PageRequest(keyword, page)];
      last := pages[page - 1];
      if last.Failed? || |last.data| == 0 {
        return;
      }
      var hits := RecordHits(keyword, last.data, cutoff);
      found := found + hits;
      page := page + 1;
    }
  }

  /** The keyword loop. A search error ends it: gracefully for a rate limit,
      by propagating the error otherwise. */
  method Search(keywords: seq<string>, api: SearchApi, cutoff: int)
    returns (outcome: SearchOutcome, requested: seq<PageRequest>)
    requires AllTerminate(keywords, api)
    ensures outcome == SearchAll(keywords, api, cutoff)
    ensures requested == Requests(keywords, api, cutoff)
  {
    var results: seq<Entry> := [];
    requested := [];
    for k := 0 to |keywords|
      invariant AllTerminate(keywords[..k], api)
      invariant SearchAll(keywords[..k], api, cutoff) == Found(results)
      invariant requested == Requests(keywords[..k], api, cutoff)
    {
      var keyword := keywords[k];
      assert keywords[..k + 1][..k] == keywords[..k];
      assert keywords[..k + 1][k] == keyword;
      AllTerminatePrefix(keywords, api, k + 1);
      var last, found, pageRequests := PageThrough(keyword, api(k), cutoff);
      requested := requested + pageRequests;
      match last
      case Failed(e) =>
        if IsRateLimit(e) {
          outcome := RateLimitExit;
        } else {
          outcome := Fatal(e);
        }
        AbortIsFinal(keywords, api, cutoff, k + 1);
        return;
      case Ok(_) =>
        results := results + found;
    }
    assert keywords[..|keywords|] == keywords;
    outcome := Found(results);
  }

  /** A whole run over a list of keywords: the keyword loop, then (unless it
      ended early) the merge into the stored entries and the write. `stored`
      is what reading the output file gave; None (a missing or unparsable
      file) counts as no entries. */
  method RunKeywords(keywords: seq<string>, api: SearchApi, cutoff: int, stored: Option<seq<Entry>>)
    returns (result: RunResult)
    requires AllTerminate(keywords, api)
    ensures match SearchAll(keywords, api, cutoff)
            case Found(results) => result == Written(Merged(stored.GetOr([]), results))
            case RateLimitExit => result == ExitedOnRateLimit
            case Fatal(e) => result == Crashed(e)
  {
    var outcome, _ := Search(keywords, api, cutoff);
    match outcome
    case Found(results) =>
      var existing := stored.GetOr([]);
      var data := MergeResults(existing, results);
      result := Written(data);
    case RateLimitExit =>
      result := ExitedOnRateLimit;
    case Fatal(e) =>
      result := Crashed(e);
  }

  /** The run as written: the keyword loop iterates the characters of `key`. */
  method Run(key: string, api: SearchApi, cutoff: int, stored: Option<seq<Entry>>)
    returns (result: RunResult)
    requires AllTerminate(KeywordsAsWritten(key), api)
    ensures match SearchAll(KeywordsAsWritten(key), api, cutoff)
            case Found(results) => result == Written(Merged(stored.GetOr([]), results))
            case RateLimitExit => result == ExitedOnRateLimit
            case Fatal(e) => result == Crashed(e)
  {
    result := RunKeywords(KeywordsAsWritten(key), api, cutoff, stored);
  }

  /** The run as intended: each comma-separated keyword of `key` is searched whole. */
  method RunAsIntended(key: string, api: SearchApi, cutoff: int, stored: Option<seq<Entry>>)
    returns (result: RunResult)
    requires AllTerminate(SplitKeywords(key), api)
    ensures match SearchAll(SplitKeywords(key), api, cutoff)
            case Found(results) => result == Written(Merged(stored.GetOr([]), results))
            case RateLimitExit => result == ExitedOnRateLimit
            case Fatal(e) => result == Crashed(e)
  {
    result := RunKeywords(SplitKeywords(key), api, cutoff, stored);
  }
}
