/**
  The result merger (the block at the end of the scraper's top-level function):
  the entries read back from the output file are copied, every newly found
  entry is merged into the copy by url, and the copy is sorted by date, newest
  first, before it is written out.
 */
module Merge {

  /** One recorded hit: the keyword that found it, the file's last-modified
      timestamp (milliseconds since the epoch) and the file url, its identity. */
  datatype Entry = Entry(keyword: string, date: int, url: string)

  /** No two entries share a url. */
  predicate UniqueUrls(s: seq<Entry>) {
    forall i, j :: 0 <= i < j < |s| ==> s[i].url != s[j].url
  }

  /** The urls occurring in `s`. */
  ghost function Urls(s: seq<Entry>): set<string> {
    set e | e in s :: e.url
  }

  /** Newest first: no entry is older than one after it. */
  predicate SortedByDateDesc(s: seq<Entry>) {
    forall i, j :: 0 <= i < j < |s| ==> s[i].date >= s[j].date
  }

  /** `findIndex(entry => entry.url === url)`: the position of the first entry
      with this url, or -1 when there is none. */
  function FindIndex(s: seq<Entry>, url: string): (i: int)
    ensures -1 <= i < |s|
    ensures 0 <= i ==> s[i].url == url
    ensures forall k :: 0 <= k < |s| && (i == -1 || k < i) ==> s[k].url != url
  {
    if s == [] then -1
    else if s[0].url == url then 0
    else
      var j := FindIndex(s[1..], url);
      if j == -1 then -1 else j + 1
  }

  /** One step of the merge loop: an entry with the same url is replaced in
      place when it is strictly older than `result` and otherwise left as it is;
      when no entry has that url, `result` is appended. */
  function Upsert(s: seq<Entry>, result: Entry): (t: seq<Entry>)
    ensures |t| == if result.url in Urls(s) then |s| else |s| + 1
    ensures forall k :: 0 <= k < |s| ==>
      t[k] == s[k] || (t[k] == result && s[k].url == result.url && s[k].date < result.date)
    ensures result.url !in Urls(s) ==> t[|s|] == result
  {
    var i := FindIndex(s, result.url);
    if i == -1 then s + [result]
    else if s[i].date < result.date then s[i := result]
    else s
  }

  /** The state of the copy after the merge loop has handled every entry of
      `results`, in order. */
  function MergeAll(existing: seq<Entry>, results: seq<Entry>): seq<Entry>
  {
    if results == [] then existing
    else Upsert(MergeAll(existing, results[..|results| - 1]), results[|results| - 1])
  }

  /** Places `x` before the first entry that is not newer than it. */
  function InsertByDate(x: Entry, s: seq<Entry>): (r: seq<Entry>)
    requires SortedByDateDesc(s)
    ensures SortedByDateDesc(r)
    ensures multiset(r) == multiset(s) + multiset{x}
  {
    if s == [] || s[0].date <= x.date then
      PrependSorted(x, s);
      [x] + s
    else
      var r := InsertByDate(x, s[1..]);
      assert s == [s[0]] + s[1..];
      NotNewerThanHead(s, x, r);
      PrependSorted(s[0], r);
      [s[0]] + r
  }

  lemma PrependSorted(h: Entry, r: seq<Entry>)
    requires SortedByDateDesc(r)
    requires r == [] || h.date >= r[0].date
    ensures SortedByDateDesc([h] + r)
  {
    var t := [h] + r;
    forall i, j | 0 <= i < j < |t| ensures t[i].date >= t[j].date {
      if i > 0 {
        assert t[i] == r[i - 1] && t[j] == r[j - 1];
      } else {
        assert t[j] == r[j - 1];
      }
    }
  }

  lemma NotNewerThanHead(s: seq<Entry>, x: Entry, r: seq<Entry>)
    requires s != [] && SortedByDateDesc(s) && x.date < s[0].date
    requires multiset(r) == multiset(s[1..]) + multiset{x}
    ensures r == [] || s[0].date >= r[0].date
  {
    if r != [] {
      assert r[0] in multiset(r);
      if r[0] != x {
        assert r[0] in multiset(s[1..]);
        assert r[0] in s[1..];
      }
    }
  }

  /** The in-place sort with the comparator `b.date - a.date`: a stable sort,
      newest first. */
  function SortByDateDesc(s: seq<Entry>): (r: seq<Entry>)
    ensures SortedByDateDesc(r)
    ensures multiset(r) == multiset(s)
  {
    if s == [] then []
    else
      assert s == [s[0]] + s[1..];
      InsertByDate(s[0], SortByDateDesc(s[1..]))
  }

  /** What the merge block leaves in `updatedData`. */
  function Merged(existing: seq<Entry>, results: seq<Entry>): seq<Entry>
  {
    SortByDateDesc(MergeAll(existing, results))
  }

  /** The merge block itself: copy, merge entry by entry, sort. */
  method MergeResults(existing: seq<Entry>, results: seq<Entry>) returns (updated: seq<Entry>)
    ensures updated == Merged(existing, results)
    ensures SortedByDateDesc(updated)
    ensures UniqueUrls(existing) ==> UniqueUrls(updated)
  {
    updated := existing;
    for n := 0 to |results|
      invariant updated == MergeAll(existing, results[..n])
    {
      var result := results[n];
      assert results[..n + 1] == results[..n] + [result];
      assert MergeAll(existing, results[..n + 1]) == Upsert(updated, result);
      var i := FindIndex(updated, result.url);
      if i != -1 {
        if updated[i].date < result.date {
          updated := updated[i := result];
        }
      } else {
        updated := updated + [result];
      }
    }
    assert results[..|results|] == results;
    updated := SortByDateDesc(updated);
    if UniqueUrls(existing) {
      MergedUrlsUnique(existing, results);
    }
  }

  // ---------------------------------------------------------------------------
  // The merge loop's invariant, clause by clause

  /** Every entry of `out` is one of `sources`. */
  ghost predicate DrawnFrom(out: seq<Entry>, sources: seq<Entry>) {
    forall x :: x in out ==> x in sources
  }

  /** No entry of `sources` is newer than the entry of `out` with its url. */
  ghost predicate HoldsNewest(out: seq<Entry>, sources: seq<Entry>) {
    forall x, y :: x in out && y in sources && x.url == y.url ==> x.date >= y.date
  }

  /** An entry of `stored` is displaced in `out` only by a strictly newer one. */
  ghost predicate DisplacedOnlyByNewer(out: seq<Entry>, stored: seq<Entry>) {
    forall x, y :: x in out && y in stored && x.url == y.url && x != y ==> x.date > y.date
  }

  lemma UrlsAppend(s: seq<Entry>, x: Entry)
    ensures Urls(s + [x]) == Urls(s) + {x.url}
  {
    assert forall e :: e in s + [x] <==> e in s || e == x;
  }

  lemma UrlsReplace(s: seq<Entry>, i: nat, x: Entry)
    requires i < |s| && s[i].url == x.url
    ensures Urls(s[i := x]) == Urls(s)
  {
    forall u | u in Urls(s) ensures u in Urls(s[i := x]) {
      var e :| e in s && e.url == u;
      var k :| 0 <= k < |s| && s[k] == e;
      assert s[i := x][k].url == u;
    }
  }

  lemma UpsertUrls(s: seq<Entry>, r: Entry)
    ensures Urls(Upsert(s, r)) == Urls(s) + {r.url}
  {
    var i := FindIndex(s, r.url);
    if i == -1 {
      UrlsAppend(s, r);
    } else {
      assert s[i] in s;
      if s[i].date < r.date {
        UrlsReplace(s, i, r);
      }
    }
  }

  lemma UpsertDrawnFrom(s: seq<Entry>, r: Entry, sources: seq<Entry>)
    requires DrawnFrom(s, sources)
    ensures DrawnFrom(Upsert(s, r), sources + [r])
  {
    var t := Upsert(s, r);
    forall x | x in t ensures x in sources + [r] {
      var k :| 0 <= k < |t| && t[k] == x;
      if k < |s| && t[k] == s[k] {
        assert s[k] in s;
      }
    }
  }

  lemma UpsertUnique(s: seq<Entry>, r: Entry)
    requires UniqueUrls(s)
    ensures UniqueUrls(Upsert(s, r))
  {
  }

  lemma UpsertHoldsNewest(s: seq<Entry>, r: Entry, sources: seq<Entry>)
    requires UniqueUrls(s) && HoldsNewest(s, sources)
    requires forall y :: y in sources ==> y.url in Urls(s)
    ensures HoldsNewest(Upsert(s, r), sources + [r])
  {
    var t := Upsert(s, r);
    var i := FindIndex(s, r.url);
    assert forall y :: y in sources + [r] <==> y in sources || y == r;
    forall x, y | x in t && y in sources + [r] && x.url == y.url ensures x.date >= y.date {
      var k :| 0 <= k < |t| && t[k] == x;
      if i == -1 {
        if k < |s| {
          assert s[k] in s;
        }
      } else {
        assert s[i] in s;
        if k < |s| && t[k] == s[k] {
          assert s[k] in s;
        }
      }
    }
  }

  lemma UpsertDisplacedOnlyByNewer(s: seq<Entry>, r: Entry, stored: seq<Entry>)
    requires DisplacedOnlyByNewer(s, stored)
    requires forall y :: y in stored ==> y.url in Urls(s)
    ensures DisplacedOnlyByNewer(Upsert(s, r), stored)
  {
    var t := Upsert(s, r);
    var i := FindIndex(s, r.url);
    forall x, y | x in t && y in stored && x.url == y.url && x != y ensures x.date > y.date {
      var k :| 0 <= k < |t| && t[k] == x;
      if k < |s| && t[k] == s[k] {
        assert s[k] in s;
      } else if i == -1 {
        assert y.url in Urls(s);
      } else {
        assert s[i] in s;
      }
    }
  }

  lemma {:induction false} MergeAllUrls(existing: seq<Entry>, results: seq<Entry>)
    ensures Urls(MergeAll(existing, results)) == Urls(existing) + Urls(results)
    decreases |results|
  {
    if results == [] {
      assert Urls(results) == {};
    } else {
      var prefix, last := results[..|results| - 1], results[|results| - 1];
      assert prefix + [last] == results;
      MergeAllUrls(existing, prefix);
      UpsertUrls(MergeAll(existing, prefix), last);
      UrlsAppend(prefix, last);
    }
  }

  lemma {:induction false} MergeAllDrawnFrom(existing: seq<Entry>, results: seq<Entry>)
    ensures DrawnFrom(MergeAll(existing, results), existing + results)
    decreases |results|
  {
    if results == [] {
      assert existing + results == existing;
    } else {
      var prefix, last := results[..|results| - 1], results[|results| - 1];
      assert existing + prefix + [last] == existing + results;
      MergeAllDrawnFrom(existing, prefix);
      UpsertDrawnFrom(MergeAll(existing, prefix), last, existing + prefix);
    }
  }

  lemma {:induction false} MergeAllUnique(existing: seq<Entry>, results: seq<Entry>)
    requires UniqueUrls(existing)
    ensures UniqueUrls(MergeAll(existing, results))
    decreases |results|
  {
    if results != [] {
      var prefix, last := results[..|results| - 1], results[|results| - 1];
      MergeAllUnique(existing, prefix);
      UpsertUnique(MergeAll(existing, prefix), last);
    }
  }

  /** Distinct stored entries never share a url, so none is newer than another
      with its url. */
  lemma StoredUnrivalled(existing: seq<Entry>)
    requires UniqueUrls(existing)
    ensures forall x, y :: x in existing && y in existing && x.url == y.url ==> x == y
  {
    forall x, y | x in existing && y in existing && x.url == y.url ensures x == y {
      var i :| 0 <= i < |existing| && existing[i] == x;
      var j :| 0 <= j < |existing| && existing[j] == y;
    }
  }

  lemma {:induction false} MergeAllHoldsNewest(existing: seq<Entry>, results: seq<Entry>)
    requires UniqueUrls(existing)
    ensures HoldsNewest(MergeAll(existing, results), existing + results)
    decreases |results|
  {
    if results == [] {
      StoredUnrivalled(existing);
      assert existing + results == existing;
    } else {
      var prefix, last := results[..|results| - 1], results[|results| - 1];
      var m := MergeAll(existing, prefix);
      assert existing + prefix + [last] == existing + results;
      MergeAllHoldsNewest(existing, prefix);
      MergeAllUnique(existing, prefix);
      MergeAllUrls(existing, prefix);
      assert forall y :: y in existing + prefix ==> y in existing || y in prefix;
      UpsertHoldsNewest(m, last, existing + prefix);
    }
  }

  lemma {:induction false} MergeAllDisplacedOnlyByNewer(existing: seq<Entry>, results: seq<Entry>)
    requires UniqueUrls(existing)
    ensures DisplacedOnlyByNewer(MergeAll(existing, results), existing)
    decreases |results|
  {
    if results == [] {
      StoredUnrivalled(existing);
    } else {
      var prefix, last := results[..|results| - 1], results[|results| - 1];
      MergeAllDisplacedOnlyByNewer(existing, prefix);
      MergeAllUrls(existing, prefix);
      UpsertDisplacedOnlyByNewer(MergeAll(existing, prefix), last, existing);
    }
  }

  // ---------------------------------------------------------------------------
  // The sort

  /** The entries of `InsertByDate(x, s)` are those of `s` and `x`. */
  lemma InsertMembers(x: Entry, s: seq<Entry>)
    requires SortedByDateDesc(s)
    ensures forall e :: e in InsertByDate(x, s) ==> e in s || e == x
  {
    var r := InsertByDate(x, s);
    forall e | e in r ensures e in s || e == x {
      assert e in multiset(r);
    }
  }

  lemma PrependUnique(h: Entry, r: seq<Entry>)
    requires UniqueUrls(r)
    requires forall e :: e in r ==> e.url != h.url
    ensures UniqueUrls([h] + r)
  {
    var t := [h] + r;
    forall i, j | 0 <= i < j < |t| ensures t[i].url != t[j].url {
      assert t[j] == r[j - 1];
      if i > 0 {
        assert t[i] == r[i - 1];
      } else {
        assert r[j - 1] in r;
      }
    }
  }

  lemma {:induction false} InsertKeepsUnique(x: Entry, s: seq<Entry>)
    requires SortedByDateDesc(s) && UniqueUrls(s)
    requires forall e :: e in s ==> e.url != x.url
    ensures UniqueUrls(InsertByDate(x, s))
  {
    if s == [] || s[0].date <= x.date {
      PrependUnique(x, s);
    } else {
      var rest := s[1..];
      assert forall e :: e in rest ==> e in s;
      InsertKeepsUnique(x, rest);
      var r := InsertByDate(x, rest);
      InsertMembers(x, rest);
      forall e | e in rest ensures e.url != s[0].url {
        var k :| 0 <= k < |rest| && rest[k] == e;
        assert s[k + 1] == e;
      }
      PrependUnique(s[0], r);
    }
  }

  lemma {:induction false} SortKeepsUnique(s: seq<Entry>)
    requires UniqueUrls(s)
    ensures UniqueUrls(SortByDateDesc(s))
  {
    if s != [] {
      SortKeepsUnique(s[1..]);
      var r := SortByDateDesc(s[1..]);
      forall e | e in r ensures e.url != s[0].url {
        assert e in multiset(r);
        var k :| 0 <= k < |s[1..]| && s[1..][k] == e;
        assert s[k + 1] == e;
      }
      InsertKeepsUnique(s[0], r);
    }
  }

  /** The entries of `s` dated `d`, in order. */
  function WithDate(s: seq<Entry>, d: int): seq<Entry>
  {
    if s == [] then [] else (if s[0].date == d then [s[0]] else []) + WithDate(s[1..], d)
  }

  lemma {:induction false} InsertWithDate(x: Entry, s: seq<Entry>, d: int)
    requires SortedByDateDesc(s)
    ensures WithDate(InsertByDate(x, s), d) == (if x.date == d then [x] else []) + WithDate(s, d)
  {
    if s == [] || s[0].date <= x.date {
      assert ([x] + s)[1..] == s;
    } else {
      InsertWithDate(x, s[1..], d);
      assert ([s[0]] + InsertByDate(x, s[1..]))[1..] == InsertByDate(x, s[1..]);
    }
  }

  /** The sort is stable: among entries with equal dates it keeps the order they
      had before sorting. */
  lemma {:induction false} SortIsStable(s: seq<Entry>, d: int)
    ensures WithDate(SortByDateDesc(s), d) == WithDate(s, d)
  {
    if s != [] {
      SortIsStable(s[1..], d);
      InsertWithDate(s[0], SortByDateDesc(s[1..]), d);
    }
  }

  // ---------------------------------------------------------------------------
  // What the merge promises

  lemma SamePermutation(a: seq<Entry>, b: seq<Entry>)
    requires multiset(a) == multiset(b)
    ensures Urls(a) == Urls(b)
    ensures forall x :: x in a <==> x in b
    ensures |a| == |b|
  {
    assert forall x :: x in a <==> x in multiset(a);
    assert forall x :: x in b <==> x in multiset(b);
    assert |multiset(a)| == |multiset(b)|;
  }

  lemma {:induction false} UniqueUrlsCount(s: seq<Entry>)
    requires UniqueUrls(s)
    ensures |Urls(s)| == |s|
  {
    if s != [] {
      var p := s[..|s| - 1];
      UniqueUrlsCount(p);
      UrlsAppend(p, s[|s| - 1]);
      assert p + [s[|s| - 1]] == s;
      assert s[|s| - 1].url !in Urls(p);
    }
  }

  lemma UnionCount(a: set<string>, b: set<string>)
    ensures |a + b| == |a| + |b - a|
  {
    assert a + b == a + (b - a);
    assert a * (b - a) == {};
  }

  /** If the stored entries have distinct urls, so does the merged array, even
      when the new results repeat a url. */
  lemma MergedUrlsUnique(existing: seq<Entry>, results: seq<Entry>)
    requires UniqueUrls(existing)
    ensures UniqueUrls(Merged(existing, results))
  {
    MergeAllUnique(existing, results);
    SortKeepsUnique(MergeAll(existing, results));
  }

  /** Each url of the merged array carries the newest date seen for it among
      the stored entries and the new results, and its entry is one of them. */
  lemma MergedKeepsNewest(existing: seq<Entry>, results: seq<Entry>)
    requires UniqueUrls(existing)
    ensures forall x :: x in Merged(existing, results) ==> x in existing || x in results
    ensures forall x, y :: (x in Merged(existing, results) && (y in existing || y in results) && x.url == y.url
      ==> x.date >= y.date)
  {
    MergeAllDrawnFrom(existing, results);
    MergeAllHoldsNewest(existing, results);
    SamePermutation(MergeAll(existing, results), Merged(existing, results));
    assert forall y :: y in existing + results <==> y in existing || y in results;
  }

  /** A stored entry is displaced only by a strictly newer result for its url. */
  lemma MergedReplacesOnlyOlder(existing: seq<Entry>, results: seq<Entry>)
    requires UniqueUrls(existing)
    ensures forall x, y :: (x in Merged(existing, results) && y in existing && x.url == y.url && x != y
      ==> x.date > y.date && x in results)
  {
    MergeAllDrawnFrom(existing, results);
    MergeAllDisplacedOnlyByNewer(existing, results);
    StoredUnrivalled(existing);
    SamePermutation(MergeAll(existing, results), Merged(existing, results));
    assert forall y :: y in existing + results <==> y in existing || y in results;
  }

  /** A stored entry that no new result beats for its url survives unchanged,
      keyword included. */
  lemma MergedKeepsUnbeaten(existing: seq<Entry>, results: seq<Entry>, y: Entry)
    requires UniqueUrls(existing)
    requires y in existing
    requires forall r :: r in results && r.url == y.url ==> r.date <= y.date
    ensures y in Merged(existing, results)
  {
    var m := MergeAll(existing, results);
    MergeAllUrls(existing, results);
    SamePermutation(m, Merged(existing, results));
    MergedReplacesOnlyOlder(existing, results);
    assert y.url in Urls(m);
    var x :| x in m && x.url == y.url;
  }

  /** Every url of either side is in the output, and the output grows by
      exactly the number of distinct new urls. */
  lemma MergedCoversAllUrls(existing: seq<Entry>, results: seq<Entry>)
    requires UniqueUrls(existing)
    ensures Urls(Merged(existing, results)) == Urls(existing) + Urls(results)
    ensures |Merged(existing, results)| == |existing| + |Urls(results) - Urls(existing)|
  {
    var m := MergeAll(existing, results);
    MergeAllUrls(existing, results);
    MergeAllUnique(existing, results);
    SamePermutation(m, Merged(existing, results));
    UniqueUrlsCount(m);
    UniqueUrlsCount(existing);
    UnionCount(Urls(existing), Urls(results));
  }

  /** Before the sort, every stored entry keeps its position (a replacement
      happens in place) and new urls are appended after them. */
  lemma {:induction false} MergeAllInPlace(existing: seq<Entry>, results: seq<Entry>)
    ensures |MergeAll(existing, results)| >= |existing|
    ensures forall k :: 0 <= k < |existing| ==> MergeAll(existing, results)[k].url == existing[k].url
    decreases |results|
  {
    if results != [] {
      MergeAllInPlace(existing, results[..|results| - 1]);
    }
  }
}
