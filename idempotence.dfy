/**
  Merging the merger's own output into the same stored entries changes
  nothing: every url already holds its newest entry, and the stable sort puts
  entries with equal dates back in the order the first merge gave them.
 */
module MergeIdempotence {
  import opened Merge

  // ---------------------------------------------------------------------------
  // Entries whose url is not yet stored

  /** The entries of `s` whose url is not in `known`, in order. */
  function Fresh(s: seq<Entry>, known: set<string>): seq<Entry>
  {
    if s == [] then []
    else (if s[0].url in known then [] else [s[0]]) + Fresh(s[1..], known)
  }

  /** An entry is kept exactly when it is in `s` and its url is not known. */
  lemma {:induction false} FreshMembers(s: seq<Entry>, known: set<string>)
    ensures forall e :: e in Fresh(s, known) <==> e in s && e.url !in known
  {
    if s != [] {
      FreshMembers(s[1..], known);
      assert forall e :: e in s <==> e == s[0] || e in s[1..];
    }
  }

  lemma {:induction false} FreshAppend(a: seq<Entry>, b: seq<Entry>, known: set<string>)
    ensures Fresh(a + b, known) == Fresh(a, known) + Fresh(b, known)
  {
    if a != [] {
      FreshAppend(a[1..], b, known);
      assert (a + b)[0] == a[0];
      assert (a + b)[1..] == a[1..] + b;
      var h := if a[0].url in known then [] else [a[0]];
      assert Fresh(a + b, known) == h + Fresh(a[1..] + b, known);
      assert Fresh(a, known) == h + Fresh(a[1..], known);
    } else {
      assert a + b == b;
    }
  }

  lemma {:induction false} FreshOfNew(s: seq<Entry>, known: set<string>)
    requires forall e :: e in s ==> e.url !in known
    ensures Fresh(s, known) == s
  {
    if s != [] {
      assert s[0] in s;
      assert forall e :: e in s[1..] ==> e in s;
      FreshOfNew(s[1..], known);
    }
  }

  lemma {:induction false} WithDateAppend(a: seq<Entry>, b: seq<Entry>, d: int)
    ensures WithDate(a + b, d) == WithDate(a, d) + WithDate(b, d)
  {
    if a != [] {
      WithDateAppend(a[1..], b, d);
      assert (a + b)[1..] == a[1..] + b;
    } else {
      assert a + b == b;
    }
  }

  lemma {:induction false} WithDateMembers(s: seq<Entry>, d: int)
    ensures forall e :: e in WithDate(s, d) ==> e in s && e.date == d
  {
    if s != [] {
      WithDateMembers(s[1..], d);
      assert forall e :: e in s[1..] ==> e in s;
    }
  }

  /** Keeping one date and dropping the stored urls can be done in either order. */
  lemma {:induction false} FreshWithDate(s: seq<Entry>, known: set<string>, d: int)
    ensures WithDate(Fresh(s, known), d) == Fresh(WithDate(s, d), known)
  {
    if s != [] {
      FreshWithDate(s[1..], known, d);
      var h := (if s[0].url in known then [] else [s[0]]);
      WithDateAppend(h, Fresh(s[1..], known), d);
      FreshAppend(if s[0].date == d then [s[0]] else [], WithDate(s[1..], d), known);
    }
  }

  lemma WithDateOfHead(s: seq<Entry>)
    ensures s != [] ==> WithDate(s, s[0].date) != []
  {
  }

  /** A list sorted newest first is fixed by which entries it holds at each
      date and in what order. */
  lemma {:induction false} SortedFixedByDates(s: seq<Entry>, t: seq<Entry>)
    requires SortedByDateDesc(s) && SortedByDateDesc(t)
    requires forall d :: WithDate(s, d) == WithDate(t, d)
    ensures s == t
    decreases |s|
  {
    if s == [] || t == [] {
      WithDateOfHead(s);
      WithDateOfHead(t);
    } else {
      SameHead(s, t);
      forall d ensures WithDate(s[1..], d) == WithDate(t[1..], d) {
        SameTail(s, t, d);
      }
      SortedFixedByDates(s[1..], t[1..]);
      assert s == [s[0]] + s[1..] && t == [t[0]] + t[1..];
    }
  }

  /** Both lists start with an entry of the newest date, and it is the first
      entry of that date in each. */
  lemma SameHead(s: seq<Entry>, t: seq<Entry>)
    requires s != [] && t != []
    requires SortedByDateDesc(s) && SortedByDateDesc(t)
    requires WithDate(s, s[0].date) == WithDate(t, s[0].date)
    requires WithDate(s, t[0].date) == WithDate(t, t[0].date)
    ensures s[0] == t[0]
  {
    var a, b := s[0].date, t[0].date;
    WithDateMembers(t, a);
    WithDateMembers(s, b);
    assert WithDate(t, a)[0] in WithDate(t, a);
    assert WithDate(s, b)[0] in WithDate(s, b);
    assert a == b;
    assert s[0] == WithDate(s, a)[0];
  }

  lemma SameTail(s: seq<Entry>, t: seq<Entry>, d: int)
    requires s != [] && t != [] && s[0] == t[0]
    requires WithDate(s, d) == WithDate(t, d)
    ensures WithDate(s[1..], d) == WithDate(t[1..], d)
  {
    var h := if s[0].date == d then [s[0]] else [];
    assert WithDate(s, d) == h + WithDate(s[1..], d);
    assert WithDate(t, d) == h + WithDate(t[1..], d);
    assert WithDate(s[1..], d) == WithDate(s, d)[|h|..];
    assert WithDate(t[1..], d) == WithDate(t, d)[|h|..];
  }

  // ---------------------------------------------------------------------------
  // The shape the merge loop leaves

  /** What the merge loop leaves of distinct stored entries: they keep their
      positions and urls, each either unchanged or displaced by a strictly newer
      entry, and no url appears twice. */
  ghost predicate Refreshes(stored: seq<Entry>, a: seq<Entry>) {
    && UniqueUrls(stored) && UniqueUrls(a) && |stored| <= |a|
    && (forall k :: 0 <= k < |stored| ==> a[k].url == stored[k].url)
    && (forall k :: 0 <= k < |stored| ==> a[k] == stored[k] || a[k].date > stored[k].date)
  }

  lemma MergeAllRefreshes(stored: seq<Entry>, results: seq<Entry>)
    requires UniqueUrls(stored)
    ensures Refreshes(stored, MergeAll(stored, results))
  {
    var a := MergeAll(stored, results);
    MergeAllInPlace(stored, results);
    MergeAllUnique(stored, results);
    MergeAllDisplacedOnlyByNewer(stored, results);
    forall k | 0 <= k < |stored| ensures a[k] == stored[k] || a[k].date > stored[k].date {
      assert a[k] in a && stored[k] in stored;
    }
  }

  lemma {:induction false} FreshOfKnown(s: seq<Entry>, known: set<string>)
    requires forall e :: e in s ==> e.url in known
    ensures Fresh(s, known) == []
  {
    if s != [] {
      assert s[0] in s;
      assert forall e :: e in s[1..] ==> e in s;
      FreshOfKnown(s[1..], known);
    }
  }

  /** A url of the stored entries sits, in `a`, at the stored entry's position. */
  lemma StoredUrlPosition(stored: seq<Entry>, a: seq<Entry>, k: nat)
    requires Refreshes(stored, a)
    requires k < |a| && a[k].url in Urls(stored)
    ensures k < |stored|
  {
    var x :| x in stored && x.url == a[k].url;
    var i :| 0 <= i < |stored| && stored[i] == x;
    assert a[i].url == a[k].url;
  }

  /** The entries after the stored ones are exactly those with a new url. */
  lemma AppendedAreFresh(stored: seq<Entry>, a: seq<Entry>)
    requires Refreshes(stored, a)
    ensures Fresh(a, Urls(stored)) == a[|stored|..]
  {
    StoredUrlsKnown(stored, a);
    AppendedUrlsNew(stored, a);
    FreshSplit(a, |stored|, Urls(stored));
  }

  lemma StoredUrlsKnown(stored: seq<Entry>, a: seq<Entry>)
    requires Refreshes(stored, a)
    ensures forall e :: e in a[..|stored|] ==> e.url in Urls(stored)
  {
    forall e | e in a[..|stored|] ensures e.url in Urls(stored) {
      var k :| 0 <= k < |stored| && a[k] == e;
      assert stored[k] in stored;
    }
  }

  lemma AppendedUrlsNew(stored: seq<Entry>, a: seq<Entry>)
    requires Refreshes(stored, a)
    ensures forall e :: e in a[|stored|..] ==> e.url !in Urls(stored)
  {
    forall e | e in a[|stored|..] ensures e.url !in Urls(stored) {
      var k :| |stored| <= k < |a| && a[k] == e;
      if e.url in Urls(stored) {
        StoredUrlPosition(stored, a, k);
      }
    }
  }

  lemma FreshSplit(a: seq<Entry>, n: nat, known: set<string>)
    requires n <= |a|
    requires forall e :: e in a[..n] ==> e.url in known
    requires forall e :: e in a[n..] ==> e.url !in known
    ensures Fresh(a, known) == a[n..]
  {
    FreshOfKnown(a[..n], known);
    FreshOfNew(a[n..], known);
    FreshAppend(a[..n], a[n..], known);
    assert a[..n] + a[n..] == a;
  }

  /** The stored entries with the urls in `seen` taken from `a`. */
  ghost function Refreshed(stored: seq<Entry>, a: seq<Entry>, seen: set<string>): (r: seq<Entry>)
    requires |stored| <= |a|
    ensures |r| == |stored|
  {
    seq(|stored|, k requires 0 <= k < |stored| => if stored[k].url in seen then a[k] else stored[k])
  }

  /** Merging an entry whose url is stored: the stored entry is replaced by the
      entry `a` holds for that url, which is it or a strictly newer one. */
  lemma MergeStoredUrl(stored: seq<Entry>, a: seq<Entry>, seen: set<string>, tail: seq<Entry>, m: Entry)
    requires Refreshes(stored, a)
    requires m in a && m.url in Urls(stored) && m.url !in seen
    requires forall e :: e in tail ==> e.url !in Urls(stored)
    ensures Upsert(Refreshed(stored, a, seen) + tail, m) == Refreshed(stored, a, seen + {m.url}) + tail
  {
    var x := Refreshed(stored, a, seen) + tail;
    var y := Refreshed(stored, a, seen + {m.url}) + tail;
    var i := StoredSlot(stored, a, m);
    FindsStoredSlot(stored, a, seen, tail, i);
    forall j | 0 <= j < |x| && j != i ensures x[j] == y[j] {
      if j < |stored| {
        assert stored[j].url != stored[i].url;
      }
    }
    if stored[i].date < m.date {
      assert x[i := m] == y;
    } else {
      assert x == y;
    }
  }

  /** The position of a stored url, where `a` holds `m`. */
  lemma StoredSlot(stored: seq<Entry>, a: seq<Entry>, m: Entry) returns (i: nat)
    requires Refreshes(stored, a)
    requires m in a && m.url in Urls(stored)
    ensures i < |stored| && a[i] == m && stored[i].url == m.url
  {
    var k :| 0 <= k < |a| && a[k] == m;
    StoredUrlPosition(stored, a, k);
    i := k;
  }

  /** `findIndex` finds a stored url at its stored position. */
  lemma FindsStoredSlot(stored: seq<Entry>, a: seq<Entry>, seen: set<string>, tail: seq<Entry>, i: nat)
    requires Refreshes(stored, a)
    requires i < |stored| && stored[i].url !in seen
    ensures FindIndex(Refreshed(stored, a, seen) + tail, stored[i].url) == i
    ensures (Refreshed(stored, a, seen) + tail)[i] == stored[i]
  {
    var x := Refreshed(stored, a, seen) + tail;
    assert x[i] == stored[i];
  }

  /** Merging an entry whose url is new appends it. */
  lemma MergeNewUrl(stored: seq<Entry>, a: seq<Entry>, seen: set<string>, tail: seq<Entry>, m: Entry)
    requires Refreshes(stored, a)
    requires m.url !in Urls(stored)
    requires forall e :: e in tail ==> e.url != m.url
    ensures Upsert(Refreshed(stored, a, seen) + tail, m) == Refreshed(stored, a, seen + {m.url}) + tail + [m]
  {
    var r := Refreshed(stored, a, seen);
    assert r == Refreshed(stored, a, seen + {m.url}) by {
      forall k | 0 <= k < |stored| ensures stored[k].url != m.url {
        assert stored[k] in stored;
      }
    }
    var x := r + tail;
    forall j | 0 <= j < |x| ensures x[j].url != m.url {
      if j < |stored| {
        assert stored[j] in stored;
      } else {
        assert x[j] == tail[j - |stored|];
      }
    }
    assert FindIndex(x, m.url) == -1;
  }

  /** One step of merging back: the url of `m` joins those refreshed, or `m`
      joins the new urls at the end. */
  lemma RemergeStep(stored: seq<Entry>, a: seq<Entry>, q: seq<Entry>, m: Entry)
    requires Refreshes(stored, a)
    requires m in a && forall e :: e in q ==> e.url != m.url
    ensures Upsert(Refreshed(stored, a, Urls(q)) + Fresh(q, Urls(stored)), m)
         == Refreshed(stored, a, Urls(q + [m])) + Fresh(q + [m], Urls(stored))
  {
    UrlsAppend(q, m);
    FreshAppend(q, [m], Urls(stored));
    if m.url in Urls(stored) {
      RemergeStoredStep(stored, a, q, m);
    } else {
      RemergeNewStep(stored, a, q, m);
    }
  }

  lemma RemergeStoredStep(stored: seq<Entry>, a: seq<Entry>, q: seq<Entry>, m: Entry)
    requires Refreshes(stored, a)
    requires m in a && m.url in Urls(stored) && forall e :: e in q ==> e.url != m.url
    ensures Upsert(Refreshed(stored, a, Urls(q)) + Fresh(q, Urls(stored)), m)
         == Refreshed(stored, a, Urls(q) + {m.url}) + Fresh(q, Urls(stored)) + Fresh([m], Urls(stored))
  {
    FreshMembers(q, Urls(stored));
    MergeStoredUrl(stored, a, Urls(q), Fresh(q, Urls(stored)), m);
    assert Fresh([m], Urls(stored)) == [];
  }

  lemma RemergeNewStep(stored: seq<Entry>, a: seq<Entry>, q: seq<Entry>, m: Entry)
    requires Refreshes(stored, a)
    requires m.url !in Urls(stored) && forall e :: e in q ==> e.url != m.url
    ensures Upsert(Refreshed(stored, a, Urls(q)) + Fresh(q, Urls(stored)), m)
         == Refreshed(stored, a, Urls(q) + {m.url}) + Fresh(q, Urls(stored)) + Fresh([m], Urls(stored))
  {
    FreshMembers(q, Urls(stored));
    MergeNewUrl(stored, a, Urls(q), Fresh(q, Urls(stored)), m);
    assert Fresh([m], Urls(stored)) == [m];
  }

  /** Merging into the stored entries any list of distinct-url entries taken
      from `a` gives the stored entries refreshed from `a`, followed by the new
      urls in the order of the list. */
  lemma {:induction false} MergeAllOfRefreshed(stored: seq<Entry>, a: seq<Entry>, p: seq<Entry>)
    requires Refreshes(stored, a)
    requires UniqueUrls(p) && forall m :: m in p ==> m in a
    ensures MergeAll(stored, p) == Refreshed(stored, a, Urls(p)) + Fresh(p, Urls(stored))
    decreases |p|
  {
    if p == [] {
      assert Urls(p) == {};
      assert Refreshed(stored, a, {}) == stored;
    } else {
      var q, m := p[..|p| - 1], p[|p| - 1];
      assert q + [m] == p;
      assert forall e :: e in q ==> e in p;
      MergeAllOfRefreshed(stored, a, q);
      forall e | e in q ensures e.url != m.url {
        var k :| 0 <= k < |q| && q[k] == e;
        assert p[k] == e;
      }
      RemergeStep(stored, a, q, m);
    }
  }

  /** Merging the sorted output back into the same stored entries gives the
      loop's output with the new urls in sorted order. */
  lemma RemergeRebuilds(stored: seq<Entry>, a: seq<Entry>)
    requires Refreshes(stored, a)
    ensures MergeAll(stored, SortByDateDesc(a)) == a[..|stored|] + Fresh(SortByDateDesc(a), Urls(stored))
  {
    var m := SortByDateDesc(a);
    SortKeepsUnique(a);
    SamePermutation(a, m);
    MergeAllOfRefreshed(stored, a, m);
    forall k | 0 <= k < |stored| ensures stored[k].url in Urls(m) {
      assert a[k] in a;
    }
    assert Refreshed(stored, a, Urls(m)) == a[..|stored|];
  }

  /** Within each date, merging back gives the entries of the loop's output in
      the same order. */
  lemma RemergeByDate(stored: seq<Entry>, a: seq<Entry>, d: int)
    requires Refreshes(stored, a)
    ensures WithDate(MergeAll(stored, SortByDateDesc(a)), d) == WithDate(a, d)
  {
    var f := Fresh(SortByDateDesc(a), Urls(stored));
    RemergeRebuilds(stored, a);
    AppendedAreFresh(stored, a);
    SortedFreshByDate(a, Urls(stored), d);
    PartsByDate(a, |stored|, f, d);
  }

  lemma PartsByDate(a: seq<Entry>, n: nat, f: seq<Entry>, d: int)
    requires n <= |a|
    requires WithDate(f, d) == WithDate(a[n..], d)
    ensures WithDate(a[..n] + f, d) == WithDate(a, d)
  {
    SameTailByDate(a[..n], f, a[n..], d);
    assert a[..n] + a[n..] == a;
  }

  lemma SameTailByDate(p: seq<Entry>, f: seq<Entry>, g: seq<Entry>, d: int)
    requires WithDate(f, d) == WithDate(g, d)
    ensures WithDate(p + f, d) == WithDate(p + g, d)
  {
    WithDateAppend(p, f, d);
    WithDateAppend(p, g, d);
  }

  /** Sorting does not change the order of the new urls within a date. */
  lemma SortedFreshByDate(a: seq<Entry>, known: set<string>, d: int)
    ensures WithDate(Fresh(SortByDateDesc(a), known), d) == WithDate(Fresh(a, known), d)
  {
    FreshWithDate(SortByDateDesc(a), known, d);
    SortIsStable(a, d);
    FreshWithDate(a, known, d);
  }

  /** Merging the merged entries into the same stored entries again leaves the
      output unchanged. */
  lemma MergedIsIdempotent(existing: seq<Entry>, results: seq<Entry>)
    requires UniqueUrls(existing)
    ensures Merged(existing, Merged(existing, results)) == Merged(existing, results)
  {
    var a := MergeAll(existing, results);
    MergeAllRefreshes(existing, results);
    var again := MergeAll(existing, SortByDateDesc(a));
    forall d ensures WithDate(SortByDateDesc(again), d) == WithDate(SortByDateDesc(a), d) {
      SortIsStable(again, d);
      SortIsStable(a, d);
      RemergeByDate(existing, a, d);
    }
    SortedFixedByDates(SortByDateDesc(again), SortByDateDesc(a));
  }
}
