/**
 Citation counts added to CSL-JSON items from OpenAlex, through a DOI-keyed cache.

 Every item is visited once, in order. An item without a DOI is left alone. A DOI
 already in the cache is answered from it: a cached work sets the citation count
 and, when the item has no URL, its open-access link; a cached miss changes
 nothing. Any other DOI is looked up once, and the work found, or the miss, is
 stored in the cache under that DOI. Each visit adds one to exactly one of four
 counters. The lookup is a parameter of the model: the work OpenAlex returns
 for the DOI, `None` when it has none (or the request fails).
 */
module Enrich {
  import opened Text
  import opened Csl
  import opened Grouping

  /** The `open_access` object of a work, as far as it is read: its `oa_url`. */
  datatype OpenAccess = OpenAccess(oaUrl: Option<string>)

  /** A work returned by OpenAlex: `cited_by_count`, `open_access` and `id`, each
      `None` when missing. */
  datatype OpenAlexWork = OpenAlexWork(citedByCount: Option<int>, openAccess: Option<OpenAccess>, id: Option<string>)

  /** What the cache keeps of a work. */
  datatype CacheEntry = CacheEntry(citedByCount: int, openAccess: OpenAccess, openalexId: Option<string>)

  /** The cache: a DOI maps to the entry of its work, or to `None` for a miss. */
  type Cache = map<string, Option<CacheEntry>>

  datatype Stats = Stats(cached: nat, fetched: nat, notFound: nat, noDoi: nat)

  // ---------------------------------------------------------------------------
  // The lookup

  const HttpsDoiOrg: string := "https://doi.org/"
  const HttpDoiOrg: string := "http://doi.org/"

  /** The DOI sent to OpenAlex: every `https://doi.org/`, then every
      `http://doi.org/`, removed. */
  function QueryDoi(doi: string): string {
    RemoveAll(RemoveAll(doi, HttpsDoiOrg), HttpDoiOrg)
  }

  lemma RemoveAllPrefix(pattern: string, d: string)
    requires pattern != []
    ensures RemoveAll(pattern + d, pattern) == RemoveAll(d, pattern)
  {
    assert StartsWith(pattern + d, pattern);
    assert (pattern + d)[|pattern|..] == d;
  }

  /** `http://doi.org/` cannot be the start of `https://doi.org/` anywhere but
      inside what follows it. */
  lemma HttpPrefixHidesNoHttps(d: string)
    requires !Contains(d, HttpsDoiOrg)
    ensures !Contains(HttpDoiOrg + d, HttpsDoiOrg)
  {
    var s := HttpDoiOrg + d;
    forall i: nat | i <= |s| ensures !OccursAt(s, HttpsDoiOrg, i) {
      if i + 16 <= |s| {
        if i >= 15 {
          assert s[i..i + 16] == d[i - 15..i + 1];
          assert !OccursAt(d, HttpsDoiOrg, i - 15);
        } else {
          var w := s[i..i + 16];
          var k := if i == 0 then 4 else 0;
          assert w[k] == s[i + k] == HttpDoiOrg[i + k];
          assert HttpDoiOrg[i + k] != HttpsDoiOrg[k];
        }
      }
    }
  }

  /** A DOI written as a `doi.org` link, over http or https, is sent as the bare
      DOI, and a bare DOI is sent unchanged. */
  lemma QueryDoiStripsLink(d: string)
    requires !Contains(d, HttpsDoiOrg) && !Contains(d, HttpDoiOrg)
    ensures QueryDoi(d) == d
    ensures QueryDoi(HttpsDoiOrg + d) == d
    ensures QueryDoi(HttpDoiOrg + d) == d
  {
    RemoveAllAbsent(d, HttpsDoiOrg);
    RemoveAllAbsent(d, HttpDoiOrg);
    RemoveAllPrefix(HttpsDoiOrg, d);
    HttpPrefixHidesNoHttps(d);
    RemoveAllAbsent(HttpDoiOrg + d, HttpsDoiOrg);
    RemoveAllPrefix(HttpDoiOrg, d);
  }

  // ---------------------------------------------------------------------------
  // One item

  /** What a cached work does to an item: it sets the citation count and, when
      the item has no URL, the open-access link if there is one. */
  function ApplyCached(item: CslItem, e: CacheEntry): CslItem {
    item.(citationCount := Some(e.citedByCount),
          url := if !Truthy(item.url) && Truthy(e.openAccess.oaUrl) then e.openAccess.oaUrl else item.url)
  }

  /** The count of a fresh work, 0 when it has none. */
  function CountOf(w: OpenAlexWork): int {
    if w.citedByCount.Some? then w.citedByCount.value else 0
  }

  /** The open-access link of a fresh work, if any. */
  function OaUrlOf(w: OpenAlexWork): Option<string> {
    if w.openAccess.Some? then w.openAccess.value.oaUrl else None
  }

  /** What a fresh work does to an item. */
  function ApplyFetched(item: CslItem, w: OpenAlexWork): CslItem {
    item.(citationCount := Some(CountOf(w)),
          url := if !Truthy(item.url) && Truthy(OaUrlOf(w)) then OaUrlOf(w) else item.url)
  }

  /** The cache entry of a fresh work. */
  function EntryOf(w: OpenAlexWork): CacheEntry {
    CacheEntry(CountOf(w), if w.openAccess.Some? then w.openAccess.value else OpenAccess(None), w.id)
  }

  /** What the cache ends up holding for a DOI first looked up in this run. */
  function Stored(result: Option<OpenAlexWork>): Option<CacheEntry> {
    if result.Some? then Some(EntryOf(result.value)) else None
  }

  /** A fresh work changes an item exactly as its cache entry does on a later
      run: fetching and reading back the cache agree. */
  lemma FetchedAgreesWithCache(item: CslItem, w: OpenAlexWork)
    ensures ApplyFetched(item, w) == ApplyCached(item, EntryOf(w))
  {
  }

  // ---------------------------------------------------------------------------
  // The run

  /** The state after a prefix of the items: the items as updated, the cache, the
      counters, and the DOIs looked up, in order. */
  datatype RunState = RunState(items: seq<CslItem>, cache: Cache, stats: Stats, queried: seq<string>)

  /** The cache the run starts from: empty when refreshing, the loaded one otherwise. */
  function StartCache(loaded: Cache, refresh: bool): (c: Cache)
    ensures refresh ==> c == map[]
    ensures !refresh ==> c == loaded
  {
    if refresh then map[] else loaded
  }

  /** One iteration of the loop of `enrich_publications`. */
  function Step(st: RunState, item: CslItem, lookup: string -> Option<OpenAlexWork>): RunState {
    if !Truthy(item.doi) then
      st.(items := st.items + [item], stats := st.stats.(noDoi := st.stats.noDoi + 1))
    else
      var d := item.doi.value;
      if d in st.cache then
        var data := st.cache[d];
        st.(items := st.items + [if data.Some? then ApplyCached(item, data.value) else item],
            stats := st.stats.(cached := st.stats.cached + 1))
      else
        var result := lookup(QueryDoi(d));
        if result.Some? then
          RunState(st.items + [ApplyFetched(item, result.value)], st.cache[d := Stored(result)],
                   st.stats.(fetched := st.stats.fetched + 1), st.queried + [d])
        else
          RunState(st.items + [item], st.cache[d := Stored(result)],
                   st.stats.(notFound := st.stats.notFound + 1), st.queried + [d])
  }

  /** The state after the first `n` items, starting from cache `c0`. */
  function Run(items: seq<CslItem>, c0: Cache, lookup: string -> Option<OpenAlexWork>, n: nat): RunState
    requires n <= |items|
  {
    if n == 0 then RunState([], c0, Stats(0, 0, 0, 0), [])
    else Step(Run(items, c0, lookup, n - 1), items[n - 1], lookup)
  }

  /** One iteration on the items array, in place: the state of the run after
      item `i` from the state before it. */
  method EnrichItem(pubs: array<CslItem>, i: nat, cache: Cache, stats: Stats, queried: seq<string>,
                    lookup: string -> Option<OpenAlexWork>)
    returns (cache': Cache, stats': Stats, queried': seq<string>)
    requires i < pubs.Length
    modifies pubs
    ensures RunState(pubs[..i + 1], cache', stats', queried')
         == Step(RunState(old(pubs[..i]), cache, stats, queried), old(pubs[i]), lookup)
    ensures forall k :: 0 <= k < pubs.Length && k != i ==> pubs[k] == old(pubs[k])
  {
    ghost var done := pubs[..i];
    var pub := pubs[i];
    var doi := pub.doi;
    cache', stats', queried' := cache, stats, queried;
    if !Truthy(doi) {
      stats' := stats'.(noDoi := stats'.noDoi + 1);
    } else if doi.value in cache {
      var data := cache[doi.value];
      if data.Some? {
        pub := pub.(citationCount := Some(data.value.citedByCount));
        if !Truthy(pub.url) && Truthy(data.value.openAccess.oaUrl) {
          pub := pub.(url := data.value.openAccess.oaUrl);
        }
      }
      stats' := stats'.(cached := stats'.cached + 1);
    } else {
      var result := lookup(QueryDoi(doi.value));
      queried' := queried' + [doi.value];
      if result.Some? {
        var work := result.value;
        cache' := cache'[doi.value := Some(CacheEntry(CountOf(work),
                   if work.openAccess.Some? then work.openAccess.value else OpenAccess(None), work.id))];
        pub := pub.(citationCount := Some(CountOf(work)));
        if !Truthy(pub.url) {
          var oaUrl := OaUrlOf(work);
          if Truthy(oaUrl) {
            pub := pub.(url := oaUrl);
          }
        }
        stats' := stats'.(fetched := stats'.fetched + 1);
      } else {
        cache' := cache'[doi.value := None];
        stats' := stats'.(notFound := stats'.notFound + 1);
      }
    }
    pubs[i] := pub;
    assert pubs[..i] == done;
    PrefixSnoc(pubs[..], i);
  }

  /** `enrich_publications`, between reading the input and the cache and writing
      them back: every item updated in place, the cache and the counters as
      the run leaves them, and the DOIs looked up. */
  method EnrichPublications(pubs: array<CslItem>, loaded: Cache, refresh: bool,
                            lookup: string -> Option<OpenAlexWork>)
    returns (cache: Cache, stats: Stats, queried: seq<string>)
    modifies pubs
    ensures var r := Run(old(pubs[..]), StartCache(loaded, refresh), lookup, pubs.Length);
      && pubs[..] == r.items && cache == r.cache && stats == r.stats && queried == r.queried
  {
    ghost var orig := pubs[..];
    ghost var c0 := StartCache(loaded, refresh);
    cache := if refresh then map[] else loaded;
    stats := Stats(0, 0, 0, 0);
    queried := [];
    for i := 0 to pubs.Length
      invariant RunState(pubs[..i], cache, stats, queried) == Run(orig, c0, lookup, i)
      invariant forall k :: i <= k < pubs.Length ==> pubs[k] == orig[k]
    {
      cache, stats, queried := EnrichItem(pubs, i, cache, stats, queried, lookup);
    }
    assert pubs[..pubs.Length] == pubs[..];
  }

  // ---------------------------------------------------------------------------
  // Properties of the run

  /** How many of the first `n` items have no DOI. */
  function WithoutDoi(items: seq<CslItem>, n: nat): (c: nat)
    requires n <= |items|
    ensures c <= n
  {
    if n == 0 then 0 else WithoutDoi(items, n - 1) + (if Truthy(items[n - 1].doi) then 0 else 1)
  }

  /** Every visit adds one to exactly one counter: the counters add up to the
      number of items visited, `no_doi` counts the items without a DOI, and
      every lookup is counted as fetched or not found. */
  lemma {:induction false} CountersAddUp(items: seq<CslItem>, c0: Cache, lookup: string -> Option<OpenAlexWork>, n: nat)
    requires n <= |items|
    ensures var r := Run(items, c0, lookup, n);
      && |r.items| == n && r.stats.cached + r.stats.fetched + r.stats.notFound + r.stats.noDoi == n
      && r.stats.noDoi == WithoutDoi(items, n)
      && r.stats.fetched + r.stats.notFound == |r.queried|
  {
    if n > 0 {
      CountersAddUp(items, c0, lookup, n - 1);
    }
  }

  /** Some item among the first `n` has DOI `d`. */
  predicate DoiSeen(items: seq<CslItem>, n: nat, d: string)
    requires n <= |items|
  {
    exists k :: 0 <= k < n && Truthy(items[k].doi) && items[k].doi.value == d
  }

  /** One visit adds the item's DOI to the cache when it is new, storing what
      the lookup returns, and logs the lookup; no other entry changes. */
  lemma StepCache(st: RunState, item: CslItem, lookup: string -> Option<OpenAlexWork>)
    ensures var r := Step(st, item, lookup);
      && (forall d :: d in r.cache <==> d in st.cache || (Truthy(item.doi) && item.doi.value == d))
      && (forall d :: d in st.cache ==> r.cache[d] == st.cache[d])
      && (forall d :: d in r.cache && d !in st.cache ==> r.cache[d] == Stored(lookup(QueryDoi(d))))
      && r.queried == if Truthy(item.doi) && item.doi.value !in st.cache then st.queried + [item.doi.value] else st.queried
  {
  }

  /** The cache after the run: the loaded entries unchanged, plus one entry for
      every other DOI seen, holding the work found for it or the miss; the DOIs
      looked up are exactly those new keys, each once. */
  lemma {:induction false} RunCache(items: seq<CslItem>, c0: Cache, lookup: string -> Option<OpenAlexWork>, n: nat)
    requires n <= |items|
    ensures var r := Run(items, c0, lookup, n);
      && (forall d :: d in r.cache <==> d in c0 || DoiSeen(items, n, d))
      && (forall d :: d in c0 ==> r.cache[d] == c0[d])
      && (forall d :: d in r.cache && d !in c0 ==> r.cache[d] == Stored(lookup(QueryDoi(d))))
      && (forall d :: d in r.queried <==> d in r.cache && d !in c0)
      && NoDuplicates(r.queried)
  {
    if n > 0 {
      RunCache(items, c0, lookup, n - 1);
      var prev := Run(items, c0, lookup, n - 1);
      var r := Run(items, c0, lookup, n);
      var item := items[n - 1];
      StepCache(prev, item, lookup);
      forall d ensures DoiSeen(items, n, d) <==> DoiSeen(items, n - 1, d) || (Truthy(item.doi) && item.doi.value == d) {
        if DoiSeen(items, n, d) && !(Truthy(item.doi) && item.doi.value == d) {
          var k :| 0 <= k < n && Truthy(items[k].doi) && items[k].doi.value == d;
          assert k < n - 1;
        }
      }
      if Truthy(item.doi) && item.doi.value !in prev.cache {
        forall i, j | 0 <= i < j < |r.queried| ensures r.queried[i] != r.queried[j] {
          if j == |prev.queried| {
            assert r.queried[i] in prev.queried;
          }
        }
      }
    }
  }

  /** An item ends as the final cache says for its DOI: unchanged without a DOI
      or for a miss, updated from the entry otherwise. */
  predicate Settled(before: CslItem, after: CslItem, cache: Cache) {
    if !Truthy(before.doi) then after == before
    else
      before.doi.value in cache
      && after == (if cache[before.doi.value].Some? then ApplyCached(before, cache[before.doi.value].value) else before)
  }

  /** One visit leaves the items before it alone and settles the new one. */
  lemma StepSettles(st: RunState, item: CslItem, lookup: string -> Option<OpenAlexWork>)
    ensures var r := Step(st, item, lookup);
      && |r.items| == |st.items| + 1 && r.items[..|st.items|] == st.items
      && Settled(item, r.items[|st.items|], r.cache)
  {
    if Truthy(item.doi) && item.doi.value !in st.cache {
      var result := lookup(QueryDoi(item.doi.value));
      if result.Some? {
        FetchedAgreesWithCache(item, result.value);
      }
    }
  }

  /** An item stays settled when the cache only gains entries. */
  lemma SettledWhileCacheGrows(before: CslItem, after: CslItem, c: Cache, c': Cache)
    requires Settled(before, after, c)
    requires forall d :: d in c ==> d in c' && c'[d] == c[d]
    ensures Settled(before, after, c')
  {
  }

  /** Every item visited ends as the final cache says for its DOI, whether its
      DOI was answered from the loaded cache, looked up for it, or looked up for
      an earlier item. */
  lemma {:induction false} RunSettled(items: seq<CslItem>, c0: Cache, lookup: string -> Option<OpenAlexWork>, n: nat)
    requires n <= |items|
    ensures var r := Run(items, c0, lookup, n);
      |r.items| == n && forall k :: 0 <= k < n ==> Settled(items[k], r.items[k], r.cache)
  {
    if n > 0 {
      RunSettled(items, c0, lookup, n - 1);
      var prev := Run(items, c0, lookup, n - 1);
      var r := Run(items, c0, lookup, n);
      StepCache(prev, items[n - 1], lookup);
      StepSettles(prev, items[n - 1], lookup);
      PrefixStaysSettled(items[..n - 1], prev.items, r.items, prev.cache, r.cache);
    }
  }

  /** Items settled under a cache stay settled when the items are kept and the
      cache only gains entries. */
  lemma PrefixStaysSettled(before: seq<CslItem>, after: seq<CslItem>, after': seq<CslItem>, c: Cache, c': Cache)
    requires |after| == |before| <= |after'| && after'[..|after|] == after
    requires forall k :: 0 <= k < |before| ==> Settled(before[k], after[k], c)
    requires forall d :: d in c ==> d in c' && c'[d] == c[d]
    ensures forall k :: 0 <= k < |before| ==> Settled(before[k], after'[k], c')
  {
    forall k | 0 <= k < |before| ensures Settled(before[k], after'[k], c') {
      assert after'[k] == after[k];
      SettledWhileCacheGrows(before[k], after[k], c, c');
    }
  }

  /** A cached entry sets the count and never replaces a URL the item has; a URL
      is added only to an item without one. */
  lemma ApplyCachedKeepsUrl(item: CslItem, e: CacheEntry)
    ensures var a := ApplyCached(item, e);
      && a.citationCount == Some(e.citedByCount)
      && (Truthy(item.url) ==> a.url == item.url)
      && (a.url != item.url ==> !Truthy(item.url) && a.url == e.openAccess.oaUrl && Truthy(a.url))
      && a.(citationCount := item.citationCount, url := item.url) == item
  {
  }

  /** Across the run an existing URL is never overwritten, only the count and
      the URL ever change, and an item without a DOI or whose DOI the loaded
      cache records as a miss is left as it was. */
  lemma ItemsKeepTheirUrl(items: seq<CslItem>, c0: Cache, lookup: string -> Option<OpenAlexWork>, n: nat, k: nat)
    requires k < n <= |items|
    ensures var r := Run(items, c0, lookup, n);
      && k < |r.items|
      && (Truthy(items[k].url) ==> r.items[k].url == items[k].url)
      && r.items[k].(citationCount := items[k].citationCount, url := items[k].url) == items[k]
      && (!Truthy(items[k].doi) ==> r.items[k] == items[k])
      && (Truthy(items[k].doi) && items[k].doi.value in c0 && c0[items[k].doi.value].None? ==> r.items[k] == items[k])
  {
    var r := Run(items, c0, lookup, n);
    RunSettled(items, c0, lookup, n);
    RunCache(items, c0, lookup, n);
    var item := items[k];
    if Truthy(item.doi) && r.cache[item.doi.value].Some? {
      ApplyCachedKeepsUrl(item, r.cache[item.doi.value].value);
    }
  }

  /** With `refresh` every DOI of the input is looked up, once each, and nothing
      else is. */
  lemma RefreshLooksUpEveryDoi(items: seq<CslItem>, loaded: Cache, lookup: string -> Option<OpenAlexWork>)
    ensures var r := Run(items, StartCache(loaded, true), lookup, |items|);
      && NoDuplicates(r.queried)
      && forall d :: d in r.queried <==> DoiSeen(items, |items|, d)
  {
    RunCache(items, StartCache(loaded, true), lookup, |items|);
  }

  /** Without `refresh` a DOI the loaded cache has is never looked up. */
  lemma LoadedDoisNotLookedUp(items: seq<CslItem>, loaded: Cache, lookup: string -> Option<OpenAlexWork>, d: string)
    requires d in loaded
    ensures d !in Run(items, StartCache(loaded, false), lookup, |items|).queried
  {
    RunCache(items, StartCache(loaded, false), lookup, |items|);
  }
}
