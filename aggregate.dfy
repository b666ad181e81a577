/**
 * `AriOSSearch.search`: consults the sources in order, stops after the first one that brings
 * the pool to ten or more results, drops results with an empty or already seen URL, and
 * returns at most ten.
 */
module Aggregate {
  import opened Wrappers
  import opened Text
  import opened SearchResults
  import DuckDuckGo
  import Wikipedia

  const MaxResults: nat := 10

  /** What one call of a source gives: its results, or `None` when it raised. */
  type Outcome = Option<seq<SearchResult>>

  /** A search source, called with the stripped query. */
  type Source = string -> Outcome

  /** What a call adds to the pool: a source that raised adds nothing. */
  function Contribution(o: Outcome): seq<SearchResult> {
    o.GetOr([])
  }

  /** All results of a list of outcomes, in order. */
  function Flatten(outs: seq<Outcome>): seq<SearchResult> {
    if outs == [] then [] else Contribution(outs[0]) + Flatten(outs[1..])
  }

  /** The outcome of calling every source with `q`. */
  function Outcomes(sources: seq<Source>, q: string): (outs: seq<Outcome>)
    ensures |outs| == |sources|
    ensures forall i :: 0 <= i < |sources| ==> outs[i] == sources[i](q)
  {
    seq(|sources|, i requires 0 <= i < |sources| => sources[i](q))
  }

  // ---------------------------------------------------------------- the accumulation loop

  /** The pool the loop ends with, starting from `acc` before the outcomes `outs`. */
  function GatherFrom(acc: seq<SearchResult>, outs: seq<Outcome>): (pool: seq<SearchResult>)
    ensures acc <= pool
    decreases |outs|
  {
    if outs == [] then acc
    else match outs[0]
      case None => GatherFrom(acc, outs[1..])
      case Some(rs) => if |acc + rs| >= MaxResults then acc + rs else GatherFrom(acc + rs, outs[1..])
  }

  /** How many of `outs` the loop calls, starting from `acc`. */
  function ConsultFrom(acc: seq<SearchResult>, outs: seq<Outcome>): (n: nat)
    ensures n <= |outs|
    ensures outs != [] ==> n >= 1
    decreases |outs|
  {
    if outs == [] then 0
    else match outs[0]
      case None => 1 + ConsultFrom(acc, outs[1..])
      case Some(rs) => if |acc + rs| >= MaxResults then 1 else 1 + ConsultFrom(acc + rs, outs[1..])
  }

  function Gather(outs: seq<Outcome>): seq<SearchResult> {
    GatherFrom([], outs)
  }

  function Consulted(outs: seq<Outcome>): nat {
    ConsultFrom([], outs)
  }

  lemma FlattenPrefix(outs: seq<Outcome>, k: nat)
    requires 1 <= k <= |outs|
    ensures Flatten(outs[..k]) == Contribution(outs[0]) + Flatten(outs[1..][..k - 1])
  {
    assert outs[..k][1..] == outs[1..][..k - 1];
  }

  lemma {:induction false} GatherFromSpec(acc: seq<SearchResult>, outs: seq<Outcome>)
    requires |acc| < MaxResults
    ensures ConsultFrom(acc, outs) <= |outs|
    ensures GatherFrom(acc, outs) == acc + Flatten(outs[..ConsultFrom(acc, outs)])
    ensures forall k :: 0 <= k < ConsultFrom(acc, outs) ==> |acc + Flatten(outs[..k])| < MaxResults
    ensures ConsultFrom(acc, outs) < |outs| ==> |acc + Flatten(outs[..ConsultFrom(acc, outs)])| >= MaxResults
    decreases |outs|
  {
    if outs == [] {
      assert acc + Flatten([]) == acc;
    } else {
      var c := ConsultFrom(acc, outs);
      var tail := outs[1..];
      var add := Contribution(outs[0]);
      var acc' := acc + add;
      if outs[0].Some? && |acc'| >= MaxResults {
        assert c == 1;
        FlattenPrefix(outs, 1);
        assert Flatten(outs[..1]) == add + Flatten([]);
      } else {
        // the loop carries on to the next source with the pool `acc'`
        if outs[0].None? {
          assert acc' == acc;
        }
        assert c == 1 + ConsultFrom(acc', tail);
        assert GatherFrom(acc, outs) == GatherFrom(acc', tail);
        GatherFromSpec(acc', tail);
        FlattenPrefix(outs, c);
        assert acc + Flatten(outs[..c]) == acc' + Flatten(tail[..c - 1]);
        forall k | 0 <= k < c
          ensures |acc + Flatten(outs[..k])| < MaxResults
        {
          if k == 0 {
            assert outs[..0] == [];
          } else {
            FlattenPrefix(outs, k);
            assert acc + Flatten(outs[..k]) == acc' + Flatten(tail[..k - 1]);
          }
        }
      }
    }
  }

  /**
   * The loop stops exactly after the first source that brings the pool to ten or more: every
   * source it calls saw a pool of fewer than ten, and when it calls fewer than all of them the
   * pool of those it called holds ten or more. The pool is then everything those sources gave.
   */
  lemma GatherStopsAtFirstFull(outs: seq<Outcome>)
    ensures Consulted(outs) <= |outs|
    ensures Gather(outs) == Flatten(outs[..Consulted(outs)])
    ensures forall k :: 0 <= k < Consulted(outs) ==> |Flatten(outs[..k])| < MaxResults
    ensures Consulted(outs) < |outs| ==> |Flatten(outs[..Consulted(outs)])| >= MaxResults
  {
    GatherFromSpec([], outs);
    forall k | 0 <= k <= |outs|
      ensures [] + Flatten(outs[..k]) == Flatten(outs[..k])
    {
    }
  }

  lemma {:induction false} RaisingFromIsEmpty(acc: seq<SearchResult>, outs: seq<Outcome>, k: nat)
    requires |acc| < MaxResults && k < |outs|
    ensures GatherFrom(acc, outs[k := None]) == GatherFrom(acc, outs[k := Some([])])
    ensures ConsultFrom(acc, outs[k := None]) == ConsultFrom(acc, outs[k := Some([])])
    decreases k
  {
    var a, b := outs[k := None], outs[k := Some([])];
    if k == 0 {
      assert a[1..] == b[1..];
      assert acc + [] == acc;
    } else {
      assert a[1..] == outs[1..][k - 1 := None];
      assert b[1..] == outs[1..][k - 1 := Some([])];
      match outs[0]
      case None =>
        RaisingFromIsEmpty(acc, outs[1..], k - 1);
      case Some(rs) =>
        if |acc + rs| < MaxResults {
          RaisingFromIsEmpty(acc + rs, outs[1..], k - 1);
        }
    }
  }

  /** A source that raises is treated exactly like one that returned no results. */
  lemma RaisingSourceIsEmpty(outs: seq<Outcome>, k: nat)
    requires k < |outs|
    ensures Gather(outs[k := None]) == Gather(outs[k := Some([])])
    ensures Consulted(outs[k := None]) == Consulted(outs[k := Some([])])
  {
    RaisingFromIsEmpty([], outs, k);
  }

  // ---------------------------------------------------------------- duplicate removal

  function UrlsOf(rs: seq<SearchResult>): set<string> {
    set r | r in rs :: r.url
  }

  /** The loop over the pool that keeps a result when its URL is non-empty and not yet seen. */
  function Dedup(rs: seq<SearchResult>): seq<SearchResult>
    decreases |rs|
  {
    if rs == [] then []
    else
      var kept := Dedup(rs[..|rs| - 1]);
      var r := rs[|rs| - 1];
      if r.url != "" && r.url !in UrlsOf(kept) then kept + [r] else kept
  }

  /** The index of the first result in `rs` whose URL is `u`, or `|rs|` if there is none. */
  function FirstIndex(rs: seq<SearchResult>, u: string): (k: nat)
    ensures k <= |rs|
    ensures forall m :: 0 <= m < k ==> rs[m].url != u
    ensures k < |rs| ==> rs[k].url == u
  {
    if rs == [] then 0 else if rs[0].url == u then 0 else 1 + FirstIndex(rs[1..], u)
  }

  predicate NoEmptyUrl(out: seq<SearchResult>) {
    forall i :: 0 <= i < |out| ==> out[i].url != ""
  }

  predicate UrlsDistinct(out: seq<SearchResult>) {
    forall i, j :: 0 <= i < j < |out| ==> out[i].url != out[j].url
  }

  /** Each result of `out` is the first one in `pool` with its URL, and `out` keeps the order of `pool`. */
  predicate KeepsFirstOccurrences(out: seq<SearchResult>, pool: seq<SearchResult>) {
    && (forall i :: 0 <= i < |out| ==>
          FirstIndex(pool, out[i].url) < |pool| && pool[FirstIndex(pool, out[i].url)] == out[i])
    && (forall i, j :: 0 <= i < j < |out| ==> FirstIndex(pool, out[i].url) < FirstIndex(pool, out[j].url))
  }

  /** Every non-empty URL of `pool` is the URL of some result in `out`. */
  predicate CoversUrls(out: seq<SearchResult>, pool: seq<SearchResult>) {
    forall k :: 0 <= k < |pool| && pool[k].url != "" ==> pool[k].url in UrlsOf(out)
  }

  lemma UrlsOfSnoc(d: seq<SearchResult>, r: SearchResult)
    ensures UrlsOf(d + [r]) == UrlsOf(d) + {r.url}
  {
    forall u | u in UrlsOf(d + [r]) ensures u in UrlsOf(d) + {r.url} {
      var w :| w in d + [r] && w.url == u;
      if w != r {
        assert w in d;
      }
    }
    forall u | u in UrlsOf(d) ensures u in UrlsOf(d + [r]) {
      var w :| w in d && w.url == u;
      assert w in d + [r];
    }
    assert r in d + [r];
  }

  lemma FirstIndexSnoc(p: seq<SearchResult>, r: SearchResult, u: string)
    ensures FirstIndex(p + [r], u) ==
      if FirstIndex(p, u) < |p| then FirstIndex(p, u) else if r.url == u then |p| else |p| + 1
  {
    assert forall m :: 0 <= m < |p| ==> (p + [r])[m] == p[m];
    if FirstIndex(p, u) < |p| {
      assert (p + [r])[FirstIndex(p, u)].url == u;
    } else if r.url == u {
      assert (p + [r])[|p|].url == u;
    }
  }

  /** Duplicate removal never shrinks the set of non-empty URLs. */
  lemma {:induction false} DedupCovers(rs: seq<SearchResult>)
    ensures |Dedup(rs)| <= |rs|
    ensures CoversUrls(Dedup(rs), rs)
    decreases |rs|
  {
    if rs != [] {
      var p, r := rs[..|rs| - 1], rs[|rs| - 1];
      var d := Dedup(p);
      DedupCovers(p);
      UrlsOfSnoc(d, r);
      assert UrlsOf(d) <= UrlsOf(Dedup(rs));
      assert r.url != "" ==> r.url in UrlsOf(Dedup(rs));
      forall k | 0 <= k < |rs| && rs[k].url != "" ensures rs[k].url in UrlsOf(Dedup(rs)) {
        if k < |p| {
          assert rs[k] == p[k];
        }
      }
    }
  }

  /** A result whose URL is new to the pool is its first occurrence; earlier first occurrences stay first. */
  lemma DedupKeptStep(p: seq<SearchResult>, r: SearchResult)
    requires NoEmptyUrl(Dedup(p)) && KeepsFirstOccurrences(Dedup(p), p) && CoversUrls(Dedup(p), p)
    requires r.url != "" && r.url !in UrlsOf(Dedup(p))
    ensures NoEmptyUrl(Dedup(p) + [r]) && KeepsFirstOccurrences(Dedup(p) + [r], p + [r])
  {
    var d, rs := Dedup(p), p + [r];
    var out := d + [r];
    FirstIndexSnoc(p, r, r.url);
    assert FirstIndex(p, r.url) == |p|;
    forall i | 0 <= i < |d| ensures FirstIndex(rs, d[i].url) == FirstIndex(p, d[i].url) {
      FirstIndexSnoc(p, r, d[i].url);
    }
    assert forall m :: 0 <= m < |p| ==> rs[m] == p[m];
    forall i | 0 <= i < |out|
      ensures FirstIndex(rs, out[i].url) < |rs| && rs[FirstIndex(rs, out[i].url)] == out[i]
    {
      if i < |d| {
        assert out[i] == d[i];
      }
    }
    forall i, j | 0 <= i < j < |out| ensures FirstIndex(rs, out[i].url) < FirstIndex(rs, out[j].url) {
      assert out[i] == d[i];
      if j < |d| {
        assert out[j] == d[j];
      }
    }
  }

  /** A result that is skipped leaves every kept one the first with its URL. */
  lemma DedupSkipStep(p: seq<SearchResult>, r: SearchResult)
    requires KeepsFirstOccurrences(Dedup(p), p)
    ensures KeepsFirstOccurrences(Dedup(p), p + [r])
  {
    var d, rs := Dedup(p), p + [r];
    forall i | 0 <= i < |d| ensures FirstIndex(rs, d[i].url) == FirstIndex(p, d[i].url) {
      FirstIndexSnoc(p, r, d[i].url);
    }
    assert forall m :: 0 <= m < |p| ==> rs[m] == p[m];
  }

  /** Duplicate removal keeps, in order, only first occurrences of non-empty URLs. */
  lemma {:induction false} DedupOrdered(rs: seq<SearchResult>)
    ensures NoEmptyUrl(Dedup(rs))
    ensures KeepsFirstOccurrences(Dedup(rs), rs)
    decreases |rs|
  {
    if rs != [] {
      var p, r := rs[..|rs| - 1], rs[|rs| - 1];
      assert rs == p + [r];
      DedupOrdered(p);
      if r.url != "" && r.url !in UrlsOf(Dedup(p)) {
        DedupCovers(p);
        DedupKeptStep(p, r);
      } else {
        DedupSkipStep(p, r);
      }
    }
  }

  /**
   * Duplicate removal keeps, in order, the first result for every non-empty URL of the pool —
   * and nothing else.
   */
  lemma DedupSpec(rs: seq<SearchResult>)
    ensures |Dedup(rs)| <= |rs|
    ensures NoEmptyUrl(Dedup(rs)) && UrlsDistinct(Dedup(rs))
    ensures KeepsFirstOccurrences(Dedup(rs), rs)
    ensures CoversUrls(Dedup(rs), rs)
  {
    DedupCovers(rs);
    DedupOrdered(rs);
  }

  /** Cutting to a prefix keeps every property of duplicate removal but coverage. */
  lemma TakeKeepsOrder(out: seq<SearchResult>, pool: seq<SearchResult>, n: nat)
    requires NoEmptyUrl(out) && UrlsDistinct(out) && KeepsFirstOccurrences(out, pool)
    ensures var t := Take(out, n); NoEmptyUrl(t) && UrlsDistinct(t) && KeepsFirstOccurrences(t, pool)
    ensures |out| <= n ==> Take(out, n) == out
  {
    var t := Take(out, n);
    assert forall i :: 0 <= i < |t| ==> t[i] == out[i];
  }

  // ---------------------------------------------------------------- the search itself

  /** What `search(query)` returns, as a function of what each source gives for the stripped query. */
  function SearchSpec(sources: seq<Source>, query: string): seq<SearchResult> {
    if IsBlank(query) then []
    else Take(Dedup(Gather(Outcomes(sources, Strip(query)))), MaxResults)
  }

  /** How many sources `search(query)` calls. */
  function ConsultedFor(sources: seq<Source>, query: string): nat {
    if IsBlank(query) then 0 else Consulted(Outcomes(sources, Strip(query)))
  }

  /** `search` strips the query itself, so stripping it first (as the `/search` route does) changes nothing. */
  lemma SearchIgnoresSurroundingSpace(sources: seq<Source>, query: string)
    ensures SearchSpec(sources, Strip(query)) == SearchSpec(sources, query)
  {
    StripIdempotent(query);
  }

  /**
   * What `search` promises: at most ten results, none with an empty URL, no URL twice, each the
   * first result with its URL in the pool of the sources consulted, in pool order; and while
   * fewer than ten came out, every non-empty URL of that pool is among them.
   */
  lemma SearchSpecShape(sources: seq<Source>, query: string)
    ensures ConsultedFor(sources, query) <= |sources|
    ensures var results := SearchSpec(sources, query);
      var pool := Flatten(Outcomes(sources, Strip(query))[..ConsultedFor(sources, query)]);
      && |results| <= MaxResults
      && NoEmptyUrl(results) && UrlsDistinct(results)
      && KeepsFirstOccurrences(results, pool)
      && (|results| < MaxResults ==> CoversUrls(results, pool))
  {
    var outs := Outcomes(sources, Strip(query));
    if IsBlank(query) {
      assert outs[..0] == [];
    } else {
      GatherStopsAtFirstFull(outs);
      var g := Gather(outs);
      DedupSpec(g);
      TakeKeepsOrder(Dedup(g), g, MaxResults);
    }
  }

  /** The first loop of `search`: calls the sources in order until the pool holds ten or more. */
  method Collect(sources: seq<Source>, q: string) returns (all: seq<SearchResult>, consulted: nat)
    ensures all == Gather(Outcomes(sources, q)) && consulted == Consulted(Outcomes(sources, q))
  {
    ghost var outs := Outcomes(sources, q);
    all := [];
    var i := 0;
    consulted := 0;
    while i < |sources|
      invariant 0 <= i <= |sources| && consulted == i
      invariant |all| < MaxResults
      invariant GatherFrom(all, outs[i..]) == Gather(outs)
      invariant i + ConsultFrom(all, outs[i..]) == Consulted(outs)
    {
      var outcome := sources[i](q);
      assert outs[i..][0] == outcome && outs[i..][1..] == outs[i + 1..];
      consulted := consulted + 1;
      if outcome.Some? {
        all := all + outcome.value;
        if |all| >= MaxResults {
          break;
        }
      }
      i := i + 1;
    }
    if i == |sources| {
      assert outs[i..] == [];
    }
  }

  /** The second loop of `search`: keeps a result when its URL is non-empty and not yet seen. */
  method RemoveDuplicates(all: seq<SearchResult>) returns (unique: seq<SearchResult>)
    ensures unique == Dedup(all)
  {
    var seen: set<string> := {};
    unique := [];
    for j := 0 to |all|
      invariant unique == Dedup(all[..j])
      invariant seen == UrlsOf(unique)
    {
      var result := all[j];
      assert all[..j + 1][..j] == all[..j] && all[..j + 1][j] == result;
      if result.url != "" && result.url !in seen {
        UrlsOfSnoc(unique, result);
        seen := seen + {result.url};
        unique := unique + [result];
      }
    }
    assert all[..|all|] == all;
  }

  /** `AriOSSearch.search`: reject a blank query, collect, remove duplicates, cut to ten. */
  method Search(sources: seq<Source>, query: string) returns (results: seq<SearchResult>, consulted: nat)
    ensures results == SearchSpec(sources, query) && consulted == ConsultedFor(sources, query)
    ensures |results| <= MaxResults
    ensures NoEmptyUrl(results) && UrlsDistinct(results)
    ensures consulted <= |sources|
    ensures var pool := Flatten(Outcomes(sources, Strip(query))[..consulted]);
      && KeepsFirstOccurrences(results, pool)
      && (|results| < MaxResults ==> CoversUrls(results, pool))
  {
    SearchSpecShape(sources, query);
    if IsBlank(query) {
      return [], 0;
    }
    var all;
    all, consulted := Collect(sources, Strip(query));
    var unique := RemoveDuplicates(all);
    results := Take(unique, MaxResults);
  }

  // ---------------------------------------------------------------- the configured sources

  /**
   * `self.search_apis`: DuckDuckGo, Wikipedia and the news stub, in that order. The network is a
   * parameter: `ddg` gives the DuckDuckGo reply for a query, `wiki` the reply to a request URL.
   * None of them raises, since each catches its own exceptions; the news source returns nothing.
   */
  function AriOSSources(ddg: string -> DuckDuckGo.Reply, wiki: string -> Wikipedia.Reply): (s: seq<Source>)
    ensures |s| == 3
  {
    [ q => Some(DuckDuckGo.Results(q, ddg(q))),
      q => Some(Wikipedia.Results(q, wiki(Wikipedia.RequestUrl(q)))),
      q => Some([]) ]
  }

  /** Three sources that give `d`, `w` and nothing, where `d` alone does not fill the pool. */
  lemma GatherOfThree(d: seq<SearchResult>, w: seq<SearchResult>)
    requires |d| < MaxResults
    ensures Gather([Some(d), Some(w), Some([])]) == d + w
  {
    var outs: seq<Outcome> := [Some(d), Some(w), Some([])];
    assert [] + d == d;
    assert outs[1..] == [Some(w), Some([])];
    assert Gather(outs) == GatherFrom(d, [Some(w), Some([])]);
    if |d + w| < MaxResults {
      assert [Some(w), Some([])][1..] == [Some([])];
      assert d + w + [] == d + w;
      assert GatherFrom(d + w, [Some([])]) == GatherFrom(d + w, []);
    }
  }

  /**
   * With the configured sources the pool is the DuckDuckGo records followed by the Wikipedia
   * record, it never exceeds ten (at most 9 + 1 + 0), so the final cut to ten never drops anything.
   */
  lemma AriOSNeverTruncates(ddg: string -> DuckDuckGo.Reply, wiki: string -> Wikipedia.Reply, q: string)
    ensures var g := Gather(Outcomes(AriOSSources(ddg, wiki), q));
      && g == DuckDuckGo.Results(q, ddg(q)) + Wikipedia.Results(q, wiki(Wikipedia.RequestUrl(q)))
      && |g| <= MaxResults
      && Take(Dedup(g), MaxResults) == Dedup(g)
  {
    var outs := Outcomes(AriOSSources(ddg, wiki), q);
    var d := DuckDuckGo.Results(q, ddg(q));
    var w := Wikipedia.Results(q, wiki(Wikipedia.RequestUrl(q)));
    assert |d| < MaxResults by {
      if ddg(q).Parsed? {
        DuckDuckGo.RecordsShape(q, ddg(q).answer);
      }
    }
    Wikipedia.AtMostOneRecord(q, wiki(Wikipedia.RequestUrl(q)));
    assert outs == [Some(d), Some(w), Some([])];
    GatherOfThree(d, w);
    DedupSpec(d + w);
    TakeKeepsOrder(Dedup(d + w), d + w, MaxResults);
  }
}
