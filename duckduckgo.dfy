/**
 * `AriOSSearch.search_duckduckgo`: turns the parsed reply of the DuckDuckGo Instant Answer API
 * into result records — the abstract first (when there is one), then up to eight related topics.
 */
module DuckDuckGo {
  import opened Wrappers
  import opened Text
  import opened SearchResults
  import UrlQuote

  /** One entry of `RelatedTopics`; a key that is absent is `None`. */
  datatype Topic = Topic(firstUrl: Option<string>, text: Option<string>)

  /** The keys of the JSON reply that the mapping reads. */
  datatype Answer = Answer(
    abstractText: Option<string>,
    heading: Option<string>,
    abstractUrl: Option<string>,
    relatedTopics: Option<seq<Topic>>)

  /** What `requests.get(...).json()` produced: a parsed object, or an exception (network, timeout, bad JSON). */
  datatype Reply = Failed | Parsed(answer: Answer)

  const MaxTopics: nat := 8
  const TitleCap: nat := 100
  const SnippetCap: nat := 200
  const DisplayCap: nat := 60
  const Separator := " - "
  const FallbackPrefix := "https://duckduckgo.com/?q="

  /** `data.get('AbstractText')` is truthy: present and non-empty. */
  predicate HasAbstract(a: Answer) {
    a.abstractText.Some? && a.abstractText.value != ""
  }

  /** The link used when the reply carries no `AbstractURL`. */
  function FallbackUrl(query: string): (u: string)
    ensures FallbackPrefix <= u
    ensures forall k :: |FallbackPrefix| <= k < |u| ==> UrlQuote.IsQuotedChar(u[k])
    ensures UrlQuote.Unquote(u[|FallbackPrefix|..]) == Some(query)
  {
    var q := UrlQuote.QuotePlus(query);
    UrlQuote.QuotePlusIsUrlSafe(query);
    UrlQuote.QuotePlusRoundTrip(query);
    assert (FallbackPrefix + q)[|FallbackPrefix|..] == q;
    FallbackPrefix + q
  }

  /** The record for the abstract. */
  function AbstractRecord(query: string, a: Answer): (r: SearchResult)
    ensures a.heading.Some? ==> r.title == a.heading.value
    ensures a.heading.None? ==> r.title == query
    ensures a.abstractUrl.Some? ==> r.url == a.abstractUrl.value && r.displayUrl == a.abstractUrl.value
    ensures a.abstractUrl.None? ==> r.url == FallbackUrl(query) && r.displayUrl == "duckduckgo.com"
    ensures HasAbstract(a) ==> r.snippet == a.abstractText.value && r.snippet != ""
  {
    SearchResult(
      a.heading.GetOr(query),
      a.abstractUrl.GetOr(FallbackUrl(query)),
      a.abstractUrl.GetOr("duckduckgo.com"),
      a.abstractText.GetOr(""))
  }

  /** The title of a topic: the text before the first `" - "`, or else its first 100 characters. */
  function TopicTitle(text: string): (t: string)
    ensures t <= text
    ensures Contains(text, Separator) ==>
      OccursAt(text, Separator, |t|) && forall k :: 0 <= k < |t| ==> !OccursAt(text, Separator, k)
    ensures !Contains(text, Separator) ==> |t| == if |text| < TitleCap then |text| else TitleCap
  {
    var i := IndexOf(text, Separator);
    if i.Some? then text[..i.value] else Take(text, TitleCap)
  }

  /** A topic yields a record only when it has both `FirstURL` and `Text`. */
  predicate IsComplete(t: Topic) {
    t.firstUrl.Some? && t.text.Some?
  }

  /** The record for a complete topic. */
  function TopicRecord(t: Topic): (r: SearchResult)
    requires IsComplete(t)
    ensures r.url == t.firstUrl.value
    ensures r.displayUrl <= r.url && |r.displayUrl| == if |r.url| < DisplayCap then |r.url| else DisplayCap
    ensures r.snippet <= t.text.value
    ensures |r.snippet| == if |t.text.value| < SnippetCap then |t.text.value| else SnippetCap
    ensures r.title == TopicTitle(t.text.value)
  {
    var text := t.text.value;
    SearchResult(TopicTitle(text), t.firstUrl.value, Take(t.firstUrl.value, DisplayCap), Take(text, SnippetCap))
  }

  /** The records of a list of topics, in order; incomplete topics are skipped. */
  function TopicRecords(ts: seq<Topic>): seq<SearchResult>
    decreases |ts|
  {
    if ts == [] then []
    else
      var last := ts[|ts| - 1];
      TopicRecords(ts[..|ts| - 1]) + (if IsComplete(last) then [TopicRecord(last)] else [])
  }

  /** `data.get('RelatedTopics', [])[:8]` */
  function Window(a: Answer): (w: seq<Topic>)
    ensures var ts := a.relatedTopics.GetOr([]);
      w <= ts && |w| == if |ts| < MaxTopics then |ts| else MaxTopics
  {
    Take(a.relatedTopics.GetOr([]), MaxTopics)
  }

  /** The records of the abstract, if any, then of the topics in the window. */
  function Records(query: string, a: Answer): (rs: seq<SearchResult>)
    ensures |rs| <= 1 + MaxTopics
    ensures HasAbstract(a) ==> |rs| >= 1 && rs[0] == AbstractRecord(query, a)
    ensures !HasAbstract(a) ==> |rs| <= MaxTopics
  {
    TopicRecordsSpec(Window(a));
    (if HasAbstract(a) then [AbstractRecord(query, a)] else []) + TopicRecords(Window(a))
  }

  /** What `search_duckduckgo(query)` returns for a reply; any exception gives `[]`. */
  function Results(query: string, reply: Reply): (rs: seq<SearchResult>)
    ensures reply.Failed? ==> rs == []
    ensures |rs| <= 1 + MaxTopics
    ensures reply.Parsed? && HasAbstract(reply.answer) ==> |rs| >= 1 && rs[0] == AbstractRecord(query, reply.answer)
  {
    match reply
    case Failed => []
    case Parsed(a) => Records(query, a)
  }

  /** Topic records come from the complete topics and from nothing else, one for each. */
  lemma {:induction false} TopicRecordsSpec(ts: seq<Topic>)
    ensures |TopicRecords(ts)| <= |ts|
    ensures forall r :: r in TopicRecords(ts) ==>
      exists k :: 0 <= k < |ts| && IsComplete(ts[k]) && r == TopicRecord(ts[k])
    ensures forall k :: 0 <= k < |ts| && IsComplete(ts[k]) ==> TopicRecord(ts[k]) in TopicRecords(ts)
  {
    if ts != [] {
      var init := ts[..|ts| - 1];
      TopicRecordsSpec(init);
      forall r | r in TopicRecords(ts)
        ensures exists k :: 0 <= k < |ts| && IsComplete(ts[k]) && r == TopicRecord(ts[k])
      {
        if r in TopicRecords(init) {
          var k :| 0 <= k < |init| && IsComplete(init[k]) && r == TopicRecord(init[k]);
          assert ts[k] == init[k];
        } else {
          assert IsComplete(ts[|ts| - 1]) && r == TopicRecord(ts[|ts| - 1]);
        }
      }
      forall k | 0 <= k < |ts| && IsComplete(ts[k])
        ensures TopicRecord(ts[k]) in TopicRecords(ts)
      {
        if k < |init| {
          assert init[k] == ts[k];
        }
      }
    }
  }

  /**
   * The shape of the mapping: at most 1 + 8 records; the abstract record comes first exactly
   * when `AbstractText` is non-empty; every other record is that of a complete topic among the
   * first eight, and no such topic is left out; every topic record respects the length caps.
   */
  lemma RecordsShape(query: string, a: Answer)
    ensures |Records(query, a)| <= 1 + MaxTopics
    ensures HasAbstract(a) ==> |Records(query, a)| >= 1 && Records(query, a)[0] == AbstractRecord(query, a)
    ensures var rest := Records(query, a)[if HasAbstract(a) then 1 else 0..];
      && (forall r :: r in rest ==>
            exists k :: 0 <= k < |Window(a)| && IsComplete(Window(a)[k]) && r == TopicRecord(Window(a)[k]))
      && (forall k :: 0 <= k < |Window(a)| && IsComplete(Window(a)[k]) ==> TopicRecord(Window(a)[k]) in rest)
      && (forall r :: r in rest ==> |r.snippet| <= SnippetCap && |r.displayUrl| <= DisplayCap)
  {
    var w := Window(a);
    TopicRecordsSpec(w);
    var rs := Records(query, a);
    assert rs[if HasAbstract(a) then 1 else 0..] == TopicRecords(w);
  }

  /** Only the first eight topics matter: anything after them never reaches the records. */
  lemma LaterTopicsIgnored(query: string, a: Answer, more: seq<Topic>)
    requires a.relatedTopics.Some? && |a.relatedTopics.value| >= MaxTopics
    ensures Records(query, a.(relatedTopics := Some(a.relatedTopics.value + more))) == Records(query, a)
  {
    var ts := a.relatedTopics.value;
    assert Take(ts + more, MaxTopics) == Take(ts, MaxTopics);
  }

  /** `search_duckduckgo` as written: appends the abstract record, then loops over the topic window. */
  method Search(query: string, reply: Reply) returns (results: seq<SearchResult>)
    ensures results == Results(query, reply)
    ensures |results| <= 1 + MaxTopics
  {
    if reply.Failed? {
      return [];
    }
    var data := reply.answer;
    results := [];
    if HasAbstract(data) {
      results := results + [AbstractRecord(query, data)];
    }
    var head := results;
    var topics := Window(data);
    for i := 0 to |topics|
      invariant results == head + TopicRecords(topics[..i])
    {
      var topic := topics[i];
      assert topics[..i + 1][..i] == topics[..i];
      if topic.firstUrl.Some? && topic.text.Some? {
        results := results + [TopicRecord(topic)];
      }
    }
    assert topics[..|topics|] == topics;
    RecordsShape(query, data);
  }
}
