/**
 * `AriOSSearch.search_wikipedia`: asks the Wikipedia REST summary endpoint for the page named
 * by the query (spaces written as underscores) and turns a 200 reply into one record.
 */
module Wikipedia {
  import opened Wrappers
  import opened Text
  import opened SearchResults

  /** `content_urls.desktop` of the summary; an absent key is `None`. */
  datatype Desktop = Desktop(page: Option<string>)
  datatype ContentUrls = ContentUrls(desktop: Option<Desktop>)

  /** The keys of the page summary that the mapping reads. */
  datatype Summary = Summary(title: Option<string>, contentUrls: Option<ContentUrls>, extract: Option<string>)

  /**
   * What `requests.get` produced: an exception (network, timeout), or a response with its status
   * code and its body, which is `None` when `response.json()` would raise.
   */
  datatype Reply = Failed | Response(status: int, body: Option<Summary>)

  const SummaryEndpoint := "https://en.wikipedia.org/api/rest_v1/page/summary/"
  const SnippetCap: nat := 250

  /** `query.replace(' ', '_')` */
  function Slug(query: string): (s: string)
    ensures |s| == |query|
    ensures forall i :: 0 <= i < |s| ==> s[i] != ' '
    ensures forall i :: 0 <= i < |s| && query[i] == ' ' ==> s[i] == '_'
    ensures forall i :: 0 <= i < |s| && query[i] != ' ' ==> s[i] == query[i]
  {
    if query == [] then []
    else [if query[0] == ' ' then '_' else query[0]] + Slug(query[1..])
  }

  /** `s.replace('_', ' ')`, the reverse direction. */
  function Unslug(s: string): string {
    if s == [] then []
    else [if s[0] == '_' then ' ' else s[0]] + Unslug(s[1..])
  }

  /** The slug loses nothing for a query without underscores. */
  lemma {:induction false} SlugRoundTrip(query: string)
    requires forall i :: 0 <= i < |query| ==> query[i] != '_'
    ensures Unslug(Slug(query)) == query
  {
    if query != [] {
      SlugRoundTrip(query[1..]);
      assert query == [query[0]] + query[1..];
    }
  }

  /** A space and an underscore give the same slug, so two queries can ask for the same page. */
  lemma SlugConflatesSpaceAndUnderscore()
    ensures Slug("new york") == Slug("new_york")
  {
    assert Slug("new york") == "new_york";
    assert Slug("new_york") == "new_york";
  }

  /** The URL requested for a query. */
  function RequestUrl(query: string): (u: string)
    ensures SummaryEndpoint <= u && |u| == |SummaryEndpoint| + |query|
    ensures var slug := u[|SummaryEndpoint|..];
      && (forall i :: 0 <= i < |slug| ==> slug[i] != ' ')
      && (forall i :: 0 <= i < |query| && query[i] == ' ' ==> slug[i] == '_')
      && (forall i :: 0 <= i < |query| && query[i] != ' ' ==> slug[i] == query[i])
  {
    SummaryEndpoint + Slug(query)
  }

  /** `data.get('content_urls', {}).get('desktop', {}).get('page', '')` */
  function PageUrl(d: Summary): (u: string)
    ensures d.contentUrls.None? || d.contentUrls.value.desktop.None? ==> u == ""
    ensures d.contentUrls.Some? && d.contentUrls.value.desktop.Some? && d.contentUrls.value.desktop.value.page.Some? ==>
      u == d.contentUrls.value.desktop.value.page.value
    ensures d.contentUrls.Some? && d.contentUrls.value.desktop.Some? && d.contentUrls.value.desktop.value.page.None? ==>
      u == ""
  {
    if d.contentUrls.Some? && d.contentUrls.value.desktop.Some? then
      d.contentUrls.value.desktop.value.page.GetOr("")
    else ""
  }

  /**
   * What `search_wikipedia(query)` returns for the reply to `RequestUrl(query)`: nothing after
   * an exception or a status other than 200, otherwise exactly one record.
   */
  function Results(query: string, reply: Reply): (rs: seq<SearchResult>)
    ensures reply.Failed? ==> rs == []
    ensures reply.Response? && reply.status != 200 ==> rs == []
    ensures reply.Response? && reply.status == 200 && reply.body.None? ==> rs == []
    ensures reply.Response? && reply.status == 200 && reply.body.Some? ==>
      var d := reply.body.value;
      && |rs| == 1
      && rs[0].title == d.title.GetOr(query)
      && rs[0].url == PageUrl(d)
      && rs[0].displayUrl == "wikipedia.org"
      && rs[0].snippet <= d.extract.GetOr("")
      && |rs[0].snippet| == if |d.extract.GetOr("")| < SnippetCap then |d.extract.GetOr("")| else SnippetCap
  {
    match reply
    case Failed => []
    case Response(status, body) =>
      if status != 200 || body.None? then []
      else
        var d := body.value;
        [SearchResult(d.title.GetOr(query), PageUrl(d), "wikipedia.org", Take(d.extract.GetOr(""), SnippetCap))]
  }

  /** The source never yields more than one record. */
  lemma AtMostOneRecord(query: string, reply: Reply)
    ensures |Results(query, reply)| <= 1
  {
  }
}
