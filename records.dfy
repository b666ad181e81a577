/** The result record every source produces: the dictionary with keys title, url, display_url and snippet. */
module SearchResults {

  datatype SearchResult = SearchResult(title: string, url: string, displayUrl: string, snippet: string)
}
