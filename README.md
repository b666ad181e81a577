# AriOS search aggregation, modelled in Dafny

AriOS is a small Flask application (`arios.py`) that looks like a search engine. It passes
the query to a fixed list of sources (DuckDuckGo's Instant Answer API, Wikipedia's REST
summary endpoint and a news stub), merges what they return, drops duplicates and shows at
most ten results. This project models the logic of that file that is not presentation:

- `Aggregate` (`aggregate.dfy`): `AriOSSearch.search`. The method `Search` keeps the
  source's two loops, as the methods `Collect` and `RemoveDuplicates`. The first one consults the sources in order and stops after the first
  source that brings the pool to ten or more; a source that raises adds nothing. The second
  one keeps each result whose URL is non-empty and not yet seen. Then the list is cut to ten.
  The method is proved against the functions `GatherFrom`/`ConsultFrom` and `Dedup`. The
  lemmas about those functions give the independent reading: where the loop stops, first
  occurrences in order, no URL lost, and a raising source treated like an empty one. A source
  is a function from the stripped query to `Option<seq<SearchResult>>`, where `None` means
  "raised". `AriOSSources` builds the configured list from two network parameters.
- `DuckDuckGo` (`duckduckgo.dfy`): `search_duckduckgo`. A parsed reply is a datatype whose
  keys may be absent. The records are built by a method with a loop over the topic window,
  proved equal to the function `Records`.
- `Wikipedia` (`wikipedia.dfy`): `search_wikipedia`, the slug, and the single record of a 200 reply.
- `UrlQuote` (`url_quote.dfy`): `urllib.parse.quote_plus`, which builds DuckDuckGo's fallback
  link. It is written out as UTF-8 followed by `%XX` escapes, and a decoder is proved
  to invert it.
- `Paging` (`paging.dfy`): Python's `int()` on the `page` argument. `/search` clamps the page
  to 1 or more; `/api/search` does not. Also `total_pages`.
- `Text` (`text.dfy`): `str.strip` (with Python's `str.isspace` set), slicing and substring search.
- `SearchResults`, `Wrappers`: the result record and `Option`.

The network is a parameter. `DuckDuckGo.Reply` and `Wikipedia.Reply` stand for what
`requests.get(...)` and `response.json()` produce, and `Failed` stands for any exception they
raise.

## Model

| member | source | states |
|---|---|---|
| `Aggregate.Collect` | arios.py:424-436 | the accumulation loop with its early `break` ends with exactly `Gather` of the outcomes, having called exactly `Consulted` sources |
| `Aggregate.RemoveDuplicates` | arios.py:439-445 | the loop over the pool with its `seen_urls` set returns exactly `Dedup` of the pool |
| `Aggregate.Search` | arios.py:418-447 | returns `SearchSpec` and calls exactly `ConsultedFor` sources (none for a blank query); at most 10 results, none with an empty URL, no URL twice, each the first result with its URL in the pool of consulted sources, in pool order; while fewer than 10 come out, no non-empty URL of that pool is missing |
| `Aggregate.SearchSpecShape` | arios.py:420-447 | the same guarantees stated for the specification function: bound, empty-URL filter, uniqueness, first occurrences in order, coverage |
| `Aggregate.SearchIgnoresSurroundingSpace` | arios.py:420-423 | searching the stripped query gives the same results as the query itself (the `/search` route strips before calling) |
| `Aggregate.GatherFrom` | arios.py:424-436 | the loop only ever extends the pool it starts from |
| `Aggregate.ConsultFrom` | arios.py:426-436 | the loop calls at most every source, and at least the first one when there is one |
| `Aggregate.GatherFromSpec` | arios.py:424-436 | from any pool of fewer than 10, the loop's final pool is the pool plus everything the consulted sources gave; each consulted source saw fewer than 10; stopping early means 10 or more |
| `Aggregate.GatherStopsAtFirstFull` | arios.py:426-436 | the sources consulted form a prefix of the list that ends right after the first source bringing the pool to 10 or more (or the whole list); the pool is their concatenated results |
| `Aggregate.RaisingSourceIsEmpty` | arios.py:427-436 | a source that raises leads to the same pool and the same consultation count as one that returned `[]` |
| `Aggregate.FirstIndex` | arios.py:443 | the index of the first result with a given URL: no earlier result has it, and the one found does |
| `Aggregate.DedupCovers` | arios.py:439-445 | duplicate removal never lengthens the list and keeps every non-empty URL of its input |
| `Aggregate.DedupKeptStep` | arios.py:443-445 | appending a result whose URL is new keeps "first occurrences, in order, no empty URL" |
| `Aggregate.DedupSkipStep` | arios.py:443 | skipping a result keeps the kept ones first occurrences of their URLs |
| `Aggregate.DedupOrdered` | arios.py:439-445 | every kept result is the first in the input with its URL, none has an empty URL, and the kept results are in input order |
| `Aggregate.DedupSpec` | arios.py:439-445 | duplicate removal: no longer than its input, no empty URL, distinct URLs, first occurrences in order, every non-empty URL kept |
| `Aggregate.TakeKeepsOrder` | arios.py:447 | cutting to ten keeps the empty-URL filter, uniqueness and first-occurrence order, and changes nothing for a list of at most ten |
| `Aggregate.UrlsOfSnoc` | arios.py:444 | adding a result to the kept list adds exactly its URL to the seen set |
| `Aggregate.FirstIndexSnoc` | arios.py:442-443 | the first index of a URL in a pool extended by one result |
| `Aggregate.AriOSSources` | arios.py:339-343 | the configured list has three sources: DuckDuckGo, Wikipedia, news |
| `Aggregate.GatherOfThree` | arios.py:426-436 | three sources giving `d`, `w` and nothing, with `d` under ten, give the pool `d + w` whether or not the loop breaks before the third |
| `Aggregate.AriOSNeverTruncates` | arios.py:339-447 | with the configured sources the pool is the DuckDuckGo records followed by the Wikipedia record, holds at most 10, and the final cut to 10 drops nothing |
| `DuckDuckGo.Search` | arios.py:345-381 | the loop returns exactly `Results(query, reply)`, at most 1 + 8 records; an exception gives `[]` |
| `DuckDuckGo.RecordsShape` | arios.py:359-377 | at most 1 + 8 records; the abstract record comes first when `AbstractText` is non-empty; every other record belongs to a complete topic among the first 8, none of those is left out, and each has a snippet of at most 200 and a display URL of at most 60 characters |
| `DuckDuckGo.TopicRecordsSpec` | arios.py:368-375 | topic records come only from topics with both `FirstURL` and `Text`, every such topic yields one, and there are no more records than topics |
| `DuckDuckGo.LaterTopicsIgnored` | arios.py:368 | topics after the eighth never change the records |
| `DuckDuckGo.TopicTitle` | arios.py:371 | the title is a prefix of the text: up to the first `" - "` when there is one, otherwise the first 100 characters |
| `DuckDuckGo.TopicRecord` | arios.py:370-375 | the URL is `FirstURL`; the display URL is its prefix of length min(60, n); the snippet is the text's prefix of length min(200, n); the title follows `TopicTitle` |
| `DuckDuckGo.Window` | arios.py:368 | the topic window is the first min(8, n) of the n related topics (none when the key is absent) |
| `DuckDuckGo.FallbackUrl` | arios.py:363 | the fallback link is the `https://duckduckgo.com/?q=` prefix followed by URL-safe characters that decode back to the query |
| `DuckDuckGo.AbstractRecord` | arios.py:361-366 | the title is `Heading` (default: the query); URL and display URL are both `AbstractURL` when present, otherwise the fallback link and `duckduckgo.com`; the snippet is the non-empty `AbstractText` |
| `DuckDuckGo.Records` | arios.py:359-377 | at most 1 + 8 records, at most 8 without an abstract; the abstract record comes first when there is an abstract |
| `DuckDuckGo.Results` | arios.py:347-381 | an exception gives `[]`; otherwise at most 1 + 8 records, the abstract record first when there is one |
| `Wikipedia.Results` | arios.py:383-401 | an exception, a status other than 200 or an unparsable body give no record; a 200 reply gives exactly one, with the title (default: the query), the desktop page URL (default: empty), `wikipedia.org` as display URL, and the extract's prefix of length min(250, n) as snippet |
| `Wikipedia.AtMostOneRecord` | arios.py:390-398 | the source gives at most one record |
| `Wikipedia.Slug` | arios.py:387 | same length as the query, every space becomes `_`, every other character unchanged |
| `Wikipedia.RequestUrl` | arios.py:386-388 | the requested URL is the summary endpoint followed by the slug: no space, spaces written as `_`, other characters unchanged |
| `Wikipedia.PageUrl` | arios.py:394 | the desktop page URL when `content_urls.desktop.page` is present, and `''` when any of the three keys is missing |
| `Wikipedia.SlugRoundTrip` | arios.py:387 | for a query without underscores, turning underscores back into spaces recovers the query |
| `Wikipedia.SlugConflatesSpaceAndUnderscore` | arios.py:387 | `new york` and `new_york` request the same page |
| `UrlQuote.QuotePlus` | arios.py:363 | each character of the query becomes between 1 and 12 characters (at most four escaped UTF-8 bytes) |
| `UrlQuote.QuotePlusIsUrlSafe` | arios.py:363 | the fallback query string uses only letters, digits, `_.-~`, `+` and `%` |
| `UrlQuote.QuotePlusKeepsSafeStrings` | arios.py:363 | a query of letters, digits and `_.-~` is used as it is |
| `UrlQuote.QuotePlusRoundTrip` | arios.py:363 | decoding the quoted query gives back the query |
| `UrlQuote.UnescapeQuotePlus` | arios.py:363 | undoing `+` and `%XX` gives the UTF-8 bytes of the query |
| `UrlQuote.Utf8DecodeString` | arios.py:363 | decoding UTF-8 inverts the encoding used by `quote_plus` |
| `UrlQuote.Utf8` | arios.py:363 | one character takes 1 to 4 bytes, and a single byte exactly when it is ASCII |
| `Text.StripBy` | arios.py:423 | the stripped query is an infix of the query; what was removed is all whitespace, and what is left neither starts nor ends with whitespace |
| `Text.StripIdempotent` | arios.py:423 | stripping twice is stripping once |
| `Text.BlankIffAllSpace` | arios.py:420 | a query is rejected as blank exactly when it is all whitespace |
| `Text.IndexOf` | arios.py:371 | finds the first occurrence of the separator, or reports that there is none |
| `Paging.ParseInt` | arios.py:464 | a string `int()` accepts is non-empty once stripped and ends with a digit; a negative value has a leading `-`, and a leading `-` gives a value of at most 0 |
| `Paging.PageArgument` | arios.py:461 | a given `page` argument is used as it is; a missing one is the default `'1'`, which `int()` reads as 1 |
| `Paging.ParseIntRoundTrip` | arios.py:464 | `int(str(n)) == n` for every integer |
| `Paging.ParseIntIgnoresSpace` | arios.py:464 | `int()` ignores surrounding whitespace |
| `Paging.BlankIsNotANumber` | arios.py:464-468 | an all-whitespace page argument is not a number |
| `Paging.SeparatorIsSpace` | arios.py:423 | U+001F is whitespace to `str.strip()` |
| `Paging.SeparatorIsNotIntSpace` | arios.py:464 | but a leading U+001F makes `int()` fail |
| `Paging.SearchPage` | arios.py:461-468 | the `/search` page is at least 1, and equals the `/api/search` page whenever that is at least 1 |
| `Paging.ApiPage` | arios.py:499-504 | a page argument that is not an integer gives 1 |
| `Paging.MissingPageIsFirst` | arios.py:461 | a missing page argument gives page 1 on both routes |
| `Paging.ApiPagePassesThrough` | arios.py:501-504 | `/api/search` passes every integer through, zero and negatives included |
| `Paging.SearchPageClamps` | arios.py:463-468 | `/search` turns an integer argument n into max(1, n) |
| `Paging.TotalPages` | arios.py:486 | at least one page; for n > 0 results, the least number of pages of ten that holds them |
| `Paging.OnePageOfResults` | arios.py:479-486 | with at most ten results (what `search` returns) the page reports one page |
| `Paging.NatStrValue` | arios.py:464 | the digits printed for n read back as n |

## Left out

- The HTML template, CSS, embedded JavaScript and the about page (arios.py:10-335, 521-556): presentation only.
- Flask routing, `render_template_string`, `jsonify`, the HTTP status codes and the routes' exception handlers. The `/search` route's own strip and its blank-query error page are not modelled apart from `SearchIgnoresSurroundingSpace`; only the page and `total_pages` arithmetic is modelled.
- `requests.get`, timeouts and `response.json()`: replaced by the `Reply` datatypes, with `Failed` for any exception. The DuckDuckGo request parameters (`format`, `no_html`, `skip_disambig`) are not modelled, since the reply is given directly. `Wikipedia.RequestUrl` is the string before any percent-encoding `requests` applies to the path.
- JSON values of types other than the modelled ones. The datatypes give every field its
  expected type, so the model does not capture what the source does with the others:
  - a `null` `Heading` or `title` is returned by `data.get` as it is, and the record's title is `None`;
  - a `null` `AbstractURL` or desktop `page` gives a record whose URL is `None`, which the `if result['url']` test of `search` then drops;
  - a topic that is a list, or a string without `FirstURL` and `Text` in it, fails the `in` tests and is skipped;
  - a `null` `RelatedTopics`, `content_urls`, `desktop` or `extract`, a topic that is a number, a number as `Text` or `FirstURL`, or a body that is not an object raises inside the `try`, and the source returns `[]`.
- `search_news` (arios.py:403-416) never makes a request. It is modelled only as the third entry of `AriOSSources`, which always returns `[]`.
- `print` logging, `time.time()` in `/health`, and `app.run` with the `PORT` variable (arios.py:380, 435, 558-570): side effects, clock and environment.
- The `page` argument passed to every source: the sources ignore it.
- `Aggregate.Search` returns `consulted`, the number of sources it called, in addition to the results. In the source, this count is visible only through network traffic.
- `Paging.ParseInt` accepts ASCII digits only, while Python's `int()` also accepts other Unicode decimal digits. It also omits the interpreter's limit of 4300 digits on string conversion.
- Python strings can hold lone surrogates, which `quote_plus` would reject with an exception. A Dafny `char` cannot hold them.
