# movieSearch search reactor, modelled in Dafny

This project models the core of a small iOS movie-search app. The core is
the search view-model `MovieSearchViewReactor`, plus the display helper that
strips HTML tags from movie titles.

- The reactor turns an `Action` (`updateQuery(text?)` or `loadNextPage`)
  into an ordered list of `Mutation`s. `reduce` folds each mutation into the
  single `State`: `query`, `movies`, `nextPage` and `isLoadingNextPage`.
- `search(query:page:)` is modelled by its own code: the empty-query guard,
  the `start = page*10 + 1` arithmetic, the page mapping of a decoded
  response, and the collapse of every failure into the empty result.
- The collaborators `search` calls are a `Backend` value. Its `encode` stands
  for percent-encoding. Its `fetch` stands for the HTTP GET plus JSON
  decoding.
- Cancellation by a later `updateQuery` (`takeUntil`) is a boolean input. It
  drops the search-derived mutation.
- `removeHTMLTagFrom` deletes every match of the regular expression
  `<[^>]+>`. It is modelled as a left-to-right scan, with `IsTag` as the
  language of the pattern.

Files:

- `wrappers.dfy`: `Option`.
- `search_model.dfy`: `Movie` and the decoded response.
- `decimal.dfy`: how `start` is written into the URL, and its inverse.
- `search_reactor.dfy`: the reactor, `url`, `search` and the reactor class.
- `html_tags.dfy`: the tag stripper.

Three behaviours of the code worth noting:

- The empty-query guard uses `isEmpty` with no trimming, so a query of
  spaces is still sent.
- A `loadNextPage` cancelled by `updateQuery` still emits the final
  `setLoadingNextPage(false)`. `takeUntil` completes, and `concat` moves on
  to the next element.
- `setMovies` does not clear `isLoadingNextPage`.

Between actions an empty list has no next page, and a known next page is
`>= 1` (`Consistent`).

## Model

| member | source | states |
|---|---|---|
| `SearchReactor.IsUpdateQueryAction` | movieSearch/MovieSearchViewReactor.swift:125-133 | true exactly when the action is `updateQuery(q)` for some `q`; false for `loadNextPage` |
| `SearchReactor.MovieSearchViewReactor.constructor` | movieSearch/MovieSearchViewReactor.swift:27-34 | the reactor starts at the initial state: no query, no movies, no next page, not loading; the invariant holds |
| `SearchReactor.InitialStateConsistent` | movieSearch/MovieSearchViewReactor.swift:27-34 | the initial state has `query = none`, `movies = []`, `nextPage = none`, `isLoadingNextPage = false`, and satisfies the between-actions invariant |
| `SearchReactor.NextState` | movieSearch/MovieSearchViewReactor.swift:68-92 | `reduce` on values; no `ensures` of its own: `MovieSearchViewReactor.Reduce` is proved equal to it and states its effect field by field, and `StepUpdateQuery`, `StepLoadNextPage` and `StepPreservesConsistent` state what folding it does |
| `SearchReactor.MovieSearchViewReactor.Reduce` | movieSearch/MovieSearchViewReactor.swift:68-92 | `setQuery` changes only `query`; `setMovies` replaces `movies` and `nextPage` and leaves `query` and the loading flag alone; `appendMovies` keeps the old list as a prefix, grows it by exactly the appended movies and sets `nextPage`; `setLoadingNextPage` changes only the flag |
| `SearchReactor.Step` | movieSearch/MovieSearchViewReactor.swift:36-92 | one action's full transition, its mutations folded into the state they were computed from; no `ensures` of its own: `StepUpdateQuery`, `StepLoadNextPage`, `LoadNextPageGuard`, `UpdateQueryIdempotent` and `StepPreservesConsistent` state its contract |
| `SearchReactor.MovieSearchViewReactor.Dispatch` | movieSearch/MovieSearchViewReactor.swift:36-92 | reducing an action's mutations one by one into the current state gives the action's folded transition, and keeps the reactor invariant |
| `SearchReactor.PageOf` | movieSearch/MovieSearchViewReactor.swift:109-115 | a decoded page follows the paging protocol: no next page exactly when its movies are empty, otherwise `page + 1`; missing `items` gives no movies |
| `SearchReactor.StartIndex` | movieSearch/MovieSearchViewReactor.swift:97 | `start = page * 10 + 1`; no `ensures` of its own: `StartIndexOfPage` states its contract |
| `SearchReactor.StartIndexOfPage` | movieSearch/MovieSearchViewReactor.swift:97 | page `k` starts at result `10k + 1`, which is at least 1 and gives back `k`; the next page starts ten results later |
| `SearchReactor.Url` | movieSearch/MovieSearchViewReactor.swift:94-99 | there is no URL exactly when the query is absent, empty (no trimming) or cannot be encoded; otherwise the URL starts with the API endpoint and the encoded query, and the text after `&start=` reads back as `page*10 + 1` |
| `SearchReactor.UrlDeterminesPage` | movieSearch/MovieSearchViewReactor.swift:97-98 | two pages of one query that give the same URL are the same page |
| `Decimal.IntToString` | movieSearch/MovieSearchViewReactor.swift:98 | the decimal text of `\(start)`, never empty; `ParseIntToString` proves it reads back as the same integer |
| `Decimal.ParseIntToString` | movieSearch/MovieSearchViewReactor.swift:98 | the decimal text interpolated for `start` reads back as the same integer |
| `SearchReactor.Search` | movieSearch/MovieSearchViewReactor.swift:101-122 | every result follows the paging protocol for the requested page; without a URL the result is `([], none)`; movie hits imply that a request was made |
| `SearchReactor.SearchWithoutQuery` | movieSearch/MovieSearchViewReactor.swift:95-103 | an absent or empty query makes no URL and gives `([], none)` whatever the backend, for every page |
| `SearchReactor.SearchFailureIsEmpty` | movieSearch/MovieSearchViewReactor.swift:116-121 | a failed request (transport error, HTTP error including 403, or decode error) gives the empty result |
| `SearchReactor.SearchDecoded` | movieSearch/MovieSearchViewReactor.swift:108-115 | a decoded reply to the request is mapped by the page mapping for the requested page, so the result holds exactly the decoded items (none when `items` is missing) |
| `SearchReactor.Mutate` | movieSearch/MovieSearchViewReactor.swift:36-66 | `updateQuery` yields `setQuery` first, then only `setMovies`; `loadNextPage` yields nothing exactly when loading or when there is no next page, and otherwise starts with `setLoadingNextPage(true)`, ends with `setLoadingNextPage(false)` and has only `appendMovies` between them; a cancelled action yields no search-derived mutation |
| `SearchReactor.CancelDropsOnlySearchResult` | movieSearch/MovieSearchViewReactor.swift:39-64 | for every action, the cancelled mutation list is the uncancelled one with its `setMovies`/`appendMovies` removed and nothing else |
| `SearchReactor.StepUpdateQuery` | movieSearch/MovieSearchViewReactor.swift:38-79 | after `updateQuery(q)`, the query is `q` and the loading flag is unchanged; the list and next page are page 0 of `q`, or unchanged when cancelled |
| `SearchReactor.LoadNextPageGuard` | movieSearch/MovieSearchViewReactor.swift:51-52 | while loading, or with no next page, `loadNextPage` yields no mutations and leaves the state unchanged |
| `SearchReactor.StepLoadNextPage` | movieSearch/MovieSearchViewReactor.swift:50-90 | from a non-loading state with a next page, the page is appended after the old list (the old list is a prefix, the length grows by its size), `nextPage` moves on, the query is kept, and the state ends non-loading; when cancelled, the state is unchanged |
| `SearchReactor.LoadNextPageTrace` | movieSearch/MovieSearchViewReactor.swift:53-64 | every state published while `loadNextPage` runs shows the loading flag, except the last one, which does not; there are three such states, or two when cancelled |
| `SearchReactor.UpdateQueryIdempotent` | movieSearch/MovieSearchViewReactor.swift:38-79 | `updateQuery(q)` followed by `updateQuery(q)` against the same backend ends in the same state as a single one, whether or not the second cancelled the first one's search |
| `SearchReactor.StepPreservesConsistent` | movieSearch/MovieSearchViewReactor.swift:36-91 | every action, cancelled or not and whatever the backend answers, keeps the invariant: not loading between actions, and a known next page is `>= 1` and belongs to a non-empty list |
| `HtmlTags.TagLength` | movieSearch/MovieTableViewCell.swift:51 | a match found at the start has the shape `<`, one or more characters other than `>`, then `>` |
| `HtmlTags.TagLengthIsOnlyMatch` | movieSearch/MovieTableViewCell.swift:51 | the match found is the only prefix of the input that matches `<[^>]+>`, because the first `>` after the `<` ends it; when none is found, no prefix matches |
| `HtmlTags.RemoveHTMLTags` | movieSearch/MovieTableViewCell.swift:50-52 | the global replacement of `<[^>]+>` by the empty string, as a left-to-right scan; no `ensures` of its own: `TagLengthIsOnlyMatch`, `RemoveHTMLTagsIsSubsequence`, `NoOpenBracketUnchanged`, `NoCloseBracketUnchanged`, `UnclosedTailSurvives`, `TagRemoved` and `EmptyBracketsSurvive` state its contract |
| `HtmlTags.RemoveHTMLTagsIsSubsequence` | movieSearch/MovieTableViewCell.swift:50-52 | the output is a subsequence of the input, keeping the remaining characters in order, and is never longer |
| `HtmlTags.NoOpenBracketUnchanged` | movieSearch/MovieTableViewCell.swift:51 | a string with no `<` is returned unchanged |
| `HtmlTags.NoCloseBracketUnchanged` | movieSearch/MovieTableViewCell.swift:51 | a string with no `>` holds no tag and is returned unchanged |
| `HtmlTags.UnclosedTailSurvives` | movieSearch/MovieTableViewCell.swift:51 | a tail with no `>` is kept as it is after whatever precedes it, so a `<` with no later `>` survives |
| `HtmlTags.TagRemoved` | movieSearch/MovieTableViewCell.swift:51 | after text with no `<`, a tag `<u>` (with `u` non-empty and free of `>`) is deleted, the text before it is kept, and the scan resumes after its `>` |
| `HtmlTags.EmptyBracketsSurvive` | movieSearch/MovieTableViewCell.swift:51 | `<>` is no tag and survives |
| `HtmlTags.TagInTextExample` | movieSearch/MovieTableViewCell.swift:51 | `"a<b>c"` becomes `"ac"` |
| `HtmlTags.EmptyBracketsExample` | movieSearch/MovieTableViewCell.swift:51 | `"<>"` is returned unchanged |
| `HtmlTags.FirstCloseEndsTagExample` | movieSearch/MovieTableViewCell.swift:51 | `"<a>b>"` becomes `"b>"` |

## Left out

- HTTP plumbing is left out: building the `URLRequest`, the credential headers, URLSession and the rate-limit `print` on a 403. They are I/O. The transport is the `fetch` field of `Backend`, and every failure is the one `Failed` reply, as `catchErrorJustReturn` makes it.
- Percent-encoding (`addingPercentEncoding`) is a Foundation call, so it is the `encode` parameter. `URL(string:)` rejecting the built string is not modelled, because it is also a library call.
- JSON decoding (`JSONDecoder` over `MovieSearchModel`) is library behaviour. A decoded body is a `SearchResponse` value, and an undecodable one is `Failed`.
- Rx scheduling is left out: the `takeUntil` race, the 300 ms throttle in the view controller, and ReactorKit's `currentState` bookkeeping across interleaved actions. The model processes one action at a time. A later action's mutations never interleave with an earlier action's mutations.
- Cancellation is left to the caller as a free boolean. It can cancel any search, including the empty-query search, which the source answers synchronously before any later action can arrive.
- The scroll trigger of the view controller is left out. It is CGFloat geometry.
- The UI code is left out: cells, labels, image download, `prepareForReuse`, and the Safari and web views.
- The copy of `removeHTMLTagFrom` in movieSearch/MovieViewController.swift:46-48 is the same expression, so `HtmlTags.RemoveHTMLTags` models it too.
- StartIndexOfPage: Swift's `Int` is 64-bit and traps on overflow of `page * 10 + 1`. The model uses unbounded integers, because page numbers stay small.
