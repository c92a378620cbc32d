# Movie search: a Dafny model of its core

The application searches the OMDb movie database and keeps a list of favourite movies. Its
backend is a NestJS service. Its frontend is a Next.js client, which keeps the current search
in the address bar and in the browser's session storage. This project models the core of both
sides in Dafny and proves what that code promises.

Backend:
- `MoviesService` holds the favourites in memory and writes them to `data/favorites.json`. It
  adds (refusing a duplicate `imdbID`), removes (refusing an unknown one) and lists a page of
  favourites. It also runs its own OMDb title search and annotates the hits with whether each
  is a favourite.
- `OmdbService` builds the keyed OMDb base URL from the configuration. It validates a search,
  sends one request and normalises the provider's "no results" answer into an empty page.

Frontend:
- `urlUtils` turns the search into `/?q=…&page=…` and parses it back.
- `paginationUtils` computes the window of page buttons and the number of pages for a count.
- `storageUtils` saves the trimmed query and the page in `sessionStorage` and restores them.
- `apiErrorHandler` turns a failed response, or anything a request threw, into an `Error`.
- `api.ts` is the HTTP client. It validates arguments, builds one request per call and
  classifies every outcome.

The modules follow the source files. Six shared modules carry the JavaScript semantics the
code relies on:
- `Wrappers`: `Option` and `Result`.
- `JsText`: `String.prototype.trim`, `parseInt(s, 10)`, integer `toString`, `Array.prototype.join`.
- `JsValues`: numbers with NaN and fractions, JSON values, property reads, truthiness, logical or,
  `String(v)`, `Math.ceil` of a division, and `Error` objects.
- `UrlEncoding`: UTF-8 percent-encoding. It covers the application/x-www-form-urlencoded
  serializer of `URLSearchParams` (section 5.2 of the WHATWG URL Standard) and
  `encodeURIComponent` (section 19.2.6.5 of ECMA-262).
- `Http`: the backend's `HttpException` and its status codes.
- `UrlUtilsExamples`: the cases of `urlUtils.test.ts`, stated over the model.

Stateful parts are classes whose methods change their fields:
- `Movies.MoviesService`: the favourites, and what the favourites file holds.
- `StorageUtils.SessionStorage`: the stored items, and whether storage accepts writes.

Everything else is functions over values. Outside effects become parameters:
- `fetch` and `axios.get` are functions from a request to what it settles to.
- `JSON.parse` and `JSON.stringify` are a pair of functions that the round-trip lemma assumes
  faithful.
- The configuration is a map.

The source marks many of its own defects with `BUG` comments (for example
movies.service.ts:41-42 and 130), and `movies.service.spec.ts` states what the authors
expected. Where these disagree with the code, the model follows the code:
- `addToFavorites` and `removeFromFavorites` *return* their HttpException. The tests expect a
  throw.
- `getFavorites` throws NOT_FOUND on an empty store. The BUG comment at movies.service.ts:130
  and the tests expect an empty page.
- The service's own title search tests `Response === false`, which never holds for OMDb's
  text "False" (the BUG comment at movies.service.ts:41-42). Only an `Error` text gives the
  empty page (`Movies.ServiceSearchAgainstAdapter`).
- That search inserts the title without `encodeURIComponent` (movies.service.ts:38).
- `getFavorites` checks neither page nor page size. A page below 1 is served through
  `slice`'s negative indices (`Movies.PageZeroIsEmpty`, `Movies.NegativePageFromEnd`).
- `totalResults` of the favourites page is a number, not text.
- Identity is the exact `imdbID` text, not a case-insensitive key.
- There is no timestamp-based reload of the favourites file.

## Model

| member | source | states |
|---|---|---|
| Movies.MoviesService.constructor | backend/src/movies/movies.service.ts:13-28 | the favourites are what the file holds, and the empty list when there is no file; the base URL comes from the environment |
| Movies.ServiceBaseUrl | backend/src/movies/movies.service.ts:13 | the public OMDb endpoint with `?apikey=` and the environment's key, or `demo123` when the key is unset or empty |
| Movies.ServiceSearch | backend/src/movies/movies.service.ts:35-51 | whatever the request raises is passed on; a response with an Error text is the empty page with "0"; otherwise the hits (or none) and the provider's total (or "0") |
| Movies.ServiceSearchUrlKeepsRawTitle | backend/src/movies/movies.service.ts:37-39 | the title, not encoded, is the text between `&s=` and `&plot=full&page=`: each of its characters, `&` included, sits unchanged in the URL |
| Movies.ServiceSearchAgainstAdapter | backend/src/movies/movies.service.ts:41-50 | for a valid search and the same body, the service and the OMDb adapter agree, unless OMDb answers Response "False" without an Error text; then the service passes on hits the adapter drops |
| Movies.MoviesService.SaveFavorites | backend/src/movies/movies.service.ts:30-33 | the file now holds the current list, which is unchanged |
| Movies.MoviesService.AddToFavorites | backend/src/movies/movies.service.ts:80-104 | an id already listed gives "Movie already in favorites" (400) and changes neither the list nor the file; otherwise the movie is appended at the end, the list is saved and "Movie added to favorites" returned; distinct ids stay distinct |
| Movies.MoviesService.RemoveFromFavorites | backend/src/movies/movies.service.ts:106-126 | an unknown id gives "Movie not found in favorites" (404) and changes nothing; otherwise every entry with that id is filtered out, none is left, the list is saved; with distinct ids exactly that one entry goes and the rest keep their order |
| Movies.MoviesService.GetFavorites | backend/src/movies/movies.service.ts:128-153 | an empty store is "No favorites found" (404) for every page, and only an empty store is; otherwise the page `ListPage` describes |
| Movies.MoviesService.GetMovieByTitle | backend/src/movies/movies.service.ts:53-78 | a failure of the service's own search is passed on; otherwise its hits in provider order, annotated; count is their number; totalResults is passed on |
| Movies.Annotate | backend/src/movies/movies.service.ts:59-69 | one result per hit, with its title, id, year text and poster, and isFavorite exactly when some favourite has that id |
| Movies.Find | backend/src/movies/movies.service.ts:84 | None exactly when no favourite has the id; otherwise the first favourite that has it |
| Movies.WithoutId | backend/src/movies/movies.service.ts:118 | the filter never lengthens the list (what it keeps: `Movies.WithoutIdMembers`) |
| Movies.WithoutIdMembers | backend/src/movies/movies.service.ts:118 | the filter keeps exactly the favourites whose id differs |
| Movies.WithoutAbsentId | backend/src/movies/movies.service.ts:118 | filtering out an id nobody has changes nothing |
| Movies.WithoutIdSplice | backend/src/movies/movies.service.ts:118 | with distinct ids, filtering out the id of entry k is removing entry k |
| Movies.RemovalKeepsUnique | backend/src/movies/movies.service.ts:118 | removing one entry keeps ids distinct |
| Movies.AppendKeepsUnique | backend/src/movies/movies.service.ts:95 | appending a new id keeps ids distinct |
| Movies.ListPage | backend/src/movies/movies.service.ts:138-152 | currentPage is the page and totalResults the length; count is the number of entries on the page and at most pageSize; totalPages is the ceiling of length / pageSize; from page 1 on, the page holds the entries from (page - 1) * pageSize on, as many as remain up to pageSize |
| Movies.JsSlice | backend/src/movies/movies.service.ts:140 | `slice`: the entries between the two clamped positions, negative positions counted from the end |
| Movies.PageIsSlice | backend/src/movies/movies.service.ts:138-140 | from page 1 on, a page is the run between its start and the next page's start |
| Movies.PagesUpToPrefix | backend/src/movies/movies.service.ts:138-140 | pages 1..k, concatenated, are the first k * pageSize favourites |
| Movies.PagesCoverAll | backend/src/movies/movies.service.ts:138-150 | pages 1..totalPages list every favourite exactly once, in order |
| Movies.PageZeroIsEmpty | backend/src/movies/movies.service.ts:135-140 | page 0 is served, and is empty |
| Movies.NegativePageFromEnd | backend/src/movies/movies.service.ts:135-140 | a negative page is served from the end of the list |
| Movies.FifteenFavoritesExample | backend/src/movies/movies.service.ts:144-151 | 15 favourites in pages of 10: ten on page 1, the last five on page 2, totalResults 15, two pages |
| Omdb.Create | backend/src/movies/services/omdb.service.ts:12-20 | it fails, with the missing-key message, exactly when the key is unset or empty; otherwise the base URL is the configured one (or the public endpoint) followed by `?apikey=` and the key |
| Omdb.SearchMovies | backend/src/movies/services/omdb.service.ts:22-50 | a blank title is refused with "Title is required" (400); a page that is not an integer of at least 1 is refused with 400; the provider's "no results" gives the empty page with "0"; otherwise the hits and the provider's total (or "0"); an HttpException is passed on, any other failure becomes 500; totalResults is never empty |
| Omdb.SearchRequestUrl | backend/src/movies/services/omdb.service.ts:31-33 | the request URL starts with the keyed base URL and goes on past it (the rest: `Omdb.SearchRequestUrlKeepsTitle`) |
| Omdb.RejectedWithoutRequest | backend/src/movies/services/omdb.service.ts:23-28 | invalid arguments fail with 400, whatever the request function would answer |
| Omdb.SearchRequestUrlKeepsTitle | backend/src/movies/services/omdb.service.ts:31-33 | the encoded title is exactly the text between `&s=` and `&plot=full&page=`, and holds no `&` |
| PaginationUtils.CalculatePaginationRange | frontend/src/utils/paginationUtils.ts:15-36 | the window stays within 1..totalPages and is at most maxVisible wide; it is exactly maxVisible wide and contains the current page when both fit; it is the whole range when there are fewer pages; the start ellipsis is shown exactly when the window starts after page 2, the end ellipsis exactly when it ends before the last page but one |
| PaginationUtils.PaginationRangeExamples | frontend/src/utils/paginationUtils.ts:15-36 | the windows of the test file: pages 1, 5 and 10 of 10, page 1 of 3, and a window of 7 |
| PaginationUtils.CalculateTotalPages | frontend/src/utils/paginationUtils.ts:44-55 | 0 exactly when the count is NaN or not positive; otherwise the least number of pages that holds the count, for integer and fractional counts |
| PaginationUtils.TextAndNumberAgree | frontend/src/utils/paginationUtils.ts:48-54 | a count sent as decimal text gives as many pages as the number |
| PaginationUtils.TotalPagesOfHundred | frontend/src/utils/paginationUtils.ts:52-54 | 100 results in pages of 10 is 10 pages |
| PaginationUtils.TotalPagesRoundUp | frontend/src/utils/paginationUtils.ts:54 | 95 results is 10 pages |
| PaginationUtils.TotalPagesSinglePage | frontend/src/utils/paginationUtils.ts:54 | 5 results is 1 page |
| PaginationUtils.TotalPagesOfNothing | frontend/src/utils/paginationUtils.ts:52 | NaN, 0 and -10 results are 0 pages |
| PaginationUtils.TotalPagesOfText | frontend/src/utils/paginationUtils.ts:48-54 | the text "100" gives 10 pages |
| PaginationUtils.TotalPagesOfWord | frontend/src/utils/paginationUtils.ts:48-52 | the text "invalid" gives 0 pages |
| UrlUtils.SetParam | frontend/src/utils/urlUtils.ts:18-24 | `URLSearchParams.set`; what it promises is stated by `UrlUtils.SetParamGet` |
| UrlUtils.GetParam | frontend/src/utils/urlUtils.ts:35-36 | None exactly when no parameter has the name; otherwise the value of the first that has it |
| UrlUtils.SetParamGet | frontend/src/utils/urlUtils.ts:18-24 | after `set`, `get` of that name is the new value, and `get` of every other name is as before |
| UrlUtils.SearchParamListShape | frontend/src/utils/urlUtils.ts:15-24 | the parameters are `q` (the trimmed query, only when not blank) followed by `page` (only past page 1), in that order |
| UrlUtils.SearchParamListGet | frontend/src/utils/urlUtils.ts:15-24 | what `get` reads back of `q` and `page` from those parameters |
| UrlUtils.ParseSearchParams | frontend/src/utils/urlUtils.ts:34-47 | the query is the `q` value or ""; a `page` that parses to n > 0 gives n; no `page`, one that is not a number, and one at most 0 give page 1; the page is always at least 1 |
| UrlUtils.ParseBuiltParams | frontend/src/utils/urlUtils.ts:14-47 | parsing the parameters of a built URL gives back the trimmed query and every page of at least 1 |
| UrlUtils.IsValidPage | frontend/src/utils/urlUtils.ts:55-61 | true exactly for an integer between 1 and the number of pages |
| UrlUtils.BuildSearchUrl | frontend/src/utils/urlUtils.ts:14-27 | the URL is never empty and starts with `/` (its text: `UrlUtils.BuildSearchUrlText`) |
| UrlUtils.BuildSearchUrlText | frontend/src/utils/urlUtils.ts:14-27 | the URL is `/?q=<form-encoded trimmed query>&page=<page>`, with each part present only when it is set, and `/` when neither is |
| UrlUtils.BuildSearchUrlIsRoot | frontend/src/utils/urlUtils.ts:26 | the URL is `/` exactly when the query is blank and the page is at most 1 |
| UrlUtilsExamples.BuildSearchUrlRoot | frontend/src/utils/urlUtils.ts:26 | no query on page 1 is `/` |
| UrlUtilsExamples.BuildSearchUrlQueryOnly | frontend/src/utils/urlUtils.ts:14-27 | "test query" on page 1 is `/?q=test+query` |
| UrlUtilsExamples.BuildSearchUrlQueryAndPage | frontend/src/utils/urlUtils.ts:14-27 | "test query" on page 2 is `/?q=test+query&page=2` |
| UrlUtilsExamples.BuildSearchUrlTrims | frontend/src/utils/urlUtils.ts:16-19 | "  test  " is trimmed to `/?q=test` |
| UrlUtilsExamples.BuildSearchUrlFirstPage | frontend/src/utils/urlUtils.ts:22-24 | the first page adds no `page` parameter: "test" is `/?q=test` |
| UrlUtilsExamples.FormEncodeTestQuery | frontend/src/utils/urlUtils.ts:26 | "test query" is serialized as `test+query` |
| UrlUtilsExamples.ParseSearchParamsQueryAndPage | frontend/src/utils/urlUtils.ts:34-47 | `q=test&page=2` is query "test", page 2 |
| UrlUtilsExamples.ParseSearchParamsQueryOnly | frontend/src/utils/urlUtils.ts:38 | without `page` the page is 1 |
| UrlUtilsExamples.ParseSearchParamsEmpty | frontend/src/utils/urlUtils.ts:35-38 | no parameters is query "", page 1 |
| UrlUtilsExamples.ParseSearchParamsRejectsWord | frontend/src/utils/urlUtils.ts:40-43 | `page=invalid` falls back to page 1 |
| UrlUtilsExamples.ParseSearchParamsRejectsNegative | frontend/src/utils/urlUtils.ts:41-43 | `page=-1` falls back to page 1 |
| UrlUtilsExamples.IsValidPageExamples | frontend/src/utils/urlUtils.ts:55-61 | 1 and 10 of 10 are valid; 0, -1, 11 and fractions are not |
| UrlEncoding.SerializePairs | frontend/src/utils/urlUtils.ts:26 | the serialized text is empty exactly when there are no parameters |
| UrlEncoding.FormEncode | frontend/src/utils/urlUtils.ts:26 | the form-urlencoded text is never shorter than the text |
| UrlEncoding.EncodeUriComponent | frontend/src/lib/api.ts:15 | `encodeURIComponent`'s text is never shorter than the text |
| UrlEncoding.FormEncodeAvoidsDelimiters | frontend/src/utils/urlUtils.ts:26 | a serialized name or value holds no `&`, `=` or space, and is at least as long as the text |
| UrlEncoding.FormEncodeConcat | frontend/src/utils/urlUtils.ts:26 | the serializer works code point by code point |
| UrlEncoding.FormEncodeOfSafe | frontend/src/utils/urlUtils.ts:26 | letters, digits and `*-._` pass through both encoders unchanged |
| UrlEncoding.FormEncodeWords | frontend/src/utils/urlUtils.ts:26 | a space between safe words becomes `+` |
| UrlEncoding.EncodeUriComponentAvoidsDelimiters | frontend/src/lib/api.ts:15 | `encodeURIComponent` leaves no `&`, `/`, `?` or space |
| UrlEncoding.EncodeUriComponentConcat | frontend/src/lib/api.ts:15 | `encodeURIComponent` works code point by code point |
| UrlEncoding.EncodedSpace | frontend/src/lib/api.ts:15 | a space becomes `%20` |
| UrlEncoding.UriEncodeWords | frontend/src/lib/api.ts:15 | a space between safe words becomes `%20` |
| JsText.TrimStart | frontend/src/utils/urlUtils.ts:16 | never lengthens the text (what it drops: `JsText.TrimStartShape`) |
| JsText.TrimEnd | frontend/src/utils/urlUtils.ts:16 | never lengthens the text (what it drops: `JsText.TrimEndShape`) |
| JsText.Trim | frontend/src/utils/urlUtils.ts:16 | never lengthens the text (its shape: `JsText.TrimShape`) |
| JsText.TrimStartShape | frontend/src/utils/urlUtils.ts:16 | what is left is a suffix that does not start with white space, and all that was dropped is white space |
| JsText.TrimEndShape | frontend/src/utils/urlUtils.ts:16 | what is left is a prefix that does not end with white space, and all that was dropped is white space |
| JsText.TrimShape | frontend/src/utils/urlUtils.ts:16 | trim leaves no white space at either end, and only white space was removed from each end |
| JsText.TrimEmptyIff | frontend/src/utils/urlUtils.ts:18 | the trimmed text is empty exactly when the text is all white space |
| JsText.TrimOfTrimmed | frontend/src/utils/urlUtils.ts:16 | text without white space at its ends trims to itself |
| JsText.TrimIdempotent | frontend/src/utils/storageUtils.ts:46 | trimming twice is trimming once |
| JsText.ParseInt | frontend/src/utils/urlUtils.ts:40 | NaN exactly when no digit follows the leading white space and sign |
| JsText.ParseIntOfIntToString | frontend/src/utils/urlUtils.ts:40 | parseInt reads back any integer's decimal text, after any white space and before any non-digit text |
| JsText.ParseIntRoundTrip | frontend/src/utils/urlUtils.ts:40 | parseInt of an integer's decimal text is that integer |
| JsText.Join | frontend/src/utils/apiErrorHandler.ts:16 | joining no parts is "", joining one part is that part |
| JsValues.CeilDiv | backend/src/movies/movies.service.ts:150 | the least q with q * d >= n |
| JsValues.CeilDivNumber | frontend/src/utils/paginationUtils.ts:54 | the ceiling of x / d for integer and fractional x |
| JsValues.Lookup | frontend/src/utils/storageUtils.ts:22-23 | a member read of a parsed object; what it finds is stated by `JsValues.LookupFindsLast` |
| JsValues.Truthy | frontend/src/utils/storageUtils.ts:22-23 | JavaScript truthiness: undefined, null, false, 0 and "" are falsy, everything else truthy |
| JsValues.ToJsString | frontend/src/utils/apiErrorHandler.ts:16 | `String(v)`: a string is itself, null is "null", a boolean is "true" or "false" |
| JsValues.JoinValues | frontend/src/utils/apiErrorHandler.ts:16 | `Array.prototype.join` over JSON values; what it gives for strings is stated by `JsValues.JoinValuesOfStrings` |
| JsValues.LookupFindsLast | frontend/src/utils/storageUtils.ts:20 | a member read finds nothing exactly when no member has the name, and otherwise finds the last member with it |
| JsValues.Get | frontend/src/utils/apiErrorHandler.ts:15-17 | a property of a value that is not an object is undefined |
| JsValues.Or | frontend/src/utils/storageUtils.ts:22-23 | the logical or of two values is the first when it is truthy and the second otherwise |
| JsValues.JoinValuesOfStrings | frontend/src/utils/apiErrorHandler.ts:16 | joining an array of strings is joining their texts |
| StorageUtils.SessionStorage.GetItem | frontend/src/utils/storageUtils.ts:18 | null exactly when no item has the key; otherwise the item |
| StorageUtils.SessionStorage.SetItem | frontend/src/utils/storageUtils.ts:44-47 | the item is stored when storage accepts writes; otherwise nothing changes |
| StorageUtils.ReadState | frontend/src/utils/storageUtils.ts:18-30 | the query is "" or truthy and the page 1 or truthy; missing or empty text, and text JSON.parse rejects, give the defaults |
| StorageUtils.GetSearchState | frontend/src/utils/storageUtils.ts:12-31 | outside a browser, and with nothing stored, the defaults; in a browser, what `ReadState` makes of the stored item |
| StorageUtils.StateRecord | frontend/src/utils/storageUtils.ts:46 | the stored object has two members, `query` then `page` |
| StorageUtils.StateRecordMembers | frontend/src/utils/storageUtils.ts:46 | the stored object's `query` is the trimmed query and its `page` the page |
| StorageUtils.SaveSearchState | frontend/src/utils/storageUtils.ts:38-51 | outside a browser nothing happens; the item is the JSON text of the trimmed query and the page when storage accepts it; otherwise the failure is swallowed and nothing changes |
| StorageUtils.ReadBackSaved | frontend/src/utils/storageUtils.ts:12-51 | reading back a saved state gives the trimmed query and the page, except that page 0 reads back as 1 |
| StorageUtils.SaveThenGet | frontend/src/utils/storageUtils.ts:12-51 | after saving to an accepting storage, getSearchState returns the saved state; a refusing storage returns what it returned before |
| StorageUtils.ReadStoredObject | frontend/src/utils/storageUtils.ts:21-24 | truthy members are returned as they are, whatever their type; falsy or missing ones take their defaults |
| StorageUtils.ReadNonObject | frontend/src/utils/storageUtils.ts:21-24 | stored JSON that is not an object gives the defaults |
| ApiErrorHandler.RequestFailed | frontend/src/utils/apiErrorHandler.ts:12 | the text ends with the status text |
| ApiErrorHandler.ErrorData | frontend/src/utils/apiErrorHandler.ts:7-13 | the decoded body, or an object whose `error` is the request-failed text |
| ApiErrorHandler.MessageOf | frontend/src/utils/apiErrorHandler.ts:15-17 | a `message` array gives a string; a truthy `message` that is not an array is taken as it is; otherwise `error` |
| ApiErrorHandler.HandleApiError | frontend/src/utils/apiErrorHandler.ts:6-26 | the outcome is always a thrown error; it is a TypeError exactly when the body decodes to null; the body's `statusCode` is attached exactly when truthy |
| ApiErrorHandler.ArrayMessageJoined | frontend/src/utils/apiErrorHandler.ts:15-19 | a `message` array of strings is joined with ", " |
| ApiErrorHandler.TextMessageFirst | frontend/src/utils/apiErrorHandler.ts:15-19 | a non-empty `message` string wins over `error` |
| ApiErrorHandler.ErrorFieldSecond | frontend/src/utils/apiErrorHandler.ts:15-19 | without a usable `message`, a non-empty `error` is the message |
| ApiErrorHandler.EmptyMessageArrayIgnoresError | frontend/src/utils/apiErrorHandler.ts:15-19 | an empty `message` array gives the request-failed text, and `error` is never read |
| ApiErrorHandler.UnreadableBody | frontend/src/utils/apiErrorHandler.ts:9-23 | a body that is not JSON gives exactly the request-failed text, with no statusCode |
| ApiErrorHandler.NoUsableText | frontend/src/utils/apiErrorHandler.ts:15-19 | with neither `message` nor `error` truthy, the request-failed text |
| ApiErrorHandler.HandleNetworkError | frontend/src/utils/apiErrorHandler.ts:34-39 | an Error is passed on as it is; anything else becomes an Error with the default message |
| MovieApi.ApiBase | frontend/src/constants/index.ts:2 | the configured URL when it is set and not empty; otherwise `http://localhost:3001/movies` |
| MovieApi.ValidPage | frontend/src/lib/api.ts:10 | an integer of at least 1 |
| MovieApi.SearchRequest | frontend/src/lib/api.ts:15 | a GET without a body, whose URL starts with the base URL (the rest: `MovieApi.SearchUrlShape`) |
| MovieApi.SearchOutcome | frontend/src/lib/api.ts:14-30 | a rejection is passed on; a failed status goes through handleApiError; with an ok status, a body that is not JSON is a SyntaxError, a null body a TypeError, a body with a truthy `error` or `statusCode` an Error, and any other body is returned as the success; success happens only so |
| MovieApi.SearchMovies | frontend/src/lib/api.ts:6-31 | a blank query is refused first; then a page that is not an integer of at least 1; otherwise the outcome of the one search request, with a failure passed through handleNetworkError |
| MovieApi.SearchAcceptsQuietBody | frontend/src/lib/api.ts:21-27 | an ok status and a body that is not null and has no truthy `error` or `statusCode` make the search return that body |
| MovieApi.SearchValidatesFirst | frontend/src/lib/api.ts:7-12 | refused arguments fail whatever `fetch` would answer |
| MovieApi.SearchAsksOnce | frontend/src/lib/api.ts:15 | the result depends only on the answer to the one search request |
| MovieApi.SearchUrlShape | frontend/src/lib/api.ts:15 | the URL is `BASE/search?q=<encoded trimmed query>&page=<page>`; the encoded query holds no `&`, `/` or `?`; a safe query is sent as it is |
| MovieApi.SearchFailedStatus | frontend/src/lib/api.ts:17-19 | a failed status rejects with handleApiError's Error |
| MovieApi.SearchErrorBody | frontend/src/lib/api.ts:23-25 | an ok body with `error` or `statusCode` rejects with `error`, else `message`, else "An error occurred" |
| MovieApi.SearchNetworkFailure | frontend/src/lib/api.ts:28-30 | a rejection with a non-Error gives the search network-error text |
| MovieApi.FavoritesRequest | frontend/src/lib/api.ts:39 | a GET without a body, whose URL starts with the base URL |
| MovieApi.EmptyFavorites | frontend/src/lib/api.ts:43-51 | the answer to a 404 is one `data` member |
| MovieApi.GetFavorites | frontend/src/lib/api.ts:33-60 | an invalid page is refused without a request; a 404 is the empty page; any other failed status goes through handleApiError; a body that is not JSON is a SyntaxError; otherwise the body |
| MovieApi.FavoritesValidatesFirst | frontend/src/lib/api.ts:34-36 | an invalid page fails whatever `fetch` would answer |
| MovieApi.FavoritesNotFoundIsEmpty | frontend/src/lib/api.ts:41-52 | a 404 is never an error, whatever its body says |
| MovieApi.ValidMovie | frontend/src/lib/api.ts:63 | a movie is present and has a non-empty id and title |
| MovieApi.FavoritePayload | frontend/src/lib/api.ts:67-72 | an object of four members, title first and id second |
| MovieApi.AddRequest | frontend/src/lib/api.ts:75-81 | a POST of the payload, whose URL starts with the base URL |
| MovieApi.PayloadDefaults | frontend/src/lib/api.ts:67-72 | the payload carries title and id, and the year and poster when present (even 0 and ''), with 0 and '' only for absent ones |
| MovieApi.AddOutcome | frontend/src/lib/api.ts:74-96 | a failed status goes through handleApiError; with an ok status the add succeeds exactly when the body (null when not JSON) has no truthy `error` or `statusCode` |
| MovieApi.AddToFavorites | frontend/src/lib/api.ts:62-97 | a movie without id or title is refused before any request; otherwise the outcome of the POST, failures through handleNetworkError |
| MovieApi.AddAcceptsQuietBody | frontend/src/lib/api.ts:87-93 | an ok status with a non-JSON body, or one without `error` and `statusCode`, adds the movie |
| MovieApi.RemoveFromFavorites | frontend/src/lib/api.ts:99-115 | a blank id is refused first; otherwise an ok status is success, a failed one handleApiError's Error, and a rejection goes through handleNetworkError |
| MovieApi.RemoveRequest | frontend/src/lib/api.ts:105-107 | a DELETE without a body, whose URL starts with the base URL |
| MovieApi.RemoveUrlShape | frontend/src/lib/api.ts:105 | the id is the last path segment, encoded without `/` or `?`; a safe id is sent as it is |

## Left out

- Asynchrony, promises and concurrency are not modelled. Each call is one step, and `await` is a function application.
- File I/O is not modelled. The favourites file is the `persisted` field, read once by the constructor. A malformed or unreadable file, and write failures, are out of scope.
- `JSON.parse` and `JSON.stringify` are not defined here. They are parameters, and the storage round trip relies only on `Faithful`.
- JSON numbers are integers only. Fractions and exponents are not modelled.
- Numbers are NaN, integers and non-integers between two integers. Infinity and floating-point rounding are not modelled.
- Frontend `typeof` checks on arguments are not modelled, because the model's types already exclude non-strings.
- Movies.ServiceSearch: the response body is typed, with `Response` as text. A body whose `Response` is the JSON boolean false, the one case where `Response === false` holds, is not modelled. The page is an integer; the text of a fractional page is not modelled.
- The backend controller and React components are callers, not part of this model.
- Movies.MoviesService.GetFavorites: requires a page size of at least 1. A page size of 0 or less, which gives an infinite or negative page count, is not modelled; the only caller passes the default 10.
- Movies.ListPage: requires a page size of at least 1, for the same reason. A NaN page (from `parseInt` in the controller) is not modelled; pages are integers.
- PaginationUtils.CalculateTotalPages: requires a page size of at least 1. Its only caller passes PAGINATION.PAGE_SIZE, which is 10.
- UrlEncoding.EncodeUriComponent: strings are sequences of Unicode scalar values, so a lone UTF-16 surrogate cannot occur. The URIError that `encodeURIComponent` throws on one is not modelled. At api.ts:15 and api.ts:105 it would go through handleNetworkError; at omdb.service.ts:32 it would become the 500 of the catch block. The same goes for UrlEncoding.FormEncode: the URLSearchParams serializer's replacement of a lone surrogate by U+FFFD (urlUtils.ts:26) is not modelled.
- UrlUtils.BuildSearchUrl: takes an integer page. The text of a fractional page is not modelled.
- StorageUtils.SaveSearchState: takes an integer page. NaN and fractional pages are not modelled.
- StorageUtils.GetSearchState: `sessionStorage.getItem` is assumed not to throw. The logging in the catch blocks is dropped.
- ApiErrorHandler.HandleNetworkError: passes an Error on by value. Object identity is not modelled.
- MovieApi.AddRequest: the `Content-Type` header is implied by the request's `jsonBody`. Headers are not otherwise modelled.
- Omdb.SearchMovies: models the request as a function from URL to outcome. The logger call is dropped.
