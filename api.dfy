/** frontend/src/lib/api.ts: the browser's client of the movies API. Each call validates its
    arguments, builds one request, hands it to `fetch` and classifies what comes back. `fetch`
    is a parameter: the model fixes the request it is given and what each answer leads to. */
module MovieApi {
  import opened Wrappers
  import JsText
  import opened JsValues
  import UrlEncoding
  import opened ApiErrorHandler

  /** API_CONFIG.BASE_URL falls back to this when NEXT_PUBLIC_API_URL is unset or empty. */
  const DEFAULT_BASE_URL := "http://localhost:3001/movies"
  /** HTTP_STATUS.NOT_FOUND. */
  const NOT_FOUND := 404

  const QUERY_REQUIRED := "Query is required and cannot be empty"
  const PAGE_INVALID := "Page must be a positive integer"
  const MOVIE_INVALID := "Movie must have imdbID and title"
  const ID_REQUIRED := "imdbID is required and cannot be empty"
  const SEARCH_NETWORK_ERROR := "Network error: Failed to search movies"
  const FAVORITES_NETWORK_ERROR := "Network error: Failed to get favorites"
  const ADD_NETWORK_ERROR := "Network error: Failed to add movie to favorites"
  const REMOVE_NETWORK_ERROR := "Network error: Failed to remove movie from favorites"
  const SEARCH_BODY_ERROR := "An error occurred"
  const ADD_BODY_ERROR := "Failed to add movie to favorites"

  /** API_CONFIG.BASE_URL: `process.env.NEXT_PUBLIC_API_URL || DEFAULT_BASE_URL`. */
  function ApiBase(env: Option<string>): (base: string)
    ensures env.Some? && env.value != "" ==> base == env.value
    ensures env.None? || env.value == "" ==> base == DEFAULT_BASE_URL
  {
    if env.Some? && env.value != "" then env.value else DEFAULT_BASE_URL
  }

  datatype Verb = GET | POST | DELETE

  /** What `fetch` is called with. `jsonBody` is the value whose JSON.stringify text is sent,
      with the header 'Content-Type: application/json'. */
  datatype Request = Request(verb: Verb, url: string, jsonBody: Option<JsonValue>)

  /** What the promise `fetch` returns settles to. */
  datatype FetchResult = Rejected(thrown: Thrown) | Responded(response: Response)

  type Fetch = Request -> FetchResult

  /** The guard `!Number.isInteger(page) || page < 1`. */
  predicate ValidPage(page: JsNumber) {
    page.Int? && page.value >= 1
  }

  /** `BASE/search?q=<encodeURIComponent(trim(query))>&page=<page>`. */
  function SearchRequest(base: string, query: string, page: int): (r: Request)
    ensures r.verb == GET && r.jsonBody.None?
    ensures |r.url| > |base| && r.url[..|base|] == base
  {
    Request(GET, base + "/search?q=" + UrlEncoding.EncodeUriComponent(JsText.Trim(query)) + "&page=" + JsText.IntToString(page), None)
  }

  /** A decoded body that is not null and carries no truthy `error` or `statusCode`. */
  predicate QuietBody(body: Option<JsonValue>) {
    body.Some? && !body.value.JNull? &&
    !Truthy(Get(body.value, ERROR_MEMBER)) && !Truthy(Get(body.value, STATUS_CODE_MEMBER))
  }

  /** The `try` block of searchMovies once `fetch` has settled: a failed status goes to
      handleApiError; a body that is not JSON, that is null, or that carries a truthy
      `error` or `statusCode` is a failure; any other body is the result. */
  function SearchOutcome(answer: FetchResult): (r: Result<JsonValue, Thrown>)
    ensures answer.Rejected? ==> r == Failure(answer.thrown)
    ensures answer.Responded? && !Ok(answer.response) ==>
      r == Failure(ThrownError(HandleApiError(answer.response)))
    ensures r.Success? ==> (answer.Responded? && Ok(answer.response) && answer.response.body == Some(r.value) &&
      !r.value.JNull? && !Truthy(Get(r.value, ERROR_MEMBER)) && !Truthy(Get(r.value, STATUS_CODE_MEMBER)))
    ensures answer.Responded? && Ok(answer.response) && QuietBody(answer.response.body) ==>
      r == Success(answer.response.body.value)
    ensures answer.Responded? && Ok(answer.response) && answer.response.body.None? ==>
      r == Failure(ThrownError(SyntaxError))
    ensures answer.Responded? && Ok(answer.response) && answer.response.body == Some(JNull) ==>
      r == Failure(ThrownError(TypeError))
  {
    match answer
    case Rejected(thrown) => Failure(thrown)
    case Responded(response) =>
      if !Ok(response) then Failure(ThrownError(HandleApiError(response)))
      else
        match response.body
        case None => Failure(ThrownError(SyntaxError))
        case Some(data) =>
          if data.JNull? then Failure(ThrownError(TypeError))
          else if Truthy(Get(data, ERROR_MEMBER)) || Truthy(Get(data, STATUS_CODE_MEMBER)) then
            var message := Or(Or(Get(data, ERROR_MEMBER), Get(data, MESSAGE_MEMBER)), Some(JStr(SEARCH_BODY_ERROR)));
            Failure(ThrownError(Error(ToJsString(message.value), None)))
          else Success(data)
  }

  /** movieApi.searchMovies: the arguments are checked before any request is made; a failure
      inside the request goes through handleNetworkError. */
  function SearchMovies(base: string, query: string, page: JsNumber, fetch: Fetch): (r: Result<JsonValue, JsError>)
    ensures JsText.Trim(query) == "" ==> r == Failure(Error(QUERY_REQUIRED, None))
    ensures JsText.Trim(query) != "" && !ValidPage(page) ==> r == Failure(Error(PAGE_INVALID, None))
    ensures r.Success? ==> (JsText.Trim(query) != "" && ValidPage(page) &&
      SearchOutcome(fetch(SearchRequest(base, query, page.value))) == Success(r.value))
    ensures JsText.Trim(query) != "" && ValidPage(page) ==>
      match SearchOutcome(fetch(SearchRequest(base, query, page.value)))
      case Success(data) => r == Success(data)
      case Failure(thrown) => r == Failure(HandleNetworkError(thrown, SEARCH_NETWORK_ERROR))
  {
    if JsText.Trim(query) == "" then Failure(Error(QUERY_REQUIRED, None))
    else if !ValidPage(page) then Failure(Error(PAGE_INVALID, None))
    else
      match SearchOutcome(fetch(SearchRequest(base, query, page.value)))
      case Success(data) => Success(data)
      case Failure(thrown) => Failure(HandleNetworkError(thrown, SEARCH_NETWORK_ERROR))
  }

  /** A rejected search never reaches `fetch`: two fetches give the same answer. */
  lemma SearchValidatesFirst(base: string, query: string, page: JsNumber, fetch1: Fetch, fetch2: Fetch)
    requires JsText.Trim(query) == "" || !ValidPage(page)
    ensures SearchMovies(base, query, page, fetch1) == SearchMovies(base, query, page, fetch2)
    ensures SearchMovies(base, query, page, fetch1).Failure?
  {
  }

  /** With valid arguments the result depends on `fetch` only through its answer to the
      search request. */
  lemma SearchAsksOnce(base: string, query: string, page: JsNumber, fetch1: Fetch, fetch2: Fetch)
    requires JsText.Trim(query) != "" && ValidPage(page)
    requires fetch1(SearchRequest(base, query, page.value)) == fetch2(SearchRequest(base, query, page.value))
    ensures SearchMovies(base, query, page, fetch1) == SearchMovies(base, query, page, fetch2)
  {
  }

  /** The search URL: after "?q=" comes the encoded trimmed query, which holds no '&', '/' or
      '?', then "&page=" and the page number; a query of letters, digits and "*-._" is sent
      as it is. */
  lemma SearchUrlShape(base: string, query: string, page: int)
    ensures var q := UrlEncoding.EncodeUriComponent(JsText.Trim(query));
      && SearchRequest(base, query, page).url == base + "/search?q=" + q + "&page=" + JsText.IntToString(page)
      && (forall i :: 0 <= i < |q| ==> q[i] != '&' && q[i] != '/' && q[i] != '?')
    ensures (forall i :: 0 <= i < |JsText.Trim(query)| ==> UrlEncoding.FormSafe(JsText.Trim(query)[i])) ==>
      SearchRequest(base, query, page).url == base + "/search?q=" + JsText.Trim(query) + "&page=" + JsText.IntToString(page)
  {
    var t := JsText.Trim(query);
    UrlEncoding.EncodeUriComponentAvoidsDelimiters(t);
    if forall i :: 0 <= i < |t| ==> UrlEncoding.FormSafe(t[i]) {
      UrlEncoding.FormEncodeOfSafe(t);
    }
  }

  /** The body of a failed status is handled by handleApiError, and the Error it throws is
      what searchMovies rejects with. */
  lemma SearchFailedStatus(base: string, query: string, page: JsNumber, fetch: Fetch)
    requires JsText.Trim(query) != "" && ValidPage(page)
    requires fetch(SearchRequest(base, query, page.value)).Responded?
    requires !Ok(fetch(SearchRequest(base, query, page.value)).response)
    ensures SearchMovies(base, query, page, fetch) ==
      Failure(HandleApiError(fetch(SearchRequest(base, query, page.value)).response))
  {
  }

  /** A successful status whose body carries `error` or `statusCode` is a failure: its
      message is the body's `error`, else its `message`, else a fixed text. */
  lemma SearchErrorBody(base: string, query: string, page: JsNumber, fetch: Fetch, data: JsonValue)
    requires JsText.Trim(query) != "" && ValidPage(page)
    requires fetch(SearchRequest(base, query, page.value)).Responded?
    requires Ok(fetch(SearchRequest(base, query, page.value)).response)
    requires fetch(SearchRequest(base, query, page.value)).response.body == Some(data)
    requires Truthy(Get(data, ERROR_MEMBER)) || Truthy(Get(data, STATUS_CODE_MEMBER))
    ensures SearchMovies(base, query, page, fetch) ==
      Failure(Error(ToJsString(Or(Or(Get(data, ERROR_MEMBER), Get(data, MESSAGE_MEMBER)), Some(JStr(SEARCH_BODY_ERROR))).value), None))
  {
  }

  /** With valid arguments, an ok answer whose body is quiet is the result, as it was decoded. */
  lemma SearchAcceptsQuietBody(base: string, query: string, page: JsNumber, fetch: Fetch, data: JsonValue)
    requires JsText.Trim(query) != "" && ValidPage(page)
    requires fetch(SearchRequest(base, query, page.value)).Responded?
    requires Ok(fetch(SearchRequest(base, query, page.value)).response)
    requires fetch(SearchRequest(base, query, page.value)).response.body == Some(data)
    requires QuietBody(Some(data))
    ensures SearchMovies(base, query, page, fetch) == Success(data)
  {
  }

  /** A fetch that rejects with something that is not an Error gives the fixed network-error text. */
  lemma SearchNetworkFailure(base: string, query: string, page: JsNumber, fetch: Fetch)
    requires JsText.Trim(query) != "" && ValidPage(page)
    requires fetch(SearchRequest(base, query, page.value)) == Rejected(ThrownValue)
    ensures SearchMovies(base, query, page, fetch) == Failure(Error(SEARCH_NETWORK_ERROR, None))
  {
  }

  /** `BASE/favorites/list?page=<page>`. */
  function FavoritesRequest(base: string, page: int): (r: Request)
    ensures r.verb == GET && r.jsonBody.None?
    ensures |r.url| > |base| && r.url[..|base|] == base
  {
    Request(GET, base + "/favorites/list?page=" + JsText.IntToString(page), None)
  }

  /** The `{data: {...}}` getFavorites answers a 404 with: no favorites on the requested page. */
  function EmptyFavorites(page: int): (v: JsonValue)
    ensures v.JObj? && |v.members| == 1 && v.members[0].0 == "data"
  {
    JObj([("data", JObj([
      ("favorites", JArr([])),
      ("count", JNum(0)),
      ("totalResults", JStr("0")),
      ("currentPage", JNum(page)),
      ("totalPages", JNum(0))]))])
  }

  /** movieApi.getFavorites: a 404 means there are no favorites and gives the empty page;
      any other failed status goes to handleApiError; otherwise the decoded body is the result
      (a body that is not JSON rejects with the SyntaxError of `response.json()`). */
  function GetFavorites(base: string, page: JsNumber, fetch: Fetch): (r: Result<JsonValue, JsError>)
    ensures !ValidPage(page) ==> r == Failure(Error(PAGE_INVALID, None))
    ensures ValidPage(page) ==> match fetch(FavoritesRequest(base, page.value))
      case Rejected(thrown) => r == Failure(HandleNetworkError(thrown, FAVORITES_NETWORK_ERROR))
      case Responded(response) =>
        if !Ok(response) && response.status == NOT_FOUND then r == Success(EmptyFavorites(page.value))
        else if !Ok(response) then r == Failure(HandleApiError(response))
        else if response.body.None? then r == Failure(SyntaxError)
        else r == Success(response.body.value)
  {
    if !ValidPage(page) then Failure(Error(PAGE_INVALID, None))
    else
      match fetch(FavoritesRequest(base, page.value))
      case Rejected(thrown) => Failure(HandleNetworkError(thrown, FAVORITES_NETWORK_ERROR))
      case Responded(response) =>
        if !Ok(response) then
          if response.status == NOT_FOUND then Success(EmptyFavorites(page.value))
          else Failure(HandleNetworkError(ThrownError(HandleApiError(response)), FAVORITES_NETWORK_ERROR))
        else
          match response.body
          case None => Failure(SyntaxError)
          case Some(data) => Success(data)
  }

  /** A rejected page never reaches `fetch`. */
  lemma FavoritesValidatesFirst(base: string, page: JsNumber, fetch1: Fetch, fetch2: Fetch)
    requires !ValidPage(page)
    ensures GetFavorites(base, page, fetch1) == GetFavorites(base, page, fetch2)
  {
  }

  /** A 404 is never an error, whatever its body says. */
  lemma FavoritesNotFoundIsEmpty(base: string, page: JsNumber, fetch: Fetch)
    requires ValidPage(page)
    requires fetch(FavoritesRequest(base, page.value)).Responded?
    requires fetch(FavoritesRequest(base, page.value)).response.status == NOT_FOUND
    ensures GetFavorites(base, page, fetch).Success?
    ensures GetFavorites(base, page, fetch).value == EmptyFavorites(page.value)
  {
  }

  /** A movie as the frontend holds it; `None` is an absent (undefined or null) property. */
  datatype Movie = Movie(title: Option<string>, imdbID: Option<string>, year: Option<int>, poster: Option<string>)

  /** `!movie || !movie.imdbID || !movie.title`; a `None` movie is a null or undefined argument. */
  predicate ValidMovie(movie: Option<Movie>) {
    movie.Some? && movie.value.imdbID.GetOr("") != "" && movie.value.title.GetOr("") != ""
  }

  /** The JSON payload of addToFavorites: the title and id, the year or 0, the poster or ''. */
  function FavoritePayload(movie: Movie): (v: JsonValue)
    requires movie.title.Some? && movie.imdbID.Some?
    ensures v.JObj? && |v.members| == 4
    ensures v.members[0] == ("title", JStr(movie.title.value))
    ensures v.members[1] == ("imdbID", JStr(movie.imdbID.value))
  {
    JObj([
      ("title", JStr(movie.title.value)),
      ("imdbID", JStr(movie.imdbID.value)),
      ("year", JNum(movie.year.GetOr(0))),
      ("poster", JStr(movie.poster.GetOr("")))])
  }

  /** The payload keeps the year and the poster whenever they are present, even as 0 and '':
      `??` replaces only an absent value. */
  lemma PayloadDefaults(movie: Movie)
    requires movie.title.Some? && movie.imdbID.Some?
    ensures var ms := FavoritePayload(movie).members;
      && |ms| == 4
      && ms[0] == ("title", JStr(movie.title.value)) && ms[1] == ("imdbID", JStr(movie.imdbID.value))
      && ms[2].1 == (if movie.year.Some? then JNum(movie.year.value) else JNum(0))
      && ms[3].1 == (if movie.poster.Some? then JStr(movie.poster.value) else JStr(""))
  {
  }

  /** `POST BASE/favorites` with the payload as its JSON body. */
  function AddRequest(base: string, movie: Movie): (r: Request)
    requires movie.title.Some? && movie.imdbID.Some?
    ensures r.verb == POST && r.jsonBody == Some(FavoritePayload(movie))
    ensures |r.url| > |base| && r.url[..|base|] == base
  {
    Request(POST, base + "/favorites", Some(FavoritePayload(movie)))
  }

  /** The `try` block of addToFavorites once `fetch` has settled. A body that is not JSON
      counts as null (`.catch(() => null)`), which is success; a body with a truthy `error`
      or `statusCode` is a failure whose message is its joined `message` array, else its
      `message`, else its `error`, else a fixed text. */
  function AddOutcome(answer: FetchResult): (r: Result<(), Thrown>)
    ensures answer.Rejected? ==> r == Failure(answer.thrown)
    ensures answer.Responded? && !Ok(answer.response) ==>
      r == Failure(ThrownError(HandleApiError(answer.response)))
    ensures answer.Responded? && Ok(answer.response) ==>
      (r.Success? <==> (!Truthy(GetOptional(answer.response.body.GetOr(JNull), ERROR_MEMBER)) &&
        !Truthy(GetOptional(answer.response.body.GetOr(JNull), STATUS_CODE_MEMBER))))
  {
    match answer
    case Rejected(thrown) => Failure(thrown)
    case Responded(response) =>
      if !Ok(response) then Failure(ThrownError(HandleApiError(response)))
      else
        var data := response.body.GetOr(JNull);
        if Truthy(GetOptional(data, ERROR_MEMBER)) || Truthy(GetOptional(data, STATUS_CODE_MEMBER)) then
          var message := match Get(data, MESSAGE_MEMBER)
            case Some(JArr(items)) => Some(JStr(JoinValues(JArr(items), items, MESSAGE_SEPARATOR)))
            case other => other;
          var text := Or(Or(message, Get(data, ERROR_MEMBER)), Some(JStr(ADD_BODY_ERROR)));
          Failure(ThrownError(Error(ToJsString(text.value), None)))
        else Success(())
  }

  /** movieApi.addToFavorites. */
  function AddToFavorites(base: string, movie: Option<Movie>, fetch: Fetch): (r: Result<(), JsError>)
    ensures !ValidMovie(movie) ==> r == Failure(Error(MOVIE_INVALID, None))
    ensures ValidMovie(movie) ==> match AddOutcome(fetch(AddRequest(base, movie.value)))
      case Success(_) => r == Success(())
      case Failure(thrown) => r == Failure(HandleNetworkError(thrown, ADD_NETWORK_ERROR))
  {
    if !ValidMovie(movie) then Failure(Error(MOVIE_INVALID, None))
    else
      match AddOutcome(fetch(AddRequest(base, movie.value)))
      case Success(_) => Success(())
      case Failure(thrown) => Failure(HandleNetworkError(thrown, ADD_NETWORK_ERROR))
  }

  /** A successful status with a body that is not JSON, or one without `error` and
      `statusCode`, adds the movie. */
  lemma AddAcceptsQuietBody(base: string, movie: Movie, fetch: Fetch)
    requires ValidMovie(Some(movie))
    requires fetch(AddRequest(base, movie)).Responded? && Ok(fetch(AddRequest(base, movie)).response)
    requires var body := fetch(AddRequest(base, movie)).response.body;
      body.None? || (!Truthy(GetOptional(body.value, ERROR_MEMBER)) && !Truthy(GetOptional(body.value, STATUS_CODE_MEMBER)))
    ensures AddToFavorites(base, Some(movie), fetch) == Success(())
  {
  }

  /** `DELETE BASE/favorites/<encodeURIComponent(trim(imdbID))>`. */
  function RemoveRequest(base: string, imdbID: string): (r: Request)
    ensures r.verb == DELETE && r.jsonBody.None?
    ensures |r.url| > |base| && r.url[..|base|] == base
  {
    Request(DELETE, base + "/favorites/" + UrlEncoding.EncodeUriComponent(JsText.Trim(imdbID)), None)
  }

  /** movieApi.removeFromFavorites: success is any status in the ok range; the body is not read. */
  function RemoveFromFavorites(base: string, imdbID: string, fetch: Fetch): (r: Result<(), JsError>)
    ensures JsText.Trim(imdbID) == "" ==> r == Failure(Error(ID_REQUIRED, None))
    ensures JsText.Trim(imdbID) != "" ==> match fetch(RemoveRequest(base, imdbID))
      case Rejected(thrown) => r == Failure(HandleNetworkError(thrown, REMOVE_NETWORK_ERROR))
      case Responded(response) => r == if Ok(response) then Success(()) else Failure(HandleApiError(response))
  {
    if JsText.Trim(imdbID) == "" then Failure(Error(ID_REQUIRED, None))
    else
      match fetch(RemoveRequest(base, imdbID))
      case Rejected(thrown) => Failure(HandleNetworkError(thrown, REMOVE_NETWORK_ERROR))
      case Responded(response) =>
        if Ok(response) then Success(())
        else Failure(HandleNetworkError(ThrownError(HandleApiError(response)), REMOVE_NETWORK_ERROR))
  }

  /** The id sits in the last path segment of the DELETE URL: its encoding holds no '/'
      (nor '?'), and an id of letters, digits and "*-._" is sent as it is. */
  lemma RemoveUrlShape(base: string, imdbID: string)
    ensures var e := UrlEncoding.EncodeUriComponent(JsText.Trim(imdbID));
      && RemoveRequest(base, imdbID).url == base + "/favorites/" + e
      && (forall i :: 0 <= i < |e| ==> e[i] != '/' && e[i] != '?')
    ensures (forall i :: 0 <= i < |JsText.Trim(imdbID)| ==> UrlEncoding.FormSafe(JsText.Trim(imdbID)[i])) ==>
      RemoveRequest(base, imdbID).url == base + "/favorites/" + JsText.Trim(imdbID)
  {
    var t := JsText.Trim(imdbID);
    UrlEncoding.EncodeUriComponentAvoidsDelimiters(t);
    if forall i :: 0 <= i < |t| ==> UrlEncoding.FormSafe(t[i]) {
      UrlEncoding.FormEncodeOfSafe(t);
    }
  }
}
