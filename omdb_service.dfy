/** backend/src/movies/services/omdb.service.ts: the adapter in front of the OMDb search API.
    The configuration is a map from setting names to values (ConfigService.get gives undefined
    for a name that is not in it), and axios.get is the function `get` from a request URL to
    what the request yields. */
module Omdb {
  import opened Wrappers
  import opened Http
  import JsText
  import JsValues
  import UrlEncoding

  const DEFAULT_PAGE := 1
  const MIN_PAGE := 1
  const OMDB_API_BASE_URL := "http://www.omdbapi.com/"
  const API_KEY_SETTING := "OMDB_API_KEY"
  const BASE_URL_SETTING := "OMDB_API_BASE_URL"

  const MISSING_KEY_MESSAGE := "OMDB_API_KEY environment variable is required"
  const TITLE_REQUIRED := HttpException("Title is required", BAD_REQUEST)
  const PAGE_INVALID := HttpException("Page must be a positive integer", BAD_REQUEST)
  const PROVIDER_FAILED := HttpException("Failed to search movies from OMDb API", INTERNAL_SERVER_ERROR)

  /** One search hit as OMDb sends it; `Year` is text such as "1999" or "1999-2000". */
  datatype OmdbMovie = OmdbMovie(Title: string, imdbID: string, Year: string, Poster: string, Type: Option<string>)

  /** The body of an OMDb search response. `Response` is the text "True" or "False". */
  datatype OmdbSearchResponse = OmdbSearchResponse(
    Response: string,
    Search: Option<seq<OmdbMovie>>,
    totalResults: Option<string>,
    Error: Option<string>)

  /** What searchMovies resolves to. */
  datatype SearchPage = SearchPage(movies: seq<OmdbMovie>, totalResults: string)

  /** What a request can raise: an HttpException, or any other error (network, timeout). */
  datatype Failure = Domain(exception: HttpException) | Unexpected

  /** The outcome of axios.get: a response body, or the error the request raised. */
  datatype AxiosOutcome = Received(data: OmdbSearchResponse) | Raised(failure: Failure)

  /** A constructed service; `baseUrl` already carries the API key. */
  datatype OmdbService = OmdbService(baseUrl: string)

  type Config = map<string, string>

  /** A setting that is present and not empty: the values `||` and `!` treat as given. */
  predicate IsSet(config: Config, name: string) {
    name in config && config[name] != ""
  }

  /** The constructor: it throws an Error with MISSING_KEY_MESSAGE (the Failure string) when no
      API key is configured, and otherwise keeps the configured base URL, or the public OMDb
      endpoint, followed by `?apikey=` and the key. */
  function Create(config: Config): (r: Result<OmdbService, string>)
    ensures r.Failure? <==> !IsSet(config, API_KEY_SETTING)
    ensures r.Failure? ==> r.error == MISSING_KEY_MESSAGE
    ensures r.Success? ==> (r.value.baseUrl ==
      (if IsSet(config, BASE_URL_SETTING) then config[BASE_URL_SETTING] else OMDB_API_BASE_URL) +
      "?apikey=" + config[API_KEY_SETTING])
  {
    if !IsSet(config, API_KEY_SETTING) then Failure(MISSING_KEY_MESSAGE)
    else
      var base := if IsSet(config, BASE_URL_SETTING) then config[BASE_URL_SETTING] else OMDB_API_BASE_URL;
      Success(OmdbService(base + "?apikey=" + config[API_KEY_SETTING]))
  }

  /** The request URL: the title percent-encoded as one query value, the full plot, the page. */
  function SearchRequestUrl(svc: OmdbService, title: string, page: int): (r: string)
    ensures |r| > |svc.baseUrl| && r[..|svc.baseUrl|] == svc.baseUrl
  {
    svc.baseUrl + "&s=" + UrlEncoding.EncodeUriComponent(title) + "&plot=full&page=" + JsText.IntToString(page)
  }

  /** The arguments searchMovies accepts: a title that is not blank and an integer page >= 1. */
  predicate ValidSearch(title: string, page: JsValues.JsNumber) {
    JsText.Trim(title) != "" && page.Int? && page.value >= MIN_PAGE
  }

  /** The provider's own "no results" signal: Response "False", or an Error text. */
  predicate IsEmptyResponse(data: OmdbSearchResponse) {
    data.Response == "False" || (data.Error.Some? && data.Error.value != "")
  }

  /** searchMovies. The title and page are checked before any request; a response carrying the
      provider's "no results" signal becomes an empty page; otherwise the hits are passed on as
      they are, with totalResults "0" when the provider sent none. An HttpException raised
      during the request propagates; any other error becomes an INTERNAL_SERVER_ERROR. */
  function SearchMovies(svc: OmdbService, title: string, page: JsValues.JsNumber,
                        get: string -> AxiosOutcome): (r: Result<SearchPage, HttpException>)
    ensures JsText.Trim(title) == "" ==> r == Failure(TITLE_REQUIRED)
    ensures JsText.Trim(title) != "" && !(page.Int? && page.value >= MIN_PAGE) ==> r == Failure(PAGE_INVALID)
    ensures ValidSearch(title, page) ==>
      match get(SearchRequestUrl(svc, title, page.value))
      case Received(data) =>
        if IsEmptyResponse(data) then r == Success(SearchPage([], "0"))
        else (r.Success? && r.value.movies == data.Search.GetOr([]) &&
          (data.totalResults.Some? && data.totalResults.value != "" ==> r.value.totalResults == data.totalResults.value) &&
          (data.totalResults.None? || data.totalResults.value == "" ==> r.value.totalResults == "0"))
      case Raised(Domain(e)) => r == Failure(e)
      case Raised(Unexpected) => r == Failure(PROVIDER_FAILED)
    ensures r.Success? ==> r.value.totalResults != ""
  {
    if JsText.Trim(title) == "" then Failure(TITLE_REQUIRED)
    else if !JsValues.IsInteger(page) || JsValues.LessThan(page, MIN_PAGE) then Failure(PAGE_INVALID)
    else
      match get(SearchRequestUrl(svc, title, page.value))
      case Received(data) =>
        if IsEmptyResponse(data) then Success(SearchPage([], "0"))
        else
          var movies := match data.Search case Some(hits) => hits case None => [];
          var total := match data.totalResults case Some(t) => if t != "" then t else "0" case None => "0";
          Success(SearchPage(movies, total))
      case Raised(Domain(e)) => Failure(e)
      case Raised(Unexpected) => Failure(PROVIDER_FAILED)
  }

  /** Invalid arguments are rejected without a request: the outcome does not depend on `get`. */
  lemma RejectedWithoutRequest(svc: OmdbService, title: string, page: JsValues.JsNumber,
                               get1: string -> AxiosOutcome, get2: string -> AxiosOutcome)
    requires !ValidSearch(title, page)
    ensures SearchMovies(svc, title, page, get1) == SearchMovies(svc, title, page, get2)
    ensures SearchMovies(svc, title, page, get1).Failure?
    ensures SearchMovies(svc, title, page, get1).error.status == BAD_REQUEST
  {
  }

  /** The encoded title cannot break out of its query value: it holds no '&', and it is the
      text between "&s=" and "&plot=full&page=" in the request URL. */
  lemma SearchRequestUrlKeepsTitle(svc: OmdbService, title: string, page: int)
    ensures var enc := UrlEncoding.EncodeUriComponent(title);
      && SearchRequestUrl(svc, title, page) ==
         svc.baseUrl + "&s=" + (enc + ("&plot=full&page=" + JsText.IntToString(page)))
      && (forall i :: 0 <= i < |enc| ==> enc[i] != '&')
  {
    UrlEncoding.EncodeUriComponentAvoidsDelimiters(title);
    var enc := UrlEncoding.EncodeUriComponent(title);
    JsText.ConcatAssociative(svc.baseUrl + "&s=" + enc, "&plot=full&page=", JsText.IntToString(page));
    JsText.ConcatAssociative(svc.baseUrl + "&s=", enc, "&plot=full&page=" + JsText.IntToString(page));
  }
}
