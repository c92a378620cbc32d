/** backend/src/movies/movies.service.ts: the favourites store and the service's own title
    search. The service keeps an ordered list of favourites in memory and writes it to
    data/favorites.json after every change; `persisted` is what that file holds (None while it
    does not exist). Identity is the exact `imdbID` text. The search calls OMDb through
    axios.get, which is the function `get` from a request URL to what the request yields. */
module Movies {
  import opened Wrappers
  import opened Http
  import JsText
  import JsValues
  import Omdb

  const DEFAULT_PAGE := 1
  const DEFAULT_PAGE_SIZE := 10

  const ADDED := "Movie added to favorites"
  const REMOVED := "Movie removed from favorites"
  const ALREADY_FAVORITE := HttpException("Movie already in favorites", BAD_REQUEST)
  const NOT_A_FAVORITE := HttpException("Movie not found in favorites", NOT_FOUND)
  const NO_FAVORITES := HttpException("No favorites found", NOT_FOUND)

  /** A favourite as the controller hands it over (MovieDto): year and poster may be absent. */
  datatype Favorite = Favorite(title: string, imdbID: string, year: Option<int>, poster: Option<string>)

  /** One annotated search hit; `year` is OMDb's text, passed on unparsed. */
  datatype MovieResult = MovieResult(title: string, imdbID: string, year: string, poster: string, isFavorite: bool)

  /** The `data` of getMovieByTitle. */
  datatype SearchResults = SearchResults(movies: seq<MovieResult>, count: int, totalResults: string)

  /** The `data` of getFavorites; `totalResults` is a number here, not text. */
  datatype FavoritesPage = FavoritesPage(
    favorites: seq<Favorite>, count: int, totalResults: int, currentPage: int, totalPages: int)

  predicate HasId(xs: seq<Favorite>, id: string) {
    exists i :: 0 <= i < |xs| && xs[i].imdbID == id
  }

  /** No two favourites share an imdbID. */
  predicate UniqueIds(xs: seq<Favorite>) {
    forall i, j :: 0 <= i < j < |xs| ==> xs[i].imdbID != xs[j].imdbID
  }

  /** Array.prototype.find with `movie.imdbID === id`: the first favourite with that id. */
  function Find(xs: seq<Favorite>, id: string): (r: Option<Favorite>)
    ensures r.None? <==> !HasId(xs, id)
    ensures r.Some? ==> exists i :: (0 <= i < |xs| && xs[i] == r.value && r.value.imdbID == id &&
      forall j :: 0 <= j < i ==> xs[j].imdbID != id)
  {
    if xs == [] then None
    else if xs[0].imdbID == id then Some(xs[0])
    else
      var r := Find(xs[1..], id);
      assert forall i :: 1 <= i < |xs| ==> xs[1..][i - 1] == xs[i];
      assert HasId(xs[1..], id) ==> HasId(xs, id);
      r
  }

  /** Array.prototype.filter with `movie.imdbID !== id`. */
  function WithoutId(xs: seq<Favorite>, id: string): (r: seq<Favorite>)
    ensures |r| <= |xs|
  {
    if xs == [] then [] else (if xs[0].imdbID != id then [xs[0]] else []) + WithoutId(xs[1..], id)
  }

  /** The filter keeps exactly the favourites with another id. */
  lemma {:induction false} WithoutIdMembers(xs: seq<Favorite>, id: string)
    ensures forall f :: f in WithoutId(xs, id) <==> f in xs && f.imdbID != id
  {
    if xs != [] {
      WithoutIdMembers(xs[1..], id);
      assert xs == [xs[0]] + xs[1..];
    }
  }

  /** Filtering out an id that no favourite has changes nothing. */
  lemma {:induction false} WithoutAbsentId(xs: seq<Favorite>, id: string)
    requires !HasId(xs, id)
    ensures WithoutId(xs, id) == xs
  {
    if xs != [] {
      assert !HasId(xs[1..], id) by {
        assert forall i :: 0 <= i < |xs[1..]| ==> xs[1..][i] == xs[i + 1];
      }
      WithoutAbsentId(xs[1..], id);
      assert xs == [xs[0]] + xs[1..];
    }
  }

  /** In a list without duplicate ids, filtering out the id of entry k removes that entry and
      keeps every other one in its original order. */
  lemma {:induction false} WithoutIdSplice(xs: seq<Favorite>, id: string, k: int)
    requires UniqueIds(xs) && 0 <= k < |xs| && xs[k].imdbID == id
    ensures WithoutId(xs, id) == xs[..k] + xs[k + 1..]
  {
    if k == 0 {
      assert !HasId(xs[1..], id) by {
        assert forall i :: 0 <= i < |xs[1..]| ==> xs[1..][i] == xs[i + 1];
      }
      WithoutAbsentId(xs[1..], id);
    } else {
      assert UniqueIds(xs[1..]) by {
        forall i, j | 0 <= i < j < |xs[1..]| ensures xs[1..][i].imdbID != xs[1..][j].imdbID {
          assert xs[1..][i] == xs[i + 1] && xs[1..][j] == xs[j + 1];
        }
      }
      assert xs[1..][k - 1] == xs[k];
      WithoutIdSplice(xs[1..], id, k - 1);
      assert xs[0].imdbID != id;
      assert xs[1..][..k - 1] == xs[1..k];
      assert xs[1..][k..] == xs[k + 1..];
      assert [xs[0]] + xs[1..k] == xs[..k];
    }
  }

  /** Removing one entry keeps the ids distinct. */
  lemma RemovalKeepsUnique(xs: seq<Favorite>, k: int)
    requires UniqueIds(xs) && 0 <= k < |xs|
    ensures UniqueIds(xs[..k] + xs[k + 1..])
  {
    var ys := xs[..k] + xs[k + 1..];
    forall i, j | 0 <= i < j < |ys| ensures ys[i].imdbID != ys[j].imdbID {
      var i' := if i < k then i else i + 1;
      var j' := if j < k then j else j + 1;
      assert ys[i] == xs[i'] && ys[j] == xs[j'];
    }
  }

  /** Appending a favourite whose id is new keeps the ids distinct. */
  lemma AppendKeepsUnique(xs: seq<Favorite>, f: Favorite)
    requires UniqueIds(xs) && !HasId(xs, f.imdbID)
    ensures UniqueIds(xs + [f])
  {
    var ys := xs + [f];
    forall i, j | 0 <= i < j < |ys| ensures ys[i].imdbID != ys[j].imdbID {
      if j == |xs| {
        assert ys[i] == xs[i];
      } else {
        assert ys[i] == xs[i] && ys[j] == xs[j];
      }
    }
  }

  /** One page of `xs` as getFavorites builds it: `xs.slice(start, start + pageSize)` with
      start = (page - 1) * pageSize, the length, and the ceiling of length / pageSize as the
      page count. The page is not checked: from page 1 on the slice holds the entries from
      `start` on, at most pageSize of them; a page of 0 or less gives a negative start, which
      `slice` counts from the end of the list. */
  function ListPage(xs: seq<Favorite>, page: int, pageSize: int): (p: FavoritesPage)
    requires pageSize >= 1
    ensures p.currentPage == page && p.totalResults == |xs|
    ensures p.count == |p.favorites| <= pageSize
    ensures (p.totalPages - 1) * pageSize < |xs| <= p.totalPages * pageSize
    ensures page >= 1 ==> var start := PageStart(page, pageSize);
      && (start < |xs| ==> p.count == if |xs| - start < pageSize then |xs| - start else pageSize)
      && (start >= |xs| ==> p.count == 0)
      && (forall i :: 0 <= i < p.count ==> start + i < |xs| && p.favorites[i] == xs[start + i])
  {
    var start := PageStart(page, pageSize);
    var slice := JsSlice(xs, start, start + pageSize);
    var total := JsValues.CeilDiv(|xs|, pageSize);
    FavoritesPage(slice, |slice|, |xs|, page, total)
  }

  /** Where page `page` starts: (page - 1) * pageSize, negative before page 1. */
  function PageStart(page: int, pageSize: int): (start: int)
    requires pageSize >= 1
    ensures start == (page - 1) * pageSize
    ensures page >= 1 ==> start >= 0
  {
    if page >= 1 then NonNegativeProduct(page - 1, pageSize); (page - 1) * pageSize
    else (page - 1) * pageSize
  }

  /** The position Array.prototype.slice takes an index to: a negative index counts from the
      end, and both kinds are clamped to 0 .. n. */
  function SliceIndex(i: int, n: nat): (k: nat)
    ensures k <= n
    ensures 0 <= i ==> k == if i < n then i else n
    ensures i < 0 ==> k == if n + i < 0 then 0 else n + i
  {
    if i < 0 then (if n + i < 0 then 0 else n + i) else if i < n then i else n
  }

  /** `xs.slice(begin, end)`: the entries between the two positions, none when the end
      position is not after the beginning. */
  function JsSlice(xs: seq<Favorite>, begin: int, end: int): (s: seq<Favorite>)
    ensures var from, to := SliceIndex(begin, |xs|), SliceIndex(end, |xs|);
      && |s| == (if from < to then to - from else 0)
      && forall i :: 0 <= i < |s| ==> from + i < |xs| && s[i] == xs[from + i]
  {
    var from := SliceIndex(begin, |xs|);
    var to := SliceIndex(end, |xs|);
    if from < to then xs[from..to] else []
  }

  /** Proof helper: nonlinear arithmetic the solver does not find alone. */
  lemma NonNegativeProduct(a: int, b: int)
    requires a >= 0 && b >= 0
    ensures a * b >= 0
  {
  }

  /** The pages 1 to k, one after the other. */
  function PagesUpTo(xs: seq<Favorite>, k: nat, pageSize: int): seq<Favorite>
    requires pageSize >= 1
  {
    if k == 0 then [] else PagesUpTo(xs, k - 1, pageSize) + ListPage(xs, k, pageSize).favorites
  }

  /** The first k pages are the favourites before the start of page k + 1, that is the first
      k * pageSize of them (all of them once that reaches the length). */
  lemma {:induction false} PagesUpToPrefix(xs: seq<Favorite>, k: nat, pageSize: int)
    requires pageSize >= 1
    ensures var m := PageStart(k + 1, pageSize);
      PagesUpTo(xs, k, pageSize) == xs[..if m < |xs| then m else |xs|]
  {
    if k > 0 {
      PagesUpToPrefix(xs, k - 1, pageSize);
      PageIsSlice(xs, k, pageSize);
      var n := |xs|;
      var prev := PageStart(k, pageSize);
      var m := PageStart(k + 1, pageSize);
      var a := if prev < n then prev else n;
      var b := if m < n then m else n;
      PrefixSplit(xs, a, b);
    }
  }

  /** Proof helper: the first `b` entries are the first `a` followed by the run between. */
  lemma PrefixSplit(xs: seq<Favorite>, a: nat, b: nat)
    requires a <= b <= |xs|
    ensures xs[..a] + xs[a..b] == xs[..b]
  {
  }

  /** From page 1 on, a page is the run of entries between its start and the next page's
      start, both clamped to the length. */
  lemma PageIsSlice(xs: seq<Favorite>, page: int, pageSize: int)
    requires page >= 1 && pageSize >= 1
    ensures var n, prev, m := |xs|, PageStart(page, pageSize), PageStart(page + 1, pageSize);
      && prev <= m
      && ListPage(xs, page, pageSize).favorites == xs[if prev < n then prev else n..if m < n then m else n]
  {
    var n := |xs|;
    var prev := PageStart(page, pageSize);
    var m := PageStart(page + 1, pageSize);
    PageStartStep(page, pageSize);
    var a := if prev < n then prev else n;
    var b := if m < n then m else n;
    var p := ListPage(xs, page, pageSize).favorites;
    assert |p| == b - a;
    assert forall i :: 0 <= i < |p| ==> p[i] == xs[a..b][i];
  }

  /** Page k + 1 starts pageSize entries after page k. */
  lemma PageStartStep(k: int, pageSize: int)
    requires k >= 1 && pageSize >= 1
    ensures PageStart(k + 1, pageSize) == PageStart(k, pageSize) + pageSize
  {
  }

  /** Walking the pages 1 .. totalPages lists every favourite exactly once, in order. */
  lemma PagesCoverAll(xs: seq<Favorite>, pageSize: int)
    requires pageSize >= 1
    ensures var total := ListPage(xs, 1, pageSize).totalPages;
      total >= 0 && PagesUpTo(xs, total, pageSize) == xs
  {
    var total := ListPage(xs, 1, pageSize).totalPages;
    assert total >= 0;
    PagesUpToPrefix(xs, total, pageSize);
    assert PageStart(total + 1, pageSize) == total * pageSize;
  }

  /** Page 0 is not refused: its slice ends at index 0, so it is empty. */
  lemma PageZeroIsEmpty(xs: seq<Favorite>, pageSize: int)
    requires pageSize >= 1
    ensures ListPage(xs, 0, pageSize).favorites == []
    ensures ListPage(xs, 0, pageSize).count == 0
  {
  }

  /** A negative page is not refused either: when the list is long enough, page -j holds the
      pageSize entries that end (j + 1) * pageSize before the end of the list. */
  lemma NegativePageFromEnd(xs: seq<Favorite>, page: int, pageSize: int)
    requires page < 0 && pageSize >= 1
    requires |xs| + PageStart(page, pageSize) >= 0
    ensures var from := |xs| + PageStart(page, pageSize);
      ListPage(xs, page, pageSize).favorites == xs[from..from + pageSize]
  {
    var start := PageStart(page, pageSize);
    var from := |xs| + start;
    assert start + pageSize == page * pageSize;
    assert page * pageSize < 0 by {
      NonPositiveProductOf(page, pageSize);
    }
    var p := ListPage(xs, page, pageSize).favorites;
    assert |p| == pageSize;
    assert p == xs[from..from + pageSize];
  }

  /** Proof helper: nonlinear arithmetic the solver does not find alone. */
  lemma NonPositiveProductOf(a: int, b: int)
    requires a < 0 && b >= 1
    ensures a * b < 0
  {
  }

  /** Fifteen favourites, pages of size 10: ten on page 1, the last five on page 2, two pages
      in all. The test file (movies.service.spec.ts) also expects totalResults to be the text
      '15'; the service returns the number 15. */
  lemma FifteenFavoritesExample(xs: seq<Favorite>)
    requires |xs| == 15
    ensures ListPage(xs, 1, 10).count == 10
    ensures ListPage(xs, 1, 10).totalResults == 15
    ensures ListPage(xs, 1, 10).totalPages == 2
    ensures ListPage(xs, 2, 10).count == 5 && ListPage(xs, 2, 10).favorites == xs[10..]
  {
    var p := ListPage(xs, 1, 10);
    assert (p.totalPages - 1) * 10 < 15 <= p.totalPages * 10;
    var q := ListPage(xs, 2, 10).favorites;
    assert PageStart(2, 10) == 10;
    assert |q| == 5;
    assert forall i :: 0 <= i < 5 ==> q[i] == xs[10..][i];
  }

  /** The search hits of getMovieByTitle, each annotated with whether its id is a favourite. */
  function Annotate(movies: seq<Omdb.OmdbMovie>, favorites: seq<Favorite>): (r: seq<MovieResult>)
    ensures |r| == |movies|
    ensures forall i :: 0 <= i < |movies| ==>
      r[i].title == movies[i].Title && r[i].imdbID == movies[i].imdbID &&
      r[i].year == movies[i].Year && r[i].poster == movies[i].Poster &&
      (r[i].isFavorite <==> HasId(favorites, movies[i].imdbID))
  {
    if movies == [] then []
    else
      var m := movies[0];
      var isFavorite := Find(favorites, m.imdbID) != None;
      [MovieResult(m.Title, m.imdbID, m.Year, m.Poster, isFavorite)] + Annotate(movies[1..], favorites)
  }

  const OMDB_KEYED_URL := "http://www.omdbapi.com/?apikey="
  const DEMO_API_KEY := "demo123"

  /** The service's own base URL: the public OMDb endpoint with the environment's API key, or
      the built-in "demo123" when the key is unset or empty. */
  function ServiceBaseUrl(env: Omdb.Config): (r: string)
    ensures Omdb.IsSet(env, Omdb.API_KEY_SETTING) ==> r == OMDB_KEYED_URL + env[Omdb.API_KEY_SETTING]
    ensures !Omdb.IsSet(env, Omdb.API_KEY_SETTING) ==> r == OMDB_KEYED_URL + DEMO_API_KEY
  {
    OMDB_KEYED_URL + (if Omdb.IsSet(env, Omdb.API_KEY_SETTING) then env[Omdb.API_KEY_SETTING] else DEMO_API_KEY)
  }

  /** The request URL of the service's own search: the title goes in as it is, not encoded. */
  function ServiceSearchUrl(baseUrl: string, title: string, page: int): string {
    baseUrl + "&s=" + title + "&plot=full&page=" + JsText.IntToString(page)
  }

  /** The raw title is the text between "&s=" and "&plot=full&page=": every character of it,
      '&' included, reaches the request URL as it is. */
  lemma ServiceSearchUrlKeepsRawTitle(baseUrl: string, title: string, page: int)
    ensures ServiceSearchUrl(baseUrl, title, page) ==
      baseUrl + "&s=" + (title + ("&plot=full&page=" + JsText.IntToString(page)))
    ensures forall i :: 0 <= i < |title| ==>
      ServiceSearchUrl(baseUrl, title, page)[|baseUrl| + 3 + i] == title[i]
  {
    JsText.ConcatAssociative(baseUrl + "&s=" + title, "&plot=full&page=", JsText.IntToString(page));
    JsText.ConcatAssociative(baseUrl + "&s=", title, "&plot=full&page=" + JsText.IntToString(page));
  }

  /** `data.Error` as the service tests it: present and not the empty text. */
  predicate HasErrorText(data: Omdb.OmdbSearchResponse) {
    data.Error.Some? && data.Error.value != ""
  }

  /** The service's own searchMovies. There is no validation and no error handling: whatever
      the request raises is passed on. `Response === false` never holds, because OMDb sends
      the text "False", so only an Error text gives the empty page; otherwise the hits (or
      none) and the provider's total (or "0"). */
  function ServiceSearch(baseUrl: string, title: string, page: int, get: string -> Omdb.AxiosOutcome):
    (r: Result<Omdb.SearchPage, Omdb.Failure>)
    ensures get(ServiceSearchUrl(baseUrl, title, page)).Raised? ==>
      r == Failure(get(ServiceSearchUrl(baseUrl, title, page)).failure)
    ensures get(ServiceSearchUrl(baseUrl, title, page)).Received? ==>
      var data := get(ServiceSearchUrl(baseUrl, title, page)).data;
      && r.Success?
      && (HasErrorText(data) ==> r.value == Omdb.SearchPage([], "0"))
      && (!HasErrorText(data) ==> r.value.movies == data.Search.GetOr([]))
      && (!HasErrorText(data) && data.totalResults.Some? && data.totalResults.value != "" ==>
            r.value.totalResults == data.totalResults.value)
      && (!HasErrorText(data) && (data.totalResults.None? || data.totalResults.value == "") ==>
            r.value.totalResults == "0")
  {
    match get(ServiceSearchUrl(baseUrl, title, page))
    case Raised(failure) => Failure(failure)
    case Received(data) =>
      if HasErrorText(data) then Success(Omdb.SearchPage([], "0"))
      else
        var movies := match data.Search case Some(hits) => hits case None => [];
        var total := match data.totalResults case Some(t) => if t != "" then t else "0" case None => "0";
        Success(Omdb.SearchPage(movies, total))
  }

  /** Against the OMDb adapter, given the same response body for a valid search: the two
      agree unless OMDb answers Response "False" without an Error text, and then the service
      passes on hits the adapter drops. */
  lemma ServiceSearchAgainstAdapter(svc: Omdb.OmdbService, title: string, page: int,
                                   data: Omdb.OmdbSearchResponse,
                                   get1: string -> Omdb.AxiosOutcome, get2: string -> Omdb.AxiosOutcome)
    requires Omdb.ValidSearch(title, JsValues.Int(page))
    requires get1(ServiceSearchUrl(svc.baseUrl, title, page)) == Omdb.Received(data)
    requires get2(Omdb.SearchRequestUrl(svc, title, page)) == Omdb.Received(data)
    ensures var ours := ServiceSearch(svc.baseUrl, title, page, get1);
      var theirs := Omdb.SearchMovies(svc, title, JsValues.Int(page), get2);
      && ours.Success? && theirs.Success?
      && (data.Response != "False" || HasErrorText(data) ==> ours.value == theirs.value)
      && (data.Response == "False" && !HasErrorText(data) && data.Search.GetOr([]) != [] ==>
            ours.value.movies != theirs.value.movies)
  {
  }

  class MoviesService {
    var favorites: seq<Favorite>
    var persisted: Option<seq<Favorite>>
    const baseUrl: string

    /** The constructor runs loadFavorites: the saved list when the file exists, [] when it
        does not. `file` is the parsed content of data/favorites.json; `env` is the process
        environment, which sets the base URL. */
    constructor(file: Option<seq<Favorite>>, env: Omdb.Config)
      ensures favorites == file.GetOr([]) && persisted == file
      ensures baseUrl == ServiceBaseUrl(env)
    {
      favorites := match file case Some(saved) => saved case None => [];
      persisted := file;
      baseUrl := ServiceBaseUrl(env);
    }

    /** saveFavorites: the file now holds the current list. */
    method SaveFavorites()
      modifies this
      ensures favorites == old(favorites) && persisted == Some(favorites)
    {
      persisted := Some(favorites);
    }

    /** addToFavorites. A favourite whose id is already listed is refused with an
        HttpException that is returned, not thrown (the test file expects a throw), and
        nothing changes; otherwise it is appended and the list is saved. */
    method AddToFavorites(movie: Favorite) returns (r: Result<string, HttpException>)
      modifies this
      ensures HasId(old(favorites), movie.imdbID) ==>
        r == Failure(ALREADY_FAVORITE) && favorites == old(favorites) && persisted == old(persisted)
      ensures !HasId(old(favorites), movie.imdbID) ==>
        r == Success(ADDED) && favorites == old(favorites) + [movie] && persisted == Some(favorites)
      ensures UniqueIds(old(favorites)) ==> UniqueIds(favorites)
    {
      var found := Find(favorites, movie.imdbID);
      if found.Some? {
        return Failure(ALREADY_FAVORITE);
      }
      if UniqueIds(favorites) {
        AppendKeepsUnique(favorites, movie);
      }
      favorites := favorites + [movie];
      SaveFavorites();
      return Success(ADDED);
    }

    /** removeFromFavorites. An id that is not listed is refused with an HttpException that
        is returned, not thrown, and nothing changes; otherwise every favourite with that id
        is filtered out and the list is saved. */
    method RemoveFromFavorites(movieId: string) returns (r: Result<string, HttpException>)
      modifies this
      ensures !HasId(old(favorites), movieId) ==>
        r == Failure(NOT_A_FAVORITE) && favorites == old(favorites) && persisted == old(persisted)
      ensures HasId(old(favorites), movieId) ==>
        r == Success(REMOVED) && favorites == WithoutId(old(favorites), movieId) &&
        !HasId(favorites, movieId) && persisted == Some(favorites)
      ensures HasId(old(favorites), movieId) && UniqueIds(old(favorites)) ==>
        exists k :: 0 <= k < |old(favorites)| && old(favorites)[k].imdbID == movieId &&
          favorites == old(favorites)[..k] + old(favorites)[k + 1..]
      ensures UniqueIds(old(favorites)) ==> UniqueIds(favorites)
    {
      var found := Find(favorites, movieId);
      if found.None? {
        return Failure(NOT_A_FAVORITE);
      }
      var before := favorites;
      var k :| 0 <= k < |before| && before[k].imdbID == movieId;
      WithoutIdMembers(before, movieId);
      if UniqueIds(before) {
        WithoutIdSplice(before, movieId, k);
        RemovalKeepsUnique(before, k);
      }
      favorites := WithoutId(before, movieId);
      assert !HasId(favorites, movieId) by {
        assert forall i :: 0 <= i < |favorites| ==> favorites[i] in favorites;
      }
      SaveFavorites();
      return Success(REMOVED);
    }

    /** getFavorites. An empty store throws NOT_FOUND whatever the page (the test file expects
        an empty page instead); otherwise one page of the list, for any page (the test file
        expects page 0 to be refused). The one caller passes the default page size 10; the
        model asks for a positive one. */
    function GetFavorites(page: int := DEFAULT_PAGE, pageSize: int := DEFAULT_PAGE_SIZE): (r: Result<FavoritesPage, HttpException>)
      reads this
      requires pageSize >= 1
      ensures |favorites| == 0 <==> r == Failure(NO_FAVORITES)
      ensures |favorites| > 0 ==> r == Success(ListPage(favorites, page, pageSize))
    {
      if |favorites| == 0 then Failure(NO_FAVORITES) else Success(ListPage(favorites, page, pageSize))
    }

    /** getMovieByTitle: the service's own search, then its hits in their order, each
        annotated with whether its id is a favourite, their number, and the provider's
        totalResults. A failure of the search is passed on. */
    function GetMovieByTitle(title: string, page: int, get: string -> Omdb.AxiosOutcome):
      (r: Result<SearchResults, Omdb.Failure>)
      reads this
      ensures ServiceSearch(baseUrl, title, page, get).Failure? ==>
        r == Failure(ServiceSearch(baseUrl, title, page, get).error)
      ensures ServiceSearch(baseUrl, title, page, get).Success? ==>
        var found := ServiceSearch(baseUrl, title, page, get).value;
        && r.Success?
        && r.value.movies == Annotate(found.movies, favorites)
        && r.value.count == |r.value.movies| == |found.movies|
        && r.value.totalResults == found.totalResults
    {
      match ServiceSearch(baseUrl, title, page, get)
      case Failure(e) => Failure(e)
      case Success(found) =>
        var formatted := Annotate(found.movies, favorites);
        Success(SearchResults(formatted, |formatted|, found.totalResults))
    }
  }
}
