/** frontend/src/utils/urlUtils.ts: the search coordinates (query and page) kept in the
    address bar as the `q` and `page` parameters. */
module UrlUtils {
  import opened Wrappers
  import JsText
  import JsValues
  import UrlEncoding

  const QUERY_PARAM := "q"
  const PAGE_PARAM := "page"
  const DEFAULT_PAGE := 1
  const MIN_PAGE := 1

  /** The name/value list of a URLSearchParams object, in order. */
  type ParamList = seq<(string, string)>

  datatype SearchParams = SearchParams(query: string, page: int)

  predicate HasName(ps: ParamList, name: string) {
    exists i :: 0 <= i < |ps| && ps[i].0 == name
  }

  /** URLSearchParams.prototype.get: the value of the first pair named `name`, null (None) if none. */
  function GetParam(ps: ParamList, name: string): (r: Option<string>)
    ensures r.None? <==> !HasName(ps, name)
    ensures r.Some? ==> exists i :: (0 <= i < |ps| && ps[i] == (name, r.value) &&
      forall j :: 0 <= j < i ==> ps[j].0 != name)
  {
    if ps == [] then None
    else if ps[0].0 == name then
      assert ps[0] == (name, ps[0].1);
      Some(ps[0].1)
    else
      var r := GetParam(ps[1..], name);
      assert forall i :: 1 <= i < |ps| ==> ps[1..][i - 1] == ps[i];
      assert HasName(ps[1..], name) ==> HasName(ps, name);
      r
  }

  /** URLSearchParams.prototype.set: the first pair named `name` takes the value and the
      others named so are removed; when there is none, the pair is appended. */
  function SetParam(ps: ParamList, name: string, value: string): ParamList {
    if HasName(ps, name) then ReplaceFirst(ps, name, value, false) else ps + [(name, value)]
  }

  /** Walks `ps`, giving the first pair named `name` the value `value` (unless `seen`) and
      dropping every later pair of that name. */
  function ReplaceFirst(ps: ParamList, name: string, value: string, seen: bool): ParamList {
    if ps == [] then []
    else if ps[0].0 == name then
      (if seen then [] else [(name, value)]) + ReplaceFirst(ps[1..], name, value, true)
    else [ps[0]] + ReplaceFirst(ps[1..], name, value, seen)
  }

  /** After set, get of that name gives the new value and get of every other name is as before. */
  lemma SetParamGet(ps: ParamList, name: string, value: string)
    ensures GetParam(SetParam(ps, name, value), name) == Some(value)
    ensures forall n :: n != name ==> GetParam(SetParam(ps, name, value), n) == GetParam(ps, n)
  {
    if HasName(ps, name) {
      ReplaceFirstGet(ps, name, value, false);
    } else {
      AppendKeepsOthers(ps, name, value);
    }
  }

  lemma {:induction false} ReplaceFirstGet(ps: ParamList, name: string, value: string, seen: bool)
    ensures var r := ReplaceFirst(ps, name, value, seen);
      && (!seen && HasName(ps, name) ==> GetParam(r, name) == Some(value))
      && (seen ==> !HasName(r, name))
      && (forall n :: n != name ==> GetParam(r, n) == GetParam(ps, n))
  {
    if ps == [] {
    } else if ps[0].0 == name {
      ReplaceFirstGet(ps[1..], name, value, true);
      var rest := ReplaceFirst(ps[1..], name, value, true);
      var r := (if seen then [] else [(name, value)]) + rest;
      assert forall n :: n != name ==> GetParam(ps[1..], n) == GetParam(ps, n);
      assert !seen ==> r[0] == (name, value);
      assert seen ==> r == rest;
    } else {
      ReplaceFirstGet(ps[1..], name, value, seen);
      var rest := ReplaceFirst(ps[1..], name, value, seen);
      var r := [ps[0]] + rest;
      assert r[1..] == rest;
      assert !seen && HasName(ps, name) ==> HasName(ps[1..], name) by {
        if !seen && HasName(ps, name) {
          var i :| 0 <= i < |ps| && ps[i].0 == name;
          assert ps[1..][i - 1] == ps[i];
        }
      }
    }
  }

  lemma AppendKeepsOthers(ps: ParamList, name: string, value: string)
    requires !HasName(ps, name)
    ensures GetParam(ps + [(name, value)], name) == Some(value)
    ensures forall n :: n != name ==> GetParam(ps + [(name, value)], n) == GetParam(ps, n)
  {
    var r := ps + [(name, value)];
    assert r[|ps|] == (name, value);
    forall n | n != name ensures GetParam(r, n) == GetParam(ps, n) {
      AppendOther(ps, (name, value), n);
    }
  }

  lemma {:induction false} AppendOther(ps: ParamList, pair: (string, string), n: string)
    requires pair.0 != n
    ensures GetParam(ps + [pair], n) == GetParam(ps, n)
  {
    if ps != [] {
      assert (ps + [pair])[1..] == ps[1..] + [pair];
      AppendOther(ps[1..], pair, n);
    }
  }

  /** The parameters buildSearchUrl sets on an empty URLSearchParams: `q` to the trimmed
      query when that is not empty, then `page` to the page number past the first page. */
  function SearchParamList(query: string, page: int): ParamList {
    var trimmedQuery := JsText.Trim(query);
    var withQuery := if trimmedQuery != "" then SetParam([], QUERY_PARAM, trimmedQuery) else [];
    if page > DEFAULT_PAGE then SetParam(withQuery, PAGE_PARAM, JsText.IntToString(page))
    else withQuery
  }

  /** buildSearchUrl: "/?" followed by the serialized parameters, or "/" when there are none. */
  function BuildSearchUrl(query: string, page: int): (r: string)
    ensures r != [] && r[0] == '/'
  {
    var serialized := UrlEncoding.SerializePairs(SearchParamList(query, page));
    if serialized != "" then "/?" + serialized else "/"
  }

  /** The parameter list holds `q` only for a query that is not blank and `page` only past
      the first page, in that order. */
  lemma SearchParamListShape(query: string, page: int)
    ensures SearchParamList(query, page) ==
      (if JsText.Trim(query) != "" then [(QUERY_PARAM, JsText.Trim(query))] else []) +
      (if page > DEFAULT_PAGE then [(PAGE_PARAM, JsText.IntToString(page))] else [])
  {
    var q := JsText.Trim(query);
    var digits := JsText.IntToString(page);
    if q != "" {
      SetOnEmpty(QUERY_PARAM, q);
      if page > DEFAULT_PAGE {
        SetPageAfterQuery(q, digits);
      } else {
        assert [(QUERY_PARAM, q)] + [] == [(QUERY_PARAM, q)];
      }
    } else if page > DEFAULT_PAGE {
      SetOnEmpty(PAGE_PARAM, digits);
      assert [] + [(PAGE_PARAM, digits)] == [(PAGE_PARAM, digits)];
    }
  }

  lemma SetOnEmpty(name: string, value: string)
    ensures SetParam([], name, value) == [(name, value)]
  {
    assert !HasName([], name);
  }

  lemma SetPageAfterQuery(q: string, digits: string)
    ensures SetParam([(QUERY_PARAM, q)], PAGE_PARAM, digits) == [(QUERY_PARAM, q), (PAGE_PARAM, digits)]
  {
    assert !HasName([(QUERY_PARAM, q)], PAGE_PARAM);
  }

  /** What URLSearchParams.get reads back from the parameters of a search URL. */
  lemma SearchParamListGet(query: string, page: int)
    ensures GetParam(SearchParamList(query, page), QUERY_PARAM) ==
      (if JsText.Trim(query) != "" then Some(JsText.Trim(query)) else None)
    ensures GetParam(SearchParamList(query, page), PAGE_PARAM) ==
      (if page > DEFAULT_PAGE then Some(JsText.IntToString(page)) else None)
  {
    SearchParamListShape(query, page);
  }

  /** parseSearchParams: the query defaults to "", the page to 1 unless the `page` parameter
      starts (after white space and a sign) with digits that read as a positive number, which
      is then the page. An empty `page` parameter reads as no digits. */
  function ParseSearchParams(ps: ParamList): (r: SearchParams)
    ensures r.page >= MIN_PAGE
    ensures r.query == GetParam(ps, QUERY_PARAM).GetOr("")
    ensures GetParam(ps, PAGE_PARAM).None? ==> r.page == DEFAULT_PAGE
    ensures GetParam(ps, PAGE_PARAM).Some? ==> var parsed := JsText.ParseInt(GetParam(ps, PAGE_PARAM).value);
      && (parsed.Some? && parsed.value > 0 ==> r.page == parsed.value)
      && (parsed.None? || parsed.value <= 0 ==> r.page == DEFAULT_PAGE)
  {
    var query := match GetParam(ps, QUERY_PARAM) case Some(q) => if q != "" then q else "" case None => "";
    var pageParam := GetParam(ps, PAGE_PARAM);
    var page :=
      if pageParam.Some? && pageParam.value != "" then
        match JsText.ParseInt(pageParam.value)
        case Some(parsed) => if parsed > 0 then parsed else DEFAULT_PAGE
        case None => DEFAULT_PAGE
      else DEFAULT_PAGE;
    SearchParams(query, page)
  }

  /** Reading back the parameters of a search URL gives the trimmed query and the page. */
  lemma ParseBuiltParams(query: string, page: int)
    requires page >= MIN_PAGE
    ensures ParseSearchParams(SearchParamList(query, page)) == SearchParams(JsText.Trim(query), page)
  {
    SearchParamListGet(query, page);
    if page > DEFAULT_PAGE {
      JsText.ParseIntRoundTrip(page);
    }
  }

  /** isValidPage: an integer between 1 and the number of pages. */
  function IsValidPage(page: JsValues.JsNumber, totalPages: int): (r: bool)
    ensures r <==> page.Int? && MIN_PAGE <= page.value <= totalPages
  {
    JsValues.IsInteger(page) && JsValues.AtLeast(page, MIN_PAGE) && JsValues.AtMost(page, totalPages)
  }

  /** The serialized text of the parameters: `q=` and the encoded query, then `page=` and
      the page number, joined by '&'. */
  lemma SerializedQuery(q: string)
    ensures UrlEncoding.SerializePairs([(QUERY_PARAM, q)]) == "q=" + UrlEncoding.FormEncode(q)
  {
    UrlEncoding.FormEncodeOfSafe(QUERY_PARAM);
  }

  lemma SerializedPage(digits: string)
    requires forall i :: 0 <= i < |digits| ==> JsText.IsDigit(digits[i])
    ensures UrlEncoding.SerializePairs([(PAGE_PARAM, digits)]) == "page=" + digits
  {
    UrlEncoding.FormEncodeOfSafe(PAGE_PARAM);
    UrlEncoding.FormEncodeOfSafe(digits);
  }

  lemma SerializedQueryAndPage(q: string, digits: string)
    ensures UrlEncoding.SerializePairs([(QUERY_PARAM, q), (PAGE_PARAM, digits)]) ==
      UrlEncoding.SerializePairs([(QUERY_PARAM, q)]) + "&" + UrlEncoding.SerializePairs([(PAGE_PARAM, digits)])
  {
    assert [(QUERY_PARAM, q), (PAGE_PARAM, digits)][..1] == [(QUERY_PARAM, q)];
  }

  /** The whole URL of a search: `q=` and the encoded trimmed query when that is not blank,
      then `page=` and the page number past the first page, joined by '&'. */
  lemma BuildSearchUrlText(query: string, page: int)
    ensures var q := JsText.Trim(query);
      var qText := "q=" + UrlEncoding.FormEncode(q);
      var pText := "page=" + JsText.IntToString(page);
      BuildSearchUrl(query, page) ==
        if q != "" && page > DEFAULT_PAGE then "/?" + (qText + "&" + pText)
        else if q != "" then "/?" + qText
        else if page > DEFAULT_PAGE then "/?" + pText
        else "/"
  {
    var digits := JsText.IntToString(page);
    var q := JsText.Trim(query);
    SearchParamListShape(query, page);
    if page > DEFAULT_PAGE {
      assert forall i :: 0 <= i < |digits| ==> JsText.IsDigit(digits[i]);
      SerializedPage(digits);
      if q != "" {
        SerializedQuery(q);
        SerializedQueryAndPage(q, digits);
      }
    } else if q != "" {
      SerializedQuery(q);
    }
  }

  /** The URL is the bare "/" exactly when the query is blank and the page is the first. */
  lemma BuildSearchUrlIsRoot(query: string, page: int)
    ensures BuildSearchUrl(query, page) == "/" <==> JsText.Trim(query) == "" && page <= DEFAULT_PAGE
  {
    BuildSearchUrlText(query, page);
  }
}
