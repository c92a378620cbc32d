/** The examples of frontend/src/utils/__tests__/urlUtils.test.ts, stated over the model. */
module UrlUtilsExamples {
  import JsText
  import JsValues
  import UrlEncoding
  import opened Wrappers
  import opened UrlUtils

  lemma BuildSearchUrlRoot()
    ensures BuildSearchUrl("", 1) == "/"
  {
    BuildSearchUrlIsRoot("", 1);
    JsText.TrimOfTrimmed("");
  }

  lemma BuildSearchUrlQueryOnly(query: string)
    requires query == "test query"
    ensures BuildSearchUrl(query, 1) == "/?q=test+query"
  {
    TestQueryTrimmed(query);
    FormEncodeTestQuery(query);
    UrlOfQuery(query, query, "test+query", 1);
    QueryOnlyText();
  }

  lemma BuildSearchUrlQueryAndPage(query: string, page: int)
    requires query == "test query" && page == 2
    ensures BuildSearchUrl(query, page) == "/?q=test+query&page=2"
  {
    TestQueryTrimmed(query);
    FormEncodeTestQuery(query);
    assert JsText.IntToString(2) == "2";
    UrlOfQueryAndPage(query, query, "test+query", page, "2");
    PageTwoText();
  }

  /** Proof helpers: the pieces of each expected URL put together. */
  lemma QueryOnlyText()
    ensures "/?q=" + "test+query" == "/?q=test+query"
  {
  }

  lemma TestOnlyText()
    ensures "/?q=" + "test" == "/?q=test"
  {
  }

  lemma PageTwoText()
    ensures "/?q=" + "test+query" + "&page=" + "2" == "/?q=test+query&page=2"
  {
  }

  lemma BuildSearchUrlTrims(query: string)
    requires query == "  test  "
    ensures BuildSearchUrl(query, 1) == "/?q=test"
  {
    PaddedTestTrimmed(query);
    UrlEncoding.FormEncodeOfSafe("test");
    UrlOfQuery(query, "test", "test", 1);
    TestOnlyText();
  }

  lemma BuildSearchUrlFirstPage(query: string)
    requires query == "test"
    ensures BuildSearchUrl(query, DEFAULT_PAGE) == "/?q=test"
  {
    JsText.TrimOfTrimmed(query);
    UrlEncoding.FormEncodeOfSafe(query);
    UrlOfQuery(query, query, query, DEFAULT_PAGE);
    TestOnlyText();
  }

  /** Proof helper: the URL of a query that trims to `q`, encoded as `e`, on the first page. */
  lemma UrlOfQuery(query: string, q: string, e: string, page: int)
    requires JsText.Trim(query) == q && q != "" && UrlEncoding.FormEncode(q) == e && page <= DEFAULT_PAGE
    ensures BuildSearchUrl(query, page) == "/?q=" + e
  {
    BuildSearchUrlText(query, page);
  }

  /** Proof helper: the same past the first page, whose number is written `d`. */
  lemma UrlOfQueryAndPage(query: string, q: string, e: string, page: int, d: string)
    requires JsText.Trim(query) == q && q != "" && UrlEncoding.FormEncode(q) == e
    requires page > DEFAULT_PAGE && JsText.IntToString(page) == d
    ensures BuildSearchUrl(query, page) == "/?q=" + e + "&page=" + d
  {
    BuildSearchUrlText(query, page);
    QueryAndPageRegrouped(e, d);
  }

  /** Proof helper: the text of a query and a page, regrouped. */
  lemma QueryAndPageRegrouped(e: string, d: string)
    ensures "/?" + (("q=" + e) + "&" + ("page=" + d)) == "/?q=" + e + "&page=" + d
  {
    assert "/?" + "q=" == "/?q=";
    assert "&" + "page=" == "&page=";
  }

  /** Proof helper: "test query" has no white space at its ends. */
  lemma TestQueryTrimmed(query: string)
    requires query == "test query"
    ensures JsText.Trim(query) == query
  {
    JsText.TrimOfTrimmed(query);
  }

  /** Proof helper: "  test  " trims to "test". */
  lemma PaddedTestTrimmed(query: string)
    requires query == "  test  "
    ensures JsText.Trim(query) == "test"
  {
    var rest := "test  ";
    assert query == "  " + rest;
    JsText.TrimStartSkipsWhiteSpace("  ", rest);
    assert rest[..|rest| - 1] == "test ";
    assert "test "[..4] == "test";
    assert JsText.TrimEnd("test") == "test";
  }

  lemma FormEncodeTestQuery(query: string)
    requires query == "test query"
    ensures UrlEncoding.FormEncode(query) == "test+query"
  {
    UrlEncoding.FormEncodeWords("test", "query");
    assert "test" + " " + "query" == query;
  }

  lemma ParseSearchParamsQueryAndPage(ps: ParamList)
    requires ps == [(QUERY_PARAM, "test"), (PAGE_PARAM, "2")]
    ensures ParseSearchParams(ps) == SearchParams("test", 2)
  {
    assert GetParam(ps, QUERY_PARAM) == Some("test");
    assert GetParam(ps, PAGE_PARAM) == Some("2");
    JsText.ParseIntRoundTrip(2);
    assert JsText.IntToString(2) == "2";
  }

  lemma ParseSearchParamsQueryOnly(ps: ParamList)
    requires ps == [(QUERY_PARAM, "test")]
    ensures ParseSearchParams(ps) == SearchParams("test", 1)
  {
    assert GetParam(ps, QUERY_PARAM) == Some("test");
  }

  lemma ParseSearchParamsEmpty()
    ensures ParseSearchParams([]) == SearchParams("", 1)
  {
  }

  lemma ParseSearchParamsRejectsWord(ps: ParamList)
    requires ps == [(QUERY_PARAM, "test"), (PAGE_PARAM, "invalid")]
    ensures ParseSearchParams(ps) == SearchParams("test", 1)
  {
    assert GetParam(ps, QUERY_PARAM) == Some("test");
    assert GetParam(ps, PAGE_PARAM) == Some("invalid");
    assert JsText.ParseInt("invalid").None? by {
      assert JsText.TrimStart("invalid") == "invalid";
    }
  }

  lemma ParseSearchParamsRejectsNegative(ps: ParamList)
    requires ps == [(QUERY_PARAM, "test"), (PAGE_PARAM, "-1")]
    ensures ParseSearchParams(ps) == SearchParams("test", 1)
  {
    assert GetParam(ps, QUERY_PARAM) == Some("test");
    assert GetParam(ps, PAGE_PARAM) == Some("-1");
    JsText.ParseIntRoundTrip(-1);
    assert JsText.IntToString(-1) == "-1";
  }

  lemma IsValidPageExamples()
    ensures IsValidPage(JsValues.Int(1), 10) && IsValidPage(JsValues.Int(10), 10)
    ensures !IsValidPage(JsValues.Int(0), 10) && !IsValidPage(JsValues.Int(-1), 10)
    ensures !IsValidPage(JsValues.Int(11), 10)
    ensures !IsValidPage(JsValues.Frac(1), 10) && !IsValidPage(JsValues.Frac(2), 10)
  {
  }
}
