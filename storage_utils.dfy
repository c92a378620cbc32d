/** frontend/src/utils/storageUtils.ts: the last search (query and page) kept in the browser's
    sessionStorage under one key, so that a reload can restore it. */
module StorageUtils {
  import opened Wrappers
  import JsText
  import opened JsValues

  /** STORAGE_KEYS.SEARCH_STATE. */
  const SEARCH_STATE_KEY := "movie-search-state"
  /** PAGINATION.DEFAULT_PAGE. */
  const DEFAULT_PAGE := 1
  /** The member names of the stored object. */
  const QUERY_MEMBER := "query"
  const PAGE_MEMBER := "page"

  /** The object getSearchState returns. Its members hold whatever `parsed.query || ''` and
      `parsed.page || DEFAULT_PAGE` evaluate to, which need not be a string and a number when
      the stored text was written by someone else. */
  datatype SearchState = SearchState(query: JsonValue, page: JsonValue)

  const DefaultState := SearchState(JStr(""), JNum(DEFAULT_PAGE))

  /** JSON.parse and JSON.stringify, which the model takes as given: `parse` gives None where
      JSON.parse throws a SyntaxError. */
  datatype JsonCodec = JsonCodec(parse: string -> Option<JsonValue>, stringify: JsonValue -> string)

  /** What the code relies on of the two: parsing the text of a value gives the value back,
      and that text is never the empty string. */
  ghost predicate Faithful(codec: JsonCodec) {
    forall v :: codec.parse(codec.stringify(v)) == Some(v) && codec.stringify(v) != ""
  }

  /** The browser's sessionStorage: text items by key. `accepting` is false when setItem
      throws (the quota is exhausted or storage is disabled). */
  class SessionStorage {
    var items: map<string, string>
    var accepting: bool

    constructor(accepting: bool)
      ensures items == map[] && this.accepting == accepting
    {
      items := map[];
      this.accepting := accepting;
    }

    /** sessionStorage.getItem: the item, null (None) when there is none. */
    function GetItem(key: string): (r: Option<string>)
      reads this
      ensures r.None? <==> key !in items
      ensures r.Some? ==> r.value == items[key]
    {
      if key in items then Some(items[key]) else None
    }

    /** sessionStorage.setItem: stores the item, or changes nothing when storage refuses it
        (the exception is caught by the caller). */
    method SetItem(key: string, value: string)
      modifies this
      ensures accepting == old(accepting)
      ensures old(accepting) ==> items == old(items)[key := value]
      ensures !old(accepting) ==> items == old(items)
    {
      if accepting {
        items := items[key := value];
      }
    }
  }

  /** The `try` block of getSearchState on the item read: text that is missing or empty,
      text JSON.parse rejects, and text that parses to null (whose `.query` throws a TypeError)
      all give the default state; otherwise each member falls back to its default when it is
      missing or falsy. */
  function ReadState(stored: Option<string>, codec: JsonCodec): (r: SearchState)
    ensures r.query == JStr("") || Truthy(Some(r.query))
    ensures r.page == JNum(DEFAULT_PAGE) || Truthy(Some(r.page))
    ensures (stored.None? || stored.value == "") ==> r == DefaultState
    ensures stored.Some? && stored.value != "" && codec.parse(stored.value).None? ==> r == DefaultState
  {
    match stored
    case None => DefaultState
    case Some(text) =>
      if text == "" then DefaultState
      else
        match codec.parse(text)
        case None => DefaultState
        case Some(parsed) =>
          if parsed.JNull? then DefaultState
          else
            var query := Or(Get(parsed, QUERY_MEMBER), Some(JStr("")));
            var page := Or(Get(parsed, PAGE_MEMBER), Some(JNum(DEFAULT_PAGE)));
            SearchState(query.value, page.value)
  }

  /** getSearchState. A null `session` stands for rendering on the server, where `window` is
      undefined. */
  function GetSearchState(session: SessionStorage?, codec: JsonCodec): (r: SearchState)
    reads session
    ensures session == null ==> r == DefaultState
    ensures session != null && SEARCH_STATE_KEY !in session.items ==> r == DefaultState
    ensures session != null ==> r == ReadState(session.GetItem(SEARCH_STATE_KEY), codec)
  {
    if session == null then DefaultState else ReadState(session.GetItem(SEARCH_STATE_KEY), codec)
  }

  /** The object saveSearchState stores: the trimmed query and the page. */
  function StateRecord(query: string, page: int): (r: JsonValue)
    ensures r.JObj? && |r.members| == 2 && r.members[0].0 == QUERY_MEMBER && r.members[1].0 == PAGE_MEMBER
  {
    JObj([(QUERY_MEMBER, JStr(JsText.Trim(query))), (PAGE_MEMBER, JNum(page))])
  }

  /** The stored object's `query` is the trimmed query and its `page` the page. */
  lemma StateRecordMembers(query: string, page: int)
    ensures Get(StateRecord(query, page), QUERY_MEMBER) == Some(JStr(JsText.Trim(query)))
    ensures Get(StateRecord(query, page), PAGE_MEMBER) == Some(JNum(page))
  {
    assert QUERY_MEMBER != PAGE_MEMBER by {
      assert |QUERY_MEMBER| != |PAGE_MEMBER|;
    }
    LookupOfPair(QUERY_MEMBER, JStr(JsText.Trim(query)), PAGE_MEMBER, JNum(page));
  }

  /** saveSearchState: on the server nothing happens; in the browser the JSON text of the
      trimmed query and the page is stored under the key, unless storage refuses it, in which
      case the error is swallowed and nothing changes. */
  method SaveSearchState(session: SessionStorage?, codec: JsonCodec, query: string, page: int)
    modifies session
    ensures session != null ==> session.accepting == old(session.accepting)
    ensures session != null && old(session.accepting) ==>
      session.items == old(session.items)[SEARCH_STATE_KEY := codec.stringify(StateRecord(query, page))]
    ensures session != null && !old(session.accepting) ==> session.items == old(session.items)
  {
    if session == null {
      return;
    }
    session.SetItem(SEARCH_STATE_KEY, codec.stringify(StateRecord(query, page)));
  }

  /** Reading back what saveSearchState stored gives the trimmed query, and the page unless
      it was 0, which is falsy and so reads back as the first page. A negative page is read
      back as it was. */
  lemma ReadBackSaved(codec: JsonCodec, query: string, page: int)
    requires Faithful(codec)
    ensures ReadState(Some(codec.stringify(StateRecord(query, page))), codec) ==
      SearchState(JStr(JsText.Trim(query)), JNum(if page != 0 then page else DEFAULT_PAGE))
  {
    var v := StateRecord(query, page);
    StateRecordMembers(query, page);
    var text := codec.stringify(v);
    assert codec.parse(text) == Some(v) && text != "";
    var q := JsText.Trim(query);
    assert Or(Get(v, QUERY_MEMBER), Some(JStr(""))) == Some(JStr(q));
    assert Or(Get(v, PAGE_MEMBER), Some(JNum(DEFAULT_PAGE))) ==
      Some(JNum(if page != 0 then page else DEFAULT_PAGE));
    assert ReadState(Some(text), codec) == SearchState(JStr(q), JNum(if page != 0 then page else DEFAULT_PAGE));
  }

  /** A state saved to a storage that accepts it is the state read afterwards, and saving to a
      storage that refuses it leaves what was read before. */
  method SaveThenGet(session: SessionStorage, codec: JsonCodec, query: string, page: int)
    requires Faithful(codec)
    modifies session
    ensures old(session.accepting) ==> (GetSearchState(session, codec) ==
      SearchState(JStr(JsText.Trim(query)), JNum(if page != 0 then page else DEFAULT_PAGE)))
    ensures !old(session.accepting) ==> GetSearchState(session, codec) == old(GetSearchState(session, codec))
  {
    SaveSearchState(session, codec, query, page);
    ReadBackSaved(codec, query, page);
  }

  /** A stored object gives back its truthy `query` and `page` unchanged, whatever their
      type; a member that is missing or falsy ('' , 0, false, null) takes its default. */
  lemma ReadStoredObject(codec: JsonCodec, text: string, v: JsonValue)
    requires text != "" && codec.parse(text) == Some(v) && v.JObj?
    ensures ReadState(Some(text), codec).query ==
      (if Truthy(Get(v, QUERY_MEMBER)) then Get(v, QUERY_MEMBER).value else JStr(""))
    ensures ReadState(Some(text), codec).page ==
      (if Truthy(Get(v, PAGE_MEMBER)) then Get(v, PAGE_MEMBER).value else JNum(DEFAULT_PAGE))
  {
  }

  /** Text that parses to something other than an object (a number, a string, an array)
      leaves both members undefined, so both take their defaults. */
  lemma ReadNonObject(codec: JsonCodec, text: string)
    requires text != ""
    requires codec.parse(text).Some? && !codec.parse(text).value.JObj?
    ensures ReadState(Some(text), codec) == DefaultState
  {
  }
}
