/** frontend/src/utils/apiErrorHandler.ts: turning a failed HTTP response, or anything a
    request threw, into the Error the frontend shows. */
module ApiErrorHandler {
  import opened Wrappers
  import JsText
  import opened JsValues

  /** Member names of the error bodies the backend sends. */
  const MESSAGE_MEMBER := "message"
  const ERROR_MEMBER := "error"
  const STATUS_CODE_MEMBER := "statusCode"
  const MESSAGE_SEPARATOR := ", "

  /** A fetch Response as the handler reads it. `body` is what `response.json()` resolves
      to, None when it rejects because the body is not JSON. */
  datatype Response = Response(status: int, statusText: string, body: Option<JsonValue>)

  /** Response.ok: a status in the range 200 to 299. */
  predicate Ok(response: Response) {
    200 <= response.status <= 299
  }

  /** "Request failed: " followed by the status text. */
  function RequestFailed(statusText: string): (m: string)
    ensures |m| > |statusText| && m[|m| - |statusText|..] == statusText
  {
    "Request failed: " + statusText
  }

  /** `errorData` once the `try` block is over: the decoded body, or an object whose `error`
      is the request-failed text when the body is not JSON. */
  function ErrorData(response: Response): (v: JsonValue)
    ensures response.body.Some? ==> v == response.body.value
    ensures response.body.None? ==> Get(v, ERROR_MEMBER) == Some(JStr(RequestFailed(response.statusText)))
  {
    match response.body
    case Some(data) => data
    case None => JObj([(ERROR_MEMBER, JStr(RequestFailed(response.statusText)))])
  }

  /** `message` of handleApiError: the elements of a `message` array joined by ", ", and
      otherwise `errorData.message || errorData.error`. */
  function MessageOf(data: JsonValue): (r: Option<JsonValue>)
    requires !data.JNull?
    ensures Get(data, MESSAGE_MEMBER).Some? && Get(data, MESSAGE_MEMBER).value.JArr? ==> r.Some? && r.value.JStr?
    ensures Truthy(Get(data, MESSAGE_MEMBER)) && !Get(data, MESSAGE_MEMBER).value.JArr? ==> r == Get(data, MESSAGE_MEMBER)
    ensures !Truthy(Get(data, MESSAGE_MEMBER)) ==> r == Get(data, ERROR_MEMBER)
  {
    match Get(data, MESSAGE_MEMBER)
    case Some(JArr(items)) => Some(JStr(JoinValues(JArr(items), items, MESSAGE_SEPARATOR)))
    case _ => Or(Get(data, MESSAGE_MEMBER), Get(data, ERROR_MEMBER))
  }

  /** handleApiError: the Error it throws (every path throws). A body that decodes to null
      makes the property read `errorData.message` throw a TypeError instead. The message is
      the chosen text, or the request-failed text when that is missing or empty; the body's
      `statusCode` is attached exactly when it is truthy. */
  function HandleApiError(response: Response): (e: JsError)
    ensures e.TypeError? <==> response.body == Some(JNull)
    ensures !e.TypeError? ==> e.Error?
    ensures e.Error? ==> (e.statusCode ==
      if Truthy(Get(ErrorData(response), STATUS_CODE_MEMBER)) then Get(ErrorData(response), STATUS_CODE_MEMBER) else None)
  {
    var data := ErrorData(response);
    if data.JNull? then TypeError
    else
      var message := Or(MessageOf(data), Some(JStr(RequestFailed(response.statusText))));
      var statusCode := Get(data, STATUS_CODE_MEMBER);
      Error(ToJsString(message.value), if Truthy(statusCode) then statusCode else None)
  }

  /** The elements of a `message` array of strings, joined by ", ", when that text is not empty. */
  lemma ArrayMessageJoined(response: Response, items: seq<JsonValue>)
    requires response.body.Some? && response.body.value.JObj?
    requires Get(response.body.value, MESSAGE_MEMBER) == Some(JArr(items))
    requires forall i :: 0 <= i < |items| ==> items[i].JStr?
    requires JsText.Join(Texts(items), MESSAGE_SEPARATOR) != ""
    ensures HandleApiError(response).Error?
    ensures HandleApiError(response).message == JsText.Join(Texts(items), MESSAGE_SEPARATOR)
  {
    JoinValuesOfStrings(JArr(items), items, MESSAGE_SEPARATOR);
  }

  /** A `message` string that is not empty is the message, whatever `error` says. */
  lemma TextMessageFirst(response: Response, text: string)
    requires response.body.Some? && response.body.value.JObj?
    requires Get(response.body.value, MESSAGE_MEMBER) == Some(JStr(text)) && text != ""
    ensures HandleApiError(response).Error?
    ensures HandleApiError(response).message == text
  {
  }

  /** Without a usable `message` (missing, or falsy and not an array), a non-empty `error`
      string is the message. */
  lemma ErrorFieldSecond(response: Response, text: string)
    requires response.body.Some? && response.body.value.JObj?
    requires !Truthy(Get(response.body.value, MESSAGE_MEMBER))
    requires Get(response.body.value, ERROR_MEMBER) == Some(JStr(text)) && text != ""
    ensures HandleApiError(response).Error?
    ensures HandleApiError(response).message == text
  {
  }

  /** An empty `message` array is joined into the empty string, which is falsy, so the
      request-failed text is used and the `error` member is not consulted. */
  lemma EmptyMessageArrayIgnoresError(response: Response)
    requires response.body.Some? && response.body.value.JObj?
    requires Get(response.body.value, MESSAGE_MEMBER) == Some(JArr([]))
    ensures HandleApiError(response).Error?
    ensures HandleApiError(response).message == RequestFailed(response.statusText)
  {
  }

  /** A body that is not JSON gives the request-failed text and no statusCode. */
  lemma UnreadableBody(response: Response)
    requires response.body.None?
    ensures HandleApiError(response) == Error(RequestFailed(response.statusText), None)
  {
    var text := RequestFailed(response.statusText);
    var data := ErrorData(response);
    assert data == JObj([(ERROR_MEMBER, JStr(text))]);
    LookupOfSingle(ERROR_MEMBER, JStr(text), MESSAGE_MEMBER);
    LookupOfSingle(ERROR_MEMBER, JStr(text), STATUS_CODE_MEMBER);
    assert ERROR_MEMBER != MESSAGE_MEMBER by {
      assert |ERROR_MEMBER| != |MESSAGE_MEMBER|;
    }
    assert ERROR_MEMBER != STATUS_CODE_MEMBER by {
      assert |ERROR_MEMBER| != |STATUS_CODE_MEMBER|;
    }
    assert Get(data, MESSAGE_MEMBER) == None;
    assert Get(data, STATUS_CODE_MEMBER) == None;
    assert MessageOf(data) == Some(JStr(text));
  }

  /** A body without `message` or `error` text (or one that is not an object) gives the
      request-failed text. */
  lemma NoUsableText(response: Response)
    requires response.body.Some? && !response.body.value.JNull?
    requires !Truthy(Get(response.body.value, MESSAGE_MEMBER))
    requires !Truthy(Get(response.body.value, ERROR_MEMBER))
    ensures HandleApiError(response).Error?
    ensures HandleApiError(response).message == RequestFailed(response.statusText)
  {
  }

  /** Whatever a `try` block threw: an Error instance, or some other value (a string, null). */
  datatype Thrown = ThrownError(error: JsError) | ThrownValue

  /** handleNetworkError: an Error is passed on as it is, anything else becomes an Error with
      the default message. */
  function HandleNetworkError(thrown: Thrown, defaultMessage: string): (e: JsError)
    ensures thrown.ThrownError? ==> e == thrown.error
    ensures thrown.ThrownValue? ==> e == Error(defaultMessage, None)
  {
    match thrown
    case ThrownError(error) => error
    case ThrownValue => Error(defaultMessage, None)
  }
}
