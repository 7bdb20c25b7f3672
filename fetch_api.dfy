/**
 * The error records and the response classification of the shared fetch
 * wrapper: getErrorData, isApiErrorData, the [error, result] response pair
 * and what API (and GET, which only fixes the method) makes of a fetch.
 */
module FetchApi {
  import opened Common
  import opened JsString

  const GenericErrorTitle: string := "An unexpected error occurred"
  // Written as two literals so that each is small enough to inspect character by character.
  const GenericErrorDesc: string := "Unable to retrieve information." + " Please try again later."

  // ---------------------------------------------------------------------
  // JavaScript values
  // ---------------------------------------------------------------------

  /**
   * A JavaScript value as it reaches this code: a parsed JSON body, the
   * text of a body, undefined, or a thrown Error object (a DOMException
   * when isDomException holds).
   */
  datatype JsValue =
    | Undefined
    | Null
    | Bool(b: bool)
    | Number(n: real)
    | String(s: string)
    | Array(elems: seq<JsValue>)
    | Object(props: map<string, JsValue>)
    | ErrorObject(isDomException: bool, name: string)

  /** JavaScript truthiness (JSON yields no NaN, so a number is falsy only at zero). */
  predicate Truthy(v: JsValue) {
    match v
    case Undefined => false
    case Null => false
    case Bool(b) => b
    case Number(n) => n != 0.0
    case String(s) => s != ""
    case _ => true
  }

  // ---------------------------------------------------------------------
  // Error records
  // ---------------------------------------------------------------------

  /** ErrorData: a title and a description (getErrorData always sets both). */
  datatype ErrorData = ErrorData(error: string, errorDescription: string)

  /** ApiErrorData<E>; None is a property that is absent or undefined. */
  datatype ApiErrorData<E> = ApiErrorData(isAborted: Option<bool>, errorData: Option<E>, isErrorHtml: Option<bool>)

  /** `${value || fallback}`: the fallback when the value is absent or empty. */
  function OrDefault(value: Option<string>, fallback: string): (r: string)
    ensures value.Some? && value.value != "" ==> r == value.value
    ensures value.None? || value.value == "" ==> r == fallback
  {
    if value.None? || value.value == "" then fallback else value.value
  }

  /** `${value || fallback}`.replace(/_/g, ' '): the text shown for one field. */
  function Humanised(value: Option<string>, fallback: string): (r: string)
    ensures '_' !in r
  {
    ReplaceAll(OrDefault(value, fallback), '_', ' ')
  }

  /** A fallback without underscores is shown as it is. */
  lemma HumanisedFallback(value: Option<string>, fallback: string)
    requires value.None? || value.value == ""
    requires '_' !in fallback
    ensures Humanised(value, fallback) == fallback
  {
    ReplaceAllAbsent(fallback, '_', ' ');
  }

  /** getErrorData(isAborted, error, errorDescription). */
  function GetErrorData(isAborted: Option<bool>, error: Option<string>, errorDescription: Option<string>): (r: ApiErrorData<ErrorData>)
    ensures r.isAborted == isAborted && r.errorData.Some? && r.isErrorHtml.None?
    ensures '_' !in r.errorData.value.error && '_' !in r.errorData.value.errorDescription
  {
    ApiErrorData(isAborted,
      Some(ErrorData(Humanised(error, GenericErrorTitle), Humanised(errorDescription, GenericErrorDesc))),
      None)
  }

  /** A missing or empty title falls back to the generic title. */
  lemma GetErrorDataDefaultTitle(isAborted: Option<bool>, error: Option<string>, errorDescription: Option<string>)
    requires error.None? || error.value == ""
    ensures GetErrorData(isAborted, error, errorDescription).errorData.value.error == GenericErrorTitle
  {
    HumanisedFallback(error, GenericErrorTitle);
  }

  /** A missing or empty description falls back to the generic description. */
  lemma GetErrorDataDefaultDescription(isAborted: Option<bool>, error: Option<string>, errorDescription: Option<string>)
    requires errorDescription.None? || errorDescription.value == ""
    ensures GetErrorData(isAborted, error, errorDescription).errorData.value.errorDescription == GenericErrorDesc
  {
    assert '_' !in "Unable to retrieve information." && '_' !in " Please try again later.";
    HumanisedFallback(errorDescription, GenericErrorDesc);
  }

  /**
   * A given title keeps its length and every character, except that each
   * underscore becomes a space; one without underscores is kept as it is.
   */
  lemma GetErrorDataKeepsText(isAborted: Option<bool>, error: string, errorDescription: Option<string>)
    requires error != ""
    ensures var t := GetErrorData(isAborted, Some(error), errorDescription).errorData.value.error;
      |t| == |error| &&
      (forall i :: 0 <= i < |error| ==> t[i] == (if error[i] == '_' then ' ' else error[i])) &&
      ('_' !in error ==> t == error)
  {
    if '_' !in error {
      ReplaceAllAbsent(error, '_', ' ');
    }
  }

  /**
   * A given description keeps its length and every character, except that
   * each underscore becomes a space; one without underscores is kept as it is.
   */
  lemma GetErrorDataKeepsDescription(isAborted: Option<bool>, error: Option<string>, errorDescription: string)
    requires errorDescription != ""
    ensures var t := GetErrorData(isAborted, error, Some(errorDescription)).errorData.value.errorDescription;
      |t| == |errorDescription| &&
      (forall i :: 0 <= i < |errorDescription| ==>
        t[i] == (if errorDescription[i] == '_' then ' ' else errorDescription[i])) &&
      ('_' !in errorDescription ==> t == errorDescription)
  {
    if '_' !in errorDescription {
      ReplaceAllAbsent(errorDescription, '_', ' ');
    }
  }

  // ---------------------------------------------------------------------
  // Recognising error records
  // ---------------------------------------------------------------------

  /** isApiErrorData(error): a non-null object with an is_aborted property. */
  predicate IsApiErrorData(v: JsValue) {
    v.Object? && "is_aborted" in v.props
  }

  function OptionalBoolJs(b: Option<bool>): JsValue {
    if b.Some? then Bool(b.value) else Undefined
  }

  /**
   * An error record as the object the code builds: every producer writes
   * the is_aborted property, possibly with the value undefined. The catch
   * block also writes error_data and is_error_html, error_data being
   * undefined for a thrown string; here a key is present only when its
   * value is set, which no reader of these records can tell apart.
   */
  function ApiErrorJs(e: ApiErrorData<JsValue>): (v: JsValue)
    ensures v.Object? && "is_aborted" in v.props && v.props["is_aborted"] == OptionalBoolJs(e.isAborted)
    ensures e.errorData.Some? ==> "error_data" in v.props && v.props["error_data"] == e.errorData.value
    ensures e.isErrorHtml.Some? ==> "is_error_html" in v.props && v.props["is_error_html"] == Bool(e.isErrorHtml.value)
  {
    var base := map["is_aborted" := OptionalBoolJs(e.isAborted)];
    var withData := if e.errorData.Some? then base["error_data" := e.errorData.value] else base;
    Object(if e.isErrorHtml.Some? then withData["is_error_html" := Bool(e.isErrorHtml.value)] else withData)
  }

  function ErrorDataJs(d: ErrorData): JsValue {
    Object(map["error" := String(d.error), "error_description" := String(d.errorDescription)])
  }

  /** getErrorData's result as an object. */
  function GetErrorDataJs(isAborted: Option<bool>, error: Option<string>, errorDescription: Option<string>): JsValue {
    var e := GetErrorData(isAborted, error, errorDescription);
    ApiErrorJs(ApiErrorData(e.isAborted, Some(ErrorDataJs(e.errorData.value)), e.isErrorHtml))
  }

  /**
   * Every record getErrorData builds passes the guard, even when isAborted
   * is omitted, and its is_aborted reads back as the argument.
   */
  lemma GetErrorDataRecognised(isAborted: Option<bool>, error: Option<string>, errorDescription: Option<string>)
    ensures IsApiErrorData(GetErrorDataJs(isAborted, error, errorDescription))
    ensures GetErrorDataJs(isAborted, error, errorDescription).props["is_aborted"] == OptionalBoolJs(isAborted)
  {
  }

  /**
   * What the guard turns away: the server's own error body when it has no
   * is_aborted property, a thrown Error, an HTML string, null and undefined.
   */
  lemma GuardRejectsForeignValues(v: JsValue)
    requires v.Object? ==> "is_aborted" !in v.props
    ensures !IsApiErrorData(v)
  {
  }

  // ---------------------------------------------------------------------
  // The [error, result] pair
  // ---------------------------------------------------------------------

  /** Response<Result, ErrorResponse> = [ApiErrorData, undefined] | [undefined, Result]. */
  datatype Response<R, E> = Response(errorSlot: Option<ApiErrorData<E>>, resultSlot: Option<R>)

  /** The pair has exactly one defined slot. */
  predicate ExactlyOneSlot<R, E>(r: Response<R, E>) {
    r.errorSlot.Some? != r.resultSlot.Some?
  }

  // ---------------------------------------------------------------------
  // API: what one fetch comes to
  // ---------------------------------------------------------------------

  /** A promise that settled: fulfilled with a value or rejected with a thrown value. */
  datatype Settled<T> = Fulfilled(value: T) | Rejected(thrown: JsValue)

  /**
   * What the network and the body readers did: fetch itself rejected, or a
   * response arrived with its ok flag and content-type header, and reading
   * the body as JSON or as text would settle as given.
   */
  datatype FetchOutcome =
    | FetchRejected(thrown: JsValue)
    | Fetched(ok: bool, contentType: Option<string>, json: Settled<JsValue>, text: Settled<string>)

  /** The content-type header lower-cased, or "" when there is none. */
  function ContentType(header: Option<string>): (r: string)
    ensures header.None? ==> r == ""
    ensures header.Some? ==> r == ToLowerAscii(header.value)
  {
    if header.Some? then ToLowerAscii(header.value) else ""
  }

  /** returnData: the JSON body, the text body, or undefined, by content type. */
  function ReturnData(header: Option<string>, json: Settled<JsValue>, text: Settled<string>): Settled<JsValue> {
    var contentType := ContentType(header);
    if Contains(contentType, "application/json") then json
    else if Contains(contentType, "text/html") then
      (if text.Fulfilled? then Fulfilled(String(text.value)) else Rejected(text.thrown))
    else Fulfilled(Undefined)
  }

  /**
   * The try block: Fulfilled with the data it returns, or Rejected with
   * what reaches the catch block (including `throw returnData`).
   */
  function TryBlock(outcome: FetchOutcome): Settled<JsValue> {
    match outcome
    case FetchRejected(thrown) => Rejected(thrown)
    case Fetched(ok, header, json, text) =>
      var returnData := ReturnData(header, json, text);
      if returnData.Rejected? then returnData
      else if ok && Truthy(returnData.value) then returnData
      else Rejected(returnData.value)
  }

  /** The catch block: `aborted` is controller?.signal.aborted when the error is caught. */
  function CatchBlock(error: JsValue, aborted: bool): (e: ApiErrorData<JsValue>)
    ensures e.isAborted.Some?
  {
    if aborted || (error.ErrorObject? && error.isDomException && error.name == "AbortError") then
      ApiErrorData(Some(true), None, None)
    else if error.String? then
      ApiErrorData(Some(false), None, Some(true))
    else
      ApiErrorData(Some(false), Some(error), Some(false))
  }

  /** API(type, url, ...) and GET(url, ...): the response pair one fetch settles to. */
  function Api(outcome: FetchOutcome, aborted: bool): (r: Response<JsValue, JsValue>)
    ensures ExactlyOneSlot(r)
    ensures r.resultSlot.Some? ==> Truthy(r.resultSlot.value)
    ensures r.errorSlot.Some? ==> IsApiErrorData(ApiErrorJs(r.errorSlot.value))
  {
    var settled := TryBlock(outcome);
    if settled.Fulfilled? then Response(None, Some(settled.value))
    else Response(Some(CatchBlock(settled.thrown, aborted)), None)
  }

  /**
   * The call succeeds exactly when a response arrived with ok set and its
   * body, read by content type, is truthy; the result is that body.
   */
  lemma ApiSuccessIff(outcome: FetchOutcome, aborted: bool)
    ensures Api(outcome, aborted).resultSlot.Some? <==>
      outcome.Fetched? && outcome.ok &&
      var data := ReturnData(outcome.contentType, outcome.json, outcome.text);
      data.Fulfilled? && Truthy(data.value)
    ensures Api(outcome, aborted).resultSlot.Some? ==>
      Api(outcome, aborted).resultSlot.value
        == ReturnData(outcome.contentType, outcome.json, outcome.text).value
  {
  }

  /** A successful call is not turned into an abort by the signal. */
  lemma SuccessIgnoresSignal(outcome: FetchOutcome)
    requires Api(outcome, false).resultSlot.Some?
    ensures Api(outcome, true) == Api(outcome, false)
  {
  }

  /** Any failure while the signal is aborted reports only is_aborted: true. */
  lemma AbortedSignalWins(outcome: FetchOutcome)
    requires Api(outcome, true).errorSlot.Some?
    ensures Api(outcome, true).errorSlot.value == ApiErrorData(Some(true), None, None)
  {
  }

  /**
   * A DOMException named AbortError reaching the catch block, from fetch or
   * from reading the body, counts as an abort whatever the signal says.
   */
  lemma AbortErrorIsAbort(outcome: FetchOutcome, aborted: bool)
    requires TryBlock(outcome) == Rejected(ErrorObject(true, "AbortError"))
    ensures Api(outcome, aborted) == Response(Some(ApiErrorData(Some(true), None, None)), None)
  {
  }

  /**
   * Any other thrown value that is not a string (an error object, a JSON
   * error body, undefined) is passed on as error_data, with is_aborted and
   * is_error_html both false, when the signal is not aborted.
   */
  lemma OtherThrownBecomesErrorData(outcome: FetchOutcome)
    requires TryBlock(outcome).Rejected?
    requires !TryBlock(outcome).thrown.String?
    requires TryBlock(outcome).thrown != ErrorObject(true, "AbortError")
    ensures Api(outcome, false).errorSlot
      == Some(ApiErrorData(Some(false), Some(TryBlock(outcome).thrown), Some(false)))
  {
  }

  /**
   * A thrown string (an HTML page, or a body that parsed to a JSON
   * string) is reported as an HTML error with no error_data.
   */
  lemma ThrownStringIsHtmlError(outcome: FetchOutcome)
    requires TryBlock(outcome).Rejected? && TryBlock(outcome).thrown.String?
    ensures Api(outcome, false).errorSlot == Some(ApiErrorData(Some(false), None, Some(true)))
  {
  }

  /** An HTML page with an error status comes back as an HTML error. */
  lemma HtmlErrorPage(header: string, page: string, json: Settled<JsValue>)
    requires !Contains(ToLowerAscii(header), "application/json")
    requires Contains(ToLowerAscii(header), "text/html")
    ensures Api(Fetched(false, Some(header), json, Fulfilled(page)), false).errorSlot
      == Some(ApiErrorData(Some(false), None, Some(true)))
  {
  }

  /**
   * A JSON error body that is not a string is passed on as error_data,
   * with is_aborted and is_error_html both false.
   */
  lemma JsonErrorBody(header: string, body: JsValue, text: Settled<string>)
    requires Contains(ToLowerAscii(header), "application/json")
    requires !body.String? && !(body.ErrorObject? && body.isDomException && body.name == "AbortError")
    ensures Api(Fetched(false, Some(header), Fulfilled(body), text), false).errorSlot
      == Some(ApiErrorData(Some(false), Some(body), Some(false)))
  {
  }

  /**
   * A content type that is neither JSON nor HTML yields undefined, so
   * even an ok response ends as an error whose error_data is undefined.
   */
  lemma UnknownContentTypeFails(ok: bool, header: Option<string>, json: Settled<JsValue>, text: Settled<string>)
    requires !Contains(ContentType(header), "application/json") && !Contains(ContentType(header), "text/html")
    ensures Api(Fetched(ok, header, json, text), false)
      == Response(Some(ApiErrorData(Some(false), Some(Undefined), Some(false))), None)
  {
  }

  /** The content type is compared case-insensitively: lower-casing the header first changes nothing. */
  lemma ContentTypeCaseInsensitive(ok: bool, header: string, json: Settled<JsValue>, text: Settled<string>, aborted: bool)
    ensures Api(Fetched(ok, Some(header), json, text), aborted)
      == Api(Fetched(ok, Some(ToLowerAscii(header)), json, text), aborted)
  {
    ToLowerAsciiIdempotent(header);
  }
}
