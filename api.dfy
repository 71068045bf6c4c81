/** The client's HTTP functions. `fetch` is abstracted: each function takes
    the outcome of the one request it sends and maps it onto the
    `{ data, error }` result, without throwing. */
module Api {
  import opened Wrappers
  import opened Json
  import opened JsBuiltins
  import opened TodoTypes

  const NetworkErrorMessage := "Network error. Please try again."
  const UnexpectedResponseMessage := "Unexpected response from server."

  /** What `fetch` settles to: a rejection (no response at all), or a
      response with its status, status text and the result of reading its
      body as JSON (None when `response.json()` rejects). */
  datatype FetchOutcome =
    | NetworkFailure
    | Response(status: int, statusText: string, body: Option<Json>)
  {
    /** `response.ok`: a status in the range 200 to 299. */
    predicate Ok()
      requires Response?
    {
      200 <= status <= 299
    }
  }

  /** A request as `fetch` is called with it. */
  datatype HttpRequest = HttpRequest(verb: string, url: string, jsonContentType: bool, body: Option<Json>)

  const TodosPath := "/api/todos"

  /** The path of one todo: `/api/todos/${id}`. */
  function TodoPath(id: int): (path: string)
    ensures |path| > |TodosPath| + 1
    ensures path[..|TodosPath|] == TodosPath && path[|TodosPath|] == '/'
    ensures path[|TodosPath| + 1..] == DecimalString(id)
  {
    TodosPath + "/" + DecimalString(id)
  }

  function GetTodosRequest(): (r: HttpRequest)
    ensures r.verb == "GET" && r.url == TodosPath && r.body.None? && !r.jsonContentType
  {
    HttpRequest("GET", TodosPath, false, None)
  }

  function CreateTodoRequest(text: string): (r: HttpRequest)
    ensures r.verb == "POST" && r.url == TodosPath && r.jsonContentType
    ensures r.body == Some(JObj(map["text" := JStr(text)]))
  {
    HttpRequest("POST", TodosPath, true, Some(JObj(map["text" := JStr(text)])))
  }

  function UpdateTodoRequest(id: int, completed: bool): (r: HttpRequest)
    ensures r.verb == "PATCH" && r.url == TodoPath(id) && r.jsonContentType
    ensures r.body == Some(JObj(map["completed" := JBool(completed)]))
  {
    HttpRequest("PATCH", TodoPath(id), true, Some(JObj(map["completed" := JBool(completed)])))
  }

  function DeleteTodoRequest(id: int): (r: HttpRequest)
    ensures r.verb == "DELETE" && r.body.None? && !r.jsonContentType
    ensures r.url == TodoPath(id)
    ensures |r.url| > |TodosPath| + 1 && r.url[|TodosPath| + 1..] == DecimalString(id)
  {
    HttpRequest("DELETE", TodoPath(id), false, None)
  }

  /** `body.message` when the body parsed and its `message` is a
      non-empty string (the truthy strings); None otherwise. */
  function BodyMessage(body: Option<Json>): (m: Option<string>)
    ensures m.Some? ==> m.value != "" && body.Some? && Property(body.value, "message") == Some(JStr(m.value))
    ensures m.None? && body.Some? && Property(body.value, "message").Some? ==>
      !Truthy(Property(body.value, "message").value) || !Property(body.value, "message").value.JStr?
  {
    if body.None? then None
    else match Property(body.value, "message")
      case Some(JStr(message)) => if message != "" then Some(message) else None
      case _ => None
  }

  /** `extractError`: the body's message first, then the status text, then
      the generic message. The result is never empty. */
  function ExtractError(statusText: string, body: Option<Json>): (e: string)
    ensures e != ""
    ensures BodyMessage(body).Some? ==> e == BodyMessage(body).value
    ensures BodyMessage(body).None? && statusText != "" ==> e == statusText
    ensures BodyMessage(body).None? && statusText == "" ==> e == UnexpectedResponseMessage
  {
    match BodyMessage(body)
    case Some(message) => message
    case None => FallbackError(statusText)
  }

  /** `response.statusText || 'Unexpected response from server.'`. */
  function FallbackError(statusText: string): (e: string)
    ensures e != ""
    ensures statusText != "" ==> e == statusText
    ensures statusText == "" ==> e == UnexpectedResponseMessage
  {
    if statusText != "" then statusText else UnexpectedResponseMessage
  }

  /** `parseJson`: the parsed body as data, or the generic error when the
      body does not parse. A body that parses to `null` gives no data and
      no error. */
  function ParseJson(body: Option<Json>): (r: ApiResult<Json>)
    ensures body.None? <==> r.error.Some?
    ensures body.None? ==> r == ApiResult(None, Some(UnexpectedResponseMessage))
    ensures body.Some? ==> r.data.Some? == (body.value != JNull)
    ensures r.data.Some? ==> body == Some(r.data.value)
  {
    match body
    case None => ApiResult(None, Some(UnexpectedResponseMessage))
    case Some(JNull) => ApiResult(None, None)
    case Some(j) => ApiResult(Some(j), None)
  }

  /** `getTodos`, `createTodo(text)` and `updateTodo(id, completed)` once
      the request they send (`GetTodosRequest()`, `CreateTodoRequest(text)`,
      `UpdateTodoRequest(id, completed)`) has settled: the three functions
      differ only in the request. */
  function ReadResponse(outcome: FetchOutcome): (r: ApiResult<Json>)
    ensures outcome.NetworkFailure? ==> r == ApiResult(None, Some(NetworkErrorMessage))
    ensures outcome.Response? && !outcome.Ok() ==>
      r == ApiResult(None, Some(ExtractError(outcome.statusText, outcome.body)))
    ensures outcome.Response? && outcome.Ok() ==> r == ParseJson(outcome.body)
  {
    match outcome
    case NetworkFailure => ApiResult(None, Some(NetworkErrorMessage))
    case Response(_, statusText, body) =>
      if !outcome.Ok() then ApiResult(None, Some(ExtractError(statusText, body)))
      else ParseJson(body)
  }

  /** `deleteTodo(id)`, given the outcome of `DeleteTodoRequest(id)`: an ok
      response gives neither data nor error, without reading the body. */
  function DeleteTodo(outcome: FetchOutcome): (r: ApiResult<()>)
    ensures r.data.None?
    ensures outcome.NetworkFailure? ==> r.error == Some(NetworkErrorMessage)
    ensures outcome.Response? && !outcome.Ok() ==>
      r.error == Some(ExtractError(outcome.statusText, outcome.body))
    ensures outcome.Response? && outcome.Ok() ==> r.error.None?
  {
    match outcome
    case NetworkFailure => ApiResult(None, Some(NetworkErrorMessage))
    case Response(_, statusText, body) =>
      if !outcome.Ok() then ApiResult(None, Some(ExtractError(statusText, body)))
      else ApiResult(None, None)
  }

  /** Whatever the outcome, exactly one of data and error is set, and a
      set error is not empty, except for an ok body that parses to `null`. */
  lemma ExactlyOneOfDataAndError(outcome: FetchOutcome)
    requires !(outcome.Response? && outcome.Ok() && outcome.body == Some(JNull))
    ensures var r := ReadResponse(outcome);
      (r.data.Some? <==> r.error.None?) && (r.error.Some? ==> r.error.value != "")
  {
  }

  /** The status code never rewrites the message: two failed responses with
      the same status text and body give the same error, whatever their
      codes (a 404 and a 500 alike). */
  lemma ErrorIgnoresStatus(status1: int, status2: int, statusText: string, body: Option<Json>)
    requires !(200 <= status1 <= 299) && !(200 <= status2 <= 299)
    ensures ReadResponse(Response(status1, statusText, body)) == ReadResponse(Response(status2, statusText, body))
    ensures DeleteTodo(Response(status1, statusText, body)) == DeleteTodo(Response(status2, statusText, body))
  {
  }

  /** A failed response whose body carries a non-empty message reports that
      message, in all four functions. */
  lemma MessagePassesThrough(status: int, statusText: string, message: string)
    requires !(200 <= status <= 299) && message != ""
    ensures var outcome := Response(status, statusText, Some(JObj(map["message" := JStr(message)])));
      && ReadResponse(outcome).error == Some(message)
      && DeleteTodo(outcome).error == Some(message)
  {
    var j := JObj(map["message" := JStr(message)]);
    assert Property(j, "message") == Some(JStr(message));
  }

  /** A failed response without a usable message reports the status text,
      or the generic message when that is empty too. */
  lemma ErrorFallsBack(status: int, statusText: string, body: Option<Json>)
    requires !(200 <= status <= 299)
    requires body.Some? ==> Property(body.value, "message").None?
    ensures ReadResponse(Response(status, statusText, body)).error ==
      Some(if statusText != "" then statusText else UnexpectedResponseMessage)
  {
  }

  /** `deleteTodo` does not read the body of an ok response: any body, or
      none, gives the same result. */
  lemma DeleteIgnoresBody(status: int, statusText: string, body1: Option<Json>, body2: Option<Json>)
    requires 200 <= status <= 299
    ensures DeleteTodo(Response(status, statusText, body1)) == ApiResult(None, None)
    ensures DeleteTodo(Response(status, statusText, body1)) == DeleteTodo(Response(status, statusText, body2))
  {
  }
}
