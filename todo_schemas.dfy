/** The request and response schemas of the todo routes, written as
    predicates over JSON values, and the body validators that the framework
    runs before a handler (a failure there is a 400 reply). */
module TodoSchemas {
  import opened Wrappers
  import opened Json
  import opened JsBuiltins
  import opened TodoTypes

  /** `minLength` and `maxLength` of a todo's text. */
  const TextMinLength := 1
  const TextMaxLength := 500

  /** `todoSchema`: an object whose `id` is a number, `text` and `createdAt`
      strings and `completed` a boolean, all four required. */
  predicate IsTodoJson(j: Json) {
    && j.JObj?
    && "id" in j.fields && j.fields["id"].JNum?
    && "text" in j.fields && j.fields["text"].JStr?
    && "completed" in j.fields && j.fields["completed"].JBool?
    && "createdAt" in j.fields && j.fields["createdAt"].JStr?
  }

  /** `todoListSchema`: an array of todo objects. */
  predicate IsTodoListJson(j: Json) {
    j.JArr? && forall i :: 0 <= i < |j.items| ==> IsTodoJson(j.items[i])
  }

  /** `baseErrorResponseSchema`: an object with a number `statusCode` and
      strings `error` and `message`, all required. The not-found schema is
      this one with a description added, so it accepts the same values. */
  predicate IsErrorJson(j: Json) {
    && j.JObj?
    && "statusCode" in j.fields && j.fields["statusCode"].JNum?
    && "error" in j.fields && j.fields["error"].JStr?
    && "message" in j.fields && j.fields["message"].JStr?
  }

  /** `createTodoSchema`: an object with a required string `text` of 1 to 500
      characters. Nothing is trimmed: whitespace counts. */
  predicate IsCreateBody(body: Json) {
    && body.JObj?
    && "text" in body.fields && body.fields["text"].JStr?
    && TextMinLength <= |body.fields["text"].s| <= TextMaxLength
  }

  /** `updateTodoSchema`: an object with a required boolean `completed`. */
  predicate IsUpdateBody(body: Json) {
    && body.JObj?
    && "completed" in body.fields && body.fields["completed"].JBool?
  }

  /** `todoParamsSchema`: the `id` parameter is an integer of at least 1. */
  predicate IsIdParam(id: Number) {
    IsInteger(id) && id.value >= 1.0
  }

  /** Validation of a POST body: the text to create, or the message of the
      first rule it breaks (checked in the validator's order: type, required
      property, property type, length bounds). */
  function ValidateCreateBody(body: Json): (r: Result<string, string>)
    ensures r.Success? <==> IsCreateBody(body)
    ensures r.Success? ==> body.fields["text"] == JStr(r.value)
    ensures r.Failure? ==> r.error != ""
  {
    if !body.JObj? then Failure("body must be object")
    else if "text" !in body.fields then Failure("body must have required property 'text'")
    else if !body.fields["text"].JStr? then Failure("body/text must be string")
    else if |body.fields["text"].s| < TextMinLength then Failure("body/text must NOT have fewer than 1 characters")
    else if |body.fields["text"].s| > TextMaxLength then Failure("body/text must NOT have more than 500 characters")
    else Success(body.fields["text"].s)
  }

  /** Validation of a PATCH body: the requested completion flag, or the
      message of the first rule it breaks. */
  function ValidateUpdateBody(body: Json): (r: Result<bool, string>)
    ensures r.Success? <==> IsUpdateBody(body)
    ensures r.Success? ==> body.fields["completed"] == JBool(r.value)
    ensures r.Failure? ==> r.error != ""
  {
    if !body.JObj? then Failure("body must be object")
    else if "completed" !in body.fields then Failure("body must have required property 'completed'")
    else if !body.fields["completed"].JBool? then Failure("body/completed must be boolean")
    else Success(body.fields["completed"].b)
  }

  /** Every serialised todo, and every serialised list of todos, has the
      response shape the routes declare. */
  lemma {:induction false} TodoJsonConforms(ts: seq<Todo>)
    ensures forall t :: t in ts ==> IsTodoJson(TodoJson(t))
    ensures IsTodoListJson(TodoListJson(ts))
  {
    var j := TodoListJson(ts);
    forall i | 0 <= i < |j.items|
      ensures IsTodoJson(j.items[i])
    {
      assert j.items[i] == TodoJson(ts[i]);
    }
  }

  /** The create schema does no trimming: a body whose text is whitespace
      only passes it whenever its length is within bounds. */
  lemma WhitespaceTextPassesCreateSchema(text: string)
    requires Blank(text) && TextMinLength <= |text| <= TextMaxLength
    ensures IsCreateBody(JObj(map["text" := JStr(text)]))
    ensures ValidateCreateBody(JObj(map["text" := JStr(text)])) == Success(text)
  {
  }

  /** A missing text and a 501-character text are both rejected. */
  lemma CreateSchemaRejects(long: string)
    requires |long| == 501
    ensures ValidateCreateBody(JObj(map[])).Failure?
    ensures ValidateCreateBody(JObj(map["text" := JStr(long)])).Failure?
  {
  }
}
