/** The client and the server together: the requests the client functions
    send pass the route's gates as intended, and each reply a route can send
    is read by the client functions into the result the hook acts on. */
module EndToEnd {
  import opened Wrappers
  import opened Json
  import opened JsBuiltins
  import opened TodoTypes
  import opened TodoSchemas
  import opened TodoRoutes
  import opened Api

  /** The todo a JSON value describes: an object of the todo shape whose
      `id` is an integer. */
  function DecodeTodo(j: Json): (r: Option<Todo>)
    ensures r.Some? ==> IsTodoJson(j)
  {
    if IsTodoJson(j) && j.fields["id"].n == j.fields["id"].n.Floor as real then
      Some(Todo(j.fields["id"].n.Floor, j.fields["text"].s, j.fields["completed"].b, j.fields["createdAt"].s))
    else None
  }

  /** The todos a JSON array describes, in order, when every item does. */
  function DecodeTodoList(j: Json): (r: Option<seq<Todo>>)
    ensures r.Some? ==> IsTodoListJson(j) && |r.value| == |j.items|
  {
    if j.JArr? && forall i :: 0 <= i < |j.items| ==> DecodeTodo(j.items[i]).Some? then
      Some(seq(|j.items|, i requires 0 <= i < |j.items| && DecodeTodo(j.items[i]).Some? => DecodeTodo(j.items[i]).value))
    else None
  }

  /** Decoding inverts the serialisation of a todo, and a value that
      decodes and has no other properties is that serialisation. */
  lemma DecodeTodoJson(t: Todo, j: Json)
    ensures DecodeTodo(TodoJson(t)) == Some(t)
    ensures DecodeTodo(j).Some? && j.fields.Keys == {"id", "text", "completed", "createdAt"} ==>
      TodoJson(DecodeTodo(j).value) == j
  {
    var tj := TodoJson(t);
    assert tj.fields["id"] == JNum(t.id as real);
    if DecodeTodo(j).Some? && j.fields.Keys == {"id", "text", "completed", "createdAt"} {
      var back := TodoJson(DecodeTodo(j).value);
      assert back.fields.Keys == j.fields.Keys;
      assert back.fields == j.fields;
    }
  }

  /** Decoding inverts the serialisation of a list of todos. */
  lemma DecodeTodoListJson(ts: seq<Todo>)
    ensures DecodeTodoList(TodoListJson(ts)) == Some(ts)
  {
    var j := TodoListJson(ts);
    forall i | 0 <= i < |j.items| ensures DecodeTodo(j.items[i]) == Some(ts[i]) {
      DecodeTodoJson(ts[i], j.items[i]);
    }
    var decoded := DecodeTodoList(j);
    assert decoded.Some? && |decoded.value| == |ts|;
    forall i | 0 <= i < |ts| ensures decoded.value[i] == ts[i] {
      assert decoded.value[i] == DecodeTodo(j.items[i]).value;
    }
    assert decoded.value == ts;
  }

  /** What `fetch` settles to for a reply: its status, the status text the
      transport adds, and its body read as JSON; an empty body does not
      parse. */
  function ClientOutcome(reply: Reply, statusText: string): FetchOutcome {
    Response(reply.status, statusText, if reply.payload.JsonBody? then Some(reply.payload.body) else None)
  }

  /** The list the GET route sends reaches the client as the same todos,
      in the same order. */
  lemma ClientReadsList(ts: seq<Todo>, statusText: string)
    ensures var r := ReadResponse(ClientOutcome(ListReply(ts), statusText));
      && r.error.None? && r.data.Some?
      && DecodeTodoList(r.data.value) == Some(ts)
  {
    DecodeTodoListJson(ts);
  }

  /** The POST route's reply reaches the client as the created todo, or as
      the message the table raised. */
  lemma ClientReadsCreated(created: Result<Todo, string>, statusText: string)
    requires created.Failure? ==> created.error != ""
    ensures var r := ReadResponse(ClientOutcome(CreatedReply(created), statusText));
      && (created.Success? ==> r.error.None? && r.data.Some? && DecodeTodo(r.data.value) == Some(created.value))
      && (created.Failure? ==> r == ApiResult(None, Some(created.error)))
  {
    match created
    case Success(t) =>
      DecodeTodoJson(t, TodoJson(t));
    case Failure(message) =>
      var j := ErrorJson(500, "Internal Server Error", message);
      assert Property(j, "message") == Some(JStr(message));
  }

  /** The PATCH route's reply reaches the client as the updated todo, or as
      the error "Todo not found". */
  lemma ClientReadsUpdated(updated: Option<Todo>, statusText: string)
    ensures var r := ReadResponse(ClientOutcome(UpdatedReply(updated), statusText));
      && (updated.Some? ==> r.error.None? && r.data.Some? && DecodeTodo(r.data.value) == updated)
      && (updated.None? ==> r == ApiResult(None, Some("Todo not found")))
  {
    match updated
    case Some(t) =>
      DecodeTodoJson(t, TodoJson(t));
    case None =>
      assert Property(InvalidIdResponse, "message") == Some(JStr("Todo not found"));
  }

  /** The DELETE route's reply reaches the client as `{ null, null }` when a
      row was removed, and as the error "Todo not found" otherwise. */
  lemma ClientReadsDeleted(removed: bool, statusText: string)
    ensures DeleteTodo(ClientOutcome(DeletedReply(removed), statusText)) ==
      if removed then ApiResult(None, None) else ApiResult(None, Some("Todo not found"))
  {
    if !removed {
      assert Property(InvalidIdResponse, "message") == Some(JStr("Todo not found"));
    }
  }

  /** A body the validator refuses reaches the client as the validator's
      own message, whatever the status text. */
  lemma ClientReadsBadRequest(message: string, statusText: string)
    requires message != ""
    ensures ReadResponse(ClientOutcome(BadRequestReply(message), statusText)) == ApiResult(None, Some(message))
  {
    assert Property(ErrorJson(400, "Bad Request", message), "message") == Some(JStr(message));
  }

  /** The id the client writes into the path is the id the route's gate
      reads back, for every id of at least 1; any other id is turned away
      with the not-found reply. */
  lemma PathIdReachesRoute(id: int, completed: bool)
    ensures var segment := TodoPath(id)[|TodosPath| + 1..];
      ParseTodoId(TextValue(segment)) == if id >= 1 then Some(id) else None
    ensures UpdateTodoRequest(id, completed).url == DeleteTodoRequest(id).url == TodoPath(id)
  {
    ParseTodoIdOfRenderedId(id);
  }

  /** The create request's body passes the route's schema exactly when its
      text has 1 to 500 characters, and then the route reads that text;
      the update request's body always passes and carries the flag. */
  lemma RequestBodiesReachRoutes(text: string, id: int, completed: bool)
    ensures var v := ValidateCreateBody(CreateTodoRequest(text).body.value);
      && (v.Success? <==> TextMinLength <= |text| <= TextMaxLength)
      && (v.Success? ==> v.value == text)
    ensures ValidateUpdateBody(UpdateTodoRequest(id, completed).body.value) == Success(completed)
  {
  }

  /** A POST is refused by the table only for text made of whitespace,
      which the escaper stores as it came; any other text is stored
      escaped, at least as long and still visible. */
  lemma CreateRefusedOnlyForBlankText(text: string)
    ensures Blank(text) ==> SanitizeText(text) == text
    ensures !Blank(text) ==> !Blank(SanitizeText(text)) && |SanitizeText(text)| >= |text|
  {
    SanitizePreservesBlank(text);
    if Blank(text) {
      assert Plain(text) by {
        forall i | 0 <= i < |text| ensures !IsEscaped(text[i]) {
          assert IsWhitespace(text[i]);
        }
      }
      SanitizeIdentity(text);
    } else {
      SanitizeIsEscapeEach(text);
      EscapeEachLength(text);
    }
  }
}
