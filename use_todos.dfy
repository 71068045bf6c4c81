/** The client's todo state: the list, the loading flag and the error
    message, and the handlers that update them. Each handler is one atomic
    step given the already-settled result of the API call it makes. */
module UseTodos {
  import opened Wrappers
  import opened JsBuiltins
  import opened TodoTypes

  /** The result the create handler returns, without calling the API, for
      a text that is empty after trimming. */
  const EmptyTextMessage := "Todo text cannot be empty"

  /** A call into the API functions, for stating which handler calls what. */
  datatype ApiCall = GetCall | CreateCall(text: string) | UpdateCall(id: int, completed: bool) | DeleteCall(id: int)

  /** `if (result.error)`: an error that is set and not empty. */
  predicate HasError<T>(result: ApiResult<T>) {
    result.error.Some? && result.error.value != ""
  }

  /** `prev.map((todo) => (todo.id === id ? updated : todo))`. */
  function ReplaceById(todos: seq<Todo>, id: int, updated: Todo): (r: seq<Todo>)
    ensures |r| == |todos|
    ensures forall i :: 0 <= i < |todos| ==> r[i] == if todos[i].id == id then updated else todos[i]
  {
    seq(|todos|, i requires 0 <= i < |todos| => if todos[i].id == id then updated else todos[i])
  }

  /** `prev.filter((todo) => todo.id !== id)`. */
  function RemoveById(todos: seq<Todo>, id: int): (r: seq<Todo>)
    ensures |r| <= |todos|
    ensures forall i :: 0 <= i < |r| ==> r[i].id != id
  {
    if todos == [] then []
    else (if todos[0].id == id then [] else [todos[0]]) + RemoveById(todos[1..], id)
  }

  /** Filtering works entry by entry, so it distributes over concatenation:
      the entries kept stay in their relative order. */
  lemma {:induction false} RemoveByIdConcat(a: seq<Todo>, b: seq<Todo>, id: int)
    ensures RemoveById(a + b, id) == RemoveById(a, id) + RemoveById(b, id)
  {
    if a == [] {
      assert a + b == b;
    } else {
      assert (a + b)[0] == a[0];
      assert (a + b)[1..] == a[1..] + b;
      RemoveByIdConcat(a[1..], b, id);
    }
  }

  /** Every entry with the id is removed; every other entry is kept, as many
      times as it occurred. */
  lemma {:induction false} RemoveByIdCounts(todos: seq<Todo>, id: int)
    ensures forall t :: multiset(RemoveById(todos, id))[t] == if t.id == id then 0 else multiset(todos)[t]
  {
    if todos != [] {
      RemoveByIdCounts(todos[1..], id);
      assert todos == [todos[0]] + todos[1..];
    }
  }

  /** With no entry carrying the id the filter keeps the list as it is. */
  lemma {:induction false} RemoveByIdAbsent(todos: seq<Todo>, id: int)
    requires forall i :: 0 <= i < |todos| ==> todos[i].id != id
    ensures RemoveById(todos, id) == todos
  {
    if todos != [] {
      RemoveByIdAbsent(todos[1..], id);
      assert todos == [todos[0]] + todos[1..];
    }
  }

  /** Replacing by id keeps the order of the other entries: it also
      distributes over concatenation. */
  lemma ReplaceByIdConcat(a: seq<Todo>, b: seq<Todo>, id: int, updated: Todo)
    ensures ReplaceById(a + b, id, updated) == ReplaceById(a, id, updated) + ReplaceById(b, id, updated)
  {
    var l, r := ReplaceById(a + b, id, updated), ReplaceById(a, id, updated) + ReplaceById(b, id, updated);
    forall i | 0 <= i < |l| ensures l[i] == r[i] {
      if i >= |a| {
        assert (a + b)[i] == b[i - |a|];
      }
    }
  }

  /** A replacement that keeps the id can be repeated without effect, and a
      later removal of the id removes the replacements too. */
  lemma {:induction false} ReplaceThenRemove(todos: seq<Todo>, id: int, updated: Todo)
    requires updated.id == id
    ensures ReplaceById(ReplaceById(todos, id, updated), id, updated) == ReplaceById(todos, id, updated)
    ensures RemoveById(ReplaceById(todos, id, updated), id) == RemoveById(todos, id)
  {
    if todos != [] {
      var r := ReplaceById(todos, id, updated);
      ReplaceThenRemove(todos[1..], id, updated);
      assert r[1..] == ReplaceById(todos[1..], id, updated);
      assert r == [r[0]] + r[1..];
    }
  }

  /** The hook's state cells. */
  class TodosHook {
    var todos: seq<Todo>
    var loading: bool
    var error: Option<string>
    /** The API calls made so far, in order. */
    ghost var calls: seq<ApiCall>

    /** The initial state: no todos, not loading, no error. */
    constructor ()
      ensures todos == [] && !loading && error == None && calls == []
    {
      todos := [];
      loading := false;
      error := None;
      calls := [];
    }

    /** `fetchTodos`: loading is switched on, the list is fetched, and
        unless the request was aborted meanwhile the list and the error are
        set from the result and loading is switched off. An aborted fetch
        returns before switching loading off. The mount effect is this step
        with `aborted` true when the component unmounted first. */
    method FetchTodos(result: ApiResult<seq<Todo>>, aborted: bool)
      modifies this
      ensures calls == old(calls) + [GetCall]
      ensures aborted ==> loading && todos == old(todos) && error == old(error)
      ensures !aborted ==> !loading
      ensures !aborted && HasError(result) ==> todos == [] && error == result.error
      ensures !aborted && !HasError(result) ==>
        error == None && todos == (if result.data.Some? then result.data.value else [])
    {
      loading := true;
      calls := calls + [GetCall];
      if aborted {
        return;
      }
      if HasError(result) {
        error := result.error;
        todos := [];
      } else {
        todos := if result.data.Some? then result.data.value else [];
        error := None;
      }
      loading := false;
    }

    /** `handleCreateTodo(text)`: a text that is empty after trimming is
        refused without any call or state change; otherwise the created todo
        is appended, or the error is recorded and the list kept. */
    method HandleCreateTodo(text: string, result: ApiResult<Todo>) returns (r: ApiResult<Todo>)
      modifies this
      ensures loading == old(loading)
      ensures Blank(text) ==>
        && r == ApiResult(None, Some(EmptyTextMessage))
        && todos == old(todos) && error == old(error) && calls == old(calls)
      ensures !Blank(text) ==> r == result && calls == old(calls) + [CreateCall(text)]
      ensures !Blank(text) && HasError(result) ==> error == result.error && todos == old(todos)
      ensures !Blank(text) && !HasError(result) && result.data.Some? ==>
        todos == old(todos) + [result.data.value] && error == None
      ensures !Blank(text) && !HasError(result) && result.data.None? ==>
        todos == old(todos) && error == old(error)
    {
      TrimEmptyIffBlank(text);
      if Trim(text) == [] {
        return ApiResult(None, Some(EmptyTextMessage));
      }
      calls := calls + [CreateCall(text)];
      if HasError(result) {
        error := result.error;
      } else if result.data.Some? {
        todos := todos + [result.data.value];
        error := None;
      }
      r := result;
    }

    /** `handleUpdateTodo(id, completed)`: on success every entry with the
        id is replaced by the returned todo, in place. */
    method HandleUpdateTodo(id: int, completed: bool, result: ApiResult<Todo>) returns (r: ApiResult<Todo>)
      modifies this
      ensures r == result && loading == old(loading)
      ensures calls == old(calls) + [UpdateCall(id, completed)]
      ensures HasError(result) ==> error == result.error && todos == old(todos)
      ensures !HasError(result) && result.data.Some? ==>
        todos == ReplaceById(old(todos), id, result.data.value) && error == None
      ensures !HasError(result) && result.data.None? ==>
        todos == old(todos) && error == old(error)
    {
      calls := calls + [UpdateCall(id, completed)];
      if HasError(result) {
        error := result.error;
      } else if result.data.Some? {
        todos := ReplaceById(todos, id, result.data.value);
        error := None;
      }
      r := result;
    }

    /** `handleDeleteTodo(id)`: without an error every entry with the id is
        removed and the error cleared. */
    method HandleDeleteTodo(id: int, result: ApiResult<()>) returns (r: ApiResult<()>)
      modifies this
      ensures r == result && loading == old(loading)
      ensures calls == old(calls) + [DeleteCall(id)]
      ensures HasError(result) ==> error == result.error && todos == old(todos)
      ensures !HasError(result) ==> todos == RemoveById(old(todos), id) && error == None
    {
      calls := calls + [DeleteCall(id)];
      if HasError(result) {
        error := result.error;
      } else {
        todos := RemoveById(todos, id);
        error := None;
      }
      r := result;
    }

    /** `refetch`: the error is cleared, then a fetch that is never aborted
        runs. */
    method HandleRefetch(result: ApiResult<seq<Todo>>)
      modifies this
      ensures calls == old(calls) + [GetCall]
      ensures !loading
      ensures HasError(result) ==> todos == [] && error == result.error
      ensures !HasError(result) ==>
        error == None && todos == (if result.data.Some? then result.data.value else [])
    {
      error := None;
      FetchTodos(result, false);
    }
  }
}
