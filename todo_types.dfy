/** The entity shared by server and client, its JSON form, and the client's
    `{ data, error }` result shape. */
module TodoTypes {
  import opened Wrappers
  import opened Json

  /** A todo item as the server returns it and the client holds it. */
  datatype Todo = Todo(id: int, text: string, completed: bool, createdAt: string)

  /** `ApiResult<T>`: None in either field stands for `null`. */
  datatype ApiResult<T> = ApiResult(data: Option<T>, error: Option<string>)

  /** The JSON object a Todo is serialised to. */
  function TodoJson(t: Todo): Json {
    JObj(map[
      "id" := JNum(t.id as real),
      "text" := JStr(t.text),
      "completed" := JBool(t.completed),
      "createdAt" := JStr(t.createdAt)])
  }

  /** The JSON array a list of todos is serialised to, in the same order. */
  function TodoListJson(ts: seq<Todo>): Json {
    JArr(seq(|ts|, i requires 0 <= i < |ts| => TodoJson(ts[i])))
  }
}
