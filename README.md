# todo-bmad core in Dafny

A verified model of the logic in the todo application. The server side has
three parts:

- the HTTP routes of `/api/todos`: the HTML escaper applied to new text, the
  numeric id gate run before validation, and the mapping from each
  repository outcome to a status code and a body;
- the request and response schemas, written as validation predicates;
- the `TodoRepository` over the `todos` table.

The client side has two parts:

- the API functions, which map the outcome of one `fetch` onto
  `{ data, error }`;
- the `useTodos` hook, whose state cells `todos`, `loading` and `error` each
  handler updates.

A final module connects the two sides. It shows that the client's requests
pass the routes' gates as intended, and that every reply a route can send
is read by the client into the result the hook acts on.

Files, one module each:

| file | module | models |
|---|---|---|
| `wrappers.dfy` | `Wrappers` | `Option` and `Result` |
| `json.dfy` | `Json` | parsed JSON values, JavaScript truthiness, property access |
| `js_builtins.dfy` | `JsBuiltins` | `trim`, `Number.isInteger`, `Number.parseInt(s, 10)`, decimal rendering of integers |
| `todo_types.dfy` | `TodoTypes` | `Todo`, `ApiResult<T>`, the JSON form of a todo |
| `todo_schemas.dfy` | `TodoSchemas` | the schemas and the body validators |
| `todo_repository.dfy` | `Repository` | `mapTodoRow` and the class `TodoRepository` over a sequence of rows |
| `todo_routes.dfy` | `TodoRoutes` | `sanitizeText`, `parseTodoId`, the not-found body, the four routes |
| `api.dfy` | `Api` | `extractError`, `parseJson`, the four client functions |
| `use_todos.dfy` | `UseTodos` | the hook as the class `TodosHook` |
| `end_to_end.dfy` | `EndToEnd` | client requests against the routes, and route replies read by the client |

The repository is imperative. Its table is the field `rows` of a class, and
each method is specified by a pure function of the old rows (`UpdateRows`,
`DeleteRows`, `SortByCreatedDesc`). The functions' properties are proved as
lemmas. The hook is also a class: each handler is one atomic step that
takes the settled result of its API call as a parameter. A ghost log
`calls` records which API function each step called. The route handlers
are methods over a `RouteRequest` object, because the id gate overwrites
the request's `id` parameter in place. The escaper, the id gate, the
validators and the API functions are pure functions.

## Model

| member | source | states |
|---|---|---|
| JsBuiltins.TrimStartSpec | packages/frontend/src/hooks/use-todos.ts:43 | trimming the start removes exactly a leading run of whitespace and stops at a non-whitespace character |
| JsBuiltins.TrimEndSpec | packages/frontend/src/hooks/use-todos.ts:43 | trimming the end removes exactly a trailing run of whitespace and stops at a non-whitespace character |
| JsBuiltins.Trim | packages/frontend/src/hooks/use-todos.ts:43 | trimming never lengthens the text, and a non-empty result begins and ends with a non-whitespace character |
| JsBuiltins.TrimEmptyIffBlank | packages/frontend/src/hooks/use-todos.ts:43 | `!text.trim()` holds exactly for text made only of whitespace, in both directions |
| JsBuiltins.LeadingDigits | packages/backend/src/routes/todo-routes.ts:19 | `parseInt` reads the longest prefix of decimal digits: a prefix, all digits, and followed by a non-digit or the end |
| JsBuiltins.ParseInt | packages/backend/src/routes/todo-routes.ts:19 | base-10 `parseInt` yields a number exactly when a digit follows the optional whitespace and sign |
| JsBuiltins.IsInteger | packages/backend/src/routes/todo-routes.ts:21 | no contract of its own: `Number.isInteger`, a finite number without a fractional part; used by `TodoRoutes.ParseTodoId` and `TodoSchemas.IsIdParam` |
| JsBuiltins.DecimalString | packages/frontend/src/api.ts:74 | no contract of its own: `${id}` for an integer, a minus sign before the digits of a negative value; its read-back is stated by `ParseIntOfDecimalString` |
| JsBuiltins.NatDigits | packages/frontend/src/api.ts:74 | the rendering of a natural number is a non-empty run of digits |
| JsBuiltins.DigitsValueOfNatDigits | packages/frontend/src/api.ts:74 | reading the digits of a rendered natural number gives the number back |
| JsBuiltins.ParseIntOfDecimalString | packages/frontend/src/api.ts:74 | `parseInt` of a rendered integer, followed by any non-digit text, gives the integer back |
| TodoSchemas.IsTodoJson | packages/backend/src/schemas/todo-schemas.ts:3-12 | no contract of its own: `todoSchema`, an object with a number `id`, string `text`, boolean `completed` and string `createdAt`; used by `TodoJsonConforms`, `Conforms` and `EndToEnd.DecodeTodo` |
| TodoSchemas.IsTodoListJson | packages/backend/src/schemas/todo-schemas.ts:14-17 | no contract of its own: `todoListSchema`, an array whose every item meets `todoSchema`; used by `TodoJsonConforms`, `Conforms` and `EndToEnd.DecodeTodoList` |
| TodoSchemas.IsErrorJson | packages/backend/src/schemas/todo-schemas.ts:19-32 | no contract of its own: the error and not-found schemas, an object with a number `statusCode` and strings `error` and `message`; used by `TodoRoutes.ErrorJson` and `Conforms` |
| TodoSchemas.IsCreateBody | packages/backend/src/schemas/todo-schemas.ts:34-42 | no contract of its own: `createTodoSchema`'s body, an object with a string `text` of 1 to 500 characters; used by `ValidateCreateBody` and `WhitespaceTextPassesCreateSchema` |
| TodoSchemas.IsUpdateBody | packages/backend/src/schemas/todo-schemas.ts:44-52 | no contract of its own: `updateTodoSchema`'s body, an object with a boolean `completed`; used by `ValidateUpdateBody` |
| TodoSchemas.IsIdParam | packages/backend/src/schemas/todo-schemas.ts:54-62 | no contract of its own: `todoParamsSchema`, an integer id of at least 1; used by `TodoRoutes.ParseTodoId` and `TodoRoutes.AcceptedIdMeetsSchema` |
| TodoSchemas.ValidateCreateBody | packages/backend/src/schemas/todo-schemas.ts:34-42 | a create body is accepted iff it is an object with a string `text` of 1 to 500 characters; then the text is what is read; a refusal carries a non-empty message |
| TodoSchemas.ValidateUpdateBody | packages/backend/src/schemas/todo-schemas.ts:44-52 | an update body is accepted iff it is an object with a boolean `completed`; then that flag is what is read; a refusal carries a non-empty message |
| TodoSchemas.TodoJsonConforms | packages/backend/src/schemas/todo-schemas.ts:3-17 | every serialised todo has the four required properties with their types, and every serialised list is an array of such objects |
| TodoSchemas.WhitespaceTextPassesCreateSchema | packages/backend/src/schemas/todo-schemas.ts:38 | the create schema does no trimming: every whitespace-only text of 1 to 500 characters passes it and is read as it came |
| TodoSchemas.CreateSchemaRejects | packages/backend/src/routes/todo-routes.test.ts:141-167 | a body without `text` and a body with a 501-character text are refused |
| Repository.MapTodoRow | packages/backend/src/repositories/todo-repository.ts:17-22 | no contract of its own; its properties are stated by `Repository.MapTodoRowReadsBack` |
| Repository.StoredFlag | packages/backend/src/repositories/todo-repository.ts:60 | no contract of its own: `completed ? 1 : 0`; `MapTodoRowReadsBack` states that the stored flag reads back as the same boolean |
| Repository.MapTodoRowReadsBack | packages/backend/src/repositories/todo-repository.ts:17-22 | mapping copies id, text and timestamp; a stored flag reads back as the same boolean (`completed === 1`) |
| Repository.MapRows | packages/backend/src/repositories/todo-repository.ts:54 | `rows.map(mapTodoRow)`: the same length, each entry the mapped row at that position |
| Repository.FindRow | packages/backend/src/repositories/todo-repository.ts:33-35 | the select by id finds nothing exactly when no row has the id, and otherwise finds a row of the table with that id |
| Repository.UpdateRows | packages/backend/src/repositories/todo-repository.ts:58-60 | the update statement sets the stored flag of the rows with the id, changes no other row, and keeps the row count |
| Repository.UpdatedTodo | packages/backend/src/repositories/todo-repository.ts:57-71 | `update` returns null exactly when no row has the id |
| Repository.FindRowAfterUpdate | packages/backend/src/repositories/todo-repository.ts:66-70 | after the update the select by id reads the old row carrying the new flag; a missing id stays missing |
| Repository.UpdatedTodoFields | packages/backend/src/repositories/todo-repository.ts:57-71 | an update of a present id returns a todo with that id, the new flag, and the text and timestamp of the stored row |
| Repository.DeleteRows | packages/backend/src/repositories/todo-repository.ts:74 | the delete never adds rows, and no surviving row has the id; `DeleteRowsMembers` states which rows survive |
| Repository.DeleteRowsMembers | packages/backend/src/repositories/todo-repository.ts:74 | a row survives the delete exactly when its id differs |
| Repository.DeleteRowsIds | packages/backend/src/repositories/todo-repository.ts:73-76 | the delete removes exactly the id from the set of ids |
| Repository.DeleteRowsAbsent | packages/backend/src/repositories/todo-repository.ts:73-76 | deleting an id that is not present leaves the table unchanged |
| Repository.DeleteRowsDistinct | packages/backend/src/repositories/todo-repository.ts:73-76 | the delete keeps the primary key unique and, when the id was present, removes exactly one row |
| Repository.DeleteTwice | packages/backend/src/repositories/todo-repository.test.ts:52-57 | after a delete the id is gone, and a second delete of it changes nothing |
| Repository.TextLeTotal | packages/backend/src/repositories/todo-repository.ts:51 | the text order used by `ORDER BY created_at` is total |
| Repository.TextLeTransitive | packages/backend/src/repositories/todo-repository.ts:51 | the text order used by `ORDER BY created_at` is transitive |
| Repository.InsertByCreatedDesc | packages/backend/src/repositories/todo-repository.ts:51 | inserting into a newest-first list keeps it newest first and adds exactly the one entry |
| Repository.SortByCreatedDesc | packages/backend/src/repositories/todo-repository.ts:49-55 | the result is ordered by `createdAt`, non-increasing, and is a permutation of the input |
| Repository.TodoRepository.constructor | packages/backend/src/repositories/todo-repository.ts:25-28 | the idempotent schema script keeps an existing table's rows |
| Repository.TodoRepository.Create | packages/backend/src/repositories/todo-repository.ts:30-47 | whitespace-only text fails with "Text cannot be empty" and leaves the table unchanged; other text appends exactly one row with a fresh id of at least 1, flag 0 and timestamp `now`, and returns it mapped; old rows are unchanged |
| Repository.TodoRepository.GetAll | packages/backend/src/repositories/todo-repository.ts:49-55 | every row is returned exactly once, mapped, newest first |
| Repository.TodoRepository.Update | packages/backend/src/repositories/todo-repository.ts:57-71 | a missing id returns null and leaves the table unchanged; otherwise only the flag of that row changes and the row is returned; the primary key stays unique |
| Repository.TodoRepository.Delete | packages/backend/src/repositories/todo-repository.ts:73-76 | returns true iff the id existed; exactly that row is removed and the others are kept in order |
| Repository.CreatedRowIsListed | packages/backend/src/repositories/todo-repository.test.ts:18-36 | a created row is listed by the next read of the table, not completed |
| TodoRoutes.ReplaceAll | packages/backend/src/routes/todo-routes.ts:36-40 | a global replace leaves no occurrence of the character when the replacement does not contain it; `ReplaceAllAbsent` and `ReplaceAllConcat` state the rest |
| TodoRoutes.ReplaceAllConcat | packages/backend/src/routes/todo-routes.ts:36-40 | a global replace distributes over concatenation |
| TodoRoutes.ReplaceAllAbsent | packages/backend/src/routes/todo-routes.ts:36-40 | replacing a character that does not occur changes nothing |
| TodoRoutes.EscapeChar | packages/backend/src/routes/todo-routes.ts:36-40 | a character's escape is non-empty, begins with `&` exactly for the five escaped characters, and is the character itself otherwise |
| TodoRoutes.SanitizeConcat | packages/backend/src/routes/todo-routes.ts:34-41 | the escaper distributes over concatenation |
| TodoRoutes.ReplaceChainOnChar | packages/backend/src/routes/todo-routes.ts:35-40 | on one character a chain of replaces applies the first matching rule, provided no later character occurs in an earlier replacement (which holds because `&` goes first) |
| TodoRoutes.SanitizeChar | packages/backend/src/routes/todo-routes.ts:34-41 | the chain of five replaces maps each character to its single entity |
| TodoRoutes.SanitizeText | packages/backend/src/routes/todo-routes.ts:34-41 | no contract of its own; its properties are stated by `SanitizeIsEscapeEach`, `SanitizedHasNoMarkup`, `SanitizedAmpersands`, `SanitizeInjective`, `SanitizePreservesBlank` and `SanitizedLength` |
| TodoRoutes.SanitizeIsEscapeEach | packages/backend/src/routes/todo-routes.ts:34-41 | the chain of five global replaces equals escaping each character once |
| TodoRoutes.EscapeEachNoMarkup | packages/backend/src/routes/todo-routes.ts:34-41 | single-pass escaping leaves none of `<`, `>`, `"`, `'` |
| TodoRoutes.SanitizedHasNoMarkup | packages/backend/src/routes/todo-routes.ts:34-41 | the escaped text contains none of `<`, `>`, `"`, `'` |
| TodoRoutes.EscapeEachAmpersands | packages/backend/src/routes/todo-routes.ts:36-40 | after single-pass escaping every `&` begins one of the five entities |
| TodoRoutes.SanitizedAmpersands | packages/backend/src/routes/todo-routes.ts:36-40 | every `&` in the escaped text begins one of `&amp;` `&lt;` `&gt;` `&quot;` `&#39;`, so no entity is escaped twice |
| TodoRoutes.SanitizeIdentity | packages/backend/src/routes/todo-routes.ts:34-41 | text without the five characters passes through unchanged |
| TodoRoutes.EscapeEachIdentity | packages/backend/src/routes/todo-routes.ts:34-41 | single-pass escaping is the identity on text without the five characters |
| TodoRoutes.SanitizedLength | packages/backend/src/routes/todo-routes.ts:34-41 | output length = input length + 4·#`&` + 3·#`<` + 3·#`>` + 5·#`"` + 4·#`'` |
| TodoRoutes.EscapeEachLength | packages/backend/src/routes/todo-routes.ts:34-41 | the same length formula for single-pass escaping |
| TodoRoutes.DecodeEntity | packages/backend/src/routes/todo-routes.ts:36-40 | a recognised entity has a length that fits in the text it is read from |
| TodoRoutes.DecodeEscapeChar | packages/backend/src/routes/todo-routes.ts:36-40 | each entity the escaper writes decodes back to its character, whatever follows it |
| TodoRoutes.UnescapeEscapeChar | packages/backend/src/routes/todo-routes.ts:36-40 | decoding an escaped character followed by any text gives the character followed by the decoding of that text |
| TodoRoutes.UnescapeEscapeEach | packages/backend/src/routes/todo-routes.ts:34-41 | decoding the five entities inverts single-pass escaping |
| TodoRoutes.SanitizeInjective | packages/backend/src/routes/todo-routes.ts:34-41 | decoding the entities recovers the input, so equal outputs come from equal inputs |
| TodoRoutes.EscapeEachBlank | packages/backend/src/routes/todo-routes.ts:34-41 | single-pass escaping gives whitespace-only text exactly for whitespace-only input |
| TodoRoutes.SanitizePreservesBlank | packages/backend/src/routes/todo-routes.ts:72-73 | the stored text is whitespace only exactly when the submitted text is |
| TodoRoutes.AmpersandsGrowFivefold | packages/backend/src/routes/todo-routes.ts:36 | a text of `&` only grows fivefold |
| TodoRoutes.EscapeDelimiters | packages/backend/src/routes/todo-routes.ts:37-40 | the tag, quote and parenthesis fragments of a script element escape to their entities |
| TodoRoutes.SanitizeScriptElement | packages/backend/src/routes/todo-routes.test.ts:169-179 | `<name>fn("arg")</name>` with plain name, function and argument is stored as `&lt;name&gt;fn(&quot;arg&quot;)&lt;/name&gt;`; `<script>alert("x")</script>` is one instance |
| TodoRoutes.ParseTodoId | packages/backend/src/routes/todo-routes.ts:18-26 | the result is null or an integer of at least 1; a number passes iff it is an integer of at least 1; a string passes iff `parseInt` gives at least 1, and then the id is that value |
| TodoRoutes.AcceptedIdMeetsSchema | packages/backend/src/schemas/todo-schemas.ts:54-62 | every id the gate accepts satisfies the parameter schema (integer, minimum 1) |
| TodoRoutes.ParseTodoIdOfRenderedId | packages/backend/src/routes/todo-routes.ts:18-26 | the decimal rendering of an id is read back exactly when the id is at least 1 |
| TodoRoutes.ParseTodoIdRejectsWord | packages/backend/src/routes/todo-routes.ts:18-26 | a segment whose first character is not whitespace, a sign or a digit (any letter, upper or lower case or not ASCII) is rejected |
| TodoRoutes.ParseTodoIdRejectsInvalidId | packages/backend/src/routes/todo-routes.test.ts:83-94 | `invalid-id` is rejected |
| TodoRoutes.ParseTodoIdReadsDigitPrefix | packages/backend/src/routes/todo-routes.ts:19 | a segment is read up to its first non-digit, so `7abc` addresses todo 7 |
| TodoRoutes.ErrorJson | packages/backend/src/schemas/todo-schemas.ts:19-27 | the error bodies the routes send satisfy the error schema |
| TodoRoutes.InvalidIdResponse | packages/backend/src/routes/todo-routes.ts:28-32 | no contract of its own: `invalidIdResponse`, the error body with status 404, "Not Found" and "Todo not found"; its fields are stated by `NotFoundReplyConforms` |
| TodoRoutes.NotFoundReply | packages/backend/src/routes/todo-routes.ts:28-32 | no contract of its own: a 404 reply carrying `invalidIdResponse`; used by `UpdatedReply`, `DeletedReply`, `PreValidate`, `HandleUpdate` and `HandleDelete` |
| TodoRoutes.NotFoundReplyConforms | packages/backend/src/routes/todo-routes.ts:28-32 | the not-found reply is status 404 with `statusCode` 404, `error` "Not Found" and `message` "Todo not found", and it conforms to the update and delete routes and to no other |
| TodoRoutes.Conforms | packages/backend/src/routes/todo-routes.ts:46-144 | no contract of its own: the status codes and body schemas each route declares (list 200; create 201 and 400; update 200, 400 and 404; delete 400 and 404), plus the delete's 204 with no content, which it sends without a schema, and the framework's 500; used by the ensures of every reply function and route handler |
| TodoRoutes.ListReply | packages/backend/src/routes/todo-routes.ts:46-58 | GET replies 200 with a body of the list schema whose items are the todos serialised in order, one item per todo |
| TodoRoutes.CreatedReply | packages/backend/src/routes/todo-routes.ts:71-75 | POST replies 201 with the created todo iff the create succeeded; a failure of the table is the framework's 500 error body with its message; each reply conforms to the route's declared responses |
| TodoRoutes.UpdatedReply | packages/backend/src/routes/todo-routes.ts:102-110 | PATCH replies 404 with `{statusCode: 404, error: 'Not Found', message: 'Todo not found'}` when the repository returns null, and 200 with the updated todo otherwise |
| TodoRoutes.DeletedReply | packages/backend/src/routes/todo-routes.ts:135-143 | DELETE replies 204 with no content exactly when a row was removed, and the not-found reply otherwise |
| TodoRoutes.BadRequestReply | packages/backend/src/routes/todo-routes.ts:60-70 | a refused body gives 400 with the error body, which every route with a body declares |
| TodoRoutes.PreValidate | packages/backend/src/routes/todo-routes.ts:90-100 | a rejected id ends the request with the not-found reply; an accepted id overwrites the parameter with the parsed number; the body is untouched |
| TodoRoutes.HandleList | packages/backend/src/routes/todo-routes.ts:46-58 | GET replies 200 with a conforming list of one item per row; the reply is the list reply of the table's rows mapped to todos, reordered newest first (sorted by timestamp, descending, and a permutation of the rows) |
| TodoRoutes.HandleCreate | packages/backend/src/routes/todo-routes.ts:60-76 | an invalid body gives 400 and no change; a valid one stores the escaped text as one new row with a fresh id and replies 201 with it, or replies 500 and changes nothing when that text is whitespace only |
| TodoRoutes.HandleUpdate | packages/backend/src/routes/todo-routes.ts:78-111 | the id gate runs before validation: a rejected id gives 404 whatever the body; then an invalid body gives 400; the table changes only on the update path, as `update` specifies |
| TodoRoutes.HandleDelete | packages/backend/src/routes/todo-routes.ts:113-144 | a rejected id gives 404 without touching the table; otherwise the row is deleted and the reply is 204 iff the id existed |
| Api.TodoPath | packages/frontend/src/api.ts:74 | the path is `/api/todos/` followed by the decimal rendering of the id |
| Api.GetTodosRequest | packages/frontend/src/api.ts:34 | the list is fetched with a GET of `/api/todos`, without a body or content type |
| Api.DeleteTodoRequest | packages/frontend/src/api.ts:96-98 | the delete is a DELETE of the todo's path (`/api/todos/` followed by the decimal rendering of the id, as `TodoPath` states), without a body or content type |
| Api.CreateTodoRequest | packages/frontend/src/api.ts:52-56 | a POST of `/api/todos` with a JSON content type and the body `{text}` |
| Api.UpdateTodoRequest | packages/frontend/src/api.ts:74-78 | a PATCH of the todo's path with a JSON content type and the body `{completed}` |
| Api.BodyMessage | packages/frontend/src/api.ts:8-11 | the body's `message` is used only when the body parsed and the message is a non-empty string |
| Api.ExtractError | packages/frontend/src/api.ts:6-17 | the error is the body's message, else a non-empty status text, else 'Unexpected response from server.'; it is never empty |
| Api.FallbackError | packages/frontend/src/api.ts:16 | the status text when it is not empty, the generic message otherwise |
| Api.ParseJson | packages/frontend/src/api.ts:19-26 | a body that does not parse gives `{null, 'Unexpected response from server.'}`; a parsed body is the data with no error |
| Api.ReadResponse | packages/frontend/src/api.ts:31-88 | a rejected fetch gives the network error; a non-ok response gives the extracted error and no data; an ok response gives its parsed body |
| Api.DeleteTodo | packages/frontend/src/api.ts:93-109 | never data; the network error on a rejected fetch, the extracted error on a non-ok response, and no error on an ok one |
| Api.ExactlyOneOfDataAndError | packages/frontend/src/api.ts:31-44 | apart from an ok body that is `null`, exactly one of data and error is set, and a set error is not empty |
| Api.ErrorIgnoresStatus | packages/frontend/src/api.test.ts:187-199 | two failed responses with the same status text and body give the same error, whatever their codes |
| Api.MessagePassesThrough | packages/frontend/src/api.test.ts:41-53 | a failed response whose body has a non-empty message reports exactly that message |
| Api.ErrorFallsBack | packages/frontend/src/api.test.ts:267-295 | without a message in the body the error is the status text, or the generic message when that is empty |
| Api.DeleteIgnoresBody | packages/frontend/src/api.ts:103-108 | an ok delete gives `{null, null}` whatever the body |
| UseTodos.HasError | packages/frontend/src/hooks/use-todos.ts:25 | no contract of its own: the test `if (result.error)` of every handler, an error that is set and not empty; the handlers' ensures are stated by cases of it |
| UseTodos.ReplaceById | packages/frontend/src/hooks/use-todos.ts:64 | the same length; each entry with the id is the returned todo, the others are unchanged at their positions |
| UseTodos.ReplaceByIdConcat | packages/frontend/src/hooks/use-todos.ts:64 | replacing by id distributes over concatenation, so the order is kept |
| UseTodos.ReplaceThenRemove | packages/frontend/src/hooks/use-todos.ts:64-75 | repeating a replacement has no effect, and deleting the id afterwards gives the same list as deleting it at once |
| UseTodos.RemoveByIdConcat | packages/frontend/src/hooks/use-todos.ts:75 | filtering by id distributes over concatenation, so the kept entries stay in their relative order |
| UseTodos.RemoveById | packages/frontend/src/hooks/use-todos.ts:75 | the filter never adds entries, and no kept entry has the id; `RemoveByIdCounts` states which entries are kept |
| UseTodos.RemoveByIdCounts | packages/frontend/src/hooks/use-todos.ts:75 | every entry with the id is removed, and every other entry is kept as many times as it occurred |
| UseTodos.RemoveByIdAbsent | packages/frontend/src/hooks/use-todos.ts:75 | with no entry carrying the id the list is unchanged |
| UseTodos.TodosHook.constructor | packages/frontend/src/hooks/use-todos.ts:16-18 | the initial state has no todos, is not loading and has no error |
| UseTodos.TodosHook.FetchTodos | packages/frontend/src/hooks/use-todos.ts:20-39 | one get call; an aborted fetch leaves `todos` and `error` as they were and `loading` on; otherwise loading ends off, a failure gives `todos = []` and the error, and a success gives the data (or `[]`) and no error |
| UseTodos.TodosHook.HandleCreateTodo | packages/frontend/src/hooks/use-todos.ts:41-54 | text that is blank after trimming returns `{null, 'Todo text cannot be empty'}` with no call and no change; otherwise a failure sets the error and keeps the list, and a success appends the todo at the end and clears the error; `loading` never changes |
| UseTodos.TodosHook.HandleUpdateTodo | packages/frontend/src/hooks/use-todos.ts:56-68 | a failure sets the error and keeps the list; a success replaces every entry with the id by the returned todo and clears the error |
| UseTodos.TodosHook.HandleDeleteTodo | packages/frontend/src/hooks/use-todos.ts:70-79 | a failure sets the error and keeps the list; a success removes every entry with the id and clears the error |
| UseTodos.TodosHook.HandleRefetch | packages/frontend/src/hooks/use-todos.ts:81-85 | the error is cleared and then a fetch runs that is never aborted, so after a failure a successful refetch leaves no error and the new list |
| EndToEnd.DecodeTodo | packages/frontend/src/api.ts:21 | a value read as a todo has the todo shape of the response schema |
| EndToEnd.DecodeTodoList | packages/frontend/src/api.ts:21 | a value read as a list of todos has the list shape, one todo per item |
| EndToEnd.DecodeTodoJson | packages/frontend/src/types/todo.ts:1-6 | reading a serialised todo gives it back, and a value that reads as a todo and has only the four properties is that todo's serialisation |
| EndToEnd.DecodeTodoListJson | packages/frontend/src/types/todo.ts:1-6 | reading a serialised list gives the same todos in the same order |
| EndToEnd.ClientReadsList | packages/frontend/src/api.ts:31-44 | the list the GET route sends reaches the client as the same todos, in order, with no error |
| EndToEnd.ClientReadsCreated | packages/frontend/src/api.ts:49-66 | the POST reply reaches the client as the created todo, or as the message the table raised |
| EndToEnd.ClientReadsUpdated | packages/frontend/src/api.ts:71-88 | the PATCH reply reaches the client as the updated todo, or as the error 'Todo not found' |
| EndToEnd.ClientReadsDeleted | packages/frontend/src/api.ts:93-109 | the DELETE reply reaches the client as `{null, null}` when a row was removed, and as 'Todo not found' otherwise |
| EndToEnd.ClientReadsBadRequest | packages/frontend/src/api.ts:6-17 | a refused body reaches the client as the validator's own message |
| EndToEnd.PathIdReachesRoute | packages/backend/src/routes/todo-routes.ts:18-26 | the id the client writes into the path is the id the route's gate reads, for every id of at least 1; other ids get the not-found reply; the update and delete requests both use that path |
| EndToEnd.RequestBodiesReachRoutes | packages/backend/src/schemas/todo-schemas.ts:34-52 | the client's create body passes the schema iff its text has 1 to 500 characters, and the route then reads that text; the update body always passes with its flag |
| EndToEnd.CreateRefusedOnlyForBlankText | packages/backend/src/repositories/todo-repository.test.ts:59-62 | whitespace-only text is stored as it came and refused by the table; any other text is stored escaped, at least as long and still not blank |

## Left out

- The web framework, CORS, the OpenAPI documentation, configuration, the health endpoint, and starting the server: glue with no logic of its own.
- Opening the database and the schema SQL (`init.sql` is not part of this model). The table is a sequence of rows, and the primary key is an invariant of the class.
- Repository.TodoRepository.Create: the new id is any unused id from 1 to one past the largest. The model does not promise that ids are never reused, because that is a property of the storage engine. The timestamp is the parameter `now` instead of a clock read, and the format of `created_at` is not modelled.
- Repository.TodoRepository.Create: the read-back fallback at `todo-repository.ts:37-44` cannot be reached, because the inserted row is always found. The model shows that the read-back finds it.
- Repository.TodoRepository.Create: the refusal of whitespace-only text comes from a table constraint that is not visible in the TypeScript. It is modelled as a `Failure` with the message "Text cannot be empty". The model's `Blank` uses JavaScript's whitespace set as a stand-in for that constraint. SQLite's `trim()` strips only spaces by default, so the real table may store text such as "\t" that the model refuses.
- Repository.SortByCreatedDesc: among todos with equal timestamps the order is the engine's choice. The model fixes one such order, and the contracts promise only the ordering and the permutation.
- TodoRoutes.ParseTodoId: a number is a JavaScript double, but the model reads the digits as an exact integer. `parseInt` is exact only up to 2^53, so a segment holding a larger integer is read differently: the source rounds it to a nearby double, and refuses a run of digits so long (about 309 digits) that it parses to Infinity, which `Number.isInteger` rejects.
- Api.TodoPath: `DecimalString` writes every integer in plain digits, while `${id}` switches to exponent notation from 1e21 upwards. Paths for such ids are not modelled.
- TodoSchemas.ValidateCreateBody, TodoRoutes.HandleCreate: the schema validator coerces types, and its error messages are worded by the library. The model has no coercion, and its messages are fixed non-empty strings that follow the order of the schema's rules.
- TodoSchemas.ValidateUpdateBody, TodoRoutes.HandleUpdate: the validator's type coercion is not modelled. Bodies such as `{completed: "true"}`, `{completed: 1}` and `{completed: null}` are coerced to a boolean and answered 200 by the route, but the model refuses them with 400.
- TodoRoutes.HandleCreate: a 500 reply is the framework's default error body, built from the table's message.
- Repository.TodoRepository.GetAll, Repository.TodoRepository.Update, Repository.TodoRepository.Delete: storage failures (a locked, full or unreadable database) are not modelled. In the source they throw, and the framework turns them into its default 500 reply. The model's repository methods always succeed, and only `Create` fails, on whitespace-only text.
- Api: `getTodos`, `createTodo(text)` and `updateTodo(id, completed)` are `Api.ReadResponse` applied to the outcome of `GetTodosRequest()`, `CreateTodoRequest(text)` and `UpdateTodoRequest(id, completed)` respectively. They differ only in the request, so they are not separate members.
- Api.ExtractError: a truthy `message` that is not a string (a number or an object) is passed on as it is by the client. The model's errors are strings, so it uses the status text in that case.
- Api.ReadResponse: `response.ok` is derived from the status (200 to 299), not given as a separate field.
- Api: the real `fetch`, promise handling and JSON parsing are replaced by the outcome datatype `FetchOutcome`. A body that does not parse is `None`.
- UseTodos.TodosHook: asynchrony, interleaving of concurrent handlers, and `AbortController` are not modelled. Each handler is one atomic step given its settled result, and abortion is a boolean parameter. The typed results are taken at their word: the data of a successful list fetch is a list of todos.
- The React components (rendering, focus, `window.confirm`), the end-to-end browser specs and the build configuration: UI and infrastructure.
- Client errors are not rewritten by status (a 500 into a "server unavailable" message, say). The client code passes the body's message through for every status, and the model follows the code (`Api.ErrorIgnoresStatus`).
- Create text is not validated after trimming on the server. The create schema counts whitespace, so whitespace-only text reaches the table, which refuses it. The model follows the code (`TodoSchemas.WhitespaceTextPassesCreateSchema`).
