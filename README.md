# TodoApp client state machine in Dafny

This project models the client side of a small to-do list application: the
React component `App`, which keeps a local copy of the list of task items and
keeps it in step with a REST service by sending one HTTP request per user
action and merging the reply.

The component has four pieces of state: the text typed for a new item
(`newTodo`), the list of items (`todos`, each `{_id, text, completed}`), the
id of the item being edited or null (`editingTodo`), and the edit buffer
(`textEdited`). The model is the class `TodoApp.App` with those four fields
and one method per handler. Each handler that calls the server is given the
server's reply as an `Outcome` parameter (`Success(payload)` or `Failure`, the
latter standing for any error the `try` block catches) and returns the
`Request` it sends, or `None` when it sends nothing. The server's payload is an
arbitrary input: nothing is assumed about its contents.

The list expressions the handlers use are pure functions in module
`TodoList`, with lemmas:

- `ReplaceById` is `todos.map(t => t._id === id ? reply : t)`, used by save and toggle;
- `RemoveById` is `todos.filter(t => t._id !== id)`, used by delete;
- `Find` and `FindIndex` model `todos.find(t => t._id === id)`, used by toggle;
- append is Dafny's `todos + [item]`, used by add.

Module `Text` models `String.prototype.trim` and the "blank input" test. It
uses a fixed whitespace set: the WhiteSpace and LineTerminator code points of
the ECMAScript Language Specification (sections 12.2 and 12.3). The
Space_Separator category is listed as of Unicode 15.

Files:

- `text.dfy`: module `Text`, with trim and blankness.
- `todo_list.dfy`: module `TodoList`, with items and the list functions.
- `app.dfy`: module `TodoApp`, with class `App` and four worked sessions.
  `AddScenario` submits a blank input, then a padded one. `ToggleScenario`
  toggles a known id, then an unknown one. `EditScenario` saves an edit
  once with a failure and once with a success, then cancels a second
  edit. `DeleteScenario` deletes once with a failure and once with a
  success.

Some properties hold only when the server behaves well: its replies keep
the requested id and created items get fresh ids. The client does not
check either. So uniqueness of ids appears as an implication in the
handlers' postconditions and in the lemmas, not as a class invariant.

Three behaviours of the code are easy to misread, and the model follows
the code in each:

- Save sends the edit buffer exactly as typed. The client neither trims it
  nor checks it for blankness, so whether a blank edit is accepted is up
  to the server.
- Toggle on an id that is not in the list sends no request. This is not a
  deliberate guard. `find` returns `undefined`, and reading `.completed`
  from it throws inside the `try`.
- Cancel only clears the edited id. The edit buffer keeps its text until
  the next Edit click overwrites it or a successful save clears it.

## Model

| member | source | states |
|---|---|---|
| `Text.Trim` | frontend/src/App.jsx:12 | `newTodo.trim()`: the result is no longer than the input and is empty or neither starts nor ends with whitespace |
| `Text.TrimStart` | frontend/src/App.jsx:12 | the result is the suffix of the input left after dropping a blank prefix, and it does not start with whitespace |
| `Text.TrimEnd` | frontend/src/App.jsx:12 | the result is the prefix of the input left after dropping a blank suffix, and it does not end with whitespace |
| `Text.TrimIsSlice` | frontend/src/App.jsx:15 | the trimmed text is a contiguous slice of the input with only whitespace on both sides of it |
| `Text.TrimEmptyIffBlank` | frontend/src/App.jsx:12 | `newTodo.trim()` is the empty (falsy) string exactly when every character of the input is whitespace, in both directions |
| `Text.TrimIdempotent` | frontend/src/App.jsx:15 | trimming the trimmed text changes nothing |
| `TodoList.ReplaceById` | frontend/src/App.jsx:46 | mapping a reply over the list keeps its length |
| `TodoList.ReplaceByIdAt` | frontend/src/App.jsx:46 | at each position, an item with the requested id becomes the reply and any other item stays as it was |
| `TodoList.ReplaceByIdSpec` | frontend/src/App.jsx:69 | the same per-position statement for all positions at once: only items with the matching id change |
| `TodoList.ReplaceByIdAbsent` | frontend/src/App.jsx:69 | when no item has the id, the list is unchanged |
| `TodoList.ReplaceByIdKeepsIds` | frontend/src/App.jsx:46 | if the reply has the requested id, every position keeps its id, so unique ids stay unique |
| `TodoList.ReplaceByIdIdempotent` | frontend/src/App.jsx:69 | applying the same reply (with the requested id) twice gives the same list as applying it once |
| `TodoList.RemoveById` | frontend/src/App.jsx:57 | the filtered list is never longer than the input, and no kept item has the removed id |
| `TodoList.RemoveByIdMembers` | frontend/src/App.jsx:57 | an item is in the result exactly when it was in the list and does not have the removed id |
| `TodoList.RemoveByIdConcat` | frontend/src/App.jsx:57 | filtering distributes over concatenation, so kept items keep their relative order |
| `TodoList.RemoveByIdIsSubsequence` | frontend/src/App.jsx:57 | the result is a subsequence of the input (order preserved) |
| `TodoList.RemoveByIdMultiplicity` | frontend/src/App.jsx:57 | each item with another id keeps all its copies, and each item with the id keeps none |
| `TodoList.RemoveByIdLength` | frontend/src/App.jsx:57 | the length shrinks by exactly the number of items that have the id |
| `TodoList.RemoveByIdAbsent` | frontend/src/App.jsx:57 | when no item has the id, filtering returns the list unchanged |
| `TodoList.RemoveByIdKeepsUnique` | frontend/src/App.jsx:57 | filtering keeps ids unique |
| `TodoList.AppendKeepsUnique` | frontend/src/App.jsx:17 | appending a created item whose id is new keeps ids unique |
| `TodoList.FindIndex` | frontend/src/App.jsx:65 | returns None exactly when no item has the id; otherwise the first position whose item has the id |
| `TodoList.Find` | frontend/src/App.jsx:65 | returns undefined (None) exactly when no item has the id; otherwise the item at some position whose item has the id and before which no item has it, i.e. the first match |
| `TodoList.FindUnique` | frontend/src/App.jsx:65 | with unique ids, `find` returns the one item that has the id |
| `TodoList.InEditMode` | frontend/src/App.jsx:120 | `editingTodo === todo._id`: no row is in edit mode while nothing is being edited (null never equals an id); otherwise exactly the rows carrying the edited id are |
| `TodoList.AtMostOneInEditMode` | frontend/src/App.jsx:120 | all rows shown in edit mode share one id, and with unique ids at most one row is in edit mode |
| `TodoList.EditModeSelectsItem` | frontend/src/App.jsx:120 | after editing an item of a list with unique ids, the rows in edit mode are exactly the rows equal to that item |
| `TodoApp.App.constructor` | frontend/src/App.jsx:5-8 | the four state hooks start as "", [], null and "" |
| `TodoApp.App.SetNewTodo` | frontend/src/App.jsx:93 | typing sets only the new-item text |
| `TodoApp.App.SetTextEdited` | frontend/src/App.jsx:126 | typing in the edit field sets only the edit buffer |
| `TodoApp.App.AddTodo` | frontend/src/App.jsx:10-22 | blank input sends nothing and changes nothing; otherwise the trimmed text is posted; on success the reply is appended after all existing items and the input is cleared; on failure nothing changes; ids stay unique if the created id is new |
| `TodoApp.App.FetchTodos` | frontend/src/App.jsx:24-31 | sends a GET; on success the list is replaced wholesale by the reply; on failure nothing changes; no other field changes |
| `TodoApp.App.Editing` | frontend/src/App.jsx:36-39 | the edited id becomes the item's id and the buffer its text; the list and the new-item text are unchanged; only rows with that id are in edit mode |
| `TodoApp.App.SaveEdit` | frontend/src/App.jsx:41-52 | the buffer is sent as the new text; on success the items with the id are replaced by the reply and edit mode ends with an empty buffer; on failure all four fields are unchanged |
| `TodoApp.App.Cancel` | frontend/src/App.jsx:136 | only the edited id is cleared; the buffer and the list are unchanged |
| `TodoApp.App.DeleteTodo` | frontend/src/App.jsx:54-61 | sends a DELETE; on success the list is filtered by the id; on failure nothing changes; ids stay unique |
| `TodoApp.App.ToggleTodo` | frontend/src/App.jsx:63-73 | an unknown id sends nothing and changes nothing; otherwise a PATCH inverts the completed flag of the first matching item; on success every match is replaced by the reply; no other field changes |

## Left out

- The service: `backend/server.js` only does process start-up, JSON middleware, route mounting, static files and `listen`. The route handlers and the database configuration it imports are not part of this model. So server-side validation, not-found errors and id assignment are not modelled. Each network call becomes an `Outcome` parameter instead.
- The HTTP transport (axios) and the URL strings. A request is the `Request` value that a handler returns.
- Concurrency between overlapping async handlers. Each handler is modelled as one atomic step. In the source, each handler builds its new list from the `todos` it captured when called, so two responses that interleave can lose an update. The model does not capture this.
- The `useEffect` hook that runs `fetchTodos` once on mount. `FetchTodos` is modelled as an ordinary transition.
- Rendering, styling and logging: the JSX, the `console.log` and `console.error` calls, and `e.preventDefault()`. The edit-mode test on line 120 is modelled as `TodoList.InEditMode`.
- The HTML `required` attribute on the new-item input. It lets the browser refuse to submit an empty field. The model submits anyway, and `AddTodo`'s own guard then sends nothing, so the state is the same either way.
- `Text.IsWhitespace` uses a fixed whitespace set taken from the ECMAScript specification and Unicode 15. Code points that later Unicode versions add to Space_Separator are not included.
- Strings: a Dafny `string` is a sequence of Unicode code points, while a JavaScript string is a sequence of UTF-16 code units. Every whitespace code point is in the Basic Multilingual Plane, so `trim` and `===` agree on well-formed strings. Strings holding a lone surrogate cannot be represented in the model.
