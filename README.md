# Todo store with references — a Dafny model

A todo has an id, a text, a `completed` flag, a list of `references` to
other todos' ids, and two clock readings. Three rules govern references:

- a todo may be marked complete only when every todo it references is
  already complete;
- marking a todo incomplete is never blocked;
- deleting a todo removes its id from every other todo's `references`.

The React client enforces all three. The server's shared store enforces
only the third: its delete cleans references, but its update copies
whatever it is given and checks nothing. The collection endpoint enforces
none of them; it only creates todos with no references. The model follows
each of the three files in the form its code takes:

- **`App` (app.dfy)** — the React client's handlers in
  `apps/app/src/App.tsx`. Each builds a new list from the previous one, so
  toggle, delete, save-edit and add are functions from `seq<Todo>` to
  `seq<Todo>`. The status filter, the page count, the page clamp, the page
  slice and the prev/next buttons are functions too.
- **`ServerData` (data_store.dfy)** — the server's shared store in
  `apps/server/src/lib/data.ts`. A module-level array is changed in place,
  so it is the class `TodoStore`, whose field `todos` the methods
  `AddTodo`, `UpdateTodo` and `DeleteTodo` reassign. `DeleteTodo` keeps the
  source's cleanup loop with its invariants. `FindIndex` is
  `Array.prototype.findIndex` as a loop. Each method's postcondition gives
  the new array as a function of the old one (`StoreUpdate`,
  `StoreDelete`), and lemmas state what those functions promise.
- **`TodosRoute` (todos_route.dfy)** — the collection endpoint in
  `apps/server/src/app/api/todos/route.ts`. It owns its own seeded array,
  separate from `data.ts`. The validation and the "largest id + 1" rule are
  functions. `GET` and `POST` are methods of the class `TodoCollection`.

Shared pieces live in `TodoTypes` (todo_types.dfy): the record, the filter
enum, the integrity predicate ("no self-reference, no dangling reference"),
unique ids, `refs.filter(r => r !== id)` and `findIndex`. `JsBuiltins`
(js_builtins.dfy) holds `String.prototype.trim` (the ECMAScript whitespace
and line-terminator set) and `Array.prototype.slice`. `Agreement`
(agreement.dfy) relates the implementations to each other. When ids are
unique, the client's delete and the server's delete give the same list,
and a POST with text appends the todo the client's add would append if it
were given the id `maxId + 1`.

Clock readings (`new Date().toISOString()`) and the client's `Date.now()`
id are parameters. A POST body is `Option<string>`, the value of its
`text` field.

Where the code and a stricter design differ, the model follows the code:

- Neither delete refreshes `updatedAt` on the todos whose references it
  cleans.
- The server's `updateTodo` stores `completed` and `references` exactly as
  given. It does no gating and no reference check, so it can create a
  self-reference or a dangling one (`ServerData.UpdateCanSelfReference`,
  `ServerData.UpdateCanDangle`).
- Nothing is reported for a missing id. Toggle, save-edit and the server's
  update leave the list unchanged. Neither delete removes a todo then, but
  both still drop every reference to the missing id, because the cleanup
  runs before the lookup.
- The client never rejects a create-time reference, because new todos
  always start with no references. At edit time it drops invalid references
  silently.
- Completion is checked only at the moment of the toggle. Un-completing a
  referenced todo later leaves its dependents complete.

## Model

| member | source | states |
|---|---|---|
| `JsBuiltins.Trim` | apps/app/src/App.tsx:66 | the trimmed text is the infix with only whitespace outside it and no whitespace at either end; it is empty exactly when the input is blank |
| `JsBuiltins.TrimIdempotent` | apps/app/src/App.tsx:90 | trimming an already trimmed text changes nothing |
| `JsBuiltins.Slice` | apps/app/src/App.tsx:55 | `slice(start, end)` with `0 <= start` reads `s[start + k]` in order, and its length is the clamped `end` minus the clamped `start` |
| `TodoTypes.Without` | apps/server/src/lib/data.ts:30 | filtering out `id` keeps exactly the other references and never lengthens the list |
| `TodoTypes.WithoutAbsent` | apps/server/src/lib/data.ts:30 | a reference list without `id` comes back unchanged |
| `TodoTypes.FirstIndex` | apps/server/src/lib/data.ts:19 | `findIndex` finds nothing exactly when the id is absent; otherwise it gives a position holding the id with no earlier one |
| `TodoTypes.WithoutConcat` | apps/server/src/lib/data.ts:30 | filtering out `id` keeps the order of the other references: it distributes over concatenation |
| `TodoTypes.Find` | apps/app/src/App.tsx:122 | `find` gives nothing exactly when the id is absent; otherwise it gives the todo at the first position holding the id |
| `App.SeedConsistent` | apps/app/src/App.tsx:8-33 | the client's initial list has unique ids, no self-reference and no dangling reference |
| `App.AllReferencesDone` | apps/app/src/App.tsx:125-127 | the completion gate passes exactly when every referenced id is present and the first todo holding it is complete |
| `App.GateEdgeCases` | apps/app/src/App.tsx:125-130 | an empty reference list passes the completion gate, and a reference to a missing id fails it |
| `App.Toggle` | apps/app/src/App.tsx:120-142 | toggling an absent id returns the list unchanged; the length stays the same; each todo either stays as it was or is a todo with that id whose `completed` is flipped and whose `updatedAt` becomes `now` |
| `App.ToggleStateMachine` | apps/app/src/App.tsx:120-141 | with unique ids, a complete todo always becomes incomplete; an incomplete one becomes complete exactly when all its references are done, and otherwise the list is unchanged; only the target changes |
| `App.ToggleKeepsIntegrity` | apps/app/src/App.tsx:132-140 | toggling preserves "no self-reference, no dangling reference" |
| `App.DropReference` | apps/app/src/App.tsx:111-115 | the conditional cleanup map equals removing `id` from every todo's references, with every other field kept |
| `App.KeepOthersMembers` | apps/app/src/App.tsx:116 | the filter keeps exactly the todos with another id |
| `App.KeepOthersIds` | apps/app/src/App.tsx:116 | the kept ids are the old ones minus the deleted id, in the old order |
| `App.KeepOthersConcat` | apps/app/src/App.tsx:116 | the filter keeps the todos themselves in their old order, even when two share an id: it distributes over concatenation |
| `App.Delete` | apps/app/src/App.tsx:108-118 | after a delete no todo has the id and none refers to it; the remaining ids are the old ones minus the deleted one, in order; each survivor is an old todo that lost only references to the id, and every todo with another id survives |
| `App.DropReferenceConcat` | apps/app/src/App.tsx:111-115 | the cleanup map works todo by todo: it distributes over concatenation |
| `App.DeleteConcat` | apps/app/src/App.tsx:108-118 | the survivors keep their old order, even when two share an id: deleting from a concatenation deletes from each part |
| `App.DeleteKeepsIntegrity` | apps/app/src/App.tsx:108-117 | delete preserves "no self-reference, no dangling reference" |
| `App.ExistingOnlyMembers` | apps/app/src/App.tsx:69-72 | the saved references are exactly the draft ids that name a todo in the list and are not the edited todo's own id |
| `App.ExistingOnlyConcat` | apps/app/src/App.tsx:69-72 | the draft filter keeps the order of the draft: it distributes over concatenation |
| `App.SaveEdit` | apps/app/src/App.tsx:65-77 | a blank draft changes nothing; otherwise only todos with the edited id change; they get the trimmed text, `updatedAt = now` and the draft filtered to valid, non-self references in draft order (`App.ExistingOnlyConcat`), and keep their id, `completed` and `createdAt` |
| `App.SaveEditKeepsIntegrity` | apps/app/src/App.tsx:69-77 | saving an edit preserves "no self-reference, no dangling reference" |
| `App.Add` | apps/app/src/App.tsx:86-103 | blank input changes nothing; otherwise exactly one todo is appended after the unchanged old ones, with the given id, the trimmed text, `completed = false` and no references |
| `App.AddKeepsConsistency` | apps/app/src/App.tsx:93-103 | given a fresh id, adding keeps ids unique and preserves "no self-reference, no dangling reference" |
| `App.Shows` | apps/app/src/App.tsx:44-48 | `all` shows every todo; `active` shows exactly the incomplete ones and `completed` exactly the complete ones |
| `App.FilterTodos` | apps/app/src/App.tsx:43-49 | a todo is in the filtered list exactly when it is in the list and the filter shows it (`active`: not completed, `completed`: completed) |
| `App.FilterConcat` | apps/app/src/App.tsx:43-49 | the filter keeps order: filtering a concatenation concatenates the filtered parts |
| `App.FilterAllIsIdentity` | apps/app/src/App.tsx:43-45 | the `all` filter returns the whole list |
| `App.ActiveCompletedPartition` | apps/app/src/App.tsx:43-49 | every todo is shown by exactly one of `active` and `completed` |
| `App.TotalPages` | apps/app/src/App.tsx:51 | there is at least one page, exactly one when there are no todos; the pages hold every todo, and the last page is not empty when there are todos |
| `App.SafePage` | apps/app/src/App.tsx:52 | the shown page never exceeds the page count or the page, is at least 1 when the page is, and is the page itself when it is in range and the last page otherwise |
| `App.PageTodos` | apps/app/src/App.tsx:53-55 | a page holds at most 5 todos, taken in order from the page's first position, and is full unless it is the last page |
| `App.EveryTodoOnItsPage` | apps/app/src/App.tsx:50-55 | the todo at position `i` of the filtered list is at position `i % 5` of page `i / 5 + 1`, and that page exists |
| `App.PrevPage` | apps/app/src/App.tsx:327 | "previous" goes back exactly one page from any page past the first, and gives page 1 otherwise |
| `App.NextPage` | apps/app/src/App.tsx:340 | "next" goes on exactly one page when that page exists, and gives the last page otherwise; it never gives less than 1 from a page that is at least 0 |
| `App.PressStaysInRange` | apps/app/src/App.tsx:323-343 | any run of prev/next presses keeps a page in `[1, totalPages]` |
| `ServerData.Merge` | apps/server/src/lib/data.ts:21 | every given field (`completed` and `references` included) is stored exactly as given, every absent field keeps its old value, and `updatedAt` is always the clock |
| `ServerData.StoreUpdate` | apps/server/src/lib/data.ts:18-23 | an absent id leaves the array unchanged; the todo at the first position holding the id becomes its merge with the update, and no other position changes; the length stays the same |
| `ServerData.UpdateCanSelfReference` | apps/server/src/lib/data.ts:18-23 | in any store, an update that sets the references of the todo with an id to that id leaves the store inconsistent |
| `ServerData.UpdateCanDangle` | apps/server/src/lib/data.ts:18-23 | in any store, an update that sets the references of the todo with an id to an id no todo has leaves the store inconsistent |
| `ServerData.Cleaned` | apps/server/src/lib/data.ts:27-32 | the cleanup drops `id` from every todo's references, so none refers to it, and changes no other field, `updatedAt` included |
| `ServerData.RemoveAt` | apps/server/src/lib/data.ts:37 | `splice(k, 1)` removes position `k` and shifts the rest down |
| `ServerData.StoreDelete` | apps/server/src/lib/data.ts:25-39 | after a delete no todo refers to the id, and the array is one shorter exactly when a todo had the id |
| `ServerData.StoreDeleteShape` | apps/server/src/lib/data.ts:25-39 | an absent id leaves the cleaned array; otherwise the cleaned array loses exactly the todo at the first position holding the id |
| `ServerData.StoreDeleteIdempotent` | apps/server/src/lib/data.ts:25-39 | with unique ids no todo with the id remains, ids stay unique, and a second delete changes nothing |
| `ServerData.StoreDeleteKeepsIntegrity` | apps/server/src/lib/data.ts:25-39 | delete preserves "no self-reference, no dangling reference" |
| `ServerData.TodoStore.constructor` | apps/server/src/lib/data.ts:11 | the store starts empty |
| `ServerData.TodoStore.AddTodo` | apps/server/src/lib/data.ts:14-16 | the argument is appended after the unchanged old entries |
| `ServerData.TodoStore.FindIndex` | apps/server/src/lib/data.ts:35 | returns -1 exactly when the id is absent; otherwise the first position holding the id |
| `ServerData.TodoStore.UpdateTodo` | apps/server/src/lib/data.ts:18-23 | the new array is `StoreUpdate` of the old one |
| `ServerData.TodoStore.DeleteTodo` | apps/server/src/lib/data.ts:25-39 | the loop leaves the cleaned entries before `i` and untouched entries from `i` on; the new array is `StoreDelete` of the old one |
| `TodosRoute.SeedConsistent` | apps/server/src/app/api/todos/route.ts:4-29 | the endpoint's seed has unique ids, no self-reference and no dangling reference |
| `TodosRoute.MaxId` | apps/server/src/app/api/todos/route.ts:50 | the maximum is an id of the array and no id exceeds it |
| `TodosRoute.HasText` | apps/server/src/app/api/todos/route.ts:42 | a body passes validation exactly when it has a `text` that is not all whitespace |
| `TodosRoute.NextId` | apps/server/src/app/api/todos/route.ts:50-51 | the new id is one more than an existing id and larger than every existing id, so it is fresh; it is 1 for an empty array |
| `TodosRoute.PostStore` | apps/server/src/app/api/todos/route.ts:42-62 | a missing or blank text leaves the array unchanged; otherwise exactly one todo is appended after the unchanged old ones, with a fresh id, the trimmed non-blank text, `completed = false` and no references |
| `TodosRoute.PostKeepsConsistency` | apps/server/src/app/api/todos/route.ts:50-62 | a POST keeps ids unique and preserves "no self-reference, no dangling reference" |
| `TodosRoute.ReplayKeepsConsistency` | apps/server/src/app/api/todos/route.ts:50-62 | any run of POSTs keeps ids unique and references sound |
| `TodosRoute.ReplayFromSeed` | apps/server/src/app/api/todos/route.ts:4-62 | starting from the seed, ids stay pairwise distinct and references stay sound across any run of POSTs |
| `TodosRoute.TodoCollection.constructor` | apps/server/src/app/api/todos/route.ts:4-29 | the endpoint starts with the seed |
| `TodosRoute.TodoCollection.Get` | apps/server/src/app/api/todos/route.ts:32-34 | GET returns the array as it is, with status 200 |
| `TodosRoute.TodoCollection.Post` | apps/server/src/app/api/todos/route.ts:37-64 | a missing or blank text gives 400 with the required-text message and leaves the array unchanged; otherwise the array is `PostStore` of the old one, and the response is 201 with the appended todo |
| `Agreement.CleanupsAgree` | apps/app/src/App.tsx:111-115 | the client's conditional cleanup map and the server's cleanup loop give the same list |
| `Agreement.KeepOthersIsSplice` | apps/app/src/App.tsx:116 | with unique ids, filtering out the id of the todo at position `k` equals `splice(k, 1)` |
| `Agreement.DeletesAgree` | apps/app/src/App.tsx:108-118 | with unique ids, the client's delete and the server's `deleteTodo` give the same list |
| `Agreement.PostIsAdd` | apps/server/src/app/api/todos/route.ts:50-60 | a POST with text appends the todo the client's add appends when given the id `maxId + 1` |

## Left out

- Network and cache plumbing: `apps/app/src/api/todoApi.ts` (`fetch` calls) and `apps/app/src/hooks/useTodos.ts` (query-cache invalidation). They are I/O.
- `apps/server/src/lib/cors.ts`. It only sets response headers.
- JSX rendering: `apps/server/src/app/page.tsx` and the components in `apps/app/src/components/`. The only logic in the components repeats logic in `App.tsx`: the draft-reference checkbox (left out below) and the prev/next clamp (`App.PrevPage` and `App.NextPage`).
- `apps/server/src/app/api/todos/[id]/route.ts` is not part of this model. Its PUT and DELETE work on yet another array, and the collection endpoint does not call them.
- React state plumbing in `App.tsx`: the two `useEffect` page resets (lines 144-150), `handleEditTodo` loading the draft (lines 57-63), the draft checkbox (lines 250-254), focus handling and `FormData` extraction. These are UI runtime concerns. The add handler's input is a plain string.
- `App.SaveEdit`: the edited id is an `int`. The source's `editTodoId` can be `null`, but the save button only exists while a todo is being edited.
- `App.AddKeepsConsistency`: assumes the `Date.now()` id is fresh, because the code does not guarantee that.
- `App.ToggleStateMachine`: assumes unique ids. With duplicate ids the gate checks only the first todo with the id, but the `map` flips every todo with it.
- Clock readings are one opaque `now` string per call. The source calls the clock separately for `createdAt` and `updatedAt`.
- Ids are unbounded integers. JavaScript numbers are doubles, and `maxId + 1` would lose precision past 2^53.
- `trim` works on Unicode scalar values. JavaScript strings are UTF-16 code units, but the whitespace set is the same.
- HTTP details of `route.ts`: JSON parsing, the 500 path (lines 65-70), and a `text` that is a truthy non-string such as a number, `true`, an object or an array (it throws inside `trim` and gets the 500 response). A falsy `text` (`null`, `0`, `false`) fails the `!text` test and gets the 400 response, like a missing one; `None` stands for all of these. A response is a status and a payload.
- Concurrency. Every operation runs to completion before the next one starts.
