# To-do list state machine

A Dafny model of the single-screen React Native to-do app. Its state has two parts:

- an ordered list of records `{id, task, completed}`;
- the text waiting in the input box.

The screen changes that state through five handlers:

- typing replaces the pending text;
- "add" appends a new incomplete task, or refuses an input that is exactly empty;
- "done" sets `completed` on every task with the given id;
- "delete" removes every task with the given id;
- "clear" empties the list, but only when the user answers `Yes` in the confirmation dialog.

The model splits into two modules:

- `TodoList` (`todo_list.dfy`) holds the `Todo` record and the two list operations that work by id. It also holds the reference notions the contracts use: `HasId`, `Count`, `UniqueIds`, `IsSubsequence`, and `Pending` (the multiset of records not yet completed).
- `App` (`app.dfy`) holds the screen `State` and the handlers. It also holds the intents (`Event`), the single-step and run semantics, and the lemmas that relate the handlers to one another.

Ids are the numbers the app draws with `Math.random()`. The model gives them as `int`, and only their equality matters. The id of a new task is a parameter of "add". Nothing in the model assumes ids are unique: `UniqueIds` only appears as the hypothesis of the lemmas that are about it. The user's answer to the clear dialog is a parameter too. The "Write something" notice is part of the result of "add".

The model follows the code, including where a to-do app might be expected to behave differently:

- only the exact empty string is refused, so blank input such as `" "` is accepted and nothing is trimmed;
- "delete" and "done" act on every item with a matching id, not on one;
- ids are not guaranteed unique.

## Model

| member | source | states |
|---|---|---|
| App.SetInputText | App.js:166 | typing replaces the pending text and leaves the list as it is |
| App.AddTodo | App.js:20-32 | an alert is shown exactly when the input is `""`, and then the state is unchanged; otherwise the list grows by one, the old list is its prefix, the last item is `{newId, inputText, false}` and the input becomes `""` (whitespace-only input is accepted) |
| TodoList.MarkTodoComplete | App.js:34-42 | same length and order; at each index the id and task are kept, and `completed` becomes true exactly when it already was or the id matches |
| TodoList.MarkAbsentIsIdentity | App.js:35-41 | marking an id no item carries returns the list unchanged |
| TodoList.MarkIdempotent | App.js:35-41 | marking twice with the same id equals marking once |
| TodoList.MarkShrinksPending | App.js:36-38 | after marking, the pending (incomplete) records are a sub-multiset of those before: no item becomes incomplete |
| TodoList.DeleteTodo | App.js:44-47 | the result is a subsequence of the list in the original order; it holds every record whose id differs, each as often as before, and no record with that id; its length is the old length minus the number of matches |
| TodoList.DeleteAbsentIsIdentity | App.js:45 | deleting an id no item carries returns the list unchanged |
| TodoList.DeleteIdempotent | App.js:45 | deleting twice with the same id equals deleting once |
| TodoList.DeleteUniqueRemovesOne | App.js:45 | when ids are unique and the id is present, exactly one item is removed |
| TodoList.CountAfterDelete | App.js:45 | after a delete the id has no item left, and every other id keeps its item count |
| TodoList.DeleteShrinksPending | App.js:45 | deleting never adds a pending record |
| App.ClearTodos | App.js:49-59 | `Yes` yields the empty list whatever it held; `No` leaves the state unchanged; neither touches the input text |
| App.Step | App.js:20-59 | one intent handled by the handler its control is wired to (App.js:86, 93, 133, 166, 169): "done", "delete" and the clear dialog leave the input text as it was; typing leaves the list as it was; only "add" can lengthen the list, and by at most one |
| App.StepNeverUncompletes | App.js:20-59 | for every intent, the pending records afterwards are among those before, plus the one new incomplete record an accepted add creates: no handler turns `completed` from true back to false |
| App.RunPendingOrigin | App.js:20-59 | after any sequence of intents, the pending records are a sub-multiset of those pending at the start plus the exact `{newId, text, false}` records the accepted add presses created |
| App.StepIdsOrigin | App.js:20-59 | no intent invents an id: every id in the list after a step was there before or is the id handed to that step's add press |
| App.RunIdsOrigin | App.js:20-59 | after any sequence of intents, every id in the list was in the starting list or was handed to one of the add presses |
| App.RunFromInitial | App.js:17-18 | from the `useState` starting values (no tasks, empty input; a launch with nothing stored), every task's id was handed to an add press, and every pending task is one of the records an accepted add press created |
| App.AddThenDeleteRestores | App.js:20-47 | pressing add under an id the list does not carry and then deleting that id gives back the original list, whether the add was accepted or refused |
| App.StepPreservesUniqueIds | App.js:20-59 | if ids are unique before an intent, they stay unique after it, as long as an accepted add is handed an id the list does not already carry |
| App.BuyMilkScenario | App.js:20-42 | type "Buy milk", add, add again on the emptied box (refused with the alert), mark done: the list is exactly one completed "Buy milk" |

## Left out

- Persistence (`saveTodosToUserDevice`, `getTodosFromUsersDevice`, App.js:102-127) is left out. It is asynchronous I/O to the device's key-value store, and it relies on `JSON.stringify`/`JSON.parse`, which are not part of this model. So the save/load round trip and "an empty store gives an empty list" are not stated. On mount the app replaces the list with the stored tasks, if there are any. `Initial`, and so `App.RunFromInitial`, describe a launch with an empty store.
- Id generation with `Math.random()` (App.js:25) is left out: the new id is a parameter of "add". Collisions are possible in the app, so uniqueness is only ever a hypothesis.
- The `Alert.alert` dialogs (App.js:22, App.js:50) are UI side effects. The error notice is a value in the result of "add". The clear confirmation is the `Choice` input. Dismissing that dialog without pressing a button is the same as `No`.
- React hook scheduling is left out. `addTodo` appends through the updater form of `setTodos`, but it reads `inputText` from the rendered snapshot (App.js:21, 26). `markTodoComplete` and `deleteTodo` compute the new list from the rendered `todos` (App.js:35, 45). `clearTodos` sets the constant `[]` (App.js:53). The model handles each intent to completion before the next one, so the two forms agree.
- Rendering is left out: `ListItem`, `FlatList`, the style constants, and hiding the "done" button for completed tasks (App.js:60-100, App.js:129-244). Hiding that button only limits which ids the user can pass, and that reaches no state the model leaves out. Every item with a given id is marked at once. If all items with that id are already completed, marking it changes nothing. If one of them is still incomplete, that item shows its own "done" button, and the button passes the same id.
- The optional chaining on items (`item?.id`) is not modelled: the list never holds a missing item.
