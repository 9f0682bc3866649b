# TodoMVC store and view logic in Dafny

A model of the state logic of a React/Redux TodoMVC application: the `todos`
reducer, which turns the current list of todos and an action into the next
list, and the pure logic of the top-level view around it: the visibility
filter, the `allCompleted` flag, the toggle-all and Enter-key handlers, and
the main section's toggle-all checkbox.

Modules, one per source file plus three helpers:

- `Todos` (`src/reducers/todos.js`): the `Todo` record (`id`, `value`,
  `completed`), the action kinds, and the reducer `Reduce`. The source keeps
  the id counter `nextTodoId` in a module-level variable; here the store is
  the pair `Store(todos, nextId)` and the counter is threaded through, so the
  reducer is a pure function. `Initial` is the initial state (one todo with
  id 0 and value `"Test"`) with the counter at 1.
- `App` (`src/App.js`): `FilterTodos` (`filterFunc`), `AllCompleted` (the
  `reduce` with `&&` in `mapStateToProps`), `OnToggleAllChange` and
  `HandleSubmit`.
- `MainComponent` (`src/components/Main.js`): `CompletedCount` and the
  checkbox's `Checked`.
- `Seqs`: `Array.prototype.map` and `filter` over sequences, with
  specifications independent of their recursion. A filter is specified as an
  order-preserving subsequence (`Subseq`) in which each value that passes
  occurs exactly as often as in the input and no other value occurs; only one
  sequence meets that (`IsFilterOfUnique`).
- `Strings`: `String.prototype.trim` over sequences of Unicode scalar values,
  specified by `TrimmedFrom`: the result
  is a contiguous piece of the input with no white space at its ends and only
  white space around it.
- `Options`: `Option`, for "no action dispatched".

Behaviour of the code that a reader might expect to be otherwise, modelled as written:

- `allCompleted` folds from `true`, so it is `true` for an empty list.
- `handleSubmit` does not check that the trimmed input is non-empty: Enter on
  a blank input adds a todo whose value is `""`.
- The reducer has no remove-completed case. A `RemoveCompletedTodos` action
  reaches the `default` branch and changes nothing.
- The first todo is the initial state's, with id 0; the counter then hands
  out 1, 2, ….

## Model

| member | source | states |
|---|---|---|
| Todos.Add | src/reducers/todos.js:29-37 | ADD_TODO appends exactly one todo `{id: counter, value, completed: false}` after the unchanged earlier todos, accepts any value including the empty one, and advances the counter by one |
| Todos.Toggle | src/reducers/todos.js:38-48 | TOGGLE_TODO keeps length, order, ids and values, and flips `completed` exactly on the todos whose id matches |
| Todos.ToggleAll | src/reducers/todos.js:49-53 | TOGGLE_ALL_TODOS sets every todo's `completed` to the given flag and keeps ids, values and order |
| Todos.Change | src/reducers/todos.js:54-64 | CHANGE_TODO replaces `value` only where the id matches; length, order, ids and `completed` stay |
| Todos.Remove | src/reducers/todos.js:65-66 | REMOVE_TODO yields the order-preserving subsequence that keeps every todo with another id and no todo with that id |
| Todos.Reduce | src/reducers/todos.js:27-70 | only ADD_TODO moves the counter; remove-completed and every other unhandled action leave the store unchanged |
| Todos.InitialIsValid | src/reducers/todos.js:13-18 | the initial state (id 0, counter 1) satisfies the id invariant |
| Todos.FirstAddAfterInitial | src/reducers/todos.js:13-37 | the first todo added to the initial state gets id 1 and follows the initial todo with id 0; the counter moves to 2 |
| Todos.ReducePreservesValid | src/reducers/todos.js:27-70 | every action keeps ids pairwise distinct and below the counter |
| Todos.ReduceAllPreservesValid | src/reducers/todos.js:33 | the id invariant holds after any sequence of dispatches |
| Todos.ReduceAllCounter | src/reducers/todos.js:33 | the counter grows by exactly one per ADD_TODO dispatched, so ids are never reused, even after removal |
| Todos.DispatchedIdsUnique | src/reducers/todos.js:13-18 | from the initial state, any dispatch sequence leaves ids pairwise distinct and the counter at one plus the number of adds |
| Todos.ToggleTwice | src/reducers/todos.js:38-48 | toggling the same id twice gives back the original store |
| Todos.ToggleAllIdempotent | src/reducers/todos.js:49-53 | toggling all to the same flag twice equals doing it once |
| Todos.MissingIdIsNoOp | src/reducers/todos.js:38-66 | toggle, change or remove of an id no todo carries leaves the store unchanged |
| Todos.RemovePresentId | src/reducers/todos.js:65-66 | with unique ids, removing the id at position k removes exactly that todo and keeps the rest in order |
| Seqs.Map | src/reducers/todos.js:39 | `map` keeps the length and applies the callback at every position |
| Seqs.Filter | src/reducers/todos.js:66 | `filter` returns the order-preserving subsequence of exactly the passing elements, each as often as in the input |
| Seqs.IsFilterOfUnique | src/reducers/todos.js:66 | at most one sequence is an order-preserving filter of a given input by a given predicate, so the filter contracts of `Todos.Remove` and `App.FilterTodos` determine their results |
| Seqs.FilterPartition | src/App.js:101-109 | filtering by a predicate and by its complement splits the input: multisets add up to the input's, lengths to its length |
| Seqs.FilterKeepsLength | src/components/Main.js:30 | a filter keeps the whole sequence iff every element passes |
| Strings.Trim | src/App.js:85 | the trimmed string is a contiguous piece of the input with no white space at its ends and only white space around it |
| Strings.TrimmedFromUnique | src/App.js:85 | at most one string is the trimmed form of a given input |
| Strings.TrimIdempotent | src/App.js:85 | trimming twice equals trimming once |
| App.FilterTodos | src/App.js:101-109 | the completed view is exactly the completed todos and the active view exactly the active ones, each in list order; any other visibility value shows the list unchanged |
| App.OnToggleAllChange | src/App.js:73-75 | the toggle-all click dispatches toggle-all, completing every todo exactly when some todo of the whole list is still active and otherwise marking every todo active; its effect on `allCompleted` is proved by `App.ToggleAllFlipsAllCompleted` and on the drawn box by `MainComponent.CompletedViewAlwaysChecked` |
| App.AllCompletedFrom | src/App.js:152 | the `&&` fold from accumulator `acc` is true iff `acc` holds and every todo is completed |
| App.AllCompleted | src/App.js:152 | `allCompleted` is true iff every todo is completed, so it is true for the empty list |
| App.HandleSubmit | src/App.js:77-89 | keys other than Enter (13) dispatch nothing and keep the input; Enter dispatches an add of the trimmed input, without an emptiness check, and clears the input |
| App.ViewsPartition | src/App.js:101-109 | the active and completed views partition the list: lengths sum to its length, every todo is in exactly one, each holds only its kind |
| App.ToggleAllFlipsAllCompleted | src/App.js:73-75 | on a non-empty list, dispatching `toggleAllTodos(!allCompleted)` negates `allCompleted` |
| App.ToggleAllOnEmptyList | src/App.js:73-75 | on an empty list the click dispatches toggle-all to false and `allCompleted` stays true |
| App.EnterAddsTrimmedTodo | src/App.js:77-89 | Enter on a valid store appends one active todo with the trimmed input and a fresh id, keeps the earlier todos and the id invariant |
| App.EnterOnBlankInputAddsEmptyTodo | src/App.js:84-86 | Enter on a white-space-only input adds a todo whose value is the empty string |
| MainComponent.CompletedCountFrom | src/components/Main.js:22-25 | the counting fold from `count` adds the number of completed todos, at most the list length, and reaches `count + length` iff all are completed |
| MainComponent.CompletedCount | src/components/Main.js:22-25 | `completedCount` equals the number of todos the completed view shows and lies between 0 and the list length |
| MainComponent.Checked | src/components/Main.js:30 | the box is checked iff every received todo is completed, hence checked for an empty list |
| MainComponent.CheckedOnFullList | src/components/Main.js:30 | on the unfiltered list the box equals `allCompleted` |
| MainComponent.CheckedInView | src/App.js:131 | the box drawn from the visible list passed to the main section is always checked under the completed view, and under any other view checked exactly when every todo of the whole list is completed |
| MainComponent.ActiveViewUnchecked | src/App.js:127-135 | the box receives the filtered list, so under the active view with a visible todo it is unchecked |
| MainComponent.CompletedViewAlwaysChecked | src/App.js:127-135 | under the completed view the box is checked even while a todo is active, and the click then completes every todo and leaves it checked |

## Left out

- Rendering (JSX, CSS, `TodoItem`, `Footer`), `connect` and `bindActionCreators` wiring, and the component lifecycle: presentation and framework plumbing.
- `handleChange`: it copies a DOM input's value into component state under the input's name, with no logic of its own.
- The action creators and the visibility reducer are not part of this model; actions are a closed datatype with one case per reducer branch plus `RemoveCompletedTodos` and `Other` for the rest.
- The concrete strings of the visibility constants: `Visibility.Other` stands for every value that is neither the completed nor the active constant.
- The in-place mutation and aliasing in TOGGLE_ALL_TODOS: only the resulting values are modelled.
- The module-level counter: it is explicit state in `Store`; JavaScript's loss of integer precision above 2^53 is not modelled.
- The reducer's default parameter (`state = initialState`, used when the store starts with no state): modelled only as the constant `Initial`.
- `event.preventDefault()` in `handleSubmit`: a DOM side effect.
- The conditional rendering of the main section and footer on `todos.length > 0`: a presentation concern.
- Strings.Trim: strings are sequences of Unicode scalar values, not UTF-16 code units, so a string holding a lone surrogate cannot be represented and lengths count code points (an astral character is one element, two code units in JavaScript); the white-space set is ECMAScript's WhiteSpace and LineTerminator code points as of current Unicode, all in the Basic Multilingual Plane and none a surrogate, so trimming is unaffected; future additions to the Unicode space-separator category are not tracked.
