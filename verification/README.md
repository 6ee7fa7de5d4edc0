# Todo list state machine

A Dafny model of the task-list logic in the `TodoList` React component of a
small Next.js todo application. The component keeps an ordered list of tasks
(`id`, `text`, `completed`), the text typed into the "Add a new task" field,
the id of the task being edited (or `null`), and the edit buffer. Its five
handlers — `addTask`, `toggleTaskCompletion`, `startEditingTask`,
`updateTask` and `deleteTask` — each replace that state with a new value.
Four of them rebuild the list, by an append, a `map` or a `filter`.
`startEditingTask` only sets the edit target and the buffer. The model treats
the state as an immutable datatype and each handler as a pure function
from one state to the next.

Files:

- `wrappers.dfy` — `Option`, used for the edit target. `None` stands for
  `null`, which never equals a numeric id.
- `whitespace.dfy` — the whitespace set of `String.prototype.trim`, with
  `Trim` and the blank-string predicate.
- `tasks.dfy` — the `Task` record, the distinct-ids invariant, and the list
  functions `Toggle` (map), `Rename` (map) and `Remove` (filter), with
  their lemmas.
- `todo_list.dfy` — the component state, the five handlers and lemmas that
  relate them.

Modelling choices:

- `Date.now()` becomes the argument `now` of `AddTask`. The clock itself is
  not modelled.
- `s.trim() !== ""` is modelled as `Trim(s) != ""`. `TrimEmptyIffBlank`
  proves this equals `!IsBlank(s)`, and `IsBlank` means every character is
  whitespace. `IsWhitespace` is the union of the ECMAScript (ECMA-262)
  WhiteSpace production and its LineTerminator production: TAB, VT, FF,
  ZWNBSP, the Unicode Zs characters, LF, CR, LS and PS. This is an
  approximation. The Zs list is fixed at the Unicode version written here.
  Also, a Dafny `char` is a Unicode scalar value, while a JavaScript string
  is a sequence of UTF-16 code units, so a lone surrogate cannot be
  represented.
- `startEditingTask` takes any id and text. The only caller, the Edit
  button (components/TodoList.tsx:161), passes the row's own id and text.
  `StartEditingTask` is modelled at the handler's generality, and
  `EditAndSaveUnchanged` covers the button's use.
- A save after the edited task has been deleted does not "do nothing". It
  changes no task, but it still clears the edit target and the buffer
  (`DeleteWhileEditing`). No button can trigger that save. The Save button
  and the edit field are drawn only on the row whose id is the edit target
  (components/TodoList.tsx:125, 152), and that row is gone. The stale target
  and buffer stay until the next Edit click replaces them
  (`StartEditingOverwrites`).
- Two invariants of the task list are carried through the handlers. One is
  that ids are distinct (`DistinctIds`). The other is that no stored text is
  blank (`TextsNonBlank`), because both entry points reject blank text.
  `Event` and `Run` replay a sequence of user actions: the five handlers and
  typing into either text field.
- JavaScript numbers are modelled as unbounded `int`. Ids are millisecond
  timestamps, which are integers well inside the exactly representable
  range.

## Model

| member | source | states |
|---|---|---|
| `Tasks.Toggle` | components/TodoList.tsx:54-58 | same length and order, every id and text kept; completion changes on a task exactly when its id is the toggled id |
| `Tasks.Rename` | components/TodoList.tsx:68-72 | same length and order, ids and completion kept; a task gets the new text exactly when the edit target is `Some` of its id, else keeps its text |
| `Tasks.Remove` | components/TodoList.tsx:79 | result is an order-preserving subsequence with no task of that id, shorter by exactly the number of tasks carrying the id, holding exactly the old tasks of other ids; unchanged when the id is absent |
| `Tasks.RemoveUnique` | components/TodoList.tsx:79 | any list that is a subsequence, free of the id and of the right length equals `Remove`, so `Remove`'s contract fully determines the filter |
| `Tasks.CountId` | components/TodoList.tsx:79 | the number of tasks carrying an id is zero exactly when no task carries it, and at most the list length |
| `Tasks.CountIdDistinct` | components/TodoList.tsx:79 | with distinct ids, a present id occurs exactly once |
| `Tasks.RemoveDistinct` | components/TodoList.tsx:79 | with distinct ids, deleting keeps ids distinct, and removes exactly one task when the id is present |
| `Tasks.SubsequenceDistinct` | components/TodoList.tsx:79 | a subsequence of a list with distinct ids has distinct ids |
| `Tasks.AppendKeepsInvariants` | components/TodoList.tsx:37-43 | appending a task with a fresh id keeps ids distinct; appending one with non-blank text keeps every text non-blank |
| `Tasks.RenameKeepsTextsNonBlank` | components/TodoList.tsx:67-71 | renaming to a non-blank text keeps every text in the list non-blank |
| `Tasks.ToggleInvolution` | components/TodoList.tsx:55-56 | toggling the same id twice gives back the original list |
| `Tasks.ToggleAbsent` | components/TodoList.tsx:55-56 | toggling an id no task carries leaves the list unchanged |
| `Tasks.RenameNone` | components/TodoList.tsx:70 | with edit target `None` (`null`) no task matches and the list is unchanged |
| `Tasks.RenameSameText` | components/TodoList.tsx:69-71 | with distinct ids, renaming a task to its own text leaves the list unchanged |
| `Whitespace.TrimStart` | components/TodoList.tsx:37 | result is a suffix of the input, the dropped prefix is all whitespace, and the result does not start with whitespace |
| `Whitespace.TrimEnd` | components/TodoList.tsx:37 | result is a prefix of the input, the dropped suffix is all whitespace, and the result does not end with whitespace |
| `Whitespace.Trim` | components/TodoList.tsx:37 | the result is the slice of the input between a whitespace-only prefix and a whitespace-only suffix, and it neither starts nor ends with whitespace |
| `Whitespace.TrimEmptyIffBlank` | components/TodoList.tsx:67 | trimming gives the empty string exactly when every character is whitespace |
| `TodoList.AddTask` | components/TodoList.tsx:36-51 | blank input leaves the whole state unchanged; otherwise the list grows by one, earlier tasks stay in place, the last task is `(now, raw input, false)`, the input is cleared and edit state is kept; a fresh id keeps ids distinct; a list with no blank text keeps none |
| `TodoList.ToggleTaskCompletion` | components/TodoList.tsx:53-59 | only the list changes: length, order, ids and texts kept, completion flipped exactly on the tasks with that id; distinct ids stay distinct and non-blank texts stay non-blank |
| `TodoList.StartEditingTask` | components/TodoList.tsx:61-64 | edit target becomes `Some(id)` and buffer becomes the given text; list and pending input untouched |
| `TodoList.UpdateTask` | components/TodoList.tsx:66-76 | blank buffer leaves the whole state unchanged; otherwise matching tasks take the buffer as text, with ids, completion, length and order kept, and edit target and buffer are cleared; with no edit target the list is unchanged; distinct ids and non-blank texts are kept |
| `TodoList.DeleteTask` | components/TodoList.tsx:78-80 | only the list changes, to an order-preserving subsequence of exactly the other-id tasks; no-op for an absent id; with distinct ids and a present id it shrinks by one; distinct ids and non-blank texts are kept; the edit target is not cleared |
| `TodoList.ToggleTwice` | components/TodoList.tsx:53-59 | toggling the same id twice restores the whole state |
| `TodoList.ToggleUnknownId` | components/TodoList.tsx:53-59 | toggling an id no task carries leaves the state unchanged |
| `TodoList.StartEditingOverwrites` | components/TodoList.tsx:61-64 | a second start-editing replaces the first; the earlier unsaved edit is lost |
| `TodoList.UpdateTaskIdempotent` | components/TodoList.tsx:66-76 | saving twice is the same as saving once |
| `TodoList.EditAndSaveUnchanged` | components/TodoList.tsx:161 | starting an edit with the task's own text (as the Edit button does) and saving at once leaves the list unchanged when ids are distinct, whether or not that text is blank |
| `TodoList.DeleteWhileEditing` | components/TodoList.tsx:70-80 | deleting the task being edited leaves edit mode on an id no task carries; a later non-blank save changes no task and only clears the edit target and the buffer; every other field is kept |
| `TodoList.RunKeepsTextsNonBlank` | components/TodoList.tsx:36-80 | from a list with no blank text, any sequence of handler calls and typing leaves no blank text in the list |
| `TodoList.ReachableTextsNonBlank` | components/TodoList.tsx:16-80 | every list reachable from the empty initial state stores only texts that survive `trim` |
| `TodoList.BuyMilkScenario` | components/TodoList.tsx:36-80 | add "Buy milk", toggle it, click Edit (buffer seeded with "Buy milk"), type "Buy oat milk", save, delete it: completion survives the rename and the list ends empty |

## Left out

- The `localStorage` load and save effects and the `isMounted` gate
  (components/TodoList.tsx:20-34): browser storage and React effect
  scheduling. So the persistence round trip is not modelled.
- `JSON.parse` / `JSON.stringify`: library serialisation. The parsed value is
  cast to `Task[]` without any check, so there is no code to model.
- The `confetti` call in `addTask`: a cosmetic foreign call that does not
  affect the state.
- `Date.now()` as a clock: the id is a parameter. The model does not assume
  the clock produces a fresh id. Instead, `AddTask` keeps ids distinct only
  when the caller supplies an id that is not already in the list.
- The JSX rendering, the `Input`/`Button`/`Checkbox` components, and the
  Enter-key wiring (components/TodoList.tsx:82-179): user interface. The
  `onChange` setters of the two text fields appear only as the `Event`s
  `TypeNewTask` and `TypeEditedText`. The model does not say which events
  the rendered page makes available at a given moment.
