# TaskOrganizer task store, modelled in Dafny

TaskOrganizer is a week-calendar screen. Its one piece of state is the task
store: a dictionary from a `Date` key to that day's ordered list of
`UserTask` records. The screen writes to it with `add`, `remove` and
`update`, and it reads a day with `tasks[date] ?? []`. This project models
that store as an immutable `map<Date, seq<UserTask>>` with pure functions,
and proves the properties the screen relies on:

- frame conditions: only the written day changes;
- order: add appends, and remove keeps the survivors in order;
- update overwrites only the first entry with the task's identifier, in place;
- the no-op cases of remove and update;
- the add/remove round trip;
- remove and update are idempotent;
- identifiers stay unique across the store over a whole session of writes.

Layout:

- `tasks.dfy` (module `Tasks`): the `UserTask` record, with abstract `Date` and
  `Uuid` types that are only compared for equality. It also holds the edit
  form's copy-with-new-fields (`Edit`, a helper of
  `StoreProperties.EditThenSave`), and the identifier set and distinctness of a list.
- `task_lists.dfy` (module `TaskLists`): the two list primitives the store
  uses on one day's list. These are `removeAll(where:)` and
  `firstIndex(where:)`, both matching on the identifier.
- `task_store.dfy` (module `TaskStore`): the store, the per-day read,
  `add`, `remove`, `update` and the "+" button's `addDummyTask`. `DummyTask`
  builds the placeholder task, and is a helper of `AddDummyTask`.
- `store_properties.dfy` (module `StoreProperties`): lemmas relating the
  operations to each other and to the uniqueness invariant. They also cover
  sessions, meaning sequences of writes.

Keys are the exact `Date` values the caller passes. The store does not round
them to a calendar day. Two instants on the same day are different keys.
The store is meant to hold each calendar day's tasks. Even so, the code uses
the `Date` as given, with no normalisation (`Home.swift:25`, `29`, `33`).
The model follows the code.

## Model

| member | source | states |
|---|---|---|
| TaskLists.RemoveAllWithId | TaskOrganizer/View/Home.swift:29 | `removeAll(where: { $0.id == task.id })`. A task is in the result exactly when it was in the input and does not carry the identifier. Afterwards the identifier is absent and the list is no longer than before. |
| TaskLists.RemoveAllAppend | TaskOrganizer/View/Home.swift:29 | Removal distributes over concatenation, so the surviving entries keep their relative order. |
| TaskLists.RemoveAllAbsent | TaskOrganizer/View/Home.swift:29 | If no entry carries the identifier, removal returns the list unchanged. |
| TaskLists.RemoveAllIdempotent | TaskOrganizer/View/Home.swift:29 | Removing the same identifier twice is the same as removing it once. |
| TaskLists.RemoveAllDistinct | TaskOrganizer/View/Home.swift:29 | Suppose identifiers are distinct and the match is at position i. Then removal returns the list without position i, one shorter. |
| TaskLists.RemoveAllKeepsDistinct | TaskOrganizer/View/Home.swift:29 | Removal keeps identifiers distinct. It takes away exactly the removed identifier from the list's identifier set. |
| TaskLists.FirstIndexOf | TaskOrganizer/View/Home.swift:33 | `firstIndex(where:)` on the identifier. A returned position is in range, carries the identifier, and has no earlier match. `None` is returned exactly when no entry carries the identifier. |
| TaskLists.FirstIndexOfUnique | TaskOrganizer/View/Home.swift:33 | Take any position that carries the identifier and has no earlier match. That position is the one the search returns. |
| TaskStore.TasksFor | TaskOrganizer/View/Home.swift:137 | The per-day read `tasks[date] ?? []`. A day without a key reads as `[]`, never as a missing value. A non-empty read means the day has a key. |
| TaskStore.Add | TaskOrganizer/View/Home.swift:24-26 | The day's list becomes the old list (empty if the key was absent) with the task appended, one longer. An absent key is created holding exactly `[t]`. Every other key and list is unchanged. |
| TaskStore.Remove | TaskOrganizer/View/Home.swift:28-30 | The set of keys is unchanged. An absent day leaves the whole store unchanged. A task stays in the day's list exactly when its identifier differs from the removed one. Other days are unchanged. |
| TaskStore.Update | TaskOrganizer/View/Home.swift:32-35 | Keys and the day's length are unchanged. With no matching identifier (or no key), the store is unchanged. Otherwise the task is in the list, and every position holds either the task or its old entry. Other days are unchanged. |
| TaskStore.AddDummyTask | TaskOrganizer/View/Home.swift:265-270 | The "+" button creates the day's key if absent and keeps the day's old entries as a prefix. It appends one task with the new identifier, title "New Task", location "Madrid" and the given times. Other days are unchanged. |
| StoreProperties.AddThenRemove | TaskOrganizer/View/Home.swift:24-30 | Add a task whose identifier is new to the day, then remove it. The day reads as before. An existing key gives back the whole store. A new key stays, holding `[]`. |
| StoreProperties.RemoveIdempotent | TaskOrganizer/View/Home.swift:28-30 | A second identical remove changes nothing. |
| StoreProperties.RemoveDeletesOne | TaskOrganizer/View/Home.swift:28-30 | When the day's identifiers are distinct, removing the task at position i deletes just that entry. The others keep their order. |
| StoreProperties.UpdateReplacesFirstMatch | TaskOrganizer/View/Home.swift:32-35 | This is a positional characterisation with no search in it. If i is the first position with the task's identifier, the day becomes the old list with position i overwritten by the task. |
| StoreProperties.UpdateIdempotent | TaskOrganizer/View/Home.swift:32-35 | After an update, the search finds the same position. A second identical update changes nothing. |
| StoreProperties.UpdateKeepsIds | TaskOrganizer/View/Home.swift:32-35 | Update never moves a task to another day. It never changes the set of identifiers any day holds. |
| StoreProperties.EditThenSave | TaskOrganizer/View/Home.swift:353-374 | The sheet edits a copy of the row's task whose `let id` stays fixed, and Save passes it to update. When the day's identifiers are distinct, exactly the row's position i is overwritten. It then holds the original id with the form's title, times and location. The rest of the day and all other days are unchanged. |
| StoreProperties.AddPreservesWellFormed | TaskOrganizer/View/Home.swift:13-26 | Adding a task whose identifier is fresh in the store keeps identifiers unique across the store. |
| StoreProperties.RemovePreservesWellFormed | TaskOrganizer/View/Home.swift:28-30 | Remove keeps identifiers unique. If the day held the task, its identifier is afterwards nowhere in the store. |
| StoreProperties.UpdatePreservesWellFormed | TaskOrganizer/View/Home.swift:32-35 | Update keeps identifiers unique across the store. |
| StoreProperties.RunPreservesWellFormed | TaskOrganizer/View/Home.swift:20-36 | Suppose every add in a session of writes uses an identifier that is fresh when issued. Then identifiers stay unique across the store. |
| StoreProperties.NeverAddedReadsEmpty | TaskOrganizer/View/Home.swift:137 | Only add creates a key. After any session with no add for day d, a day without a key still has none, and `tasks[d] ?? []` reads `[]`. |
| StoreProperties.EmptyReadsEmpty | TaskOrganizer/View/Home.swift:22 | The initial empty store reads every day as `[]`, and its identifiers are trivially unique. |
| StoreProperties.AddDummyTaskPreservesWellFormed | TaskOrganizer/View/Home.swift:265-270 | The "+" button keeps identifiers unique across the store, given that its new identifier is fresh. |
| StoreProperties.DummyTaskScenario | TaskOrganizer/View/Home.swift:265-270 | Start from an empty store. The "+" button makes the day hold exactly the placeholder task. Deleting it leaves the day present and empty. |

## Left out

- Week computation (`Date.currentWeek`, `Date.currentWeek(offset:)`, `Date.Day`, `isSame`, `string(_:)`): defined in source files that are not part of this model.
- The week-offset counter of the arrow and "This Week" buttons: UI state that only feeds the week computation above.
- SwiftUI layout, styling, animation, scroll-position bindings and sheets: presentation only.
- The profile image picker and its asynchronous loading: I/O and concurrency.
- `DateFormatter` time strings: platform formatting with no logic of the store.
- TaskStore.AddDummyTask: the 16:00 and 17:00 times come from the platform calendar. They are free parameters, not tied to the day `d`. The source force-unwraps the calendar's result with `!`, so it traps when the calendar returns nil. That error path is not modelled: the model always succeeds.
- `UUID()`: identifier generation is random. It becomes a parameter. Uniqueness is an explicit precondition (`FreshIn`, `FreshAdds`) where a lemma needs it.
- The `shared` singleton and the `@Published` change notification: framework reactivity. A write is modelled as a new store value.
- `Hashable` equality of `UserTask`: the store never uses it, because every lookup matches on `id`.
