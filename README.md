# Dense task ids: a Dafny model of the task service

This project models the task service of a small task-manager backend, `TaskService` in
`task-manager-backend/src/tasks/tasks.service.ts`. Users own tasks. Every task row carries an integer
primary key `id`. The service keeps these ids dense across the whole table, for all owners at once:

- a new task takes the smallest positive id not in use;
- deleting a task moves every larger id down by one, in ascending order, so the gap closes.

The model is imperative, like the service. `TasksService.TaskService` is a class whose field `tasks`
is the `task` table as a sequence of rows in storage order. Its field `users` is the set of usernames
the user service can find. Each of the four operations is a method (or, for the read-only query, a
function):

- `CreateTask` contains the id-scan loop `NextFreeId`.
- `DeleteTask` contains the ascending renumbering loop. That loop works on the transaction's own copy
  of the table and commits it in one step.
- `UpdateTask` does the partial merge.
- `FindTasksByUser` filters by owner.

The store's queries are functions on sequences, in module `TaskTable`:

- `findOne` by id is `FindById`.
- `delete` is `Remove`.
- `update ... set id` is `Renumber`.
- a lookup by owner is `OwnedBy`.

The ordered queries (`order: { id: 'ASC' }`, `id: MoreThan(k)`) are `Ordering.SortAsc` and
`Ordering.Above`, with their ordering and permutation properties proved.

What the table module proves about these functions:

- Allocation picks the least free id (`IsLeastFreeId`). On a dense table that id is N + 1.
- Compaction (`Compact`) deletes exactly one row and keeps the order of the others. Ids below the
  deleted one stay as they are, and each larger id drops by one. The primary key, the dense range
  1..N (which becomes 1..N-1) and per-owner title uniqueness are all preserved.
- Renumbering must run in ascending order. `RenumberedDistinct` shows the ids stay pairwise distinct
  after every step of the loop. `DescendingRenumberCollides` shows that the opposite order would
  break the primary key.

The class invariant `Valid()` is the primary-key constraint plus positive ids. Density is not part of
it. The constructor may start from any table with distinct positive ids, so a table with gaps also
exercises the gap reuse in `CreateTask` (see `Scenarios.CreateFillsGap`). Each method proves that a
dense table stays dense.

Points where one might expect more than the code does:

- A task id that is absent makes `deleteTask` and `updateTask` throw a plain `Error('Task not found')`
  (tasks.service.ts:66 and :92), not a `NotFoundException` like the unknown user at :22. The model
  gives it its own kind, `TaskNotFound`, separate from `UserNotFound`.
- Titles are meant to be unique per owner, but only `createTask` enforces it (tasks.service.ts:25-30).
  `updateTask` merges a new title without any check (tasks.service.ts:89-98), so it can rename a task
  onto the title of another task of the same owner (`TaskTable.UpdateCanDuplicateTitle`).
- Ids stay dense only when the table starts dense. Only the primary key and positive ids hold in
  every state.
- A create never retries: two concurrent creates that compute the same id are not handled by the
  code (tasks.service.ts:32-54).

## Model

| member | source | states |
|---|---|---|
| `TasksService.NextFreeId` | task-manager-backend/src/tasks/tasks.service.ts:36-43 | For any input: the result lies in 1..N+1, the first result-1 ids equal their 1-based positions, and the id at position result (if any) does not equal result. For [1..N] the result is N+1. For strictly ascending positive ids the result is not in use and every smaller positive id is. |
| `TasksService.TaskService.constructor` | task-manager-backend/src/tasks/tasks.service.ts:11-15 | The service starts over a given table whose ids are distinct and positive, and a given set of known usernames. |
| `TasksService.TaskService.CreateTask` | task-manager-backend/src/tasks/tasks.service.ts:17-55 | An unknown username gives UserNotFound. A title the owner already uses (`HasTitle`, the lookup at :25-28) gives TitleConflict. Both leave the table unchanged. Otherwise exactly one row is appended, with the given fields, that owner, and the least free id (at most N+1). Distinct positive ids and per-owner title uniqueness are kept. A dense table stays dense and the new id is N+1. |
| `TasksService.TaskService.FindTasksByUser` | task-manager-backend/src/tasks/tasks.service.ts:57-61 | Returns exactly the stored tasks of that owner, each as many times as it is stored. |
| `TasksService.TaskService.DeleteTask` | task-manager-backend/src/tasks/tasks.service.ts:63-87 | An absent id gives TaskNotFound and leaves the table unchanged. Otherwise the table becomes `Compact(old, id)`: the row is deleted and every larger id is moved down by one. The primary key and positive ids are kept, and a dense table stays dense. |
| `TasksService.TaskService.UpdateTask` | task-manager-backend/src/tasks/tasks.service.ts:89-98 | An absent id gives TaskNotFound and leaves the table unchanged. Otherwise only the matching row changes, to the merge of the supplied fields, and that row is returned. The id sequence of the table is unchanged, so the key and density are kept. |
| `TasksService.PlanAfterDelete` | task-manager-backend/src/tasks/tasks.service.ts:70-77 | After the delete, the remaining rows have distinct ids and none equals the deleted id. The ids loaded for renumbering are strictly ascending and are exactly the remaining ids above the deleted one. |
| `TasksService.RenumberedNone` | task-manager-backend/src/tasks/tasks.service.ts:72-79 | Before the first renumbering, no row counts as moved: no remaining id lies between the deleted id and the smallest id to move. |
| `TasksService.RenumberStep` | task-manager-backend/src/tasks/tasks.service.ts:79-85 | Renumbering the i-th ascending id to one less moves exactly the row that held it. After it, the moved rows are precisely those whose original id lies above the deleted id and below the next id to move. |
| `TasksService.RenumberedDistinct` | task-manager-backend/src/tasks/tasks.service.ts:79-85 | In every intermediate state of the ascending renumbering, the ids are pairwise distinct, as the primary key at task.entity.ts:6 requires. |
| `TasksService.RenumberedAll` | task-manager-backend/src/tasks/tasks.service.ts:79-86 | Once every id has been renumbered, each row above the deleted id has moved down by one and every other row is unchanged. |
| `TaskTable.Ids` | task-manager-backend/src/tasks/tasks.service.ts:32-33 | The ids of the rows, position by position: one per row, the i-th being the i-th row's id. |
| `TaskTable.Renumber` | task-manager-backend/src/tasks/tasks.service.ts:80-84 | The update `{ id: from }` to `{ id: to }`: a row holding `from` now holds `to`, every other id is unchanged, no other field of any row changes, and the table keeps its length. |
| `TaskTable.Compact` | task-manager-backend/src/tasks/tasks.service.ts:69-86 | The committed table after deleting id k is no longer than before. Each of its rows with an id below k is a stored row as it was. Each row with an id of k or more is the stored row that had the next id, moved down by one. |
| `TaskTable.FindById` | task-manager-backend/src/tasks/tasks.service.ts:64-67 | Finds a row with the given id exactly when the id is in use. |
| `TaskTable.OwnedBy` | task-manager-backend/src/tasks/tasks.service.ts:58-60 | The rows of one owner, each with its stored multiplicity, and no other rows. |
| `TaskTable.Remove` | task-manager-backend/src/tasks/tasks.service.ts:70 | No remaining row has the deleted id, and the result is no longer than the input. Together with `RemoveIsSlice`, exactly the one row holding it is gone. |
| `TaskTable.Lower` | task-manager-backend/src/tasks/tasks.service.ts:83 | An id above the deleted one drops by one and an id below it stays. No field other than the id changes. |
| `TaskTable.SortedIds` | task-manager-backend/src/tasks/tasks.service.ts:32-35 | On a table with distinct positive ids, the ids read in ascending order are strictly ascending, positive, and are exactly the ids in use. |
| `TaskTable.LeastFreeIdUnique` | task-manager-backend/src/tasks/tasks.service.ts:36-43 | At most one integer is the least free id, so createTask's contract fixes the new id. |
| `TaskTable.DenseLeastFreeId` | task-manager-backend/src/tasks/tasks.service.ts:36-43 | When the ids are exactly 1..N, the least free id is N+1. |
| `TaskTable.AppendKeepsWellFormed` | task-manager-backend/src/tasks/tasks.service.ts:45-54 | Saving a row whose positive id is not in use keeps the ids distinct and positive. |
| `TaskTable.AppendKeepsDense` | task-manager-backend/src/tasks/tasks.service.ts:45-54 | Saving a row under the least free id turns the ids 1..N into 1..N+1. |
| `Scenarios.LeastFreeInOneTwoFour` | task-manager-backend/src/tasks/tasks.service.ts:36-43 | With ids 1, 2 and 4 in use the least free id, and so the id createTask gives the next task, is 3, not 5. |
| `TaskTable.AppendKeepsTitlesUnique` | task-manager-backend/src/tasks/tasks.service.ts:25-30 | A row whose title its owner does not yet use keeps titles unique per owner. |
| `TaskTable.RemoveIsSlice` | task-manager-backend/src/tasks/tasks.service.ts:70 | With distinct ids, deleting the id of the row at position p removes that row and no other: the result is the table with position p cut out. |
| `TaskTable.CompactShape` | task-manager-backend/src/tasks/tasks.service.ts:69-86 | After a delete the table is one row shorter. Survivors keep their storage order, and each is the original row with an id above the deleted one moved down by one. |
| `TaskTable.CompactKeepsWellFormed` | task-manager-backend/src/tasks/tasks.service.ts:69-86 | The committed deletion keeps the ids distinct and positive. |
| `TaskTable.CompactKeepsDense` | task-manager-backend/src/tasks/tasks.service.ts:69-86 | If the ids were exactly 1..N, they are exactly 1..N-1 after the deletion. |
| `TaskTable.CompactKeepsTitlesUnique` | task-manager-backend/src/tasks/tasks.service.ts:69-86 | The deletion keeps titles unique per owner. |
| `TaskTable.CompactKeepsIdOrder` | task-manager-backend/src/tasks/tasks.service.ts:79-85 | Any two survivors compare by id after the deletion exactly as they did before it. |
| `TaskTable.DescendingRenumberCollides` | task-manager-backend/src/tasks/tasks.service.ts:76 | Renumbering in descending order, 3 before 2 after id 1 of [1,2,3] is deleted, would put two rows on id 2. This is why the loop runs ascending. |
| `TaskTable.UpdateCanDuplicateTitle` | task-manager-backend/src/tasks/tasks.service.ts:89-98 | An update that renames a task to the title of another task of the same owner breaks per-owner title uniqueness: updateTask does not check titles. |
| `TaskEntity.ApplyUpdate` | task-manager-backend/src/tasks/update-task.dto.ts:3-19 | Id and owner never change. Each of title, cost, completed and date takes the supplied value when present and keeps its old value when absent. |
| `TaskEntity.ApplyUpdateIdempotent` | task-manager-backend/src/tasks/tasks.service.ts:95 | Applying the same update twice gives the same row as applying it once. |
| `TaskEntity.ApplyNoChange` | task-manager-backend/src/tasks/update-task.dto.ts:3-19 | An update that supplies no field leaves the row unchanged. |
| `Scenarios.CompactExample` | task-manager-backend/src/tasks/tasks.service.ts:69-86 | Deleting id 2 from tasks 1:A, 2:B, 3:C leaves 1:A and 2:C: C has moved down from id 3. |
| `Ordering.SortAsc` | task-manager-backend/src/tasks/tasks.service.ts:32-35 | The ids in ascending order: a permutation of the input that is sorted, strictly so when the ids are distinct. |
| `Ordering.Above` | task-manager-backend/src/tasks/tasks.service.ts:72-75 | Exactly the ids greater than the deleted one. Distinct ids stay distinct. |

## Left out

- User registration, login and bcrypt hashing (users.service.ts) are not modelled. A user's
  existence is the set `users` that `CreateTask` consults, and an owner is its username, which is
  unique (user.entity.ts:9-10).
- The controllers, module wiring, database configuration and frontend router have no logic of their
  own and are not modelled. In particular, the route parameter `id` is taken to arrive as an integer.
- Asynchrony, transaction isolation and rollback after a store failure are not modelled. So is the
  race between two concurrent creates that compute the same id. Each operation is atomic over the
  in-memory table, and `DeleteTask` builds the new table before assigning it once.
- The request validators are not modelled. `UpdateTaskDto` carries exactly the four declared optional
  fields. A body with extra properties, which `Object.assign` would also copy if no whitelist strips
  them, is not modelled.
- Database row order is not specified. The table is a sequence in insertion order, so
  `FindTasksByUser` returns the owner's rows in that order.
- TasksService.TaskService.constructor: it requires distinct positive ids. A primary key that is zero
  or negative could make the id scan return an id already in use, and that case is not modelled.
