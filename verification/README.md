# mini-crm in-memory domain layer, in Dafny

This project models the backend's in-memory domain layer of mini-crm, a small CRM with clients, projects, tasks and users. It proves what that layer promises its callers.

Four stores are modelled. Each keeps its records in a map from id to record plus a list of ids in creation order. Listing walks that order.

- The **task store** also keeps an append-only log of status changes.
- The **project store** also keeps a list of project memberships. A (project, user) pair is a member at most once, and deleting a project deletes its memberships.
- The **user store** changes a user only through `updateRoleActive`.
- The **client store** has create, partial update and delete.

On top of the stores are two services:

- The **report service** builds three reports:
  - the overdue-task report;
  - the per-user workload report, which counts active tasks;
  - the per-project health report, which counts total, DONE and overdue tasks.
- The **user service** fills in the defaults for a new user's role and active flag.

## How the model is built

- **Immutable values.** Every store is a Dafny value. Every store method is a function from the old store to a `Step(repo, result)`: the new store and the value the method returns.
- **`undefined` is `None`.** An absent value is `Option`'s `None`. A partial update is a record of `Option` fields; `Some` means the field was supplied.
- **Time and ids are parameters.** The clock and the id generator are not modelled. A creation time is passed in as `now`, and a new record's id is passed in with the precondition that it is fresh.
- **The report threshold is a parameter.** `threshold` is the instant the reports compare due dates against.
- **Ids are non-empty strings.** This is why the truthiness tests on ids (`!firstId`, `!task.assigneeId`) become tests for `None`. A due date is an optional instant. The task validators accept only a datetime string for it, so `!task.dueDate` is true exactly when there is no due date, which is also a test for `None`.
- **Shared parts.** `Common` holds `Filter`, the order-preserving filter that each predicate `.filter` of the source becomes. It also holds `Find`, the first-match search. `Stores` holds the map-plus-order shape shared by the four stores. `Stores.Values` is the `map(get).filter(Boolean)` walk that every `list()` performs.
- **The store invariant.** `Valid` says the order lists every stored id exactly once and each record is stored under its own id. For projects it also says that no membership pair occurs twice. Every operation preserves `Valid`.
- **Reports over store values.** The reports are functions over the store values.
- **The workload loop.** `Reports.ComputeWorkload` also follows the service's loop, with a count map seeded with 0 per user. It is proved equal to the functional report. Each count is also proved to be the number of stored tasks of stored projects that are assigned to the user in an active status, so no task is counted twice.

## Model

| member | source | states |
|---|---|---|
| `Stores.Insert` | backend/src/modules/clients/repo/memoryClientRepo.ts:24-25 | storing under a fresh id keeps the store invariant, makes the id return the record, leaves every other id alone and appends the record to the listing |
| `Stores.Put` | backend/src/modules/clients/repo/memoryClientRepo.ts:36 | replacing a record keeps the order and the invariant, changes only that id |
| `Stores.PutReplacesInList` | backend/src/modules/projects/repo/memoryProjectRepo.ts:30-39 | after a replacement the listing has the same length and differs only at the replaced record's position |
| `Stores.Remove` | backend/src/modules/clients/repo/memoryClientRepo.ts:42-43 | deleting drops the id from the map and from the order, keeps the invariant and leaves every other id alone |
| `Stores.RemoveCutsOutOfList` | backend/src/modules/clients/repo/memoryClientRepo.ts:43 | deleting cuts exactly that record out of the listing; the rest keep their relative order |
| `Stores.RemovedAt` | backend/src/modules/clients/repo/memoryClientRepo.ts:42-43 | dropping the id at position k from a duplicate-free order and from the map lists the same records with position k removed |
| `Stores.ListHoldsEveryRecord` | backend/src/modules/projects/repo/memoryProjectRepo.ts:10-12 | every stored record is listed |
| `Stores.ListHoldsOnlyRecords` | backend/src/modules/projects/repo/memoryProjectRepo.ts:10-12 | the listing has one entry per id of the order, and entry i is the record of the i-th id |
| `Stores.FirstListed` | backend/src/modules/users/repo/memoryUserRepo.ts:17-21 | in a valid store the first listed record is the record of the first id in the order |
| `Common.Find` | backend/src/modules/projects/repo/memoryProjectRepo.ts:54-56 | `find` gives nothing exactly when no element matches; otherwise it gives the element at some matching position with no match before it, that is, the first match |
| `TaskRepo.StatusSets` | backend/src/modules/tasks/repo/taskRepo.ts:17-26 | the active statuses are exactly TODO, IN_PROGRESS, REVIEW and BLOCKED, so DONE is not active; the working statuses are active; the default priority is MEDIUM |
| `TaskRepo.IsActive` | backend/src/modules/tasks/repo/taskRepo.ts:17-22 | `ACTIVE_TASK_STATUSES.includes(s)` holds exactly when s is not DONE |
| `MemoryTaskRepo.Empty` | backend/src/modules/tasks/repo/memoryTaskRepo.ts:6-8 | a new task store is valid and has no tasks and no history |
| `MemoryTaskRepo.Create` | backend/src/modules/tasks/repo/memoryTaskRepo.ts:20-31 | a created task carries the input fields, the new id and `now` as both timestamps; it is appended to the listing, no other task changes, the history is untouched |
| `MemoryTaskRepo.CreateAppendsToProjectListing` | backend/src/modules/tasks/repo/memoryTaskRepo.ts:20-31 | after create, the new task is last in its own project's listing and every other project's listing is unchanged |
| `MemoryTaskRepo.ListingHasNoDuplicates` | backend/src/modules/tasks/repo/memoryTaskRepo.ts:10-14 | a project's listing never holds the same task twice |
| `MemoryTaskRepo.ListingIsStored` | backend/src/modules/tasks/repo/memoryTaskRepo.ts:10-14 | a task is in a project's listing exactly when it is the task stored under its id and belongs to the project |
| `MemoryTaskRepo.ListingCount` | backend/src/modules/tasks/repo/memoryTaskRepo.ts:10-14 | counting the tasks of a project's listing that have some property gives the number of stored tasks of that project with that property |
| `MemoryTaskRepo.Update` | backend/src/modules/tasks/repo/memoryTaskRepo.ts:33-43 | a missing id gives `None` and no change; otherwise exactly the supplied fields are overwritten, id and creation time are kept, `updatedAt` becomes `now`, other tasks, the order and the history are untouched |
| `MemoryTaskRepo.Delete` | backend/src/modules/tasks/repo/memoryTaskRepo.ts:45-51 | `true` exactly when the task existed; a missing id changes nothing; afterwards the task is gone, its history is empty and every other task and every other task's history is unchanged |
| `MemoryTaskRepo.UpdateStatus` | backend/src/modules/tasks/repo/memoryTaskRepo.ts:53-77 | a missing id gives `None` and no history; otherwise the task gets the new status and `updatedAt` from one clock read, and exactly one entry, stamped by a second clock read, is appended to the log; it records the old status, the new status and the user; other tasks are untouched |
| `MemoryTaskRepo.UpdateStatusAppendsHistory` | backend/src/modules/tasks/repo/memoryTaskRepo.ts:67-81 | a status change adds its entry at the end of that task's history and leaves every other task's history alone |
| `MemoryTaskRepo.StatusHistoryRecordsEveryChange` | backend/src/modules/tasks/repo/memoryTaskRepo.ts:53-81 | N status changes on an existing task append exactly N entries to its history, in call order, each recording the status it replaced, the new status and the user; the task ends in the last status |
| `MemoryTaskRepo.StatusCommandsEndIn` | backend/src/modules/tasks/repo/memoryTaskRepo.ts:53-66 | after N status changes the task is still stored and has the status of the last change, or its old status when N is 0 |
| `MemoryProjectRepo.Empty` | backend/src/modules/projects/repo/memoryProjectRepo.ts:6-8 | a new project store is valid and has no projects and no memberships |
| `MemoryProjectRepo.Create` | backend/src/modules/projects/repo/memoryProjectRepo.ts:18-28 | a created project carries the input fields, the new id and `now`; it is appended to the listing, nothing else changes, memberships are untouched |
| `MemoryProjectRepo.CreateThenGet` | backend/src/modules/projects/repo/memoryProjectRepo.ts:14-28 | after create the listing is one longer with the new project last, and getById returns it with the input's fields |
| `MemoryProjectRepo.Update` | backend/src/modules/projects/repo/memoryProjectRepo.ts:30-39 | a missing id gives `None` and no change; otherwise exactly the supplied fields are overwritten and id and creation time are kept |
| `MemoryProjectRepo.Delete` | backend/src/modules/projects/repo/memoryProjectRepo.ts:41-47 | `true` exactly when the project existed; afterwards it is gone, it has no memberships, and every other project's memberships are unchanged; membership pairs stay unique |
| `MemoryProjectRepo.ListMembersExactly` | backend/src/modules/projects/repo/memoryProjectRepo.ts:49-51 | a project's member listing holds every membership of that project and only those |
| `MemoryProjectRepo.AddMember` | backend/src/modules/projects/repo/memoryProjectRepo.ts:53-67 | an existing pair returns its existing membership with no change, whatever role is asked for; a new pair is appended with the given role; pairs stay unique |
| `MemoryProjectRepo.AddMemberIdempotent` | backend/src/modules/projects/repo/memoryProjectRepo.ts:53-59 | adding the same pair a second time, with any role, changes nothing and returns the first membership |
| `MemoryProjectRepo.FilteredPairsStayUnique` | backend/src/modules/projects/repo/memoryProjectRepo.ts:69-75 | removing memberships never makes a pair occur twice |
| `MemoryProjectRepo.AppendingFreshPair` | backend/src/modules/projects/repo/memoryProjectRepo.ts:60-66 | appending a pair that is not present keeps pairs unique |
| `MemoryProjectRepo.FindFirstMatch` | backend/src/modules/projects/repo/memoryProjectRepo.ts:54-56 | `find` on a pair returns the first membership with that pair |
| `MemoryProjectRepo.RemoveMember` | backend/src/modules/projects/repo/memoryProjectRepo.ts:69-75 | `true` exactly when the pair was a member; afterwards no membership with that pair remains and all others are kept in order |
| `MemoryUserRepo.Empty` | backend/src/modules/users/repo/memoryUserRepo.ts:6-7 | a new user store is valid, lists nobody and has no first user |
| `MemoryUserRepo.GetFirst` | backend/src/modules/users/repo/memoryUserRepo.ts:17-21 | `None` for an empty store, otherwise the first listed user |
| `MemoryUserRepo.Create` | backend/src/modules/users/repo/memoryUserRepo.ts:23-36 | a created user carries the input fields, the new id and `now`; it is appended to the listing and nothing else changes |
| `MemoryUserRepo.CreateThenGet` | backend/tests/memoryUserRepo.test.ts:5-16 | after create the list is one longer and getById returns the user with the given name, email, role and active flag |
| `MemoryUserRepo.CreateKeepsFirst` | backend/src/modules/users/repo/memoryUserRepo.ts:17-36 | creating a user makes it the first user of an empty store and otherwise leaves the first user as it was |
| `MemoryUserRepo.UpdateRoleActive` | backend/src/modules/users/repo/memoryUserRepo.ts:38-48 | a missing id gives `None` and no change; otherwise role and active flag take the supplied values or keep their old ones, id, name, email, creation time and the order never change |
| `UsersService.StoreInput` | backend/src/modules/users/service/usersService.ts:15-22 | name and email are forwarded, the role defaults to MEMBER, the active flag is true unless given as false |
| `UsersService.Create` | backend/src/modules/users/service/usersService.ts:15-22 | a created user has role MEMBER when none is given and the given role otherwise, is active when no flag is given and has the given flag (false included) otherwise |
| `UsersService.UpdateRoleActive` | backend/src/modules/users/service/usersService.ts:24-26 | behaves exactly as the store's `updateRoleActive` |
| `MemoryClientRepo.Empty` | backend/src/modules/clients/repo/memoryClientRepo.ts:6-7 | a new client store is valid and empty |
| `MemoryClientRepo.Create` | backend/src/modules/clients/repo/memoryClientRepo.ts:17-27 | a created client carries the input fields, the new id and `now`; it is appended to the listing and nothing else changes |
| `MemoryClientRepo.CreateThenGet` | backend/src/modules/clients/repo/memoryClientRepo.ts:13-27 | after create the new client is last in the listing and getById returns it with the input's fields |
| `MemoryClientRepo.Update` | backend/src/modules/clients/repo/memoryClientRepo.ts:29-38 | a missing id gives `None` and no change; otherwise exactly the supplied fields are overwritten and id and creation time are kept |
| `MemoryClientRepo.Delete` | backend/src/modules/clients/repo/memoryClientRepo.ts:40-45 | `true` exactly when the client existed; a missing id changes nothing; afterwards getById gives `None` and every other client is unchanged |
| `MemoryClientRepo.DeleteKeepsOthersInOrder` | backend/src/modules/clients/repo/memoryClientRepo.ts:40-45 | deleting cuts exactly the deleted client out of the listing, so it is no longer listed and the other clients keep their relative order |
| `Reports.OverdueIn` | backend/src/modules/reports/service/reportsService.ts:21-35 | every item found in one project's tasks carries that project's id, has a due date before the threshold and is not DONE |
| `Reports.OverdueAcrossItems` | backend/src/modules/reports/service/reportsService.ts:19-36 | every report item belongs to a listed project, has a due date before the threshold and is not DONE |
| `Reports.OverdueInIsFilter` | backend/src/modules/reports/service/reportsService.ts:21-34 | one project's items are its overdue tasks, in listing order, each copied into a report line |
| `Reports.OverdueInMembers` | backend/src/modules/reports/service/reportsService.ts:21-34 | a task of the listing yields an item exactly when it is overdue |
| `Reports.OverdueAcrossConcat` | backend/src/modules/reports/service/reportsService.ts:19-36 | the report over two runs of projects is the first run's report followed by the second's |
| `Reports.ItemsOfProject` | backend/src/modules/reports/service/reportsService.ts:19-35 | the items of each listed project, in report order, are exactly that project's overdue tasks in listing order |
| `Reports.ProjectsBeforeComeFirst` | backend/src/modules/reports/service/reportsService.ts:19-36 | items of the projects before a position all precede the items of the projects from that position on |
| `Reports.OverdueProjectOrder` | backend/src/modules/reports/service/reportsService.ts:17-37 | every item of an earlier project comes before every item of a later project |
| `Reports.ListedProjectsDistinct` | backend/src/modules/projects/repo/memoryProjectRepo.ts:10-12 | the listed projects have distinct ids and are exactly the stored projects |
| `Reports.OverdueReportExactly` | backend/src/modules/reports/service/reportsService.ts:14-38 | a live task of a live project is reported exactly when it has a due date before the threshold and is not DONE; every item is such a task's line, under its own project's id |
| `Reports.TaskInReport` | backend/src/modules/reports/service/reportsService.ts:21-25 | a live task of a live project is in the report exactly when it is overdue |
| `Reports.ItemFromLiveTask` | backend/src/modules/reports/service/reportsService.ts:26-33 | every report item copies the id, title, due date, status and assignee of a live overdue task and carries that task's project id |
| `Reports.ItemOfListedProject` | backend/src/modules/reports/service/reportsService.ts:19-36 | an item of the report over distinct projects comes from one listed project, and is among that project's own overdue items |
| `Reports.ItemOfListing` | backend/src/modules/reports/service/reportsService.ts:21-33 | an item found in a project's listing is built from the stored task under its id, which belongs to the project and is overdue |
| `Reports.GetWorkload` | backend/src/modules/reports/service/reportsService.ts:40-60 | one row per user, in user list order, including users with count 0; each counts the user's assigned active tasks over every listed project |
| `Reports.SeedCounts` | backend/src/modules/reports/service/reportsService.ts:43-46 | every user gets an entry, and every count starts at 0 |
| `Reports.TallyTasks` | backend/src/modules/reports/service/reportsService.ts:47-54 | after one project's tasks each count has grown by that id's assigned active tasks in the project |
| `Reports.RowsFromCounts` | backend/src/modules/reports/service/reportsService.ts:55-59 | one row per user in order, with the user's count or 0 when the map has none |
| `Reports.ProjectTasksCount` | backend/src/modules/reports/service/reportsService.ts:47-54 | one more project's tasks add exactly that project's assigned active tasks to a count |
| `Reports.ComputeWorkload` | backend/src/modules/reports/service/reportsService.ts:40-60 | the service's count-map loop computes exactly the workload report |
| `Reports.ProjectTasksStored` | backend/src/modules/reports/service/reportsService.ts:47-48 | the tasks walked for the workload are exactly the stored tasks whose project is one of the walked projects |
| `Reports.ProjectTasksDistinct` | backend/src/modules/reports/service/reportsService.ts:47-49 | over projects with distinct ids the workload walk meets no task twice |
| `Reports.AssignedCount` | backend/src/modules/reports/service/reportsService.ts:47-54 | the walk over the stored projects counts each stored task assigned to the user in an active status exactly once |
| `Reports.WorkloadCountsStoredTasks` | backend/src/modules/reports/service/reportsService.ts:40-60 | a user's `activeTasks` is the number of stored tasks of stored projects assigned to the user in an active status |
| `Reports.HealthOf` | backend/src/modules/reports/service/reportsService.ts:67-83 | a project's line names the project, counts all its tasks, and DONE plus overdue never exceeds the total; a DONE task or an overdue task makes its count positive |
| `Reports.HealthCounts` | backend/src/modules/reports/service/reportsService.ts:69-75 | no task is counted both overdue and done, so the two counts never exceed the total; one DONE or overdue task makes its count positive |
| `Reports.GetProjectHealth` | backend/src/modules/reports/service/reportsService.ts:62-86 | one line per listed project, in list order, with total = the size of its task listing and done + overdue <= total |
| `Reports.HealthMatchesOverdueReport` | backend/src/modules/reports/service/reportsService.ts:70-75 | for the same threshold, a project's overdue count equals the number of overdue-report items for that project |
| `Reports.HealthCountsStoredTasks` | backend/src/modules/reports/service/reportsService.ts:67-83 | a project's total, DONE and overdue counts are the numbers of stored tasks of the project, of those that are DONE, and of those that are overdue |

## Left out

- Supabase-backed stores and the database client: these are remote calls through a library that is not part of this model. They also differ from the memory stores: their `addMember` does not deduplicate.
- The clock and the id generator (`new Date()`, `uuid()`): these become the parameters `now`, `id` and `historyId`, and a fresh-id precondition on create. Each clock read is its own parameter. A status change takes `now` for the task's `updatedAt` and `changedAt` for its history entry, so the model does not claim that the two are equal.
- Turning `days` into a threshold (`setDate`), parsing ISO dates and comparing `Date` objects: the reports take the threshold as an integer instant, and due dates are integer instants. An unparseable due date (an Invalid Date never compares as earlier) is not modelled.
- The `days` query parsing in the reports controller: it relies on JavaScript `Number` and NaN.
- Controllers, zod validators, middleware and startup wiring: these handle HTTP routing and validation through libraries.
- The project, client and task services: they only delegate to the stores, so the store models cover them.
- Seed data and the whole frontend: these are fixtures and UI.
- Patches that carry a key explicitly set to `undefined`: a spread would then clear that field. A patch field here is either supplied with a value or not supplied.
- The client record type (`types/client.ts`) is not part of this model. The client fields are taken from the client validators and the supabase client mapping: name, optional email, optional phone, optional notes and the creation time.
- A project's budget (a JavaScript number) is a `real` that is only stored and copied, never computed with.
- `getById` and `list` of every store, `MemoryTaskRepo.ListByProject`, `MemoryTaskRepo.ListStatusHistory`, `MemoryProjectRepo.ListMembers`, `Reports.OverdueAcross` and `Reports.GetOverdueTasks` are plain functions without contracts of their own. Their meaning is stated by lemmas about them:
  - `MemoryTaskRepo.ListingIsStored` for `ListByProject`;
  - `MemoryTaskRepo.UpdateStatusAppendsHistory` and `MemoryTaskRepo.StatusHistoryRecordsEveryChange` for `ListStatusHistory`;
  - `MemoryProjectRepo.ListMembersExactly` for `ListMembers`;
  - `Reports.OverdueAcrossItems`, `Reports.ItemsOfProject`, `Reports.OverdueProjectOrder` and `Reports.OverdueReportExactly` for the overdue report.
