# Team task manager: task engine and user directory

A Dafny model of the decision logic behind the task tracker's HTTP API. It covers:

- creation checks (`checkBadRequest`);
- the `sortBy` comparator and its field selection (`sort`, `selectField`);
- the search pipeline (`search`, `taskToDTO`);
- the state changes on the task store (`createTask`, `isTaskSetToComplete`, `isDeleted`, `taskFilter`, `get`, `clear`);
- the user directory (`getOrCreateUser`, `findUserById`, `getAllUsers`, `clear`);
- the outcomes of the task controller's `create`, `get`, `delete` and `complete`, as values rather than HTTP responses.

The record store is a value, `Entities.Db`. It holds the user table, the task table and the id generator that `@GeneratedValue` draws from. The model chooses a single counter shared by both entities. The source does not fix the generator: it depends on the persistence provider and the database. With one counter, the owner that `createTask` creates gets its id before the task does.

Every operation is a pure function. It takes a store and returns the new store together with its result. "Now" is a parameter: an instant in milliseconds on the local time line.

Modules, leaves first:

| module | file | what it holds |
|---|---|---|
| `Wrappers` | wrappers.dfy | `Option` (a nullable result) and `Result` (a call that may throw) |
| `Seqs` | seqs.dfy | `filter(p).findFirst()`, `filter(p)`, and uniqueness of keys under sub-multisets |
| `Text` | text.dfy | the sign of `String.compareTo` / `Long.compareTo`, decimal ids, `indexOf` / `lastIndexOf` |
| `Dates` | dates.dfy | `YYYY-MM-DD` due dates, their parse to a calendar day, and the proof that text order is calendar order |
| `Entities` | entities.dfy | `User`, `Task`, `TaskView`, `TaskRequest`, the store `Db` and its invariant `Valid` |
| `UserService` | user_service.dfy | the user directory |
| `TaskSort` | task_sort.dfy | `sortBy` syntax, field selection, the comparator, insertion sort, and uniqueness of the sorted order |
| `TaskService` | task_service.dfy | creation checks, creation, lookup, completion, deletion, projection, search |
| `TaskController` | task_controller.dfy | the outcome of each task endpoint, and properties across requests |
| `UserController` | user_controller.dfy | the reset endpoint (tasks, then users) |
| `Scenarios` | scenarios.dfy | request sequences from the end-to-end tests, replayed on the model |

Behaviour of the code that a reader might not expect, modelled as written:

- The controller's documentation says "All fields are mandatory" (`refactoring/src/main/java/com/teamtaskmanager/controller/TaskController.java`, line 90). The checks test only for absence (`null`), so an empty user name or task text is accepted.
- `complete` answers with the stored `Task` record, which carries the owner's id. It does not answer with the view that carries the owner's name. The model's `TaskController.Complete` returns `TaskBody`.
- An unknown sort field fails the search only when at least two tasks pass the filters. With fewer, Java's sort never calls the comparator.
- A due date equal to today is rejected at any instant after that day's midnight. The parsed date is that midnight, and `before(new Date())` compares instants.
- The `{id}` path variable is any `Long`. Request ids are therefore `int`, negative ones included, while stored ids stay natural numbers.

## Model

| member | source | states |
|---|---|---|
| `Seqs.FindFirst` | refactoring/src/main/java/com/teamtaskmanager/service/TaskService.java:50-52 | `filter(p).findFirst()` is absent iff no element satisfies `p`; otherwise it is an element satisfying `p` with none before it |
| `Seqs.Filter` | refactoring/src/main/java/com/teamtaskmanager/service/TaskService.java:81-83 | `filter(p)` keeps exactly the elements satisfying `p`, and only elements of the input |
| `Text.CompareStringsEqual` | refactoring/src/main/java/com/teamtaskmanager/service/TaskService.java:65-67 | `compareTo` on strings is zero exactly when `equals` holds, so the tie test and the comparison agree |
| `Text.CompareStringsFlip` | refactoring/src/main/java/com/teamtaskmanager/service/TaskService.java:68-72 | swapping the strings flips the sign of `compareTo`, which is what makes `f2.compareTo(f1)` the reverse order |
| `Text.CompareStringsTransitive` | refactoring/src/main/java/com/teamtaskmanager/service/TaskService.java:68-72 | the string order is transitive |
| `Text.ParseNatToString` | refactoring/src/main/java/com/teamtaskmanager/controller/TaskController.java:108 | the decimal id written into the `Location` header reads back as the id |
| `Dates.TextOrderIsChronological` | refactoring/src/main/java/com/teamtaskmanager/service/TaskService.java:111-112 | comparing two well-formed due dates as text, as sorting on `due` does, orders them as the calendar days they name |
| `Dates.DateBeforeIsTextOrder` | refactoring/src/main/java/com/teamtaskmanager/service/TaskService.java:82 | `toDate(a).before(toDate(b))` holds iff `a` sorts before `b` as text |
| `Dates.BeforeInstantByDay` | refactoring/src/main/java/com/teamtaskmanager/service/TaskService.java:132 | a due date is before `now` iff its day is before today, or it is today and `now` is past midnight |
| `Dates.TodayIsInThePast` | refactoring/src/main/java/com/teamtaskmanager/service/TaskService.java:132-134 | a due date of today counts as past at every instant of today except its first midnight |
| `UserService.FindUserById` | refactoring/src/main/java/com/teamtaskmanager/service/UserService.java:26-28 | the result is a stored user with that id, and it is absent iff no stored user has that id |
| `UserService.FindUserByIdUnique` | refactoring/src/main/java/com/teamtaskmanager/service/UserService.java:26-28 | with unique ids, looking up a stored user's id returns that user |
| `UserService.GetOrCreateUser` | refactoring/src/main/java/com/teamtaskmanager/service/UserService.java:38-47 | the returned user has the given name. If a user with that name exists, it is returned and the store is unchanged. Otherwise exactly one user with a fresh id is appended. Tasks are never touched |
| `UserService.GetOrCreateUserValid` | refactoring/src/main/java/com/teamtaskmanager/service/UserService.java:39-45 | get-or-create keeps names pairwise distinct, ids unique and issued, and every task's owner present; the returned user is stored |
| `UserService.GetOrCreateUserTwice` | refactoring/src/main/java/com/teamtaskmanager/service/UserService.java:38-47 | repeating get-or-create with the same name returns the same user and changes nothing more |
| `UserService.Clear` | refactoring/src/main/java/com/teamtaskmanager/service/UserService.java:30-32 | afterwards there are no users; the tasks and the id generator are unchanged |
| `UserService.GetAllUsers` | refactoring/src/main/java/com/teamtaskmanager/service/UserService.java:34-36 | the listing is a permutation of the stored users, ordered by name |
| `UserService.GetAllUsersStrict` | refactoring/src/main/java/com/teamtaskmanager/service/UserService.java:34-36 | with unique names, the listing is strictly ascending by name |
| `TaskSort.SelectField` | refactoring/src/main/java/com/teamtaskmanager/service/TaskService.java:105-117 | exactly `user`, `id`, `due` and `task` select a field, each its own; any other name fails with `Not a field: ` followed by the name |
| `TaskSort.SortBySyntax` | refactoring/src/main/java/com/teamtaskmanager/service/TaskService.java:58-59 | without a ':' the whole text is the field, ascending. Otherwise the field is the text before the first ':', and the order is descending iff the rest is exactly `desc` |
| `TaskSort.DueDescExample` | refactoring/src/main/java/com/teamtaskmanager/service/TaskService.java:58-59 | `due:desc` sorts on `due`, descending |
| `TaskSort.NotExactlyDescExample` | refactoring/src/main/java/com/teamtaskmanager/service/TaskService.java:59 | `due:DESC` and `due:desc:x` sort on `due`, ascending |
| `TaskSort.UnknownFieldExample` | refactoring/src/main/java/com/teamtaskmanager/service/TaskService.java:115-116 | `sortBy=name` is the error `Not a field: name` |
| `TaskSort.ParseSortSpec` | refactoring/src/main/java/com/teamtaskmanager/service/TaskService.java:55-62 | no `sortBy` means `id` ascending. Otherwise parsing succeeds iff the field before the first ':' is selectable, and the direction is descending iff the text after that ':' is exactly `desc`. The error names the field |
| `TaskSort.Compare` | refactoring/src/main/java/com/teamtaskmanager/service/TaskService.java:54-75 | the comparator fails iff `sortBy` is given and names an unknown field, with `Not a field: ` and the field. Without `sortBy` it compares ids. It returns zero only for views with the same id |
| `TaskSort.CompareIsCmp` | refactoring/src/main/java/com/teamtaskmanager/service/TaskService.java:54-75 | the comparator as written fails iff the sort specification does not parse, with the same message, and otherwise agrees with the parsed order |
| `TaskSort.CmpFlip` | refactoring/src/main/java/com/teamtaskmanager/service/TaskService.java:64-72 | the comparator is antisymmetric, and it returns zero only for views that agree on the field and on the id |
| `TaskSort.CmpTransitive` | refactoring/src/main/java/com/teamtaskmanager/service/TaskService.java:64-72 | the comparator is transitive, in both directions and with the id tie-break |
| `TaskSort.CmpTransitiveLe` | refactoring/src/main/java/com/teamtaskmanager/service/TaskService.java:64-72 | "not after" is transitive |
| `TaskSort.CmpDirection` | refactoring/src/main/java/com/teamtaskmanager/service/TaskService.java:64-72 | equal field values compare by ascending id whatever the direction; different values compare by the field, exactly reversed for `desc` |
| `TaskSort.DueOrderIsChronological` | refactoring/src/main/java/com/teamtaskmanager/service/TaskService.java:61-72 | sorting on `due` orders by calendar day (reversed for `desc`), then by ascending id |
| `TaskSort.SortViews` | refactoring/src/main/java/com/teamtaskmanager/service/TaskService.java:84 | the sorted views are a permutation of the input, in comparator order |
| `TaskSort.SortedUnique` | refactoring/src/main/java/com/teamtaskmanager/service/TaskService.java:84 | two sorted arrangements of the same id-unique views are equal, so the result does not depend on the sorting algorithm |
| `TaskService.CheckBadRequest` | refactoring/src/main/java/com/teamtaskmanager/service/TaskService.java:128-142 | the request is accepted iff all three fields are present and the due day is after today, or is today with `now` exactly at midnight. Any message is one of the four check messages |
| `TaskService.CheckBadRequestIsFirstFailure` | refactoring/src/main/java/com/teamtaskmanager/service/TaskService.java:128-142 | the checks run in the fixed order due-missing, due-past, user-missing, task-missing. The message is that of the first failing check, and there is none iff every check passes |
| `TaskService.DueCheckedFirst` | refactoring/src/main/java/com/teamtaskmanager/service/TaskService.java:129-134 | a missing due date is reported whatever the other fields hold; a past one is reported before a missing user or task |
| `TaskService.AcceptedRequest` | refactoring/src/main/java/com/teamtaskmanager/service/TaskService.java:128-142 | an accepted request has all three fields, and its due day is today or later; today only at the first midnight of today |
| `TaskService.TaskToView` | refactoring/src/main/java/com/teamtaskmanager/service/TaskService.java:88-96 | the view keeps id, text, due date and flag, and its user name is that of a stored user with the task's owner id |
| `TaskService.TaskFilter` | refactoring/src/main/java/com/teamtaskmanager/service/TaskService.java:50-52 | the result is a stored task with that id, and it is absent iff no task has that id |
| `TaskService.TaskFilterUnique` | refactoring/src/main/java/com/teamtaskmanager/service/TaskService.java:50-52 | with unique ids, looking up a stored task's id returns that task |
| `TaskService.Get` | refactoring/src/main/java/com/teamtaskmanager/service/TaskService.java:98-103 | the view is absent iff no task has that id; otherwise it is the projection of a stored task with that id |
| `TaskService.CreateTask` | refactoring/src/main/java/com/teamtaskmanager/service/TaskService.java:144-151 | exactly one task is appended and no other task changes. Its text and due date are the request's verbatim and it is not completed. The owner is get-or-create's user for the requested name |
| `TaskService.CreateTaskValid` | refactoring/src/main/java/com/teamtaskmanager/service/TaskService.java:144-151 | creation keeps the store valid, and the new task's id is not used by any earlier task |
| `TaskService.CreatedTaskView` | refactoring/src/main/java/com/teamtaskmanager/service/TaskService.java:144-151 | the created task projects to the requested user name, text and due date, not completed |
| `TaskService.IsDeleted` | refactoring/src/main/java/com/teamtaskmanager/service/TaskService.java:40-48 | a present task is removed and the answer is true; no task with its id remains and every other task stays. An absent task gives false and leaves the store unchanged |
| `TaskService.RemoveTaskCount` | refactoring/src/main/java/com/teamtaskmanager/service/TaskService.java:40-48 | with unique ids, a deletion removes exactly one record |
| `TaskService.IsTaskSetToComplete` | refactoring/src/main/java/com/teamtaskmanager/service/TaskService.java:153-160 | a present task is marked completed in place and the answer is true; an absent task gives false and leaves the store unchanged |
| `TaskService.MarkCompletedIdempotent` | refactoring/src/main/java/com/teamtaskmanager/service/TaskService.java:153-160 | completing twice leaves the same tasks as completing once |
| `TaskService.Clear` | refactoring/src/main/java/com/teamtaskmanager/service/TaskService.java:36-38 | afterwards there are no tasks; the users are unchanged |
| `TaskService.DeleteValid` | refactoring/src/main/java/com/teamtaskmanager/service/TaskService.java:40-52 | deleting a looked-up task keeps the store valid |
| `TaskService.CompleteValid` | refactoring/src/main/java/com/teamtaskmanager/service/TaskService.java:153-160 | completing a looked-up task keeps the store valid |
| `TaskService.ClearValid` | refactoring/src/main/java/com/teamtaskmanager/service/TaskService.java:36-38 | clearing the tasks keeps the store valid |
| `TaskService.Project` | refactoring/src/main/java/com/teamtaskmanager/service/TaskService.java:78-80 | one view per stored task, in store order, each the task's `taskToDTO` projection |
| `TaskService.Matches` | refactoring/src/main/java/com/teamtaskmanager/service/TaskService.java:81-83 | a view passes iff its user is the given one (when given), its due day is a strictly later calendar day than `dateAfter` (when given), and it is not completed unless `includeCompleted` is exactly true |
| `TaskService.Selected` | refactoring/src/main/java/com/teamtaskmanager/service/TaskService.java:78-83 | a view is selected iff it is the projection of a stored task and passes all three filters |
| `TaskService.Search` | refactoring/src/main/java/com/teamtaskmanager/service/TaskService.java:77-86 | a successful result is exactly the selected views (sound and complete, same multiset), in comparator order. A parsable `sortBy` never fails. The search fails iff `sortBy` names an unknown field and at least two views are selected; the failure carries the sort-field error |
| `TaskService.SearchIsDetermined` | refactoring/src/main/java/com/teamtaskmanager/service/TaskService.java:77-86 | on a valid store, any sorted arrangement of the selected views is the search result |
| `TaskService.SearchDefaultOrder` | refactoring/src/main/java/com/teamtaskmanager/service/TaskService.java:55-56 | without `sortBy` the search succeeds with strictly ascending ids |
| `TaskService.DateAfterIsTextOrder` | refactoring/src/main/java/com/teamtaskmanager/service/TaskService.java:82 | the `dateAfter` filter keeps exactly the due dates that sort after `dateAfter` as text |
| `TaskController.LocationRoundTrip` | refactoring/src/main/java/com/teamtaskmanager/controller/TaskController.java:105-109 | the text after the last '/' of the `Location` is the decimal id of the created task, and it parses back to that id |
| `TaskController.Create` | refactoring/src/main/java/com/teamtaskmanager/controller/TaskController.java:97-110 | a failing check gives bad-request with that message and the store unchanged. Otherwise the request has every field, the store is exactly the one `createTask` produces (one task appended), and the answer is OK with the location of the appended task |
| `TaskController.RejectedCreateChangesNothing` | refactoring/src/main/java/com/teamtaskmanager/controller/TaskController.java:99-103 | a rejected creation changes neither users nor tasks |
| `TaskController.CreateThenGet` | refactoring/src/main/java/com/teamtaskmanager/controller/TaskController.java:105-109 | after an accepted creation the store is valid. Getting the id read from the `Location` returns the submitted user, text and due date, not completed |
| `TaskController.Get` | refactoring/src/main/java/com/teamtaskmanager/controller/TaskController.java:40-48 | not-found iff no task has the id; otherwise OK with the projection of a stored task with that id |
| `TaskController.Delete` | refactoring/src/main/java/com/teamtaskmanager/controller/TaskController.java:58-66 | OK iff a task has the id, not-found iff none does (store unchanged). Afterwards the tasks are exactly the old ones without that id; users and the id generator are unchanged |
| `TaskController.DeleteThenNotFound` | refactoring/src/main/java/com/teamtaskmanager/controller/TaskController.java:58-66 | after a delete the store is valid, and a second delete and a get of the same id are both not-found |
| `TaskController.DeleteRemovesOne` | refactoring/src/main/java/com/teamtaskmanager/controller/TaskController.java:58-66 | a successful delete removes exactly one task and no user |
| `TaskController.Complete` | refactoring/src/main/java/com/teamtaskmanager/controller/TaskController.java:120-128 | not-found iff no task has the id (store unchanged). Otherwise that task, and only it, is marked completed, users are unchanged, and the answer is OK with the looked-up record, flag true |
| `TaskController.CompleteIdempotent` | refactoring/src/main/java/com/teamtaskmanager/controller/TaskController.java:120-128 | a second completion gives the same answer and the same store as the first |
| `TaskController.CompleteThenGet` | refactoring/src/main/java/com/teamtaskmanager/controller/TaskController.java:120-128 | after completing an existing task, getting it shows it completed |
| `UserController.ClearAll` | refactoring/src/main/java/com/teamtaskmanager/controller/UserController.java:44-47 | clearing tasks and then users leaves an empty store that is valid |
| `Scenarios.PastDueRejected` | refactoring/src/test/java/com/teamtaskmanager/e2e/TestServer.java:155-166 | a task due 1976-08-26 is rejected with `Due can't be in the past` and the store, users included, is unchanged |
| `Scenarios.EmptyRequestRejected` | refactoring/src/main/java/com/teamtaskmanager/service/TaskService.java:129-131 | a request with no fields is rejected for its due date first |
| `Scenarios.FilterByName` | refactoring/src/test/java/com/teamtaskmanager/e2e/TestServer.java:227-248 | on an empty store, six tasks are created: Arch 2525-08-26, Bob, Cynthia, Arch 2525-09-27, Elsie, Arch 2525-10-27. The last is completed through the id read from its `Location`. A search for Arch after 2525-09-01 then returns only the fourth task (id 7): the first is too early and the completed one is excluded by default |
| `Scenarios.UnknownIdNotFound` | refactoring/src/test/java/com/teamtaskmanager/e2e/TestServer.java:74-83 | a negative id is not found by `get`, `complete` or `delete`, and the store is unchanged |
| `Scenarios.MinusTwelveThousandNotFound` | refactoring/src/test/java/com/teamtaskmanager/e2e/TestServer.java:108-117 | `get` and `complete` of id -12345 answer not-found and change nothing |

## Left out

- Persistence: the JPA repositories and the `EntityManager` are replaced by the store value `Db`. `findAll` is assumed to return records in insertion order. Per-record atomicity and transactions are not modelled.
- Concurrency: the race in which two concurrent `getOrCreateUser` calls create the same name twice is not modelled. Every operation runs alone.
- Date parsing: `FormatDate.toDate` / `TaskService.toDate` are lenient `SimpleDateFormat` parses. The model accepts only well-formed `YYYY-MM-DD` text naming a real day (years 0001-9999, Gregorian leap years). Malformed text, day or month roll-over, trailing text, the "Bad date" exception, and Java's Julian calendar before 1582 are left out.
- Time zones and daylight saving: midnights are evenly spaced days on one local time line.
- `Dates.BeforeInstant`: models `before(new Date())` on that time line. A daylight-saving day shorter or longer than 24 hours is not modelled.
- JSON (de)serialisation, `ResponseEntity` and HTTP status mechanics, and the `appRoot` configuration value are left out; `appRoot` is a parameter of `TaskController.Create`.
- The controller's `search` and the user controller's `getUsers` only forward to `TaskService.Search` and `UserService.GetAllUsers`, and are not modelled separately.
- Task views whose owner does not exist: `taskToDTO` would throw a `NullPointerException`. The model requires every task's owner to exist (`Integrity`), which every operation preserves. `UserService.Clear` alone breaks it; the reset endpoint clears tasks first.
- Java sort internals: stability and the algorithm are not modelled. The model sorts by insertion. `TaskSort.SortedUnique` shows that the result is the only sorted arrangement, so any correct sort returns it.
- `Text.CompareStrings`: compares `char` code points. Java compares UTF-16 code units, which order differently only for characters outside the Basic Multilingual Plane. Only the sign of `compareTo` is modelled, not its magnitude.
- Stored ids are unbounded naturals starting at 1, and request ids are unbounded integers. The 64-bit `Long` range is not modelled.
- `checkBadRequest` on a request whose due date fails to parse throws in the source; this is outside the model with parse failure.
