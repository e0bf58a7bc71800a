/** The task engine: creation checks, creation, lookup, completion, deletion,
    projection to views, and search. */
module TaskService {
  import opened Wrappers
  import opened Text
  import opened Seqs
  import opened Dates
  import opened Entities
  import opened TaskSort
  import UserService

  const DueEmpty := "Due can't be empty"
  const DuePast := "Due can't be in the past"
  const UserEmpty := "User can't be empty"
  const TaskEmpty := "Task can't be empty"

  // ---------------------------------------------------------------------------
  // Creation checks

  /** `checkBadRequest`: the message of the first failing check, or none (the
      source's `null`). `now` is the current instant. */
  function CheckBadRequest(req: TaskRequest, now: nat): (r: Option<string>)
    ensures r.Some? ==> r.value in Checks
    ensures r.None? <==>
              && req.due.Some? && req.user.Some? && req.task.Some?
              && (DayNumber(Parse(req.due.value)) > DayOf(now)
                  || (DayNumber(Parse(req.due.value)) == DayOf(now) && now % MillisPerDay == 0))
  {
    if req.due.None? then Some(DueEmpty)
    else
      BeforeInstantByDay(req.due.value, now);
      if BeforeInstant(req.due.value, now) then Some(DuePast)
      else if req.user.None? then Some(UserEmpty)
      else if req.task.None? then Some(TaskEmpty)
      else None
  }

  /** The checks' messages, in the order they are applied. */
  const Checks: seq<string> := [DueEmpty, DuePast, UserEmpty, TaskEmpty]

  /** Whether the request fails check `k`, judged on its own. */
  predicate FailsCheck(req: TaskRequest, now: nat, k: nat)
  {
    match k
    case 0 => req.due.None?
    case 1 => req.due.Some? && BeforeInstant(req.due.value, now)
    case 2 => req.user.None?
    case 3 => req.task.None?
    case _ => false
  }

  /** The result is the message of the earliest failing check, and there is no
      message exactly when no check fails. */
  lemma CheckBadRequestIsFirstFailure(req: TaskRequest, now: nat)
    ensures CheckBadRequest(req, now).None? <==> forall k :: 0 <= k < 4 ==> !FailsCheck(req, now, k)
    ensures forall k :: 0 <= k < 4 && FailsCheck(req, now, k)
                        && (forall j :: 0 <= j < k ==> !FailsCheck(req, now, j)) ==>
              CheckBadRequest(req, now) == Some(Checks[k])
  {
    assert FailsCheck(req, now, 0) == req.due.None?;
    assert FailsCheck(req, now, 1) == (req.due.Some? && BeforeInstant(req.due.value, now));
    assert FailsCheck(req, now, 2) == req.user.None?;
    assert FailsCheck(req, now, 3) == req.task.None?;
  }

  /** A request that passes the checks has every field, and its due date is
      not in the past: it is the day of `now` only if `now` is that midnight. */
  lemma AcceptedRequest(req: TaskRequest, now: nat)
    requires CheckBadRequest(req, now).None?
    ensures req.due.Some? && req.user.Some? && req.task.Some?
    ensures DayNumber(Parse(req.due.value)) >= DayOf(now)
    ensures DayNumber(Parse(req.due.value)) == DayOf(now) ==> now % MillisPerDay == 0
  {
    BeforeInstantByDay(req.due.value, now);
  }

  /** A missing due date is reported whatever the other fields hold; a past
      one is reported before a missing user or task. */
  lemma DueCheckedFirst(req: TaskRequest, now: nat)
    ensures req.due.None? ==> CheckBadRequest(req, now) == Some("Due can't be empty")
    ensures req.due.Some? && BeforeInstant(req.due.value, now) ==>
              CheckBadRequest(req, now) == Some("Due can't be in the past")
  {
  }

  // ---------------------------------------------------------------------------
  // Projection and lookup

  /** `taskToDTO`: the task with its owner's name. */
  function TaskToView(users: seq<User>, t: Task): (v: TaskView)
    requires HasUser(users, t.userId)
    ensures v.id == t.id && v.task == t.task && v.due == t.due && v.isCompleted == t.isCompleted
    ensures exists i :: 0 <= i < |users| && users[i].id == t.userId && users[i].name == v.user
  {
    var u := UserService.FindUserById(users, t.userId).value;
    TaskView(t.id, u.name, t.task, t.due, t.isCompleted)
  }

  /** Every stored task, projected, in store order. */
  function Project(db: Db): (r: seq<TaskView>)
    requires Integrity(db)
    ensures |r| == |db.tasks|
    ensures forall i :: 0 <= i < |r| ==> r[i] == TaskToView(db.users, db.tasks[i])
  {
    seq(|db.tasks|, i requires 0 <= i < |db.tasks| => TaskToView(db.users, db.tasks[i]))
  }

  predicate HasTask(tasks: seq<Task>, id: int)
  {
    exists i :: 0 <= i < |tasks| && tasks[i].id == id
  }

  /** `taskFilter`: the first task with that id, absent if there is none. */
  function TaskFilter(tasks: seq<Task>, id: int): (r: Option<Task>)
    ensures r.Some? ==> r.value in tasks && r.value.id == id
    ensures r.None? <==> !HasTask(tasks, id)
  {
    FindFirst(tasks, (t: Task) => t.id == id)
  }

  /** With unique ids, the lookup finds the one task with that id. */
  lemma TaskFilterUnique(tasks: seq<Task>, i: nat)
    requires UniqueTaskIds(tasks) && i < |tasks|
    ensures TaskFilter(tasks, tasks[i].id) == Some(tasks[i])
  {
    FindFirstUnique(tasks, (t: Task) => t.id == tasks[i].id, i);
  }

  /** `get`: the view of the task with that id, absent if there is none. */
  function Get(db: Db, id: int): (r: Option<TaskView>)
    requires Integrity(db)
    ensures r.None? <==> !HasTask(db.tasks, id)
    ensures r.Some? ==> r.value.id == id && r.value in Project(db)
  {
    match TaskFilter(db.tasks, id)
    case None => None
    case Some(t) =>
      Some(TaskToView(db.users, t))
  }

  // ---------------------------------------------------------------------------
  // State changes

  /** `createTask` for a request that passed the checks: the owner is found or
      created by name, then the task is stored with a fresh id, the text and
      due date as given, and not completed. */
  function CreateTask(db: Db, req: TaskRequest): (r: (Db, Task))
    requires req.user.Some? && req.task.Some? && req.due.Some?
    ensures r.0.tasks == db.tasks + [r.1]
    ensures r.1.task == req.task.value && r.1.due == req.due.value && !r.1.isCompleted
    ensures r.0.users == UserService.GetOrCreateUser(db, req.user.value).0.users
    ensures r.1.userId == UserService.GetOrCreateUser(db, req.user.value).1.id
  {
    var (db1, u) := UserService.GetOrCreateUser(db, req.user.value);
    var t := Task(db1.nextId, u.id, req.task.value, req.due.value, false);
    (db1.(tasks := db1.tasks + [t], nextId := db1.nextId + 1), t)
  }

  /** Appending a task with a fresh id and an existing owner keeps the store valid. */
  lemma AppendTaskValid(db: Db, t: Task)
    requires Valid(db) && t.id == db.nextId && HasUser(db.users, t.userId)
    ensures Valid(db.(tasks := db.tasks + [t], nextId := db.nextId + 1))
  {
    var db' := db.(tasks := db.tasks + [t], nextId := db.nextId + 1);
    assert forall i :: 0 <= i < |db.tasks| ==> db'.tasks[i] == db.tasks[i];
    assert db'.tasks[|db.tasks|] == t;
  }

  /** Creation keeps the store valid and gives the task an id no other task has. */
  lemma CreateTaskValid(db: Db, req: TaskRequest)
    requires Valid(db)
    requires req.user.Some? && req.task.Some? && req.due.Some?
    ensures var (db', t) := CreateTask(db, req);
            Valid(db') && !HasTask(db.tasks, t.id) && HasUser(db'.users, t.userId)
  {
    var (db1, u) := UserService.GetOrCreateUser(db, req.user.value);
    UserService.GetOrCreateUserValid(db, req.user.value);
    var t := CreateTask(db, req).1;
    AppendTaskValid(db1, t);
  }

  /** The created task, read back, shows the requested user, text and due
      date, not completed. */
  lemma CreatedTaskView(db: Db, req: TaskRequest)
    requires Valid(db)
    requires req.user.Some? && req.task.Some? && req.due.Some?
    ensures var (db', t) := CreateTask(db, req);
            HasUser(db'.users, t.userId)
            && TaskToView(db'.users, t) == TaskView(t.id, req.user.value, req.task.value, req.due.value, false)
  {
    var (db1, u) := UserService.GetOrCreateUser(db, req.user.value);
    UserService.GetOrCreateUserValid(db, req.user.value);
    var (db', t) := CreateTask(db, req);
    var k :| 0 <= k < |db'.users| && db'.users[k].id == t.userId;
    UserService.FindUserByIdUnique(db'.users, k);
    if forall i :: 0 <= i < |db.users| ==> db.users[i].name != req.user.value {
      assert db'.users[|db.users|] == u;
    } else {
      var i :| 0 <= i < |db.users| && db.users[i] == u;
      assert db'.users[i] == u;
    }
  }

  /** The tasks other than the one with id `id`, in order. */
  function RemoveTask(tasks: seq<Task>, id: int): (r: seq<Task>)
    ensures !HasTask(r, id)
    ensures forall t :: t in r <==> t in tasks && t.id != id
  {
    Filter(tasks, (t: Task) => t.id != id)
  }

  /** `isDeleted`: removes the given task (one the lookup returned) and
      answers true; a missing task answers false and changes nothing. */
  function IsDeleted(db: Db, task: Option<Task>): (r: (Db, bool))
    requires task.Some? ==> task.value in db.tasks
    ensures r.1 <==> task.Some?
    ensures task.None? ==> r.0 == db
    ensures task.Some? ==> && r.0.users == db.users && r.0.nextId == db.nextId
                           && !HasTask(r.0.tasks, task.value.id)
                           && (forall t :: t in r.0.tasks <==> t in db.tasks && t.id != task.value.id)
  {
    match task
    case None => (db, false)
    case Some(t) => (db.(tasks := RemoveTask(db.tasks, t.id)), true)
  }

  /** Removing a stored task takes away exactly one record. */
  lemma {:induction false} RemoveTaskCount(tasks: seq<Task>, i: nat)
    requires UniqueTaskIds(tasks) && i < |tasks|
    ensures |RemoveTask(tasks, tasks[i].id)| == |tasks| - 1
  {
    var id := tasks[i].id;
    var p := (t: Task) => t.id != id;
    assert tasks == [tasks[0]] + tasks[1..];
    assert UniqueTaskIds(tasks[1..]);
    if i == 0 {
      assert forall t :: t in tasks[1..] ==> p(t) by {
        forall k | 1 <= k < |tasks| ensures p(tasks[k]) {
          assert tasks[0].id != tasks[k].id;
        }
      }
      FilterKeepsAll(tasks[1..], p);
    } else {
      assert tasks[1..][i - 1] == tasks[i];
      assert p(tasks[0]) by { assert tasks[0].id != tasks[i].id; }
      RemoveTaskCount(tasks[1..], i - 1);
    }
  }

  /** Filtering with a predicate every element meets keeps everything. */
  lemma {:induction false} FilterKeepsAll(s: seq<Task>, p: Task -> bool)
    requires forall t :: t in s ==> p(t)
    ensures Filter(s, p) == s
  {
    if |s| > 0 {
      FilterKeepsAll(s[1..], p);
      assert s == [s[0]] + s[1..];
    }
  }

  /** The tasks with the one whose id is `id` marked completed. */
  function MarkCompleted(tasks: seq<Task>, id: int): (r: seq<Task>)
    ensures |r| == |tasks|
    ensures forall i :: 0 <= i < |r| ==>
              if tasks[i].id == id then r[i] == tasks[i].(isCompleted := true) else r[i] == tasks[i]
  {
    seq(|tasks|, i requires 0 <= i < |tasks| =>
      if tasks[i].id == id then tasks[i].(isCompleted := true) else tasks[i])
  }

  /** `isTaskSetToComplete`: marks the given task (one the lookup returned)
      completed and answers true; a missing task answers false and changes
      nothing. */
  function IsTaskSetToComplete(db: Db, task: Option<Task>): (r: (Db, bool))
    requires task.Some? ==> task.value in db.tasks
    ensures r.1 <==> task.Some?
    ensures task.None? ==> r.0 == db
    ensures task.Some? ==> && r.0.users == db.users && r.0.nextId == db.nextId
                           && |r.0.tasks| == |db.tasks|
                           && HasTask(r.0.tasks, task.value.id)
                           && forall i :: 0 <= i < |db.tasks| ==>
                                if db.tasks[i].id == task.value.id then r.0.tasks[i] == db.tasks[i].(isCompleted := true)
                                else r.0.tasks[i] == db.tasks[i]
  {
    match task
    case None => (db, false)
    case Some(t) =>
      var k :| 0 <= k < |db.tasks| && db.tasks[k] == t;
      var r := MarkCompleted(db.tasks, t.id);
      assert r[k].id == t.id;
      (db.(tasks := r), true)
  }

  /** Completing twice is completing once. */
  lemma MarkCompletedIdempotent(tasks: seq<Task>, id: int)
    ensures MarkCompleted(MarkCompleted(tasks, id), id) == MarkCompleted(tasks, id)
  {
  }

  /** `clear`: removes every task. */
  function Clear(db: Db): (r: Db)
    ensures |r.tasks| == 0 && r.users == db.users && r.nextId == db.nextId
  {
    db.(tasks := [])
  }

  /** Deleting a looked-up task keeps the store valid. */
  lemma DeleteValid(db: Db, id: int)
    requires Valid(db)
    ensures Valid(IsDeleted(db, TaskFilter(db.tasks, id)).0)
  {
    var t := TaskFilter(db.tasks, id);
    if t.Some? {
      var d := IsDeleted(db, t).0;
      assert d.tasks == Filter(db.tasks, (x: Task) => x.id != id);
      var key := (x: Task) => x.id;
      assert UniqueKeys(db.tasks, key);
      SubMultisetUniqueKeys(db.tasks, d.tasks, key);
      assert forall i, j :: 0 <= i < j < |d.tasks| ==> key(d.tasks[i]) != key(d.tasks[j]);
      forall i | 0 <= i < |d.tasks| ensures HasUser(d.users, d.tasks[i].userId) && d.tasks[i].id < d.nextId {
        assert d.tasks[i] in db.tasks;
      }
    }
  }

  /** Completing a looked-up task keeps the store valid. */
  lemma CompleteValid(db: Db, id: int)
    requires Valid(db)
    ensures Valid(IsTaskSetToComplete(db, TaskFilter(db.tasks, id)).0)
  {
  }

  /** Clearing the tasks keeps the store valid. */
  lemma ClearValid(db: Db)
    requires Valid(db)
    ensures Valid(Clear(db))
  {
  }

  // ---------------------------------------------------------------------------
  // Search

  /** The three filters of `search`: the owner's exact name if a user is
      given, a due date strictly after `dateAfter` if one is given, and not
      completed unless `includeCompleted` is exactly true. */
  predicate Matches(v: TaskView, user: Option<string>, dateAfter: Option<DateText>, includeCompleted: Option<bool>)
    ensures Matches(v, user, dateAfter, includeCompleted) <==>
              && (user.None? || v.user == user.value)
              && (dateAfter.None? || DayNumber(Parse(dateAfter.value)) < DayNumber(Parse(v.due)))
              && (includeCompleted == Some(true) || !v.isCompleted)
  {
    && (user.None? || v.user == user.value)
    && (dateAfter.None? || DateBefore(dateAfter.value, v.due))
    && (includeCompleted == Some(true) || !v.isCompleted)
  }

  /** The projected tasks that pass the filters, in store order. */
  function Selected(db: Db, user: Option<string>, dateAfter: Option<DateText>, includeCompleted: Option<bool>): (r: seq<TaskView>)
    requires Integrity(db)
    ensures forall v :: v in r <==> v in Project(db) && Matches(v, user, dateAfter, includeCompleted)
    ensures multiset(r) <= multiset(Project(db))
  {
    Filter(Project(db), (v: TaskView) => Matches(v, user, dateAfter, includeCompleted))
  }

  /** `search`: the matching views ordered by the comparator. Java's sort
      calls the comparator only for two or more elements, so an unknown sort
      field is reported only then. */
  function Search(db: Db, user: Option<string>, dateAfter: Option<DateText>,
                  sortBy: Option<string>, includeCompleted: Option<bool>): (r: Result<seq<TaskView>, string>)
    requires Integrity(db)
    ensures r.Success? ==> forall v :: v in r.value <==> v in Project(db) && Matches(v, user, dateAfter, includeCompleted)
    ensures r.Success? ==> multiset(r.value) == multiset(Selected(db, user, dateAfter, includeCompleted))
    ensures r.Success? && ParseSortSpec(sortBy).Success? ==> Sorted(ParseSortSpec(sortBy).value, r.value)
    ensures ParseSortSpec(sortBy).Success? ==> r.Success?
    ensures r.Failure? ==> ParseSortSpec(sortBy).Failure? && r.error == ParseSortSpec(sortBy).error
                           && |Selected(db, user, dateAfter, includeCompleted)| >= 2
    ensures ParseSortSpec(sortBy).Failure? && |Selected(db, user, dateAfter, includeCompleted)| >= 2 ==> r.Failure?
  {
    var selected := Selected(db, user, dateAfter, includeCompleted);
    if |selected| < 2 then
      ShortIsSorted(ParseSortSpec(sortBy), selected);
      Success(selected)
    else
      match ParseSortSpec(sortBy)
      case Failure(e) => Failure(e)
      case Success(spec) =>
        var sorted := SortViews(spec, selected);
        PermutationSameMembers(sorted, selected);
        Success(sorted)
  }

  lemma ShortIsSorted(spec: Result<SortSpec, string>, s: seq<TaskView>)
    requires |s| < 2
    ensures spec.Success? ==> Sorted(spec.value, s)
  {
  }

  /** Store ids are unique, so are the views' ids. */
  lemma ProjectUniqueIds(db: Db)
    requires Valid(db)
    ensures UniqueViewIds(Project(db))
  {
  }

  /** Views picked out of an id-unique sequence have unique ids. */
  lemma SelectedUniqueIds(db: Db, user: Option<string>, dateAfter: Option<DateText>, includeCompleted: Option<bool>)
    requires Valid(db)
    ensures UniqueViewIds(Selected(db, user, dateAfter, includeCompleted))
  {
    ProjectUniqueIds(db);
    SubMultisetUniqueIds(Project(db), Selected(db, user, dateAfter, includeCompleted));
  }

  /** On a valid store, the result of a search with a known sort field is THE
      ordering of the matching views: any sorted arrangement of exactly those
      views is the result. */
  lemma SearchIsDetermined(db: Db, user: Option<string>, dateAfter: Option<DateText>,
                           sortBy: Option<string>, includeCompleted: Option<bool>, s: seq<TaskView>)
    requires Valid(db) && ParseSortSpec(sortBy).Success?
    requires multiset(s) == multiset(Selected(db, user, dateAfter, includeCompleted))
    requires Sorted(ParseSortSpec(sortBy).value, s)
    ensures Search(db, user, dateAfter, sortBy, includeCompleted) == Success(s)
  {
    var r := Search(db, user, dateAfter, sortBy, includeCompleted).value;
    SelectedUniqueIds(db, user, dateAfter, includeCompleted);
    SubMultisetUniqueIds(Selected(db, user, dateAfter, includeCompleted), r);
    SortedUnique(ParseSortSpec(sortBy).value, r, s);
  }

  /** Without a `sortBy` the result is in strictly ascending id order. */
  lemma SearchDefaultOrder(db: Db, user: Option<string>, dateAfter: Option<DateText>, includeCompleted: Option<bool>)
    requires Valid(db)
    ensures var r := Search(db, user, dateAfter, None, includeCompleted);
            r.Success? && forall i, j :: 0 <= i < j < |r.value| ==> r.value[i].id < r.value[j].id
  {
    var r := Search(db, user, dateAfter, None, includeCompleted).value;
    SelectedUniqueIds(db, user, dateAfter, includeCompleted);
    SubMultisetUniqueIds(Selected(db, user, dateAfter, includeCompleted), r);
    IdOrderIsStrict(r);
  }

  /** Sorted by ascending id with unique ids is strictly ascending. */
  lemma IdOrderIsStrict(r: seq<TaskView>)
    requires Sorted(SortSpec(IdField, false), r) && UniqueViewIds(r)
    ensures forall i, j :: 0 <= i < j < |r| ==> r[i].id < r[j].id
  {
    forall i, j | 0 <= i < j < |r| ensures r[i].id < r[j].id {
      assert Cmp(SortSpec(IdField, false), r[i], r[j]) != Greater;
      assert r[i].id != r[j].id;
    }
  }

  /** The `dateAfter` filter, a comparison of parsed dates, keeps exactly the
      due dates that sort after `dateAfter` as text. */
  lemma DateAfterIsTextOrder(v: TaskView, dateAfter: DateText)
    ensures Matches(v, None, Some(dateAfter), Some(true)) <==> CompareStrings(dateAfter, v.due) == Less
  {
    DateBeforeIsTextOrder(dateAfter, v.due);
  }
}
