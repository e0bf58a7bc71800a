/** The outcome logic of the task endpoints, as values rather than HTTP
    responses: which outcome each request gets and what it does to the store. */
module TaskController {
  import opened Wrappers
  import opened Text
  import opened Dates
  import opened Entities
  import opened TaskService
  import UserService

  /** What a successful response carries. */
  datatype Body =
    | NoBody
    | Location(url: string)   // the `Location` header of a created task
    | ViewBody(view: TaskView)
    | TaskBody(task: Task)     // `complete` serialises the stored record itself

  /** 200, 400 with an `Error` header, or 404. */
  datatype Response = Ok(body: Body) | BadRequest(error: string) | NotFound

  /** The URL of a task under the configured application root. */
  function LocationOf(appRoot: string, id: nat): string
  {
    appRoot + "/tasks/" + NatToString(id)
  }

  /** The id at the end of a task URL: the text after its last '/'. */
  function IdText(url: string): string
  {
    match LastIndexOf(url, '/')
    case None => url
    case Some(i) => url[i + 1..]
  }

  /** The id a client reads back from a `Location` is the created task's id. */
  lemma {:induction false} LocationRoundTrip(appRoot: string, id: nat)
    ensures IdText(LocationOf(appRoot, id)) == NatToString(id)
    ensures ParseNat(IdText(LocationOf(appRoot, id))) == id
  {
    var digits := NatToString(id);
    var url := LocationOf(appRoot, id);
    var k := |appRoot| + 6;
    assert url[k] == '/';
    assert url[k + 1..] == digits;
    assert forall j :: k < j < |url| ==> url[j] == digits[j - k - 1];
    var i := LastIndexOf(url, '/').value;
    assert i == k;
    ParseNatToString(id);
  }

  /** `create`: a request failing the checks gets 400 with the message and
      leaves the store alone; otherwise the task is created and the response
      points at it. */
  function Create(db: Db, now: nat, appRoot: string, req: TaskRequest): (r: (Db, Response))
    ensures CheckBadRequest(req, now).Some? ==> r == (db, BadRequest(CheckBadRequest(req, now).value))
    ensures CheckBadRequest(req, now).None? ==>
              && req.user.Some? && req.task.Some? && req.due.Some?
              && r.1.Ok? && r.1.body.Location?
              && |r.0.tasks| == |db.tasks| + 1
              && r.1.body.url == LocationOf(appRoot, r.0.tasks[|db.tasks|].id)
              && r.0 == CreateTask(db, req).0
  {
    match CheckBadRequest(req, now)
    case Some(message) => (db, BadRequest(message))
    case None =>
      var (db', t) := CreateTask(db, req);
      (db', Ok(Location(LocationOf(appRoot, t.id))))
  }

  /** `get`: the task's view, or 404. */
  function Get(db: Db, id: int): (r: Response)
    requires Integrity(db)
    ensures r == NotFound <==> !HasTask(db.tasks, id)
    ensures r != NotFound ==> r.Ok? && r.body.ViewBody? && r.body.view.id == id
                              && r.body.view in Project(db)
  {
    match TaskService.Get(db, id)
    case None => NotFound
    case Some(v) => Ok(ViewBody(v))
  }

  /** `delete`: removes the task and answers 200, or answers 404 and changes
      nothing. */
  function Delete(db: Db, id: int): (r: (Db, Response))
    ensures r.1 == Ok(NoBody) <==> HasTask(db.tasks, id)
    ensures r.1 == NotFound <==> !HasTask(db.tasks, id)
    ensures !HasTask(db.tasks, id) ==> r.0 == db
    ensures !HasTask(r.0.tasks, id)
    ensures r.0.users == db.users && r.0.nextId == db.nextId
    ensures forall t :: t in r.0.tasks <==> t in db.tasks && t.id != id
  {
    var (db', deleted) := IsDeleted(db, TaskFilter(db.tasks, id));
    (db', if deleted then Ok(NoBody) else NotFound)
  }

  /** `complete`: marks the task completed and answers 200 with the record,
      or answers 404 and changes nothing. */
  function Complete(db: Db, id: int): (r: (Db, Response))
    ensures r.1 == NotFound <==> !HasTask(db.tasks, id)
    ensures !HasTask(db.tasks, id) ==> r.0 == db
    ensures r.1 != NotFound ==> r.1.Ok? && r.1.body.TaskBody? && r.1.body.task.id == id
                                && r.1.body.task.isCompleted
    ensures HasTask(db.tasks, id) ==>
              && r.0.users == db.users && r.0.nextId == db.nextId
              && r.0.tasks == MarkCompleted(db.tasks, id)
              && r.1.body.task == TaskFilter(db.tasks, id).value.(isCompleted := true)
  {
    var found := TaskFilter(db.tasks, id);
    var (db', completed) := IsTaskSetToComplete(db, found);
    if completed then (db', Ok(TaskBody(found.value.(isCompleted := true)))) else (db', NotFound)
  }

  // ---------------------------------------------------------------------------
  // Properties across requests

  /** A rejected creation creates no user either: the store is untouched. */
  lemma RejectedCreateChangesNothing(db: Db, now: nat, appRoot: string, req: TaskRequest)
    requires CheckBadRequest(req, now).Some?
    ensures Create(db, now, appRoot, req).0 == db
    ensures Create(db, now, appRoot, req).1.BadRequest?
  {
  }

  /** Following the `Location` of a created task reads back what was submitted,
      not completed, and the store stays valid. */
  lemma CreateThenGet(db: Db, now: nat, appRoot: string, req: TaskRequest)
    requires Valid(db) && CheckBadRequest(req, now).None?
    ensures var (db', r) := Create(db, now, appRoot, req);
            && Valid(db')
            && r.Ok? && r.body.Location?
            && AllDigits(IdText(r.body.url))
            && Get(db', ParseNat(IdText(r.body.url))) ==
                 Ok(ViewBody(TaskView(ParseNat(IdText(r.body.url)), req.user.value, req.task.value, req.due.value, false)))
  {
    AcceptedRequest(req, now);
    var (db', t) := CreateTask(db, req);
    CreateTaskValid(db, req);
    CreatedTaskView(db, req);
    LocationRoundTrip(appRoot, t.id);
    assert db'.tasks[|db.tasks|] == t;
    TaskFilterUnique(db'.tasks, |db.tasks|);
  }

  /** After a delete the task is gone: deleting it again and getting it both
      answer 404. */
  lemma DeleteThenNotFound(db: Db, id: int)
    requires Valid(db)
    ensures var db' := Delete(db, id).0;
            Valid(db') && Delete(db', id) == (db', NotFound) && Get(db', id) == NotFound
  {
    DeleteValid(db, id);
  }

  /** On a valid store a delete removes exactly one record when it succeeds. */
  lemma DeleteRemovesOne(db: Db, id: int)
    requires Valid(db) && HasTask(db.tasks, id)
    ensures |Delete(db, id).0.tasks| == |db.tasks| - 1
    ensures Delete(db, id).0.users == db.users
  {
    var i :| 0 <= i < |db.tasks| && db.tasks[i].id == id;
    TaskFilterUnique(db.tasks, i);
    RemoveTaskCount(db.tasks, i);
  }

  /** Completing is idempotent: a second completion answers the same and
      changes nothing further. */
  lemma CompleteIdempotent(db: Db, id: int)
    requires Valid(db)
    ensures var (db1, r1) := Complete(db, id);
            Valid(db1) && Complete(db1, id) == (db1, r1)
  {
    CompleteValid(db, id);
    var (db1, r1) := Complete(db, id);
    if HasTask(db.tasks, id) {
      var i :| 0 <= i < |db.tasks| && db.tasks[i].id == id;
      TaskFilterUnique(db.tasks, i);
      TaskFilterUnique(db1.tasks, i);
      MarkCompletedIdempotent(db.tasks, id);
    }
  }

  /** After a completion, `get` shows the task completed. */
  lemma CompleteThenGet(db: Db, id: int)
    requires Valid(db) && HasTask(db.tasks, id)
    ensures var db1 := Complete(db, id).0;
            Valid(db1) && Get(db1, id).Ok? && Get(db1, id).body.view.isCompleted
  {
    CompleteValid(db, id);
    var i :| 0 <= i < |db.tasks| && db.tasks[i].id == id;
    TaskFilterUnique(db.tasks, i);
    var db1 := Complete(db, id).0;
    TaskFilterUnique(db1.tasks, i);
  }
}
