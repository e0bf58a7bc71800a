/** The records of the task tracker and the record store that holds them. */
module Entities {
  import opened Wrappers
  import opened Dates

  /** A user; `name` identifies the user to clients. */
  datatype User = User(id: nat, name: string)

  /** A stored task, owned by the user whose id is `userId`. */
  datatype Task = Task(id: nat, userId: nat, task: string, due: DateText, isCompleted: bool)

  /** The read projection of a task: the owner's name in place of the owner's id. */
  datatype TaskView = TaskView(id: nat, user: string, task: string, due: DateText, isCompleted: bool)

  /** A creation request as decoded from JSON: every field may be missing. A
      present due date is well-formed text (parse failure is not modelled). */
  datatype TaskRequest = TaskRequest(user: Option<string>, task: Option<string>, due: Option<DateText>)

  /** The record store: both tables, and the generator of fresh ids that
      `@GeneratedValue` draws from (one sequence shared by both entities). */
  datatype Db = Db(users: seq<User>, tasks: seq<Task>, nextId: nat)

  ghost predicate UniqueUserIds(users: seq<User>)
  {
    forall i, j :: 0 <= i < j < |users| ==> users[i].id != users[j].id
  }

  ghost predicate UniqueNames(users: seq<User>)
  {
    forall i, j :: 0 <= i < j < |users| ==> users[i].name != users[j].name
  }

  ghost predicate UniqueTaskIds(tasks: seq<Task>)
  {
    forall i, j :: 0 <= i < j < |tasks| ==> tasks[i].id != tasks[j].id
  }

  predicate HasUser(users: seq<User>, id: nat)
  {
    exists i :: 0 <= i < |users| && users[i].id == id
  }

  /** Every task's owner exists. */
  ghost predicate Integrity(db: Db)
  {
    forall i :: 0 <= i < |db.tasks| ==> HasUser(db.users, db.tasks[i].userId)
  }

  /** Every stored id was drawn from the generator. */
  ghost predicate IdsIssued(db: Db)
  {
    && (forall i :: 0 <= i < |db.users| ==> db.users[i].id < db.nextId)
    && (forall i :: 0 <= i < |db.tasks| ==> db.tasks[i].id < db.nextId)
  }

  /** What every sequence of service operations keeps true of the store. */
  ghost predicate Valid(db: Db)
  {
    && UniqueUserIds(db.users)
    && UniqueNames(db.users)
    && UniqueTaskIds(db.tasks)
    && IdsIssued(db)
    && Integrity(db)
  }

  /** The empty store the application starts from. */
  function Empty(): (db: Db)
    ensures Valid(db) && |db.users| == 0 && |db.tasks| == 0
  {
    Db([], [], 1)
  }
}
