/** The user endpoints: listing users, and the reset used between tests. */
module UserController {
  import opened Entities
  import TaskService
  import UserService

  /** `clear`: every task first, then every user; the empty store this leaves
      is valid (no task is left without its owner). */
  function ClearAll(db: Db): (r: Db)
    ensures |r.tasks| == 0 && |r.users| == 0
    ensures Valid(r)
  {
    UserService.Clear(TaskService.Clear(db))
  }
}
