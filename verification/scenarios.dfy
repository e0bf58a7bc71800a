/** Request sequences from the application's end-to-end tests, replayed on
    the model. */
module Scenarios {
  import opened Wrappers
  import opened Text
  import opened Seqs
  import opened Dates
  import opened Entities
  import opened TaskService
  import opened TaskController
  import UserService

  /** Well-formedness of a date literal, from its digits. */
  lemma DateLiteral(s: string)
    requires |s| == 10 && AllDigits(s[..4]) && s[4] == '-' && AllDigits(s[5..7]) && s[7] == '-' && AllDigits(s[8..])
    ensures ParseNat(s[..4]) == 1000 * DigitValue(s[0]) + 100 * DigitValue(s[1]) + 10 * DigitValue(s[2]) + DigitValue(s[3])
    ensures ParseNat(s[5..7]) == 10 * DigitValue(s[5]) + DigitValue(s[6])
    ensures ParseNat(s[8..]) == 10 * DigitValue(s[8]) + DigitValue(s[9])
  {
    ParseNatShort(s[..4]);
    ParseNatShort(s[5..7]);
    ParseNatShort(s[8..]);
  }

  function PastDue(): DateText
  {
    DateLiteral("1976-08-26"); "1976-08-26"
  }

  /** Creating a task due on 1976-08-26 is refused as being in the past, and
      no user is created for the name. */
  lemma PastDueRejected(db: Db, now: nat, appRoot: string)
    requires now > Midnight(PastDue())
    ensures Create(db, now, appRoot, TaskRequest(Some("Arch Stanton"), Some("do it to it"), Some(PastDue())))
              == (db, BadRequest("Due can't be in the past"))
  {
  }

  /** A request missing every field is refused for its due date first. */
  lemma EmptyRequestRejected(db: Db, now: nat, appRoot: string)
    ensures Create(db, now, appRoot, TaskRequest(None, None, None)) == (db, BadRequest("Due can't be empty"))
  {
  }

  /** Any id no task has, a negative one such as -12345 included, is not
      found by `get`, `complete` or `delete`, and nothing changes. */
  lemma UnknownIdNotFound(db: Db, id: int)
    requires Integrity(db) && id < 0
    ensures TaskController.Get(db, id) == NotFound
    ensures Complete(db, id) == (db, NotFound)
    ensures Delete(db, id) == (db, NotFound)
  {
  }

  /** `-12345` in particular. */
  lemma MinusTwelveThousandNotFound(db: Db)
    requires Integrity(db)
    ensures TaskController.Get(db, -12345) == NotFound && Complete(db, -12345) == (db, NotFound)
  {
    UnknownIdNotFound(db, -12345);
  }

  function Due0826(): DateText { DateLiteral("2525-08-26"); "2525-08-26" }
  function Due0927(): DateText { DateLiteral("2525-09-27"); "2525-09-27" }
  function Due1027(): DateText { DateLiteral("2525-10-27"); "2525-10-27" }
  function After0901(): DateText { DateLiteral("2525-09-01"); "2525-09-01" }

  /** The dates of the scenario, in order. */
  lemma ScenarioDates()
    ensures Midnight(Due0826()) < Midnight(After0901()) < Midnight(Due0927()) < Midnight(Due1027())
  {
    DateBeforeIsTextOrder(Due0826(), After0901());
    assert CompareStrings("2525-08-26", "2525-09-01") == Less;
    DateBeforeIsTextOrder(After0901(), Due0927());
    assert CompareStrings("2525-09-01", "2525-09-27") == Less;
    DateBeforeIsTextOrder(Due0927(), Due1027());
    assert CompareStrings("2525-09-27", "2525-10-27") == Less;
  }

  function Request(user: string, task: string, due: DateText): TaskRequest
  {
    TaskRequest(Some(user), Some(task), Some(due))
  }

  // The stores of the filter scenario: four users, and six tasks A to F in
  // creation order (ids 2, 4, 6, 7, 9, 10), F completed at the end.

  function Arch(): User { User(1, "Arch") }
  function Bob(): User { User(3, "Bob") }
  function Cynthia(): User { User(5, "Cynthia") }
  function Elsie(): User { User(8, "Elsie") }

  function TaskA(): Task { Task(2, 1, "t1", Due0826(), false) }
  function TaskB(): Task { Task(4, 3, "t1", Due0826(), false) }
  function TaskC(): Task { Task(6, 5, "t2", Due0826(), false) }
  function TaskD(): Task { Task(7, 1, "t3", Due0927(), false) }
  function TaskE(): Task { Task(9, 8, "t4", Due0826(), false) }
  function TaskF(): Task { Task(10, 1, "t3", Due1027(), false) }

  function Store1(): Db { Db([Arch()], [TaskA()], 3) }
  function Store2(): Db { Db([Arch(), Bob()], [TaskA(), TaskB()], 5) }
  function Store3(): Db { Db([Arch(), Bob(), Cynthia()], [TaskA(), TaskB(), TaskC()], 7) }
  function Store4(): Db { Db([Arch(), Bob(), Cynthia()], [TaskA(), TaskB(), TaskC(), TaskD()], 8) }
  function Store5(): Db
  {
    Db([Arch(), Bob(), Cynthia(), Elsie()], [TaskA(), TaskB(), TaskC(), TaskD(), TaskE()], 10)
  }
  function Store6(): Db
  {
    Db([Arch(), Bob(), Cynthia(), Elsie()], [TaskA(), TaskB(), TaskC(), TaskD(), TaskE(), TaskF()], 11)
  }
  function Store7(): Db
  {
    Db([Arch(), Bob(), Cynthia(), Elsie()],
       [TaskA(), TaskB(), TaskC(), TaskD(), TaskE(), TaskF().(isCompleted := true)], 11)
  }

  /** An accepted request for a name not yet stored creates the user and then
      the task, each with the next id. */
  lemma CreateForNewUser(db: Db, now: nat, appRoot: string, name: string, task: string, due: DateText)
    requires !BeforeInstant(due, now)
    requires forall i :: 0 <= i < |db.users| ==> db.users[i].name != name
    ensures Create(db, now, appRoot, Request(name, task, due))
              == (Db(db.users + [User(db.nextId, name)],
                     db.tasks + [Task(db.nextId + 1, db.nextId, task, due, false)],
                     db.nextId + 2),
                  Ok(Location(LocationOf(appRoot, db.nextId + 1))))
  {
  }

  /** An accepted request for the first stored user's name adds only the task. */
  lemma CreateForFirstUser(db: Db, now: nat, appRoot: string, task: string, due: DateText)
    requires !BeforeInstant(due, now) && |db.users| > 0
    ensures Create(db, now, appRoot, Request(db.users[0].name, task, due))
              == (db.(tasks := db.tasks + [Task(db.nextId, db.users[0].id, task, due, false)],
                      nextId := db.nextId + 1),
                  Ok(Location(LocationOf(appRoot, db.nextId))))
  {
  }

  lemma CreateA(now: nat, appRoot: string)
    requires now <= Midnight(Due0826())
    ensures Create(Empty(), now, appRoot, Request("Arch", "t1", Due0826()))
              == (Store1(), Ok(Location(LocationOf(appRoot, 2))))
  {
    CreateForNewUser(Empty(), now, appRoot, "Arch", "t1", Due0826());
    assert Empty().users + [Arch()] == Store1().users;
    assert Empty().tasks + [TaskA()] == Store1().tasks;
  }

  lemma CreateB(now: nat, appRoot: string)
    requires now <= Midnight(Due0826())
    ensures Create(Store1(), now, appRoot, Request("Bob", "t1", Due0826()))
              == (Store2(), Ok(Location(LocationOf(appRoot, 4))))
  {
    CreateForNewUser(Store1(), now, appRoot, "Bob", "t1", Due0826());
    assert Store1().users + [Bob()] == Store2().users;
    assert Store1().tasks + [TaskB()] == Store2().tasks;
  }

  lemma CreateC(now: nat, appRoot: string)
    requires now <= Midnight(Due0826())
    ensures Create(Store2(), now, appRoot, Request("Cynthia", "t2", Due0826()))
              == (Store3(), Ok(Location(LocationOf(appRoot, 6))))
  {
    CreateForNewUser(Store2(), now, appRoot, "Cynthia", "t2", Due0826());
    assert Store2().users + [Cynthia()] == Store3().users;
    assert Store2().tasks + [TaskC()] == Store3().tasks;
  }

  lemma CreateD(now: nat, appRoot: string)
    requires now <= Midnight(Due0927())
    ensures Create(Store3(), now, appRoot, Request("Arch", "t3", Due0927()))
              == (Store4(), Ok(Location(LocationOf(appRoot, 7))))
  {
    CreateForFirstUser(Store3(), now, appRoot, "t3", Due0927());
    assert Store3().tasks + [TaskD()] == Store4().tasks;
  }

  lemma CreateE(now: nat, appRoot: string)
    requires now <= Midnight(Due0826())
    ensures Create(Store4(), now, appRoot, Request("Elsie", "t4", Due0826()))
              == (Store5(), Ok(Location(LocationOf(appRoot, 9))))
  {
    CreateForNewUser(Store4(), now, appRoot, "Elsie", "t4", Due0826());
    assert Store4().users + [Elsie()] == Store5().users;
    assert Store4().tasks + [TaskE()] == Store5().tasks;
  }

  lemma CreateF(now: nat, appRoot: string)
    requires now <= Midnight(Due1027())
    ensures Create(Store5(), now, appRoot, Request("Arch", "t3", Due1027()))
              == (Store6(), Ok(Location(LocationOf(appRoot, 10))))
  {
    CreateForFirstUser(Store5(), now, appRoot, "t3", Due1027());
    assert Store5().tasks + [TaskF()] == Store6().tasks;
  }

  /** Completing the last task, id 10, marks it and nothing else. */
  lemma CompleteF()
    ensures Complete(Store6(), 10).0 == Store7()
  {
    var tasks := Store6().tasks;
    assert HasTask(tasks, 10) by { assert tasks[5].id == 10; }
    MarkStore6();
  }

  /** Marking id 10 in the six tasks completes the last one only. */
  lemma MarkStore6()
    ensures MarkCompleted(Store6().tasks, 10) == Store7().tasks
  {
    var marked := MarkCompleted(Store6().tasks, 10);
    forall i | 0 <= i < 6 ensures marked[i] == Store7().tasks[i] {
      assert Store6().tasks[i].id == 10 <==> i == 5;
    }
  }

  /** The view of a task whose owner sits at position `k` of id-unique users. */
  lemma OwnerView(users: seq<User>, k: nat, t: Task)
    requires UniqueUserIds(users) && k < |users| && users[k].id == t.userId
    ensures HasUser(users, t.userId)
    ensures TaskToView(users, t) == TaskView(t.id, users[k].name, t.task, t.due, t.isCompleted)
  {
    UserService.FindUserByIdUnique(users, k);
  }

  function FinalViews(): seq<TaskView>
  {
    [TaskView(2, "Arch", "t1", Due0826(), false),
     TaskView(4, "Bob", "t1", Due0826(), false),
     TaskView(6, "Cynthia", "t2", Due0826(), false),
     TaskView(7, "Arch", "t3", Due0927(), false),
     TaskView(9, "Elsie", "t4", Due0826(), false),
     TaskView(10, "Arch", "t3", Due1027(), true)]
  }

  lemma FinalUsersUnique()
    ensures UniqueUserIds(Store7().users)
  {
  }

  /** Task `i` of the final store has an owner, and its view is the `i`-th final view. */
  lemma FinalViewAt(i: nat)
    requires i < 6
    ensures HasUser(Store7().users, Store7().tasks[i].userId)
    ensures TaskToView(Store7().users, Store7().tasks[i]) == FinalViews()[i]
  {
    FinalUsersUnique();
    var owner := [0, 1, 2, 0, 3, 0][i];
    OwnerView(Store7().users, owner, Store7().tasks[i]);
  }

  /** The views of the final store. */
  lemma ProjectStore7()
    ensures Integrity(Store7())
    ensures Project(Store7()) == FinalViews()
  {
    forall i | 0 <= i < 6 ensures HasUser(Store7().users, Store7().tasks[i].userId) {
      FinalViewAt(i);
    }
    assert Integrity(Store7());
    forall i | 0 <= i < 6 ensures Project(Store7())[i] == FinalViews()[i] {
      FinalViewAt(i);
    }
  }

  /** Of the final views only D passes the filters: A is due too early, B, C
      and E belong to others, and F is completed. */
  lemma FinalMatch(i: nat)
    requires i < 6
    ensures Matches(FinalViews()[i], Some("Arch"), Some(After0901()), None) <==> i == 3
  {
    ScenarioDates();
  }

  /** Of those, only D is Arch's, due after 2525-09-01 and not completed. */
  lemma SelectStore7()
    ensures Integrity(Store7())
    ensures Selected(Store7(), Some("Arch"), Some(After0901()), None)
              == [TaskView(7, "Arch", "t3", Due0927(), false)]
  {
    ProjectStore7();
    var views := FinalViews();
    var p := (v: TaskView) => Matches(v, Some("Arch"), Some(After0901()), None);
    forall j | 0 <= j < |views| ensures p(views[j]) <==> j == 3 {
      FinalMatch(j);
    }
    FilterSingle(views, p, 3);
  }

  /** A single match is returned as it is. */
  lemma SearchStore7()
    ensures Integrity(Store7())
    ensures Search(Store7(), Some("Arch"), Some(After0901()), None, None)
              == Success([TaskView(7, "Arch", "t3", Due0927(), false)])
  {
    SelectStore7();
  }

  /** The six creations of the filter scenario, in order, on an empty store:
      the final store and the last response. */
  function SixCreations(now: nat, appRoot: string): (Db, Response)
  {
    var db1 := Create(Empty(), now, appRoot, Request("Arch", "t1", Due0826())).0;
    var db2 := Create(db1, now, appRoot, Request("Bob", "t1", Due0826())).0;
    var db3 := Create(db2, now, appRoot, Request("Cynthia", "t2", Due0826())).0;
    var db4 := Create(db3, now, appRoot, Request("Arch", "t3", Due0927())).0;
    var db5 := Create(db4, now, appRoot, Request("Elsie", "t4", Due0826())).0;
    Create(db5, now, appRoot, Request("Arch", "t3", Due1027()))
  }

  /** All six are accepted; the last is task 10. */
  lemma SixCreationsStore(now: nat, appRoot: string)
    requires now <= Midnight(Due0826())
    ensures SixCreations(now, appRoot) == (Store6(), Ok(Location(LocationOf(appRoot, 10))))
  {
    ScenarioDates();
    CreateA(now, appRoot);
    CreateB(now, appRoot);
    CreateC(now, appRoot);
    CreateD(now, appRoot);
    CreateE(now, appRoot);
    CreateF(now, appRoot);
  }

  /** Six tasks for Arch, Bob, Cynthia, Arch, Elsie and Arch; the last one,
      due 2525-10-27, is completed through the id in its `Location`. A search
      for Arch's tasks due after 2525-09-01 returns only the fourth task: the
      first is due too early, and the completed one is left out by default. */
  lemma FilterByName(now: nat, appRoot: string)
    requires now <= Midnight(Due0826())
    ensures var (db6, r6) := SixCreations(now, appRoot);
            && r6.Ok? && r6.body.Location? && AllDigits(IdText(r6.body.url))
            && ParseNat(IdText(r6.body.url)) == 10
            && var db7 := Complete(db6, ParseNat(IdText(r6.body.url))).0;
               Integrity(db7)
               && Search(db7, Some("Arch"), Some(After0901()), None, None)
                  == Success([TaskView(7, "Arch", "t3", Due0927(), false)])
  {
    SixCreationsStore(now, appRoot);
    LocationRoundTrip(appRoot, 10);
    CompleteF();
    SearchStore7();
  }
}
