/** The user directory: get-or-create by exact name, lookup by id, listing
    by name, and bulk clear. */
module UserService {
  import opened Wrappers
  import opened Text
  import opened Seqs
  import opened Entities

  /** `findUserById`: the first user with that id, absent if there is none. */
  function FindUserById(users: seq<User>, id: nat): (r: Option<User>)
    ensures r.Some? ==> r.value in users && r.value.id == id
    ensures r.None? <==> !HasUser(users, id)
  {
    FindFirst(users, (u: User) => u.id == id)
  }

  /** With unique ids, the lookup finds the one user with that id. */
  lemma FindUserByIdUnique(users: seq<User>, i: nat)
    requires UniqueUserIds(users) && i < |users|
    ensures FindUserById(users, users[i].id) == Some(users[i])
  {
    FindFirstUnique(users, (u: User) => u.id == users[i].id, i);
  }

  /** `getOrCreateUser`: the first user with exactly this name, or else a new
      user with a fresh id appended to the store. Returns the new store and
      the user. */
  function GetOrCreateUser(db: Db, name: string): (r: (Db, User))
    ensures r.1.name == name
    ensures r.0.tasks == db.tasks
    ensures (exists i :: 0 <= i < |db.users| && db.users[i].name == name) ==>
              r.0 == db && r.1 in db.users
    ensures (forall i :: 0 <= i < |db.users| ==> db.users[i].name != name) ==>
              && r.0.users == db.users + [r.1]
              && r.1.id == db.nextId
              && r.0.nextId == db.nextId + 1
  {
    match FindFirst(db.users, (u: User) => u.name == name)
    case Some(u) => (db, u)
    case None =>
      var u := User(db.nextId, name);
      (db.(users := db.users + [u], nextId := db.nextId + 1), u)
  }

  /** Get-or-create keeps the store valid: in particular names stay unique,
      and every id it hands out is new. */
  lemma GetOrCreateUserValid(db: Db, name: string)
    requires Valid(db)
    ensures Valid(GetOrCreateUser(db, name).0)
    ensures HasUser(GetOrCreateUser(db, name).0.users, GetOrCreateUser(db, name).1.id)
    ensures GetOrCreateUser(db, name).0.nextId >= db.nextId
  {
    var (db', u) := GetOrCreateUser(db, name);
    if forall i :: 0 <= i < |db.users| ==> db.users[i].name != name {
      assert db'.users[|db.users|] == u;
    } else {
      var i :| 0 <= i < |db.users| && db.users[i] == u;
    }
    assert forall i :: 0 <= i < |db.users| ==> HasUser(db'.users, db.users[i].id) by {
      forall i | 0 <= i < |db.users| ensures HasUser(db'.users, db.users[i].id) {
        assert db'.users[i] == db.users[i];
      }
    }
  }

  /** A second get-or-create with the same name finds the first one's user
      and changes nothing, so names never duplicate. */
  lemma GetOrCreateUserTwice(db: Db, name: string)
    ensures var (db1, u1) := GetOrCreateUser(db, name);
            GetOrCreateUser(db1, name) == (db1, u1)
  {
    var (db1, u1) := GetOrCreateUser(db, name);
    if forall i :: 0 <= i < |db.users| ==> db.users[i].name != name {
      FindFirstUnique(db1.users, (u: User) => u.name == name, |db.users|);
    } else {
      assert db1 == db;
    }
  }

  /** `clear`: removes every user. */
  function Clear(db: Db): (r: Db)
    ensures |r.users| == 0
    ensures r.tasks == db.tasks && r.nextId == db.nextId
  {
    db.(users := [])
  }

  // ---------------------------------------------------------------------------
  // `getAllUsers`: a stable sort by name

  ghost predicate SortedByName(users: seq<User>)
  {
    forall i, j :: 0 <= i < j < |users| ==> CompareStrings(users[i].name, users[j].name) != Greater
  }

  /** A user no later than every user of a sorted listing can go in front of it. */
  lemma ConsSortedByName(u: User, users: seq<User>)
    requires SortedByName(users)
    requires forall j :: 0 <= j < |users| ==> CompareStrings(u.name, users[j].name) != Greater
    ensures SortedByName([u] + users)
  {
    var r := [u] + users;
    forall i, j | 0 <= i < j < |r| ensures CompareStrings(r[i].name, r[j].name) != Greater {
      assert r[j] == users[j - 1];
      if i > 0 {
        assert r[i] == users[i - 1];
      }
    }
  }

  /** Inserts `u` before the first user whose name is not smaller, so that
      users with equal names keep their order. */
  function InsertByName(u: User, users: seq<User>): (r: seq<User>)
    requires SortedByName(users)
    ensures multiset(r) == multiset(users) + multiset{u}
    ensures SortedByName(r)
  {
    if |users| == 0 then [u]
    else if CompareStrings(u.name, users[0].name) != Greater then
      assert forall j :: 0 <= j < |users| ==> CompareStrings(u.name, users[j].name) != Greater by {
        forall j | 0 < j < |users| ensures CompareStrings(u.name, users[j].name) != Greater {
          CompareStringsTransitiveLe(u.name, users[0].name, users[j].name);
        }
      }
      ConsSortedByName(u, users);
      [u] + users
    else
      var h := users[0];
      assert users == [h] + users[1..];
      var rest := InsertByName(u, users[1..]);
      assert forall j :: 0 <= j < |rest| ==> CompareStrings(h.name, rest[j].name) != Greater by {
        forall j | 0 <= j < |rest| ensures CompareStrings(h.name, rest[j].name) != Greater {
          var y := rest[j];
          assert y in multiset(rest);
          if y == u {
            CompareStringsFlip(u.name, h.name);
          } else {
            assert y in users[1..];
            var k :| 0 <= k < |users[1..]| && users[1..][k] == y;
            assert users[k + 1] == y;
          }
        }
      }
      ConsSortedByName(h, rest);
      [h] + rest
  }

  /** The users ordered by name (Java's `sorted` is stable). */
  function SortByName(users: seq<User>): (r: seq<User>)
    ensures multiset(r) == multiset(users)
    ensures SortedByName(r)
  {
    if |users| == 0 then []
    else
      assert users == [users[0]] + users[1..];
      InsertByName(users[0], SortByName(users[1..]))
  }

  /** `getAllUsers`: every stored user, ordered by name. */
  function GetAllUsers(db: Db): (r: seq<User>)
    ensures multiset(r) == multiset(db.users)
    ensures SortedByName(r)
  {
    SortByName(db.users)
  }

  /** With unique names the listing is strictly ascending by name. */
  lemma GetAllUsersStrict(db: Db)
    requires UniqueNames(db.users)
    ensures var r := GetAllUsers(db);
            forall i, j :: 0 <= i < j < |r| ==> CompareStrings(r[i].name, r[j].name) == Less
  {
    var r := GetAllUsers(db);
    forall i, j | 0 <= i < j < |r|
      ensures CompareStrings(r[i].name, r[j].name) == Less
    {
      if r[i].name == r[j].name {
        MultisetNamesDistinct(db.users, r, i, j);
      }
      CompareStringsEqual(r[i].name, r[j].name);
    }
  }

  /** Two different positions of a permutation of a name-unique sequence hold
      different names. */
  lemma MultisetNamesDistinct(users: seq<User>, r: seq<User>, i: nat, j: nat)
    requires UniqueNames(users) && multiset(r) == multiset(users)
    requires i < j < |r|
    ensures r[i].name != r[j].name
  {
    var name := (u: User) => u.name;
    assert UniqueKeys(users, name);
    SubMultisetUniqueKeys(users, r, name);
    assert name(r[i]) != name(r[j]);
  }
}
