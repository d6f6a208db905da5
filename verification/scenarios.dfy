/** Clients of the store: concrete request sequences, and properties that span
    more than one handler call, proved from the handlers' contracts alone. */
module Scenarios {
  import opened Users
  import opened Store

  /** Create then get: the record a create returns is the one a lookup of its id
      finds, and it carries the payload's fields without the password. */
  method CreateThenGet(s: UserStore, req: UserCreate) returns (created: Response, fetched: Response)
    requires s.Valid()
    modifies s
    ensures s.Valid()
    ensures created.Ok? ==> fetched == created && created.user == Record(created.user.id, req)
    ensures !created.Ok? ==> s.users == old(s.users)
  {
    created := s.CreateUser(req);
    if created.Ok? {
      AppendIssuedId(old(s.users), old(s.counter), created.user);
    }
    fetched := s.GetUser(if created.Ok? then created.user.id else 0);
  }

  /** A deleted id is never handed out again: once `id` has been removed, the next
      successful create assigns some other id. */
  method DeletedIdNotReissued(s: UserStore, id: int, req: UserCreate) returns (removed: Response, created: Response)
    requires s.Valid()
    modifies s
    ensures s.Valid()
    ensures removed.Deleted? && created.Ok? ==> created.user.id != id
    ensures created.Ok? ==> created.user.id == old(s.counter) && s.counter == old(s.counter) + 1
  {
    removed := s.DeleteUser(id);
    created := s.CreateUser(req);
  }

  /** A deleted id stays retired through later traffic: after the delete, an update
      and two creates, neither create got the deleted id, and ids keep growing in
      creation order. */
  method DeletedIdNeverReissued(s: UserStore, id: int, first: UserCreate, target: int, change: UserCreate, second: UserCreate)
    returns (removed: Response, c1: Response, updated: Response, c2: Response)
    requires s.Valid()
    modifies s
    ensures s.Valid()
    ensures removed.Deleted? && c1.Ok? ==> c1.user.id != id
    ensures removed.Deleted? && c2.Ok? ==> c2.user.id != id
    ensures c1.Ok? && c2.Ok? ==> c1.user.id < c2.user.id
    ensures s.counter >= old(s.counter)
  {
    removed := s.DeleteUser(id);
    c1 := s.CreateUser(first);
    updated := s.UpdateUser(target, change);
    c2 := s.CreateUser(second);
  }

  /** Updating an id that is not stored answers NotFound and leaves the records and
      the counter as they were. */
  method UpdateMissing(s: UserStore, id: int, req: UserCreate) returns (r: Response)
    requires s.Valid()
    requires !HasId(s.users, id)
    modifies s
    ensures r == NotFound
    ensures s.users == old(s.users) && s.counter == old(s.counter)
  {
    r := s.UpdateUser(id, req);
  }

  /** Alice is created with id 1; a second create with her username is rejected and
      leaves one record; after she is deleted, a lookup of id 1 finds nothing. */
  method AliceLifecycle() returns (first: Response, second: Response, count: nat, removed: Response, lookup: Response)
    ensures first == Ok(User(1, "alice", "alice@example.com", Some("Alice A")))
    ensures second == DupUsername && count == 1
    ensures removed == Deleted && lookup == NotFound
  {
    var s := new UserStore();
    first := s.CreateUser(UserCreate("alice", "alice@example.com", "p", Some("Alice A")));
    var again := UserCreate("alice", "bob@example.com", "p", None);
    assert FirstClashAt(s.users, again, 0);
    second := s.CreateUser(again);
    count := |s.users|;
    assert FirstWithId(s.users, 1, 0);
    removed := s.DeleteUser(1);
    lookup := s.GetUser(1);
  }

  /** The duplicate check goes record by record: when an earlier record has the
      requested email and a later one the requested username, the email error is
      the one reported. */
  method EarlierEmailClashWins() returns (r: Response)
    ensures r == DupEmail
  {
    var s := new UserStore();
    var a := s.CreateUser(UserCreate("alice", "alice@example.com", "p", None));
    var b := s.CreateUser(UserCreate("bob", "bob@example.com", "p", None));
    assert a.Ok? && b.Ok?;
    var req := UserCreate("bob", "alice@example.com", "p", None);
    assert FirstClashAt(s.users, req, 0);
    r := s.CreateUser(req);
  }

  /** Update does not re-check uniqueness: renaming bob to alice succeeds and leaves
      two records with the same username. */
  method UpdateToTakenUsername() returns (r: Response, listed: seq<User>)
    ensures r.Ok? && !FieldsDistinct(listed)
  {
    var s := new UserStore();
    var a := s.CreateUser(UserCreate("alice", "alice@example.com", "p", None));
    var b := s.CreateUser(UserCreate("bob", "bob@example.com", "p", None));
    assert a.Ok? && b.Ok?;
    assert FirstWithId(s.users, 2, 1);
    r := s.UpdateUser(2, UserCreate("alice", "bob@example.com", "p", None));
    listed := s.GetUsers();
    assert listed[0].username == listed[1].username;
  }
}
