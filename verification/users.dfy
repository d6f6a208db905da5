/** Records, request payloads and responses of the in-memory user store, with the
    predicates that describe a store's contents and the facts about them that the
    store's operations rely on. */
module Users {

  datatype Option<+T> = None | Some(value: T)

  /** A stored user record. There is no password field: the store never keeps one. */
  datatype User = User(id: int, username: string, email: string, fullName: Option<string>)

  /** The payload of a create or update request. The email is taken as already
      validated; its syntax is not part of this model. */
  datatype UserCreate = UserCreate(username: string, email: string, password: string, fullName: Option<string>)

  /** What a handler answers, without its transport encoding. */
  datatype Response =
    | Ok(user: User)    // the record that was read, created or updated
    | Deleted           // the confirmation of a delete
    | NotFound          // no record carries the requested id
    | DupUsername       // create: an existing record has the requested username
    | DupEmail          // create: an existing record has the requested email

  /** The record that create and update store: the payload's fields under `id`,
      with the password dropped. */
  function Record(id: int, req: UserCreate): User {
    User(id, req.username, req.email, req.fullName)
  }

  // ---- Lookup by id ----

  /** Some record of `db` carries `id`. */
  predicate HasId(db: seq<User>, id: int) {
    exists i :: 0 <= i < |db| && db[i].id == id
  }

  /** `i` is the position of the first record of `db` that carries `id`. */
  predicate FirstWithId(db: seq<User>, id: int, i: int) {
    && 0 <= i < |db|
    && db[i].id == id
    && forall j :: 0 <= j < i ==> db[j].id != id
  }

  // ---- Duplicate detection on create ----

  /** The existing record `u` conflicts with the request: same username or same email. */
  predicate Clashes(u: User, req: UserCreate) {
    u.username == req.username || u.email == req.email
  }

  /** `k` is the position of the first record of `db` that conflicts with the request. */
  predicate FirstClashAt(db: seq<User>, req: UserCreate, k: int) {
    && 0 <= k < |db|
    && Clashes(db[k], req)
    && forall j :: 0 <= j < k ==> !Clashes(db[j], req)
  }

  /** The error a conflicting record produces: within one record the username is
      compared before the email. */
  function ClashError(u: User, req: UserCreate): Response {
    if u.username == req.username then DupUsername else DupEmail
  }

  // ---- Store invariants ----

  /** Every id was handed out by a counter that started at 1 and now stands at `counter`. */
  predicate IdsIssued(db: seq<User>, counter: int) {
    forall i :: 0 <= i < |db| ==> 1 <= db[i].id < counter
  }

  /** No two records share an id. */
  predicate IdsDistinct(db: seq<User>) {
    forall i, j :: 0 <= i < j < |db| ==> db[i].id != db[j].id
  }

  /** No two records share a username, and no two share an email. */
  predicate FieldsDistinct(db: seq<User>) {
    forall i, j :: 0 <= i < j < |db| ==> db[i].username != db[j].username && db[i].email != db[j].email
  }

  // ---- Facts about the three ways the store changes its list ----

  /** Appending a record that carries the current counter keeps the ids issued
      (under the incremented counter) and distinct, and the new record is the one
      a lookup of its id finds. */
  lemma AppendIssuedId(db: seq<User>, counter: int, u: User)
    requires IdsIssued(db, counter) && IdsDistinct(db)
    requires counter >= 1 && u.id == counter
    ensures IdsIssued(db + [u], counter + 1) && IdsDistinct(db + [u])
    ensures FirstWithId(db + [u], u.id, |db|)
  {
  }

  /** Appending a record for a request that conflicts with no existing record keeps
      usernames and emails pairwise distinct. */
  lemma AppendWithoutClash(db: seq<User>, id: int, req: UserCreate)
    requires FieldsDistinct(db)
    requires forall k :: 0 <= k < |db| ==> !Clashes(db[k], req)
    ensures FieldsDistinct(db + [Record(id, req)])
  {
  }

  /** Overwriting a record with one that keeps its id keeps the ids issued and distinct. */
  lemma ReplaceKeepingId(db: seq<User>, counter: int, i: int, u: User)
    requires IdsIssued(db, counter) && IdsDistinct(db)
    requires 0 <= i < |db| && u.id == db[i].id
    ensures IdsIssued(db[i := u], counter) && IdsDistinct(db[i := u])
  {
  }

  /** An update may leave two records with the same username: no uniqueness check
      guards it. Whenever another record already holds the requested username, the
      list after the overwrite is no longer free of duplicates. */
  lemma ReplaceMayDuplicate(db: seq<User>, i: int, j: int, req: UserCreate)
    requires 0 <= i < |db| && 0 <= j < |db| && i != j
    requires db[j].username == req.username
    ensures !FieldsDistinct(db[i := Record(db[i].id, req)])
  {
    var db' := db[i := Record(db[i].id, req)];
    assert db'[i].username == db'[j].username;
  }

  /** Removing the record at `i` keeps the remaining ids issued and distinct; when
      ids were distinct, the removed id is no longer present. */
  lemma RemoveAt(db: seq<User>, counter: int, i: int)
    requires IdsIssued(db, counter) && IdsDistinct(db)
    requires 0 <= i < |db|
    ensures IdsIssued(db[..i] + db[i + 1..], counter)
    ensures IdsDistinct(db[..i] + db[i + 1..])
    ensures !HasId(db[..i] + db[i + 1..], db[i].id)
  {
  }
}
