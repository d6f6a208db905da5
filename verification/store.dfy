/** The process-wide user store: an ordered list of records plus the counter that
    hands out ids, and the five handlers that read and change them. */
module Store {
  import opened Users

  class UserStore {
    /** The records, in insertion order. */
    var users: seq<User>
    /** The id the next successful create hands out. */
    var counter: nat

    /** Ids were handed out by the counter, so each lies in [1, counter), and no two
        records share one. Every handler keeps this. */
    ghost predicate Valid()
      reads this
    {
      counter >= 1 && IdsIssued(users, counter) && IdsDistinct(users)
    }

    /** The store at process start: no records, counter at 1. */
    constructor ()
      ensures Valid()
      ensures users == [] && counter == 1
    {
      users := [];
      counter := 1;
    }

    /** List: the records as they are, in order. */
    method GetUsers() returns (r: seq<User>)
      ensures r == users
    {
      r := users;
    }

    /** The linear scan by id shared by get, update and delete: the position of the
        first record carrying `id`, or None when no record does. */
    method FindIndex(id: int) returns (r: Option<nat>)
      ensures r.None? <==> !HasId(users, id)
      ensures r.Some? ==> FirstWithId(users, id, r.value)
    {
      var i := 0;
      while i < |users|
        invariant 0 <= i <= |users|
        invariant forall j :: 0 <= j < i ==> users[j].id != id
      {
        if users[i].id == id {
          return Some(i);
        }
        i := i + 1;
      }
      return None;
    }

    /** Get one: the first record carrying `id`, or NotFound. */
    method GetUser(id: int) returns (r: Response)
      ensures r.Ok? || r.NotFound?
      ensures r.NotFound? <==> !HasId(users, id)
      ensures forall i :: FirstWithId(users, id, i) ==> r == Ok(users[i])
    {
      var found := FindIndex(id);
      match found
      case Some(i) => r := Ok(users[i]);
      case None => r := NotFound;
    }

    /** Create's duplicate scan: record by record, in list order, the username is
        compared and then the email; the first record that matches either decides the
        error. None when no record conflicts. */
    method FindConflict(req: UserCreate) returns (r: Option<Response>)
      ensures r.None? <==> forall k :: 0 <= k < |users| ==> !Clashes(users[k], req)
      ensures r.Some? ==> r.value == DupUsername || r.value == DupEmail
      ensures forall k :: FirstClashAt(users, req, k) ==> r == Some(ClashError(users[k], req))
    {
      var i := 0;
      while i < |users|
        invariant 0 <= i <= |users|
        invariant forall j :: 0 <= j < i ==> !Clashes(users[j], req)
      {
        if users[i].username == req.username {
          return Some(DupUsername);
        }
        if users[i].email == req.email {
          return Some(DupEmail);
        }
        i := i + 1;
      }
      return None;
    }

    /** Create: rejected with the first conflict in list order; otherwise a record
        carrying the current counter is appended and the counter goes up by one.
        A rejected request changes nothing. */
    method CreateUser(req: UserCreate) returns (r: Response)
      requires Valid()
      modifies this
      ensures Valid()
      ensures r.Ok? || r.DupUsername? || r.DupEmail?
      ensures r.Ok? <==> forall k :: 0 <= k < |old(users)| ==> !Clashes(old(users)[k], req)
      ensures forall k :: FirstClashAt(old(users), req, k) ==> r == ClashError(old(users)[k], req)
      ensures r.Ok? ==> r.user == Record(old(counter), req)
      ensures r.Ok? ==> users == old(users) + [r.user] && counter == old(counter) + 1
      ensures !r.Ok? ==> users == old(users) && counter == old(counter)
      ensures FieldsDistinct(old(users)) ==> FieldsDistinct(users)
    {
      var conflict := FindConflict(req);
      if conflict.Some? {
        return conflict.value;
      }
      var created := Record(counter, req);
      AppendIssuedId(users, counter, created);
      if FieldsDistinct(users) {
        AppendWithoutClash(users, counter, req);
      }
      users := users + [created];
      counter := counter + 1;
      r := Ok(created);
    }

    /** Update: the first record carrying `id` is overwritten in place with the
        payload's fields under the same id; nothing else changes. No uniqueness check
        is made. NotFound changes nothing. */
    method UpdateUser(id: int, req: UserCreate) returns (r: Response)
      requires Valid()
      modifies this
      ensures Valid()
      ensures r.Ok? || r.NotFound?
      ensures r.NotFound? <==> !HasId(old(users), id)
      ensures r.NotFound? ==> users == old(users)
      ensures forall i :: FirstWithId(old(users), id, i) ==>
                r == Ok(Record(id, req)) && users == old(users)[i := r.user]
      ensures counter == old(counter)
    {
      var found := FindIndex(id);
      match found
      case None =>
        r := NotFound;
      case Some(i) =>
        var updated := Record(id, req);
        ReplaceKeepingId(users, counter, i, updated);
        users := users[i := updated];
        r := Ok(updated);
    }

    /** Delete: the first record carrying `id` is removed, the others keep their
        order; the counter is left alone, so the id is not handed out again.
        NotFound changes nothing. */
    method DeleteUser(id: int) returns (r: Response)
      requires Valid()
      modifies this
      ensures Valid()
      ensures r.Deleted? || r.NotFound?
      ensures r.NotFound? <==> !HasId(old(users), id)
      ensures r.NotFound? ==> users == old(users)
      ensures forall i :: FirstWithId(old(users), id, i) ==>
                r == Deleted && users == old(users)[..i] + old(users)[i + 1..]
      ensures !HasId(users, id)
      ensures counter == old(counter)
    {
      var found := FindIndex(id);
      match found
      case None =>
        r := NotFound;
      case Some(i) =>
        RemoveAt(users, counter, i);
        users := users[..i] + users[i + 1..];
        r := Deleted;
    }
  }
}
