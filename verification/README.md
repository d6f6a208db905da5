# User store

A model of the in-memory user store behind a small FastAPI service (`main.py`):
a process-wide list of user records (`id`, `username`, `email`, `full_name`)
and a counter that hands out ids starting at 1, with the five request handlers
that read and change them — list all users, get one by id, create, update and
delete.

The model has three modules:

- `Users` (`users.dfy`): the record (`User`, which has no password field), the
  request payload (`UserCreate`), the handlers' outcomes (`Response`: `Ok`,
  `Deleted`, `NotFound`, `DupUsername`, `DupEmail`), the predicates that describe
  a list of records (first record with an id, first record that conflicts with a
  request, ids issued and distinct, usernames and emails distinct) and lemmas
  about the three ways the list is changed: append, overwrite at an index and
  removal at an index.
- `Store` (`store.dfy`): the class `UserStore` with the list (`users: seq<User>`)
  and the counter (`counter: nat`) as fields, its invariant `Valid()` (ids lie in
  `[1, counter)` and are pairwise distinct) and one method per handler. The two
  linear scans of the source are the read-only methods `FindIndex` (by id; used
  by get, update and delete) and `FindConflict` (create's duplicate check). Create,
  update and delete change the fields in place and state the whole new state in
  terms of the old one; every failure path leaves list and counter unchanged.
- `Scenarios` (`scenarios.dfy`): clients that drive the store through concrete
  request sequences and through pairs of calls (create then get, delete then
  create), proved from the handlers' contracts and the list lemmas of `Users`.

The duplicate check of create works per record, as the loop in `main.py` does:
for each existing record in list order it compares the username and then the
email, and the first record that matches either decides the error. So an earlier
record with the same email beats a later record with the same username
(`DupEmail` is reported). So the username takes precedence only within one
record, not across the list.

## Model

| member | source | states |
|---|---|---|
| `Store.UserStore.constructor` | main.py:34-35 | the store starts with no records and the counter at 1, and the invariant holds |
| `Store.UserStore.GetUsers` | main.py:54-61 | listing returns the stored records exactly as they are, in insertion order |
| `Store.UserStore.FindIndex` | main.py:78-79 | the id scan returns the position of the first record carrying the id, and None exactly when no record carries it |
| `Store.UserStore.GetUser` | main.py:65-81 | get answers Ok with the first record carrying the id, and NotFound exactly when none does; it changes nothing |
| `Store.UserStore.FindConflict` | main.py:101-111 | the duplicate scan finds no conflict exactly when no record shares the username or the email; otherwise the first conflicting record in list order decides, with username compared before email within that record |
| `Store.UserStore.CreateUser` | main.py:85-123 | create fails exactly when some record shares the username or email, with the error of the first conflicting record, and then changes nothing; on success it appends one record carrying the old counter and the payload's fields, bumps the counter by one, keeps earlier records, keeps the invariant and keeps usernames and emails distinct if they were |
| `Store.UserStore.UpdateUser` | main.py:127-152 | update answers NotFound exactly when no record carries the id, and then changes nothing; otherwise it overwrites the first such record at the same index with the payload's fields under the same id, leaves every other index and the counter alone and keeps the invariant |
| `Store.UserStore.DeleteUser` | main.py:156-174 | delete answers NotFound exactly when no record carries the id, and then changes nothing; otherwise it removes the first such record, keeps the others in order, leaves the counter alone, keeps the invariant, and no record with that id remains |
| `Users.AppendIssuedId` | main.py:114-121 | appending a record that carries the current counter keeps ids in range under the incremented counter and pairwise distinct, and a lookup of the new id finds the new record |
| `Users.AppendWithoutClash` | main.py:101-120 | appending a record for a request that clashes with no record keeps usernames and emails pairwise distinct |
| `Users.ReplaceKeepingId` | main.py:143-149 | overwriting a record with one that keeps its id keeps ids in range and pairwise distinct |
| `Users.ReplaceMayDuplicate` | main.py:141-150 | update makes no uniqueness check: when another record holds the requested username, the list after the overwrite has a duplicate |
| `Users.RemoveAt` | main.py:169-171 | removing one record keeps the remaining ids in range and distinct, and the removed id is no longer present |
| `Scenarios.CreateThenGet` | main.py:114-123 | a get of the id a create returned answers that same record, which carries the payload's fields and no password |
| `Scenarios.DeletedIdNotReissued` | main.py:115-121 | after an id is deleted, the next successful create assigns a different id, namely the old counter |
| `Scenarios.DeletedIdNeverReissued` | main.py:115-121 | after an id is deleted, neither of two later successful creates (with an update between them) gets that id, and the later create's id is strictly larger than the earlier one's |
| `Scenarios.UpdateMissing` | main.py:141-152 | an update of an id that is not stored answers NotFound and leaves records and counter unchanged |
| `Scenarios.AliceLifecycle` | main.py:101-106 | alice is created with id 1; a second create with her username is rejected and leaves one record; after deleting id 1 a get of it answers NotFound |
| `Scenarios.EarlierEmailClashWins` | main.py:101-111 | an earlier record with the same email is reported as an email conflict even though a later record has the same username |
| `Scenarios.UpdateToTakenUsername` | main.py:141-150 | renaming one user to another's username through update succeeds and leaves two records with the same username |

## Left out

- The HTTP layer: the application object, route decorators, `async`, the static
  health-check payload of the root route and the server launch (main.py:4-16,
  38-50, 177-178). Requests reach the model as already-decoded values.
- Status codes and the detail messages of the errors (404, 400, 201 and their
  texts): the outcomes are the constructors of `Response`.
- Email validation: the email type of the request model is checked by a library
  outside this model; the model takes the email as a string that has already
  passed that check, does not state its grammar, and does not model any
  normalisation the library may apply before the comparison.
- Field validation beyond types: the request model declares `username` and
  `password` as plain strings, so the code accepts an empty username; the model
  places no condition on either. The password is accepted and
  dropped.
- Response serialisation and filtering by the response model; the model only
  keeps the fact that stored records have no password field.
- Concurrency: the source has no locking, and handlers are modelled as running
  one at a time.
