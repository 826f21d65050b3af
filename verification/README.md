# UsersService — a Dafny model

This project models the users service of a small NestJS application. The
service runs create, list, read, update and delete on one `User` table. It
turns what the table reports into a result or an error.

- `user_entity.dfy` (module `UserEntity`) holds the `User` record: an
  auto-increment integer key and two text columns, `firstname` and `lastname`.
  It also holds the request-body shape `UserFields` and the patch semantics of
  an instance update, `Patched`. The text columns have no NOT NULL or
  non-empty constraint. A field that was never supplied is therefore stored as
  `None` (SQL NULL), and the empty string is allowed.
- `user_store.dfy` (module `UserStore`) holds the class `UserTable`, an
  in-memory table that stands in for the persistence layer. It has three
  fields: `rows`, a map from key to record; `order`, the keys in insertion
  order; and `nextId`, the auto-increment counter. A ghost set `issued`
  records every key ever assigned. `Valid()` states the key discipline:
  - every record sits under its own id;
  - `order` lists exactly the stored keys, strictly increasing;
  - every assigned key lies in `[1, nextId)`.
  The methods are the store calls the service makes: insert, lookup by
  primary key, list all, update one instance, and delete by key with a
  deleted-row count.
- `users_service.dfy` (module `Users`) holds the class `UsersService` over a
  `UserTable`. Each operation returns a `Result`: `Ok(value)`, `NotFound(id)`
  or `Empty`. `NotFound(id)` is the not-found exception, which carries the
  requested id. `Empty` is the plain error that `findAll` raises on an empty
  table. The two kinds stay distinct. Four further methods show how the
  operations combine:
  - create accepts a missing field;
  - update accepts an empty patch and changes nothing;
  - a removal is seen at once by a later `findOne`;
  - a removed key is not reused.

### Where the code and its tests disagree

The model follows `users.service.ts`.

- `users.service.spec.ts:76-81` expects `BadRequestException` when create gets
  a missing field. The service performs no such check. In the model, `Create`
  stores the supplied fields as they are, and `CreateWithMissingFieldSucceeds`
  shows that a body without `lastname` is stored.
- `users.service.spec.ts:111-122` expects `BadRequestException` for an empty
  update patch. The service performs no such check. In the model,
  `UpdateWithNoFieldsChangesNothing` shows that such an update succeeds and
  returns the record unchanged.
- The test at `users.service.spec.ts:98` expects `save` to be called. The code
  calls `update` on the instance instead. The model writes the patched record
  back to the table.
- Nothing in the code makes `firstname` or `lastname` non-empty, or even
  present. The model does not assume either.

## Model

| member | source | states |
|---|---|---|
| `UserEntity.Patched` | src/users/users.service.ts:35-36 | the updated record keeps its id; each field the patch supplies is overwritten with that value; each omitted field keeps its prior value |
| `UserEntity.PatchedNoFieldsIsIdentity` | src/users/users.service.ts:30-37 | an empty patch leaves the record exactly as it was (no empty-patch rejection exists) |
| `UserEntity.PatchedIdempotent` | src/users/users.service.ts:35 | applying the same patch twice equals applying it once |
| `UserEntity.PatchedFullOverwrite` | src/users/users.service.ts:35 | a patch that supplies both fields fixes the whole record except its key, whatever the prior values |
| `UserStore.UserTable.constructor` | src/users/entities/user.entity.ts:5-8 | a fresh table is empty, has issued no key, and its auto-increment counter starts at 1 |
| `UserStore.UserTable.Insert` | src/users/users.service.ts:10 | inserts one row with exactly the supplied fields under the counter's key, which is unused and greater than every key assigned before (deleted ones included); no other row changes; the key invariants are kept |
| `UserStore.UserTable.FindByPk` | src/users/users.service.ts:23 | returns a record iff the key is stored, and then exactly the stored record, whose id is the key |
| `UserStore.UserTable.FindAllRows` | src/users/users.service.ts:15 | returns every stored record exactly once and nothing else, as many as there are rows, in ascending id order |
| `UserStore.UserTable.UpdateInstance` | src/users/users.service.ts:35 | the row under the instance's key becomes the patched record, which is also returned; keys, order and counter are unchanged |
| `UserStore.UserTable.Destroy` | src/users/users.service.ts:40 | removes exactly the row under the key; the returned count is the number of rows removed, 0 iff the key was absent; the counter and issued keys are unchanged |
| `Users.UsersService.Create` | src/users/users.service.ts:9-12 | never fails; the new record's firstname and lastname equal the input; its id is store-assigned, unused and greater than every earlier id; exactly one row is added |
| `Users.UsersService.FindAll` | src/users/users.service.ts:14-20 | fails with `Empty` iff the table is empty, never with `NotFound`; otherwise returns every stored record exactly once; the table is not changed |
| `Users.UsersService.FindOne` | src/users/users.service.ts:22-28 | returns exactly the stored record when the id is present, `NotFound(id)` when it is absent; the table is not changed |
| `Users.UsersService.Update` | src/users/users.service.ts:30-37 | with the id absent: `NotFound(id)`, nothing written; with it present: the returned record is the stored record with the patch applied, it is what is now stored, and every other row, the order and the counter are untouched |
| `Users.UsersService.Remove` | src/users/users.service.ts:39-45 | with the id present: `Ok(id)` and exactly that row is deleted; with it absent: `NotFound(id)` and the table is unchanged; either way the id is no longer stored |
| `Users.CreateWithMissingFieldSucceeds` | src/users/users.service.ts:9-12 | create with a firstname and no lastname succeeds and stores the record with a NULL lastname |
| `Users.UpdateWithNoFieldsChangesNothing` | src/users/users.service.ts:30-37 | update of a stored record with an empty patch succeeds, returns the record unchanged and leaves the table as it was |
| `Users.RemoveThenFindOne` | src/users/users.service.ts:22-45 | after remove(id), findOne(id) fails with `NotFound(id)`; the remove succeeded iff the id was stored |

## Left out

- The HTTP controller (`users.controller.ts`) is not part of this model. It
  covers routing, the numeric coercion `+id` of path parameters, and the
  re-throw of every error as a not-found exception.
- The database and the ORM are replaced by the in-memory `UserTable`. SQL,
  connection and constraint failures, and the propagation of such failures,
  are not modelled.
- Promises and async scheduling are not modelled. Concurrent calls are not
  modelled either. Each operation is one atomic step on the table, so an
  update always finds its row still present.
- The French error and success messages are not modelled. The model uses the
  `NotFound(id)` and `Empty` variants and the `Ok(id)` confirmation instead.
- The `createdAt` and `updatedAt` timestamp columns that the ORM adds by
  default are not modelled. They depend on a clock.
- `Patched`: a patch field is either absent or a string. An explicit `null`
  in a request body, which would set the column to NULL, is not modelled.
- `UsersService.Update`: the ORM updates the fetched instance in place and
  returns that same object. The model works on record values, so object
  identity and aliasing of the instance are not captured. Only the returned
  value and the stored row are.
- Ids are unbounded integers. The JavaScript number's 2^53 precision limit is
  not modelled.
- `src/users/dto/` is not part of this model. The create and update bodies
  are taken to carry only `firstname` and `lastname`.
- The jest test files are not modelled. They serve as evidence for the
  properties above.
