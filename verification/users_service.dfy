/**
 * The users service: create, list, read, update and delete on the `User`
 * table, turning what the table reports into a result or an error.
 */
module Users {
  import opened UserEntity
  import opened UserStore

  /**
   * The outcome of a service call. The two error kinds stay distinct:
   * `NotFound(id)` is the not-found exception carrying the requested id
   * (findOne, update, remove), `Empty` is the plain "no user found" error
   * that findAll raises on an empty table.
   */
  datatype Result<T> = Ok(value: T) | NotFound(id: int) | Empty

  class UsersService {
    /** The `User` table the service reads and writes. */
    const users: UserTable

    constructor (users: UserTable)
      ensures this.users == users
    {
      this.users := users;
    }

    /**
     * Inserts the supplied fields as they are, with no validation: a missing
     * field is stored as NULL. The key is assigned by the table and is
     * greater than every key assigned before; no other row changes.
     */
    method Create(dto: UserFields) returns (u: User)
      requires users.Valid()
      modifies users
      ensures users.Valid()
      ensures u.firstname == dto.firstname && u.lastname == dto.lastname
      ensures u.id !in old(users.issued) && forall k :: k in old(users.issued) ==> k < u.id
      ensures u.id == old(users.nextId) && users.nextId == u.id + 1
      ensures users.rows == old(users.rows)[u.id := u] && u.id !in old(users.rows)
      ensures users.order == old(users.order) + [u.id]
      ensures users.issued == old(users.issued) + {u.id}
    {
      u := users.Insert(dto);
    }

    /**
     * Every stored record exactly once, in ascending id order; an empty table
     * is reported as the `Empty` error rather than an empty list.
     */
    method FindAll() returns (r: Result<seq<User>>)
      requires users.Valid()
      ensures r.Empty? <==> users.rows == map[]
      ensures !r.NotFound?
      ensures r.Ok? ==> ListsEachRowOnce(r.value, users.rows)
    {
      var all := users.FindAllRows();
      if |all| == 0 {
        return Empty;
      }
      return Ok(all);
    }

    /** The record stored under `id`, or `NotFound(id)` when there is none. */
    method FindOne(id: int) returns (r: Result<User>)
      requires users.Valid()
      ensures id in users.rows ==> r == Ok(users.rows[id])
      ensures id !in users.rows ==> r == NotFound(id)
    {
      var user := users.FindByPk(id);
      if user.None? {
        return NotFound(id);
      }
      return Ok(user.value);
    }

    /**
     * Looks the record up first and fails with `NotFound(id)`, writing
     * nothing, when it is absent; otherwise overwrites the fields the patch
     * supplies (an empty patch is accepted) and returns the record as stored.
     */
    method Update(id: int, patch: UserFields) returns (r: Result<User>)
      requires users.Valid()
      modifies users
      ensures users.Valid()
      ensures id !in old(users.rows) ==> r == NotFound(id) && users.rows == old(users.rows)
      ensures id in old(users.rows) ==>
        && r == Ok(Patched(old(users.rows)[id], patch))
        && users.rows == old(users.rows)[id := r.value]
      ensures users.order == old(users.order)
      ensures users.nextId == old(users.nextId) && users.issued == old(users.issued)
    {
      var user := users.FindByPk(id);
      if user.None? {
        return NotFound(id);
      }
      var updated := users.UpdateInstance(user.value, patch);
      return Ok(updated);
    }

    /**
     * Deletes by key and branches on the deleted-row count: 0 fails with
     * `NotFound(id)` and leaves the table as it was, otherwise exactly that
     * row is gone and the confirmation carries `id`.
     */
    method Remove(id: int) returns (r: Result<int>)
      requires users.Valid()
      modifies users
      ensures users.Valid()
      ensures id in old(users.rows) ==> r == Ok(id)
      ensures id !in old(users.rows) ==> r == NotFound(id)
      ensures users.rows == old(users.rows) - {id} && id !in users.rows
      ensures users.order == Without(old(users.order), id)
      ensures users.nextId == old(users.nextId) && users.issued == old(users.issued)
    {
      var count := users.Destroy(id);
      if count == 0 {
        return NotFound(id);
      }
      return Ok(id);
    }
  }

  /**
   * Create does not reject a body that lacks a field: a user with a
   * firstname and no lastname is stored, with a NULL lastname.
   */
  method CreateWithMissingFieldSucceeds(svc: UsersService, firstname: string) returns (u: User)
    requires svc.users.Valid()
    modifies svc.users
    ensures svc.users.Valid()
    ensures u.firstname == Some(firstname) && u.lastname == None
    ensures u.id in svc.users.rows && svc.users.rows[u.id] == u
  {
    u := svc.Create(UserFields(Some(firstname), None));
  }

  /**
   * Update does not reject an empty patch: on a stored record it succeeds
   * and returns the record unchanged, and the table stays as it was.
   */
  method UpdateWithNoFieldsChangesNothing(svc: UsersService, id: int) returns (r: Result<User>)
    requires svc.users.Valid()
    requires id in svc.users.rows
    modifies svc.users
    ensures svc.users.Valid()
    ensures r == Ok(old(svc.users.rows)[id])
    ensures svc.users.rows == old(svc.users.rows)
  {
    r := svc.Update(id, NoFields);
    PatchedNoFieldsIsIdentity(old(svc.users.rows)[id]);
  }

  /** A removal is observed at once: a following lookup of the same id fails. */
  method RemoveThenFindOne(svc: UsersService, id: int) returns (removed: Result<int>, found: Result<User>)
    requires svc.users.Valid()
    modifies svc.users
    ensures id in old(svc.users.rows) <==> removed == Ok(id)
    ensures found == NotFound(id)
  {
    removed := svc.Remove(id);
    found := svc.FindOne(id);
  }

  /**
   * A session on a fresh table: keys start at 1, a partial update keeps the
   * omitted field, and a removed key is no longer found.
   */
  method Session()
  {
    var table := new UserTable();
    var svc := new UsersService(table);
    var john := svc.Create(UserFields(Some("John"), Some("Doe")));
    assert john == User(1, Some("John"), Some("Doe"));
    var found := svc.FindOne(1);
    assert found == Ok(john);
    var updated := svc.Update(1, UserFields(None, Some("Bej")));
    assert updated == Ok(User(1, Some("John"), Some("Bej")));
    var removed := svc.Remove(1);
    assert removed == Ok(1);
    found := svc.FindOne(1);
    assert found == NotFound(1);
  }

  /**
   * Listing a table emptied by a removal fails, and the next create gets a
   * new key rather than the removed one.
   */
  method RemovedKeyNotReused(first: UserFields, second: UserFields)
  {
    var table := new UserTable();
    var svc := new UsersService(table);
    var u := svc.Create(first);
    var removed := svc.Remove(u.id);
    var all := svc.FindAll();
    assert all == Empty;
    var v := svc.Create(second);
    assert v.id == 2 && v.id != u.id;
  }
}
