/**
 * The `User` entity: one row of the `User` table, with an auto-increment integer
 * primary key and two text columns, and the shape of the request bodies that
 * create and update it.
 */
module UserEntity {

  datatype Option<T> = None | Some(value: T)

  /**
   * A stored user. The text columns carry no NOT NULL and no non-empty
   * constraint: a column that was never supplied holds NULL (`None`), and the
   * empty string is a legal value. There is no other state.
   */
  datatype User = User(id: int, firstname: Option<string>, lastname: Option<string>)

  /**
   * The fields a caller supplies to create or update a user. `None` means the
   * key is absent from the request body. There is no `id`: the key is always
   * assigned by the table, never taken from the caller.
   */
  datatype UserFields = UserFields(firstname: Option<string>, lastname: Option<string>)

  /** A patch that supplies no field at all (the request body `{}`). */
  const NoFields := UserFields(None, None)

  /**
   * The record after an instance update with `patch`: each field the patch
   * supplies overwrites the stored one, each field it omits keeps its prior
   * value, and the key never changes.
   */
  function Patched(u: User, patch: UserFields): (r: User)
    ensures r.id == u.id
    ensures patch.firstname.Some? ==> r.firstname == patch.firstname
    ensures patch.firstname.None? ==> r.firstname == u.firstname
    ensures patch.lastname.Some? ==> r.lastname == patch.lastname
    ensures patch.lastname.None? ==> r.lastname == u.lastname
  {
    u.(firstname := if patch.firstname.Some? then patch.firstname else u.firstname,
       lastname := if patch.lastname.Some? then patch.lastname else u.lastname)
  }

  /** An empty patch is accepted and leaves the record exactly as it was. */
  lemma PatchedNoFieldsIsIdentity(u: User)
    ensures Patched(u, NoFields) == u
  {
  }

  /** Applying the same patch twice is the same as applying it once. */
  lemma PatchedIdempotent(u: User, patch: UserFields)
    ensures Patched(Patched(u, patch), patch) == Patched(u, patch)
  {
  }

  /** A patch that supplies both fields determines the whole record except its key. */
  lemma PatchedFullOverwrite(u: User, v: User, patch: UserFields)
    requires u.id == v.id
    requires patch.firstname.Some? && patch.lastname.Some?
    ensures Patched(u, patch) == Patched(v, patch)
  {
  }
}
