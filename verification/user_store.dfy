/**
 * An in-memory `User` table standing in for the persistence layer: a keyed
 * map of rows, the keys in insertion order, and the auto-increment counter
 * that assigns primary keys. Its methods are the store operations the service
 * calls: insert, lookup by primary key, list all, update one instance, and
 * delete by key reporting the number of rows removed.
 */
module UserStore {
  import opened UserEntity

  /** Primary-key discipline: every stored record sits under its own id. */
  ghost predicate KeyedById(rows: map<int, User>)
  {
    forall k :: k in rows ==> rows[k].id == k
  }

  /** Strictly increasing keys, hence no key listed twice. */
  ghost predicate Increasing(ids: seq<int>)
  {
    forall i, j :: 0 <= i < j < |ids| ==> ids[i] < ids[j]
  }

  /**
   * `s` lists the table `rows`: every stored record exactly once, nothing
   * else, in ascending id order.
   */
  ghost predicate ListsEachRowOnce(s: seq<User>, rows: map<int, User>)
  {
    && |s| == |rows|
    && (forall i :: 0 <= i < |s| ==> s[i].id in rows && rows[s[i].id] == s[i])
    && (forall k :: k in rows ==> exists i :: 0 <= i < |s| && s[i] == rows[k])
    && (forall i, j :: 0 <= i < j < |s| ==> s[i].id < s[j].id)
  }

  /** The records stored under `ids`, in the order of `ids`. */
  function Project(rows: map<int, User>, ids: seq<int>): (s: seq<User>)
    requires forall i :: 0 <= i < |ids| ==> ids[i] in rows
    ensures |s| == |ids|
    ensures forall i :: 0 <= i < |ids| ==> s[i] == rows[ids[i]]
  {
    if ids == [] then [] else [rows[ids[0]]] + Project(rows, ids[1..])
  }

  /** `ids` with `x` dropped, the rest kept in order. */
  function Without(ids: seq<int>, x: int): (r: seq<int>)
    ensures forall k :: k in r <==> k in ids && k != x
    ensures x !in ids ==> r == ids
    ensures Increasing(ids) ==> Increasing(r)
  {
    if ids == [] then []
    else if ids[0] == x then Without(ids[1..], x)
    else
      var rest := Without(ids[1..], x);
      assert Increasing(ids) ==> Increasing([ids[0]] + rest) by {
        if Increasing(ids) {
          assert Increasing(ids[1..]);
          var r := [ids[0]] + rest;
          forall i, j | 0 <= i < j < |r| ensures r[i] < r[j] {
            assert r[j] == rest[j - 1] && r[j] in ids[1..];
            var m :| 0 <= m < |ids[1..]| && ids[1..][m] == r[j];
            assert ids[m + 1] == r[j];
          }
        }
      }
      [ids[0]] + rest
  }

  /** A list of keys without repeats has as many distinct keys as entries. */
  lemma {:induction false} IncreasingCardinality(ids: seq<int>)
    requires Increasing(ids)
    ensures |set k | k in ids| == |ids|
  {
    if ids != [] {
      IncreasingCardinality(ids[1..]);
      assert (set k | k in ids) == {ids[0]} + (set k | k in ids[1..]);
      assert ids[0] !in (set k | k in ids[1..]);
    }
  }

  class UserTable {
    /** The stored rows by primary key. */
    var rows: map<int, User>
    /** The keys of `rows` in insertion order. */
    var order: seq<int>
    /** The auto-increment counter: the key the next insert receives. */
    var nextId: int
    /** Every key ever assigned, including keys of rows since deleted. */
    ghost var issued: set<int>

    ghost predicate Valid()
      reads this
    {
      && KeyedById(rows)
      && (forall k :: k in rows <==> k in order)
      && Increasing(order)
      && rows.Keys <= issued
      && 1 <= nextId
      && (forall k :: k in issued ==> 1 <= k < nextId)
    }

    /** A fresh, empty table whose counter starts at 1. */
    constructor ()
      ensures Valid()
      ensures rows == map[] && order == [] && issued == {} && nextId == 1
    {
      rows, order, nextId := map[], [], 1;
      issued := {};
    }

    /**
     * Inserts a row with the supplied fields under a store-assigned key that
     * is greater than every key assigned before, so a deleted key is never
     * reused. Missing fields are stored as NULL.
     */
    method Insert(fields: UserFields) returns (u: User)
      requires Valid()
      modifies this
      ensures Valid()
      ensures u.firstname == fields.firstname && u.lastname == fields.lastname
      ensures u.id == old(nextId) && nextId == u.id + 1
      ensures u.id !in old(issued) && forall k :: k in old(issued) ==> k < u.id
      ensures rows == old(rows)[u.id := u] && u.id !in old(rows)
      ensures order == old(order) + [u.id]
      ensures issued == old(issued) + {u.id}
    {
      assert forall i :: 0 <= i < |order| ==> order[i] in order;
      u := User(nextId, fields.firstname, fields.lastname);
      rows := rows[nextId := u];
      order := order + [nextId];
      issued := issued + {nextId};
      nextId := nextId + 1;
    }

    /** Lookup by primary key: the stored record, or nothing when the key is absent. */
    method FindByPk(id: int) returns (u: Option<User>)
      requires Valid()
      ensures u.Some? <==> id in rows
      ensures u.Some? ==> u.value == rows[id] && u.value.id == id
    {
      u := if id in rows then Some(rows[id]) else None;
    }

    /** All stored records, each exactly once, in insertion (= ascending id) order. */
    method FindAllRows() returns (s: seq<User>)
      requires Valid()
      ensures ListsEachRowOnce(s, rows)
    {
      assert forall i :: 0 <= i < |order| ==> order[i] in order;
      s := Project(rows, order);
      IncreasingCardinality(order);
      ghost var keys := set k | k in order;
      assert forall k :: k in rows.Keys <==> k in keys;
      assert rows.Keys == keys;
      forall k | k in rows ensures exists i :: 0 <= i < |s| && s[i] == rows[k] {
        var i :| 0 <= i < |order| && order[i] == k;
        assert s[i] == rows[k];
      }
    }

    /**
     * Writes `patch` into the row of the instance `u`, which was read from
     * this table. The stored row becomes `Patched(u, patch)`; should the key
     * no longer be present, the update touches no row.
     */
    method UpdateInstance(u: User, patch: UserFields) returns (r: User)
      requires Valid()
      modifies this
      ensures Valid()
      ensures r == Patched(u, patch)
      ensures rows == if u.id in old(rows) then old(rows)[u.id := r] else old(rows)
      ensures order == old(order) && nextId == old(nextId) && issued == old(issued)
    {
      r := Patched(u, patch);
      if r.id in rows {
        rows := rows[r.id := r];
      }
    }

    /**
     * Deletes the row whose key is `id` and reports how many rows were
     * removed: 1 when it was stored, 0 otherwise.
     */
    method Destroy(id: int) returns (count: nat)
      requires Valid()
      modifies this
      ensures Valid()
      ensures count == |old(rows)| - |rows|
      ensures count == 0 <==> id !in old(rows)
      ensures rows == old(rows) - {id}
      ensures order == Without(old(order), id)
      ensures nextId == old(nextId) && issued == old(issued)
    {
      count := if id in rows then 1 else 0;
      assert (rows - {id}).Keys == rows.Keys - {id};
      rows := rows - {id};
      order := Without(order, id);
    }
  }
}
