/**
  The generic data access layer (`BaseDAL`) over the one table of the service,
  `form_history`. The session-backed table is an in-memory sequence of rows in
  insertion order; the read queries are functions of that sequence and the
  writes are methods of class `BaseDAL`.
*/
module BaseDal {
  import opened Wrappers

  /** Primary key of a row; `uuid4` is modelled as a never-used number. */
  type Id = nat

  /** A calendar date, as a day number. */
  type Date = int

  /** One row of `form_history` (timestamps left out). */
  datatype FormHistory = FormHistory(id: Id, date: Date, firstName: string, lastName: string)

  /** The `data` dictionary given to `update`: the columns to overwrite. */
  datatype Patch = Patch(date: Option<Date>, firstName: Option<string>, lastName: Option<string>)

  /** `NoResultFound`, raised by `get_by_id`. */
  datatype NotFound = NotFound(id: Id)

  /** The storage cannot be reached: the flush inside `create` raises. */
  datatype StorageError = StorageUnavailable

  function Ids(rows: seq<FormHistory>): (ids: seq<Id>)
    ensures |ids| == |rows|
    ensures forall i :: 0 <= i < |rows| ==> ids[i] == rows[i].id
  {
    seq(|rows|, i requires 0 <= i < |rows| => rows[i].id)
  }

  /** The primary key constraint. */
  predicate UniqueIds(rows: seq<FormHistory>) {
    forall i, j :: 0 <= i < j < |rows| ==> rows[i].id != rows[j].id
  }

  predicate IdsBelow(rows: seq<FormHistory>, bound: Id) {
    forall i :: 0 <= i < |rows| ==> rows[i].id < bound
  }

  /** One more than the largest id in use. */
  function NextFreeId(rows: seq<FormHistory>): (n: Id)
    ensures IdsBelow(rows, n)
  {
    if rows == [] then 0
    else
      var n := NextFreeId(rows[1..]);
      assert forall i :: 1 <= i < |rows| ==> rows[i] == rows[1..][i - 1];
      if rows[0].id < n then n else rows[0].id + 1
  }

  /** `get_by_id_or_none`: the row with that id, or `None`; it never raises. */
  function GetByIdOrNone(rows: seq<FormHistory>, id: Id): (r: Option<FormHistory>)
    ensures r.None? <==> id !in Ids(rows)
    ensures r.Some? ==> r.value in rows && r.value.id == id
    ensures UniqueIds(rows) ==> forall i :: 0 <= i < |rows| && rows[i].id == id ==> r == Some(rows[i])
  {
    if rows == [] then None
    else if rows[0].id == id then Some(rows[0])
    else
      assert Ids(rows) == [rows[0].id] + Ids(rows[1..]);
      GetByIdOrNone(rows[1..], id)
  }

  /** `get_by_id`: the row with that id, or the not-found error. */
  function GetById(rows: seq<FormHistory>, id: Id): (r: Result<FormHistory, NotFound>)
    ensures r.Success? <==> id in Ids(rows)
    ensures r.Success? ==> r.value in rows && r.value.id == id
    ensures r.Failure? ==> r.error == NotFound(id)
  {
    match GetByIdOrNone(rows, id)
    case Some(row) => Success(row)
    case None => Failure(NotFound(id))
  }

  /** `get_by_ids`: the rows whose id is in `ids`, in table order. */
  function GetByIds(rows: seq<FormHistory>, ids: seq<Id>): (r: seq<FormHistory>)
    ensures forall x :: x in r <==> x in rows && x.id in ids
    ensures multiset(r) <= multiset(rows)
    ensures |r| <= |rows|
  {
    if rows == [] then []
    else
      var rest := GetByIds(rows[1..], ids);
      assert rows == [rows[0]] + rows[1..];
      assert forall x :: x in rows <==> x == rows[0] || x in rows[1..];
      if rows[0].id in ids then [rows[0]] + rest else rest
  }

  /** `get_all_ids`: the id of every stored row, in table order. */
  function GetAllIds(rows: seq<FormHistory>): seq<Id> {
    Ids(rows)
  }

  /** Every id `get_all_ids` reports can be fetched with `get_by_id`, and no other. */
  lemma GetAllIdsFetchable(rows: seq<FormHistory>, id: Id)
    ensures id in GetAllIds(rows) <==> GetById(rows, id).Success?
  {
  }

  /** The row with `update`'s fields written over it. */
  function ApplyPatch(row: FormHistory, p: Patch): (r: FormHistory)
    ensures r.id == row.id
    ensures r.date == (if p.date.Some? then p.date.value else row.date)
    ensures r.firstName == (if p.firstName.Some? then p.firstName.value else row.firstName)
    ensures r.lastName == (if p.lastName.Some? then p.lastName.value else row.lastName)
  {
    FormHistory(
      row.id,
      match p.date case Some(d) => d case None => row.date,
      match p.firstName case Some(f) => f case None => row.firstName,
      match p.lastName case Some(l) => l case None => row.lastName)
  }

  /** The table after `UPDATE ... WHERE id = id`. */
  function UpdateRows(rows: seq<FormHistory>, id: Id, p: Patch): (r: seq<FormHistory>)
    ensures |r| == |rows|
  {
    seq(|rows|, i requires 0 <= i < |rows| => if rows[i].id == id then ApplyPatch(rows[i], p) else rows[i])
  }

  /** The table after `DELETE ... WHERE id = id`. */
  function DeleteRows(rows: seq<FormHistory>, id: Id): (r: seq<FormHistory>)
    ensures |r| <= |rows|
  {
    if rows == [] then []
    else if rows[0].id == id then DeleteRows(rows[1..], id)
    else [rows[0]] + DeleteRows(rows[1..], id)
  }

  /**
    `update` rewrites only the row with that id, only in the given fields; every
    other row reads back as before, and the set of ids does not change.
  */
  lemma {:induction false} UpdateSpec(rows: seq<FormHistory>, id: Id, p: Patch, other: Id)
    requires UniqueIds(rows)
    ensures Ids(UpdateRows(rows, id, p)) == Ids(rows)
    ensures UniqueIds(UpdateRows(rows, id, p))
    ensures GetByIdOrNone(UpdateRows(rows, id, p), id) ==
      match GetByIdOrNone(rows, id) case Some(row) => Some(ApplyPatch(row, p)) case None => None
    ensures other != id ==> GetByIdOrNone(UpdateRows(rows, id, p), other) == GetByIdOrNone(rows, other)
  {
    var after := UpdateRows(rows, id, p);
    assert Ids(after) == Ids(rows);
    forall i | 0 <= i < |rows| && rows[i].id == id ensures GetByIdOrNone(after, id) == Some(ApplyPatch(rows[i], p)) {
      assert after[i].id == id;
    }
    forall i | 0 <= i < |rows| && rows[i].id == other && other != id
      ensures GetByIdOrNone(after, other) == Some(rows[i])
    {
      assert after[i] == rows[i];
    }
  }

  /** The rows left by `delete` are the rows of the table with another id. */
  lemma {:induction false} DeleteMembers(rows: seq<FormHistory>, id: Id)
    ensures forall x :: x in DeleteRows(rows, id) <==> x in rows && x.id != id
  {
    if rows != [] {
      DeleteMembers(rows[1..], id);
      assert rows == [rows[0]] + rows[1..];
    }
  }

  /** `delete` of an id the table does not hold leaves the table as it is. */
  lemma {:induction false} DeleteAbsent(rows: seq<FormHistory>, id: Id)
    requires id !in Ids(rows)
    ensures DeleteRows(rows, id) == rows
  {
    if rows != [] {
      var tail := rows[1..];
      assert id !in Ids(tail) by {
        forall k | 0 <= k < |tail| ensures Ids(tail)[k] != id {
          assert Ids(rows)[k + 1] == tail[k].id;
        }
      }
      DeleteAbsent(tail, id);
      assert Ids(rows)[0] == rows[0].id;
      assert rows == [rows[0]] + tail;
    }
  }

  /**
    `delete` removes the row with that id and nothing else; with no such row
    the table is left as it is.
  */
  lemma DeleteSpec(rows: seq<FormHistory>, id: Id)
    ensures id !in Ids(DeleteRows(rows, id))
    ensures forall x :: x in DeleteRows(rows, id) <==> x in rows && x.id != id
    ensures id !in Ids(rows) ==> DeleteRows(rows, id) == rows
  {
    var after := DeleteRows(rows, id);
    DeleteMembers(rows, id);
    forall k | 0 <= k < |after| ensures Ids(after)[k] != id {
      assert after[k] in after;
    }
    if id !in Ids(rows) {
      DeleteAbsent(rows, id);
    }
  }

  /**
    A `BaseDAL` bound to one session. `rows` is the table as the session sees
    it, `committed` the table as of the start of the session's transaction
    (what a rollback returns to), `available` whether the storage answers.
  */
  /** `_id_field`, the default `order_by`. */
  const IdField := "id"

  class BaseDAL {
    var rows: seq<FormHistory>
    var committed: seq<FormHistory>
    var nextId: Id
    var available: bool
    var defaultOrderBy: Option<string>

    ghost predicate Valid()
      reads this
    {
      UniqueIds(rows) && IdsBelow(rows, nextId) && UniqueIds(committed) && IdsBelow(committed, nextId)
    }

    /**
      `BaseDAL(session, model, order_by)` over a table that already holds
      `table`; `order_by` defaults to the id column.
    */
    constructor (table: seq<FormHistory>, available: bool, orderBy: Option<string> := Some(IdField))
      requires UniqueIds(table)
      ensures Valid()
      ensures rows == table && committed == table && this.available == available
      ensures defaultOrderBy == if orderBy.Some? && orderBy.value != "" then orderBy else None
    {
      rows := table;
      committed := table;
      nextId := NextFreeId(table);
      this.available := available;
      defaultOrderBy := if orderBy.Some? && orderBy.value != "" then orderBy else None;
    }

    /** `create`: add one row with a fresh id and return it. */
    method Create(date: Date, firstName: string, lastName: string) returns (r: Result<FormHistory, StorageError>)
      requires Valid()
      modifies this
      ensures Valid()
      ensures committed == old(committed) && available == old(available) && defaultOrderBy == old(defaultOrderBy)
      ensures old(available) ==> r.Success? && rows == old(rows) + [r.value]
      ensures r.Success? ==> r.value.date == date && r.value.firstName == firstName && r.value.lastName == lastName
      ensures r.Success? ==> r.value.id !in Ids(old(rows)) && GetById(rows, r.value.id) == Success(r.value)
      ensures !old(available) ==> r == Failure(StorageUnavailable) && rows == old(rows)
    {
      if !available {
        return Failure(StorageUnavailable);
      }
      var row := FormHistory(nextId, date, firstName, lastName);
      rows := rows + [row];
      nextId := nextId + 1;
      r := Success(row);
      assert rows[|rows| - 1] == row;
    }

    /** `update`: overwrite the given fields of the row with that id. */
    method Update(id: Id, p: Patch)
      requires Valid()
      modifies this
      ensures Valid()
      ensures rows == UpdateRows(old(rows), id, p)
      ensures committed == old(committed) && nextId == old(nextId) && available == old(available)
      ensures defaultOrderBy == old(defaultOrderBy)
    {
      UpdateSpec(rows, id, p, id);
      rows := UpdateRows(rows, id, p);
    }

    /** `delete`: remove the row with that id, if there is one. */
    method Delete(id: Id)
      requires Valid()
      modifies this
      ensures Valid()
      ensures rows == DeleteRows(old(rows), id)
      ensures committed == old(committed) && nextId == old(nextId) && available == old(available)
      ensures defaultOrderBy == old(defaultOrderBy)
    {
      DeleteKeepsIds(rows, id, nextId);
      rows := DeleteRows(rows, id);
    }

    /** `set_order_by` */
    method SetOrderBy(orderBy: string)
      modifies this
      ensures defaultOrderBy == Some(orderBy)
      ensures rows == old(rows) && committed == old(committed) && nextId == old(nextId) && available == old(available)
    {
      defaultOrderBy := Some(orderBy);
    }

    /** `session.rollback()`: the table returns to its state at the start of the transaction. */
    method Rollback()
      requires Valid()
      modifies this
      ensures Valid()
      ensures rows == old(committed)
      ensures committed == old(committed) && nextId == old(nextId) && available == old(available)
      ensures defaultOrderBy == old(defaultOrderBy)
    {
      rows := committed;
    }
  }

  /** Deleting keeps ids unique. */
  lemma {:induction false} DeleteKeepsUnique(rows: seq<FormHistory>, id: Id)
    requires UniqueIds(rows)
    ensures UniqueIds(DeleteRows(rows, id))
  {
    if rows != [] {
      var tail := rows[1..];
      assert UniqueIds(tail) by {
        assert forall k :: 0 <= k < |tail| ==> tail[k] == rows[k + 1];
      }
      DeleteKeepsUnique(tail, id);
      DeleteMembers(tail, id);
      var rest := DeleteRows(tail, id);
      if rows[0].id != id {
        forall k | 0 <= k < |rest| ensures rest[k].id != rows[0].id {
          assert rest[k] in rest;
          var m :| 0 <= m < |tail| && tail[m] == rest[k];
          assert rows[m + 1] == rest[k];
        }
        var r := [rows[0]] + rest;
        assert forall k :: 1 <= k < |r| ==> r[k] == rest[k - 1];
      }
    }
  }

  /** Deleting keeps ids unique and bounded. */
  lemma DeleteKeepsIds(rows: seq<FormHistory>, id: Id, bound: Id)
    requires UniqueIds(rows) && IdsBelow(rows, bound)
    ensures UniqueIds(DeleteRows(rows, id)) && IdsBelow(DeleteRows(rows, id), bound)
  {
    DeleteKeepsUnique(rows, id);
    DeleteMembers(rows, id);
    var after := DeleteRows(rows, id);
    forall k | 0 <= k < |after| ensures after[k].id < bound {
      assert after[k] in after;
    }
  }

}
