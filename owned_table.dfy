/** A per-user table (`DbSet<Book>`, `DbSet<Quote>`) together with the
    ownership discipline the Books and Quotes controllers apply to it:
    every lookup filters on the row key AND the caller's id, so a caller
    can neither see nor touch another user's rows. Keys are handed out by
    a counter, as an auto-incrementing primary key does. */
module OwnedTable {
  import opened Common
  import opened Models

  /** The primary key: no two rows share an id. */
  ghost predicate UniqueKeys<F>(rows: seq<Row<F>>)
  {
    forall i, j :: 0 <= i < j < |rows| ==> rows[i].id != rows[j].id
  }

  /** Every key is positive and no larger than the last key handed out. */
  ghost predicate KeysUpTo<F>(rows: seq<Row<F>>, lastId: int)
  {
    forall i :: 0 <= i < |rows| ==> 0 < rows[i].id <= lastId
  }

  /** The filter `Id == id && UserId == caller` of UpdateX and DeleteX. */
  predicate IsMatch<F>(row: Row<F>, id: int32, caller: int32)
  {
    row.id == id && row.userId == caller
  }

  /** Whether the caller owns a row with this key. */
  ghost predicate Owns<F>(rows: seq<Row<F>>, id: int32, caller: int32)
  {
    exists j :: 0 <= j < |rows| && IsMatch(rows[j], id, caller)
  }

  /** The filter `UserId == caller` of GetX. */
  function Owned<F(==)>(rows: seq<Row<F>>, caller: int32): (r: seq<Row<F>>)
    ensures forall i :: 0 <= i < |r| ==> r[i] in rows && r[i].userId == caller
    ensures forall i :: 0 <= i < |rows| && rows[i].userId == caller ==> rows[i] in r
    ensures |r| <= |rows|
    decreases |rows|
  {
    if rows == [] then []
    else (if rows[0].userId == caller then [rows[0]] else []) + Owned(rows[1..], caller)
  }

  /** The listing of GetX, `Where(x => x.UserId == caller)` then
      `Select(project)`: one transfer record per owned row. */
  function ListOwned<F(==), D(==,!new)>(rows: seq<Row<F>>, caller: int32, project: Row<F> -> D): (r: seq<D>)
    ensures |r| == |Owned(rows, caller)|
    ensures forall d :: d in r <==> exists b :: b in rows && b.userId == caller && d == project(b)
  {
    var owned := Owned(rows, caller);
    var r := seq(|owned|, i requires 0 <= i < |owned| => project(owned[i]));
    assert forall d :: d in r <==> exists b :: b in rows && b.userId == caller && d == project(b) by {
      forall d | d in r ensures exists b :: b in rows && b.userId == caller && d == project(b) {
        var i :| 0 <= i < |r| && r[i] == d;
        assert owned[i] in rows;
      }
      forall b | b in rows && b.userId == caller ensures project(b) in r {
        var i :| 0 <= i < |owned| && owned[i] == b;
        assert r[i] == project(b);
      }
    }
    r
  }

  /** No listed record is another user's: when the projection keeps the
      key and the table's keys are unique, the row behind every listed id
      belongs to the caller and projects to the listed record. */
  lemma ListOwnedIsolated<F, D(!new)>(rows: seq<Row<F>>, caller: int32, project: Row<F> -> D, idOf: D -> Option<int32>)
    requires UniqueKeys(rows)
    requires forall b :: idOf(project(b)) == Some(b.id)
    ensures forall d, j :: d in ListOwned(rows, caller, project) && 0 <= j < |rows| && idOf(d) == Some(rows[j].id)
                           ==> rows[j].userId == caller && d == project(rows[j])
  {
    forall d, j | d in ListOwned(rows, caller, project) && 0 <= j < |rows| && idOf(d) == Some(rows[j].id)
      ensures rows[j].userId == caller && d == project(rows[j])
    {
      var b :| b in rows && b.userId == caller && d == project(b);
      var i :| 0 <= i < |rows| && rows[i] == b;
      assert i == j;
    }
  }

  /** `FirstOrDefault(b => b.Id == id && b.UserId == caller)`, as a
      position in the table. */
  function FindOwned<F>(rows: seq<Row<F>>, id: int32, caller: int32): (k: Option<nat>)
    ensures k.Some? ==> k.value < |rows| && IsMatch(rows[k.value], id, caller)
    ensures k.Some? ==> forall j :: 0 <= j < k.value ==> !IsMatch(rows[j], id, caller)
    ensures k.None? <==> forall j :: 0 <= j < |rows| ==> !IsMatch(rows[j], id, caller)
    decreases |rows|
  {
    if rows == [] then None
    else if IsMatch(rows[0], id, caller) then Some(0)
    else
      match FindOwned(rows[1..], id, caller)
      case None => None
      case Some(k) => Some(k + 1)
  }

  /** The row after an update by `caller` of the row keyed `id`: only the
      editable fields of that one row change. */
  function Edited<F>(row: Row<F>, id: int32, caller: int32, fields: F): Row<F>
  {
    if IsMatch(row, id, caller) then row.(fields := fields) else row
  }

  /** Filtering distributes over concatenation. */
  lemma {:induction false} OwnedConcat<F>(a: seq<Row<F>>, b: seq<Row<F>>, caller: int32)
    ensures Owned(a + b, caller) == Owned(a, caller) + Owned(b, caller)
    decreases |a|
  {
    if a != [] {
      assert (a + b)[0] == a[0];
      assert (a + b)[1..] == a[1..] + b;
      OwnedConcat(a[1..], b, caller);
    } else {
      assert a + b == b;
    }
  }

  /** Rows that all belong to `caller` show nothing to another user. */
  lemma {:induction false} OwnedByOthers<F>(rows: seq<Row<F>>, caller: int32, other: int32)
    requires other != caller
    requires forall x :: x in rows ==> x.userId == caller
    ensures Owned(rows, other) == []
    decreases |rows|
  {
    if rows != [] {
      OwnedByOthers(rows[1..], caller, other);
    }
  }

  /** Changing, adding or removing one row that `caller` owns leaves every
      other user's rows as they were. */
  lemma OwnedSplice<F>(pre: seq<Row<F>>, mid: seq<Row<F>>, mid': seq<Row<F>>, post: seq<Row<F>>, caller: int32, other: int32)
    requires other != caller
    requires forall x :: x in mid ==> x.userId == caller
    requires forall x :: x in mid' ==> x.userId == caller
    ensures Owned(pre + mid' + post, other) == Owned(pre + mid + post, other)
  {
    OwnedConcat(pre + mid, post, other);
    OwnedConcat(pre, mid, other);
    OwnedConcat(pre + mid', post, other);
    OwnedConcat(pre, mid', other);
    OwnedByOthers(mid, caller, other);
    OwnedByOthers(mid', caller, other);
  }

  /** Replacing the caller's row at position i by another row of the
      caller leaves every other user's rows as they were. */
  lemma OwnedReplace<F>(rows: seq<Row<F>>, i: nat, row: Row<F>, caller: int32)
    requires i < |rows| && rows[i].userId == caller && row.userId == caller
    ensures forall u :: u != caller ==> Owned(rows[i := row], u) == Owned(rows, u)
  {
    assert rows == rows[..i] + [rows[i]] + rows[i + 1..];
    assert rows[i := row] == rows[..i] + [row] + rows[i + 1..];
    forall u | u != caller ensures Owned(rows[i := row], u) == Owned(rows, u) {
      OwnedSplice(rows[..i], [rows[i]], [row], rows[i + 1..], caller, u);
    }
  }

  /** Removing the caller's row at position i leaves every other user's
      rows as they were. */
  lemma OwnedRemove<F>(rows: seq<Row<F>>, i: nat, caller: int32)
    requires i < |rows| && rows[i].userId == caller
    ensures forall u :: u != caller ==> Owned(rows[..i] + rows[i + 1..], u) == Owned(rows, u)
  {
    assert rows == rows[..i] + [rows[i]] + rows[i + 1..];
    assert rows[..i] + rows[i + 1..] == rows[..i] + [] + rows[i + 1..];
    forall u | u != caller ensures Owned(rows[..i] + rows[i + 1..], u) == Owned(rows, u) {
      OwnedSplice(rows[..i], [rows[i]], [], rows[i + 1..], caller, u);
    }
  }

  /** Under unique keys, removing the matching row at position i removes
      exactly the rows that match. */
  lemma RemoveMatching<F>(rows: seq<Row<F>>, i: nat, id: int32, caller: int32)
    requires UniqueKeys(rows) && i < |rows| && IsMatch(rows[i], id, caller)
    ensures forall x :: x in rows[..i] + rows[i + 1..] <==> x in rows && !IsMatch(x, id, caller)
  {
    var rest := rows[..i] + rows[i + 1..];
    forall x ensures x in rest <==> x in rows && !IsMatch(x, id, caller) {
      if x in rest {
        var j :| 0 <= j < |rest| && rest[j] == x;
        if j < i {
          assert x == rows[j];
        } else {
          assert x == rows[j + 1];
        }
      }
      if x in rows && !IsMatch(x, id, caller) {
        var j :| 0 <= j < |rows| && rows[j] == x;
        if j < i {
          assert rest[j] == x;
        } else {
          assert rest[j - 1] == x;
        }
      }
    }
  }

  class Table<F(==)> {
    var rows: seq<Row<F>>
    /** The last key handed out. */
    var lastId: int

    ghost predicate Valid()
      reads this
    {
      0 <= lastId <= MaxInt32 && KeysUpTo(rows, lastId) && UniqueKeys(rows)
    }

    constructor ()
      ensures Valid() && rows == [] && lastId == 0
    {
      rows := [];
      lastId := 0;
    }

    /** `Add` then `SaveChanges`: the new row gets the next key, and fails
        once the 32-bit key space is used up. */
    method Insert(fields: F, owner: int32) returns (id: Option<int32>)
      requires Valid()
      modifies this
      ensures Valid()
      ensures old(lastId) < MaxInt32 ==> id == Some(old(lastId) + 1) && lastId == old(lastId) + 1
                                          && rows == old(rows) + [Row(old(lastId) + 1, fields, owner)]
      ensures old(lastId) == MaxInt32 ==> id == None && lastId == old(lastId) && rows == old(rows)
      ensures id.Some? ==> forall j :: 0 <= j < |old(rows)| ==> old(rows)[j].id != id.value
      ensures forall u :: u != owner ==> Owned(rows, u) == Owned(old(rows), u)
    {
      if lastId == MaxInt32 {
        return None;
      }
      var row := Row(lastId + 1, fields, owner);
      forall u | u != owner ensures Owned(rows + [row], u) == Owned(rows, u) {
        assert rows + [row] == rows + [row] + [];
        assert rows == rows + [] + [];
        OwnedSplice(rows, [], [row], [], owner, u);
      }
      rows := rows + [row];
      lastId := lastId + 1;
      id := Some(lastId);
    }

    /** Lookup by key and owner, then field assignment and `SaveChanges`. */
    method UpdateOwned(id: int32, caller: int32, fields: F) returns (found: bool)
      requires Valid()
      modifies this
      ensures Valid() && lastId == old(lastId)
      ensures found <==> Owns(old(rows), id, caller)
      ensures !found ==> rows == old(rows)
      ensures |rows| == |old(rows)|
      ensures forall j :: 0 <= j < |rows| ==> rows[j] == Edited(old(rows)[j], id, caller, fields)
      ensures forall j :: 0 <= j < |rows| ==> rows[j].id == old(rows)[j].id && rows[j].userId == old(rows)[j].userId
      ensures forall u :: u != caller ==> Owned(rows, u) == Owned(old(rows), u)
    {
      var k := FindOwned(rows, id, caller);
      if k.None? {
        return false;
      }
      var i := k.value;
      var row := rows[i].(fields := fields);
      OwnedReplace(rows, i, row, caller);
      rows := rows[i := row];
      found := true;
    }

    /** Lookup by key and owner, then `Remove` and `SaveChanges`. */
    method RemoveOwned(id: int32, caller: int32) returns (found: bool)
      requires Valid()
      modifies this
      ensures Valid() && lastId == old(lastId)
      ensures found <==> Owns(old(rows), id, caller)
      ensures !found ==> rows == old(rows)
      ensures found ==> exists k :: 0 <= k < |old(rows)| && IsMatch(old(rows)[k], id, caller)
                                    && rows == old(rows)[..k] + old(rows)[k + 1..]
      ensures forall x :: x in rows <==> x in old(rows) && !IsMatch(x, id, caller)
      ensures forall u :: u != caller ==> Owned(rows, u) == Owned(old(rows), u)
    {
      var k := FindOwned(rows, id, caller);
      if k.None? {
        return false;
      }
      var i := k.value;
      var rest := rows[..i] + rows[i + 1..];
      OwnedRemove(rows, i, caller);
      RemoveMatching(rows, i, id, caller);
      rows := rest;
      found := true;
    }
  }
}
