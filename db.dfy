/** The document store every handler talks to, reduced to what the handlers use:
    a table of rows with ids, insert, patch, delete, get by id, and index
    lookups that either take the first match (`.first()`) or all matches
    (`.collect()`), both in table order. A new row gets an id larger than every
    id handed out before, and rows are kept in insertion order, so ascending
    order of an index scan is ascending id order. */
module Db {

  datatype Option<T> = None | Some(value: T)

  /** A handler's outcome: a value, or the message of the error it throws. */
  datatype Result<T> = Ok(value: T) | Err(message: string)

  datatype Row<T> = Row(id: nat, doc: T)

  /** Row ids strictly increase along the table and stay below the next free id. */
  ghost predicate WellFormed<T>(rows: seq<Row<T>>, nextId: nat) {
    (forall i :: 0 <= i < |rows| ==> rows[i].id < nextId) &&
    (forall i, j :: 0 <= i < j < |rows| ==> rows[i].id < rows[j].id)
  }

  /** `db.get(id)`. */
  function Lookup<T>(rows: seq<Row<T>>, id: nat): (r: Option<T>)
    ensures r.None? <==> forall i :: 0 <= i < |rows| ==> rows[i].id != id
    ensures r.Some? ==> exists i :: 0 <= i < |rows| && rows[i] == Row(id, r.value)
  {
    if rows == [] then None
    else if rows[0].id == id then Some(rows[0].doc)
    else
      var r := Lookup(rows[1..], id);
      assert forall i :: 1 <= i < |rows| ==> rows[i] == rows[1..][i - 1];
      r
  }

  /** In a well-formed table the row a lookup finds is the only row with that id. */
  lemma LookupUnique<T>(rows: seq<Row<T>>, nextId: nat, k: nat)
    requires WellFormed(rows, nextId) && k < |rows|
    ensures Lookup(rows, rows[k].id) == Some(rows[k].doc)
  {
    var r := Lookup(rows, rows[k].id);
    var i :| 0 <= i < |rows| && rows[i] == Row(rows[k].id, r.value);
    assert i == k;
  }

  /** `db.patch(id, …)`: the row with that id gets the new document. */
  function Replaced<T>(rows: seq<Row<T>>, id: nat, doc: T): (r: seq<Row<T>>)
    ensures |r| == |rows|
    ensures forall i :: 0 <= i < |rows| ==> r[i] == if rows[i].id == id then Row(id, doc) else rows[i]
  {
    seq(|rows|, i requires 0 <= i < |rows| => if rows[i].id == id then Row(id, doc) else rows[i])
  }

  /** Patching an id that only the first part holds leaves the second part alone. */
  lemma {:induction false} ReplacedAppend<T>(a: seq<Row<T>>, b: seq<Row<T>>, id: nat, doc: T)
    requires forall i :: 0 <= i < |b| ==> b[i].id != id
    ensures Replaced(a + b, id, doc) == Replaced(a, id, doc) + b
  {
    var l := Replaced(a + b, id, doc);
    var r := Replaced(a, id, doc) + b;
    forall i | 0 <= i < |l| ensures l[i] == r[i] {
      if i >= |a| {
        assert (a + b)[i] == b[i - |a|];
      }
    }
  }

  /** `db.delete(id)`: the rows other than the one with that id, in order. */
  function Without<T(!new)>(rows: seq<Row<T>>, id: nat): (r: seq<Row<T>>)
    ensures |r| <= |rows|
  {
    if rows == [] then []
    else if rows[0].id == id then Without(rows[1..], id)
    else [rows[0]] + Without(rows[1..], id)
  }

  lemma {:induction false} WithoutMembers<T(!new)>(rows: seq<Row<T>>, id: nat)
    ensures forall x :: x in Without(rows, id) <==> x in rows && x.id != id
  {
    if rows != [] {
      WithoutMembers(rows[1..], id);
      assert rows == [rows[0]] + rows[1..];
    }
  }

  lemma {:induction false} WithoutAppend<T(!new)>(a: seq<Row<T>>, b: seq<Row<T>>, id: nat)
    ensures Without(a + b, id) == Without(a, id) + Without(b, id)
  {
    if a == [] {
      assert a + b == b;
    } else {
      assert (a + b)[1..] == a[1..] + b;
      WithoutAppend(a[1..], b, id);
    }
  }

  lemma {:induction false} WithoutAbsent<T(!new)>(rows: seq<Row<T>>, id: nat)
    requires forall i :: 0 <= i < |rows| ==> rows[i].id != id
    ensures Without(rows, id) == rows
  {
    if rows != [] {
      WithoutAbsent(rows[1..], id);
      assert rows == [rows[0]] + rows[1..];
    }
  }

  /** Deleting a row that is present removes exactly that row. */
  lemma {:induction false} WithoutAt<T(!new)>(rows: seq<Row<T>>, nextId: nat, k: nat)
    requires WellFormed(rows, nextId) && k < |rows|
    ensures Without(rows, rows[k].id) == rows[..k] + rows[k + 1..]
  {
    var id := rows[k].id;
    if k == 0 {
      assert forall i :: 0 <= i < |rows[1..]| ==> rows[1..][i].id != id by {
        forall i | 0 <= i < |rows[1..]| ensures rows[1..][i].id != id {
          assert rows[1..][i] == rows[i + 1];
        }
      }
      WithoutAbsent(rows[1..], id);
    } else {
      TailWellFormed(rows, nextId);
      WithoutAt(rows[1..], nextId, k - 1);
      assert rows[1..][k - 1].id == id;
      assert rows[..k] == [rows[0]] + rows[1..][..k - 1];
      assert rows[k + 1..] == rows[1..][k..];
    }
  }

  lemma TailWellFormed<T>(rows: seq<Row<T>>, nextId: nat)
    requires WellFormed(rows, nextId) && rows != []
    ensures WellFormed(rows[1..], nextId)
  {
    var t := rows[1..];
    forall i, j | 0 <= i < j < |t| ensures t[i].id < t[j].id {
      assert t[i] == rows[i + 1] && t[j] == rows[j + 1];
    }
  }

  /** Putting a row with a smaller id in front keeps a table well formed. */
  lemma ConsWellFormed<T>(x: Row<T>, rest: seq<Row<T>>, nextId: nat)
    requires WellFormed(rest, nextId) && x.id < nextId
    requires forall j :: 0 <= j < |rest| ==> x.id < rest[j].id
    ensures WellFormed([x] + rest, nextId)
  {
    var r := [x] + rest;
    forall i, j | 0 <= i < j < |r| ensures r[i].id < r[j].id {
      assert r[j] == rest[j - 1];
      if i > 0 { assert r[i] == rest[i - 1]; }
    }
  }

  lemma {:induction false} WithoutWellFormed<T(!new)>(rows: seq<Row<T>>, nextId: nat, id: nat)
    requires WellFormed(rows, nextId)
    ensures WellFormed(Without(rows, id), nextId)
  {
    if rows != [] {
      WithoutWellFormed(rows[1..], nextId, id);
      WithoutMembers(rows[1..], id);
      var rest := Without(rows[1..], id);
      forall j | 0 <= j < |rest| ensures rows[0].id < rest[j].id {
        assert rest[j] in rows[1..];
        var m :| 0 <= m < |rows[1..]| && rows[1..][m] == rest[j];
        assert rows[m + 1] == rest[j];
      }
      if rows[0].id != id { ConsWellFormed(rows[0], rest, nextId); }
    }
  }

  /** `.first()` on an index scan: the first row, in table order, whose
      document satisfies the index condition. */
  function FirstWhere<T(==)>(rows: seq<Row<T>>, p: T -> bool): (r: Option<Row<T>>)
    ensures r.None? <==> forall i :: 0 <= i < |rows| ==> !p(rows[i].doc)
    ensures r.Some? ==> exists i :: 0 <= i < |rows| && rows[i] == r.value && p(r.value.doc) &&
                                  forall k :: 0 <= k < i ==> !p(rows[k].doc)
  {
    if rows == [] then None
    else if p(rows[0].doc) then Some(rows[0])
    else
      var r := FirstWhere(rows[1..], p);
      assert forall i :: 1 <= i < |rows| ==> rows[i] == rows[1..][i - 1];
      if r.Some? then
        var i :| 0 <= i < |rows[1..]| && rows[1..][i] == r.value && p(r.value.doc) &&
                 forall k :: 0 <= k < i ==> !p(rows[1..][k].doc);
        assert rows[i + 1] == r.value;
        r
      else r
  }

  /** The row `.first()` finds can be fetched by its id. */
  lemma FirstWhereFound<T>(rows: seq<Row<T>>, p: T -> bool)
    requires FirstWhere(rows, p).Some?
    ensures Lookup(rows, FirstWhere(rows, p).value.id).Some?
  {
    var i :| 0 <= i < |rows| && rows[i] == FirstWhere(rows, p).value;
    assert rows[i].id == FirstWhere(rows, p).value.id;
  }

  /** Appending a row changes the first match only when there was none. */
  lemma {:induction false} FirstWhereAppend<T>(rows: seq<Row<T>>, x: Row<T>, p: T -> bool)
    ensures FirstWhere(rows + [x], p) ==
            if FirstWhere(rows, p).Some? then FirstWhere(rows, p) else if p(x.doc) then Some(x) else None
  {
    if rows != [] {
      assert (rows + [x])[1..] == rows[1..] + [x];
      FirstWhereAppend(rows[1..], x, p);
    }
  }

  /** The first match is the row at the first index whose document matches. */
  lemma FirstWhereAt<T>(rows: seq<Row<T>>, p: T -> bool, i: nat)
    requires i < |rows| && p(rows[i].doc)
    requires forall k :: 0 <= k < i ==> !p(rows[k].doc)
    ensures FirstWhere(rows, p) == Some(rows[i])
  {
    var r := FirstWhere(rows, p);
    var j :| 0 <= j < |rows| && rows[j] == r.value && p(r.value.doc) && forall k :: 0 <= k < j ==> !p(rows[k].doc);
    assert j == i;
  }

  /** Patching the row at `k` of a well-formed table changes that row only. */
  lemma ReplacedAt<T>(rows: seq<Row<T>>, nextId: nat, k: nat, doc: T)
    requires WellFormed(rows, nextId) && k < |rows|
    ensures Replaced(rows, rows[k].id, doc)[k] == Row(rows[k].id, doc)
    ensures forall i :: 0 <= i < |rows| && i != k ==> Replaced(rows, rows[k].id, doc)[i] == rows[i]
  {
    forall i | 0 <= i < |rows| && i != k ensures rows[i].id != rows[k].id {
      ReplacedIds(rows, nextId, i, k);
    }
  }

  /** Patching a row without changing whether it matches leaves the first match
      where it was; if that was the patched row, it now carries the new document. */
  lemma FirstWhereReplaced<T>(rows: seq<Row<T>>, nextId: nat, k: nat, doc: T, p: T -> bool)
    requires WellFormed(rows, nextId) && k < |rows| && p(doc) == p(rows[k].doc)
    ensures FirstWhere(Replaced(rows, rows[k].id, doc), p) ==
            if FirstWhere(rows, p) == Some(rows[k]) then Some(Row(rows[k].id, doc)) else FirstWhere(rows, p)
  {
    var first := FirstWhere(rows, p);
    if first.None? {
      ReplacedNoMatch(rows, nextId, k, doc, p);
    } else {
      var i :| 0 <= i < |rows| && rows[i] == first.value && p(first.value.doc) && forall m :: 0 <= m < i ==> !p(rows[m].doc);
      ReplacedFirstMatch(rows, nextId, k, doc, p, i);
      if i != k {
        ReplacedIds(rows, nextId, i, k);
      }
    }
  }

  lemma ReplacedNoMatch<T>(rows: seq<Row<T>>, nextId: nat, k: nat, doc: T, p: T -> bool)
    requires WellFormed(rows, nextId) && k < |rows| && p(doc) == p(rows[k].doc)
    requires forall i :: 0 <= i < |rows| ==> !p(rows[i].doc)
    ensures FirstWhere(Replaced(rows, rows[k].id, doc), p).None?
  {
    var r := Replaced(rows, rows[k].id, doc);
    ReplacedAt(rows, nextId, k, doc);
    forall i | 0 <= i < |r| ensures !p(r[i].doc) {
      assert !p(rows[i].doc);
    }
  }

  lemma ReplacedFirstMatch<T>(rows: seq<Row<T>>, nextId: nat, k: nat, doc: T, p: T -> bool, i: nat)
    requires WellFormed(rows, nextId) && k < |rows| && p(doc) == p(rows[k].doc)
    requires i < |rows| && p(rows[i].doc) && forall m :: 0 <= m < i ==> !p(rows[m].doc)
    ensures FirstWhere(Replaced(rows, rows[k].id, doc), p) == Some(if i == k then Row(rows[k].id, doc) else rows[i])
  {
    var r := Replaced(rows, rows[k].id, doc);
    ReplacedAt(rows, nextId, k, doc);
    forall m | 0 <= m < i ensures !p(r[m].doc) {
      assert !p(rows[m].doc);
    }
    FirstWhereAt(r, p, i);
  }

  lemma ReplacedIds<T>(rows: seq<Row<T>>, nextId: nat, i: nat, k: nat)
    requires WellFormed(rows, nextId) && i < |rows| && k < |rows| && i != k
    ensures rows[i].id != rows[k].id
  {
    if i < k { assert rows[i].id < rows[k].id; } else { assert rows[k].id < rows[i].id; }
  }

  /** `.collect()` on an index scan: every row whose document satisfies the
      index condition, in table order. */
  function Where<T>(rows: seq<Row<T>>, p: T -> bool): (r: seq<Row<T>>)
    ensures |r| <= |rows|
  {
    if rows == [] then []
    else (if p(rows[0].doc) then [rows[0]] else []) + Where(rows[1..], p)
  }

  /** `Where` on a non-empty table: the head if it matches, then the rest. */
  lemma WhereCons<T>(rows: seq<Row<T>>, p: T -> bool)
    requires rows != []
    ensures Where(rows, p) == (if p(rows[0].doc) then [rows[0]] else []) + Where(rows[1..], p)
  {
  }

  lemma {:induction false} WhereMembers<T>(rows: seq<Row<T>>, p: T -> bool)
    ensures forall i :: 0 <= i < |Where(rows, p)| ==> Where(rows, p)[i] in rows && p(Where(rows, p)[i].doc)
    ensures forall k :: 0 <= k < |rows| && p(rows[k].doc) ==> rows[k] in Where(rows, p)
  {
    if rows != [] {
      var t := rows[1..];
      WhereMembers(t, p);
      var rest := Where(t, p);
      var w := Where(rows, p);
      var h: seq<Row<T>> := if p(rows[0].doc) then [rows[0]] else [];
      WhereCons(rows, p);
      forall i | 0 <= i < |w| ensures w[i] in rows && p(w[i].doc) {
        if i < |h| {
          assert w[i] == rows[0];
        } else {
          assert w[i] == rest[i - |h|];
          var m :| 0 <= m < |t| && t[m] == w[i];
          assert rows[m + 1] == w[i];
        }
      }
      forall k | 0 <= k < |rows| && p(rows[k].doc) ensures rows[k] in w {
        if k == 0 {
          assert w[0] == rows[0];
        } else {
          assert rows[k] == t[k - 1];
          var m :| 0 <= m < |rest| && rest[m] == rows[k];
          assert w[m + |h|] == rows[k];
        }
      }
    }
  }

  lemma {:induction false} WhereWellFormed<T>(rows: seq<Row<T>>, nextId: nat, p: T -> bool)
    requires WellFormed(rows, nextId)
    ensures WellFormed(Where(rows, p), nextId)
  {
    if rows != [] {
      WhereWellFormed(rows[1..], nextId, p);
      WhereMembers(rows[1..], p);
      var rest := Where(rows[1..], p);
      forall j | 0 <= j < |rest| ensures rows[0].id < rest[j].id {
        assert rest[j] in rows[1..];
        var m :| 0 <= m < |rows[1..]| && rows[1..][m] == rest[j];
        assert rows[m + 1] == rest[j];
      }
      if p(rows[0].doc) { ConsWellFormed(rows[0], rest, nextId); } else { assert Where(rows, p) == rest; }
    }
  }

  lemma {:induction false} WhereAppend<T>(a: seq<Row<T>>, b: seq<Row<T>>, p: T -> bool)
    ensures Where(a + b, p) == Where(a, p) + Where(b, p)
  {
    if a == [] {
      assert a + b == b;
    } else {
      var h: seq<Row<T>> := if p(a[0].doc) then [a[0]] else [];
      assert (a + b)[0] == a[0];
      assert (a + b)[1..] == a[1..] + b;
      WhereCons(a + b, p);
      WhereCons(a, p);
      WhereAppend(a[1..], b, p);
      assert h + (Where(a[1..], p) + Where(b, p)) == (h + Where(a[1..], p)) + Where(b, p);
    }
  }

  /** Appending a row adds it to the matches exactly when it matches. */
  lemma {:induction false} WhereSnoc<T>(rows: seq<Row<T>>, x: Row<T>, p: T -> bool)
    ensures Where(rows + [x], p) == Where(rows, p) + (if p(x.doc) then [x] else [])
  {
    WhereAppend(rows, [x], p);
    assert [x][1..] == [];
  }

  /** Number of rows whose document satisfies `p`. */
  function CountWhere<T>(rows: seq<Row<T>>, p: T -> bool): (n: nat)
    ensures n <= |rows|
    ensures n == 0 <==> forall i :: 0 <= i < |rows| ==> !p(rows[i].doc)
  {
    if rows == [] then 0
    else
      var rest := CountWhere(rows[1..], p);
      assert forall i :: 1 <= i < |rows| ==> rows[i] == rows[1..][i - 1];
      (if p(rows[0].doc) then 1 else 0) + rest
  }

  lemma {:induction false} CountAppend<T>(a: seq<Row<T>>, b: seq<Row<T>>, p: T -> bool)
    ensures CountWhere(a + b, p) == CountWhere(a, p) + CountWhere(b, p)
  {
    if a == [] {
      assert a + b == b;
    } else {
      assert (a + b)[1..] == a[1..] + b;
      CountAppend(a[1..], b, p);
    }
  }

  lemma SplitAt<T>(rows: seq<Row<T>>, k: nat)
    requires k < |rows|
    ensures rows == rows[..k] + [rows[k]] + rows[k + 1..]
  {
  }

  /** Deleting a row the condition rejects leaves the matching rows as they were. */
  lemma {:induction false} WhereWithoutAt<T(!new)>(rows: seq<Row<T>>, nextId: nat, k: nat, p: T -> bool)
    requires WellFormed(rows, nextId) && k < |rows| && !p(rows[k].doc)
    ensures Where(Without(rows, rows[k].id), p) == Where(rows, p)
  {
    var a, x, b := rows[..k], [rows[k]], rows[k + 1..];
    WithoutAt(rows, nextId, k);
    SplitAt(rows, k);
    WhereAppend(a + x, b, p);
    WhereAppend(a, x, p);
    WhereAppend(a, b, p);
    assert Where(x, p) == [] by { assert x[1..] == []; }
    calc {
      Where(rows, p);
      Where(a + x, p) + Where(b, p);
      Where(a, p) + Where(b, p);
      Where(a + b, p);
    }
  }

  /** Deleting a row lowers the number of matching rows by one exactly when
      the row matches. */
  lemma {:induction false} CountWithoutAt<T(!new)>(rows: seq<Row<T>>, nextId: nat, k: nat, p: T -> bool)
    requires WellFormed(rows, nextId) && k < |rows|
    ensures CountWhere(Without(rows, rows[k].id), p) == CountWhere(rows, p) - (if p(rows[k].doc) then 1 else 0)
  {
    WithoutAt(rows, nextId, k);
    SplitAt(rows, k);
    CountAppend(rows[..k] + [rows[k]], rows[k + 1..], p);
    CountAppend(rows[..k], [rows[k]], p);
    CountAppend(rows[..k], rows[k + 1..], p);
    assert CountWhere([rows[k]], p) == (if p(rows[k].doc) then 1 else 0) by { assert [rows[k]][1..] == []; }
  }

  /** Appending a row raises the number of matching rows by one exactly when
      the row matches. */
  lemma CountSnoc<T>(rows: seq<Row<T>>, x: Row<T>, p: T -> bool)
    ensures CountWhere(rows + [x], p) == CountWhere(rows, p) + (if p(x.doc) then 1 else 0)
  {
    CountAppend(rows, [x], p);
    assert [x][1..] == [];
  }

  /** One table of the store. */
  class Table<T(==,!new)> {
    var rows: seq<Row<T>>
    var nextId: nat

    ghost predicate Valid()
      reads this
    {
      WellFormed(rows, nextId)
    }

    constructor ()
      ensures Valid() && rows == [] && nextId == 0
    {
      rows := [];
      nextId := 0;
    }

    /** `db.insert(doc)`: appends a row under a fresh id and returns the id. */
    method Insert(doc: T) returns (id: nat)
      requires Valid()
      modifies this
      ensures Valid()
      ensures id == old(nextId) && nextId == id + 1
      ensures rows == old(rows) + [Row(id, doc)]
      ensures Lookup(old(rows), id).None?
    {
      id := nextId;
      rows := rows + [Row(id, doc)];
      nextId := nextId + 1;
    }

    /** `db.get(id)`. */
    method Get(id: nat) returns (r: Option<T>)
      ensures r == Lookup(rows, id)
    {
      r := Lookup(rows, id);
    }

    /** `db.patch(id, …)`, with the patched document already merged. */
    method Patch(id: nat, doc: T)
      requires Valid() && Lookup(rows, id).Some?
      modifies this
      ensures Valid() && nextId == old(nextId)
      ensures rows == Replaced(old(rows), id, doc)
    {
      rows := Replaced(rows, id, doc);
    }

    /** `db.delete(id)`. */
    method Delete(id: nat)
      requires Valid() && Lookup(rows, id).Some?
      modifies this
      ensures Valid() && nextId == old(nextId)
      ensures rows == Without(old(rows), id)
      ensures |rows| == |old(rows)| - 1
    {
      var k :| 0 <= k < |rows| && rows[k].id == id;
      WithoutAt(rows, nextId, k);
      WithoutWellFormed(rows, nextId, id);
      rows := Without(rows, id);
    }

    /** An index scan ending in `.first()`. */
    method First(p: T -> bool) returns (r: Option<Row<T>>)
      ensures r == FirstWhere(rows, p)
    {
      r := FirstWhere(rows, p);
    }

    /** An index scan ending in `.collect()`. */
    method Collect(p: T -> bool) returns (r: seq<Row<T>>)
      ensures r == Where(rows, p)
    {
      r := Where(rows, p);
    }
  }
}
