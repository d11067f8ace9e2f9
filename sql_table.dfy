/**
 * One SQLite table whose key column is `INTEGER PRIMARY KEY AUTOINCREMENT`,
 * held in memory: the rows by rowid, and the table's `sqlite_sequence`
 * entry (the largest rowid ever handed out, which DELETE never lowers).
 * `Rows` is `SELECT *` (a full scan, in rowid order), `Where` adds a
 * `WHERE` filter and `FirstWhere` is `fetchone()` on a filtered scan.
 */
module SqlTable {

  datatype Option<T> = None | Some(value: T)

  /** One result tuple: the rowid and the remaining columns. */
  datatype Row<T> = Row(id: int, value: T)

  datatype Table<T> = Table(rows: map<int, T>, lastId: nat)

  /** Every stored rowid is positive and at most the sequence counter. */
  ghost predicate Valid<T>(t: Table<T>) {
    forall id :: id in t.rows ==> 1 <= id <= t.lastId
  }

  ghost predicate Ascending<T>(rs: seq<Row<T>>) {
    forall i, j :: 0 <= i < j < |rs| ==> rs[i].id < rs[j].id
  }

  /**
   * The rowid AUTOINCREMENT hands out next: one past the largest rowid ever
   * used, so it is neither a live row nor a deleted one.
   */
  function NextId<T>(t: Table<T>): (id: int)
    requires Valid(t)
    ensures id > t.lastId && id !in t.rows
  {
    t.lastId + 1
  }

  /** INSERT with an AUTOINCREMENT key: the new row goes under `NextId`. */
  function Insert<T>(t: Table<T>, v: T): (r: (Table<T>, int))
    requires Valid(t)
    ensures Valid(r.0)
    ensures r.1 > t.lastId && r.1 !in t.rows
    ensures r.0.lastId == r.1
    ensures r.0.rows.Keys == t.rows.Keys + {r.1} && r.0.rows[r.1] == v
    ensures forall id :: id in t.rows ==> r.0.rows[id] == t.rows[id]
  {
    var id := NextId(t);
    (Table(t.rows[id := v], id), id)
  }

  /** The rows whose rowid lies in [lo, hi), in rowid order. */
  function RowsBetween<T>(rows: map<int, T>, lo: int, hi: int): seq<Row<T>>
    decreases hi - lo
  {
    if hi <= lo then []
    else (if lo in rows then [Row(lo, rows[lo])] else []) + RowsBetween(rows, lo + 1, hi)
  }

  lemma {:induction false} RowsBetweenSpec<T>(rows: map<int, T>, lo: int, hi: int)
    ensures forall r :: r in RowsBetween(rows, lo, hi) <==>
      lo <= r.id < hi && r.id in rows && rows[r.id] == r.value
    ensures forall k :: 0 <= k < |RowsBetween(rows, lo, hi)| ==> lo <= RowsBetween(rows, lo, hi)[k].id
    ensures Ascending(RowsBetween(rows, lo, hi))
    decreases hi - lo
  {
    if lo < hi {
      RowsBetweenSpec(rows, lo + 1, hi);
      var rest := RowsBetween(rows, lo + 1, hi);
      var s := RowsBetween(rows, lo, hi);
      if lo in rows {
        assert s == [Row(lo, rows[lo])] + rest;
        forall i, j | 0 <= i < j < |s| ensures s[i].id < s[j].id {
          assert s[j] == rest[j - 1];
          if i > 0 {
            assert s[i] == rest[i - 1] && rest[i - 1].id < rest[j - 1].id;
          }
        }
      } else {
        assert s == rest;
      }
    }
  }

  /** Two maps that agree on [lo, hi) list the same rows there. */
  lemma {:induction false} RowsBetweenAgree<T>(a: map<int, T>, b: map<int, T>, lo: int, hi: int)
    requires forall id :: lo <= id < hi ==> (id in a <==> id in b)
    requires forall id :: lo <= id < hi && id in a ==> a[id] == b[id]
    ensures RowsBetween(a, lo, hi) == RowsBetween(b, lo, hi)
    decreases hi - lo
  {
    if lo < hi {
      RowsBetweenAgree(a, b, lo + 1, hi);
    }
  }

  /** Extending the range by one rowid appends at most that row. */
  lemma {:induction false} RowsBetweenSnoc<T>(rows: map<int, T>, lo: int, hi: int)
    requires lo <= hi
    ensures RowsBetween(rows, lo, hi + 1) ==
      RowsBetween(rows, lo, hi) + (if hi in rows then [Row(hi, rows[hi])] else [])
    decreases hi - lo
  {
    if lo < hi {
      RowsBetweenSnoc(rows, lo + 1, hi);
    }
  }

  /** `SELECT *`: every row exactly once, in rowid order. */
  function Rows<T(!new)>(t: Table<T>): (rs: seq<Row<T>>)
    requires Valid(t)
    ensures forall r :: r in rs <==> r.id in t.rows && t.rows[r.id] == r.value
    ensures Ascending(rs)
  {
    RowsBetweenSpec(t.rows, 1, t.lastId + 1);
    RowsBetween(t.rows, 1, t.lastId + 1)
  }

  /** A scan after an INSERT returns the earlier scan with the new row at its end. */
  lemma InsertAppendsRow<T(!new)>(t: Table<T>, v: T)
    requires Valid(t)
    ensures Rows(Insert(t, v).0) == Rows(t) + [Row(Insert(t, v).1, v)]
  {
    var (t', id) := Insert(t, v);
    RowsBetweenAgree(t'.rows, t.rows, 1, id);
    RowsBetweenSnoc(t'.rows, 1, id);
  }

  /** `WHERE keep(row)`: the rows of `rs` that satisfy `keep`, in their order. */
  function Where<T(!new)>(rs: seq<Row<T>>, keep: T -> bool): (out: seq<Row<T>>)
    ensures forall r :: r in out <==> r in rs && keep(r.value)
    ensures Ascending(rs) ==> Ascending(out)
  {
    if rs == [] then []
    else (if keep(rs[0].value) then [rs[0]] else []) + Where(rs[1..], keep)
  }

  lemma {:induction false} WhereKeepsAll<T(!new)>(rs: seq<Row<T>>, keep: T -> bool)
    requires forall r :: r in rs ==> keep(r.value)
    ensures Where(rs, keep) == rs
  {
    if rs != [] {
      assert forall r :: r in rs[1..] ==> r in rs;
      WhereKeepsAll(rs[1..], keep);
      assert rs == [rs[0]] + rs[1..];
    }
  }

  /** `fetchone()` on a filtered scan: the first row satisfying `keep`, if any. */
  function FirstWhere<T(!new)>(rs: seq<Row<T>>, keep: T -> bool): (found: Option<Row<T>>)
    ensures found.Some? <==> exists r :: r in rs && keep(r.value)
    ensures found.Some? ==> found.value in rs && keep(found.value.value)
    ensures found.Some? ==> (exists k :: 0 <= k < |rs| && rs[k] == found.value &&
                                         forall j :: 0 <= j < k ==> !keep(rs[j].value))
  {
    if rs == [] then None
    else if keep(rs[0].value) then Some(rs[0])
    else FirstWhere(rs[1..], keep)
  }
}
