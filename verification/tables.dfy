/**
  A SQLite table with an `INTEGER PRIMARY KEY AUTOINCREMENT` id column, as
  the store uses it: rows kept in insertion order, each a fresh id drawn from
  a counter that never goes back (deletions leave gaps), plus the two query
  shapes the store needs, "every row where ..." and "the first row where ...".
*/
module Tables {
  import opened Wrappers

  datatype Row<P> = Row(id: int, data: P)

  /** `nextId` plays the part of the table's `sqlite_sequence` entry plus one. */
  datatype Table<P> = Table(rows: seq<Row<P>>, nextId: int)

  /** Ids ascend strictly in row order and stay below the counter; ids start at 1. */
  ghost predicate Valid<P>(t: Table<P>) {
    && 1 <= t.nextId
    && (forall i :: 0 <= i < |t.rows| ==> 1 <= t.rows[i].id < t.nextId)
    && (forall i, j :: 0 <= i < j < |t.rows| ==> t.rows[i].id < t.rows[j].id)
  }

  /** A freshly created table; also what `DROP TABLE` + `CREATE TABLE` leaves. */
  function Empty<P(==)>(): (t: Table<P>)
    ensures Valid(t) && |t.rows| == 0
  {
    Table([], 1)
  }

  predicate HasId<P(==)>(rows: seq<Row<P>>, id: int) {
    exists i :: 0 <= i < |rows| && rows[i].id == id
  }

  /** `db.insert`: appends one row under a fresh id and returns that id. */
  function Insert<P(==)>(t: Table<P>, data: P): (r: (Table<P>, int))
    ensures r.0.rows == t.rows + [Row(r.1, data)]
    ensures Valid(t) ==> Valid(r.0) && r.1 >= 1 && !HasId(t.rows, r.1)
  {
    (Table(t.rows + [Row(t.nextId, data)], t.nextId + 1), t.nextId)
  }

  /** `WHERE keep(row)`: the matching rows, in table order. */
  function Filter<P(==)>(rows: seq<Row<P>>, keep: Row<P> -> bool): (r: seq<Row<P>>)
    ensures |r| <= |rows|
    ensures forall i :: 0 <= i < |r| ==> r[i] in rows && keep(r[i])
  {
    if |rows| == 0 then []
    else (if keep(rows[0]) then [rows[0]] else []) + Filter(rows[1..], keep)
  }

  /** `cursor.moveToFirst()` on `WHERE found(row)`: the first matching row in table order. */
  function First<P(==)>(rows: seq<Row<P>>, found: Row<P> -> bool): (r: Option<Row<P>>)
    ensures r.None? <==> forall i :: 0 <= i < |rows| ==> !found(rows[i])
    ensures r.Some? ==> exists i :: (0 <= i < |rows| && rows[i] == r.value && found(r.value)
      && forall j :: 0 <= j < i ==> !found(rows[j]))
  {
    if |rows| == 0 then None
    else if found(rows[0]) then Some(rows[0])
    else
      var r := First(rows[1..], found);
      if r.Some? then
        var i :| (0 <= i < |rows[1..]| && rows[1..][i] == r.value && found(r.value)
          && forall j :: 0 <= j < i ==> !found(rows[1..][j]));
        assert rows[i + 1] == r.value;
        r
      else r
  }

  /** No matching row is lost: every row the condition keeps is selected. */
  lemma {:induction false} FilterKeeps<P>(rows: seq<Row<P>>, keep: Row<P> -> bool)
    ensures forall i :: 0 <= i < |rows| && keep(rows[i]) ==> rows[i] in Filter(rows, keep)
  {
    if |rows| > 0 {
      FilterKeeps(rows[1..], keep);
      forall i | 1 <= i < |rows| && keep(rows[i]) ensures rows[i] in Filter(rows, keep) {
        assert rows[1..][i - 1] == rows[i];
      }
    }
  }

  /** Every selected row is a row of the table: the `j`-th one sits at index `i`. */
  lemma {:induction false} FilterSource<P>(rows: seq<Row<P>>, keep: Row<P> -> bool, j: int) returns (i: int)
    requires 0 <= j < |Filter(rows, keep)|
    ensures 0 <= i < |rows| && rows[i] == Filter(rows, keep)[j] && keep(rows[i])
  {
    assert |rows| > 0;
    var rest := Filter(rows[1..], keep);
    if keep(rows[0]) && j == 0 {
      i := 0;
    } else {
      var t := FilterSource(rows[1..], keep, if keep(rows[0]) then j - 1 else j);
      i := t + 1;
    }
  }

  lemma {:induction false} FilterAppend<P>(a: seq<Row<P>>, b: seq<Row<P>>, keep: Row<P> -> bool)
    ensures Filter(a + b, keep) == Filter(a, keep) + Filter(b, keep)
  {
    if |a| > 0 {
      assert (a + b)[1..] == a[1..] + b;
      FilterAppend(a[1..], b, keep);
    } else {
      assert a + b == b;
    }
  }

  /** Filtering by a weaker condition first changes nothing. */
  lemma {:induction false} FilterFilter<P>(rows: seq<Row<P>>, f: Row<P> -> bool, g: Row<P> -> bool)
    requires forall x :: g(x) ==> f(x)
    ensures Filter(Filter(rows, f), g) == Filter(rows, g)
  {
    if |rows| > 0 {
      FilterFilter(rows[1..], f, g);
      FilterAppend(if f(rows[0]) then [rows[0]] else [], Filter(rows[1..], f), g);
    }
  }

  /** After filtering by `f`, nothing matches a condition disjoint from `f`. */
  lemma {:induction false} FilterDisjoint<P>(rows: seq<Row<P>>, f: Row<P> -> bool, g: Row<P> -> bool)
    requires forall x :: f(x) ==> !g(x)
    ensures Filter(Filter(rows, f), g) == []
  {
    if |rows| > 0 {
      FilterDisjoint(rows[1..], f, g);
      FilterAppend(if f(rows[0]) then [rows[0]] else [], Filter(rows[1..], f), g);
    }
  }

  /** A filter that keeps every row of the table is the identity. */
  lemma {:induction false} FilterAll<P>(rows: seq<Row<P>>, keep: Row<P> -> bool)
    requires forall i :: 0 <= i < |rows| ==> keep(rows[i])
    ensures Filter(rows, keep) == rows
  {
    if |rows| > 0 {
      FilterAll(rows[1..], keep);
      assert [rows[0]] + rows[1..] == rows;
    }
  }

  /** Some row is selected exactly when some row matches. */
  lemma FilterNonEmpty<P>(rows: seq<Row<P>>, keep: Row<P> -> bool)
    ensures |Filter(rows, keep)| > 0 <==> exists i :: 0 <= i < |rows| && keep(rows[i])
  {
    var r := Filter(rows, keep);
    if |r| > 0 {
      assert r[0] in r;
    }
  }

  /** Two conditions that agree on every row of the table select the same rows. */
  lemma {:induction false} FilterSame<P>(rows: seq<Row<P>>, f: Row<P> -> bool, g: Row<P> -> bool)
    requires forall i :: 0 <= i < |rows| ==> (f(rows[i]) <==> g(rows[i]))
    ensures Filter(rows, f) == Filter(rows, g)
  {
    if |rows| > 0 {
      FilterSame(rows[1..], f, g);
    }
  }

  /** A filter that matches no row of the table selects nothing. */
  lemma {:induction false} FilterNone<P>(rows: seq<Row<P>>, keep: Row<P> -> bool)
    requires forall i :: 0 <= i < |rows| ==> !keep(rows[i])
    ensures Filter(rows, keep) == []
  {
    if |rows| > 0 {
      FilterNone(rows[1..], keep);
    }
  }

  /** Splitting by a condition: the kept rows and the dropped rows add up to the table. */
  lemma {:induction false} FilterSplit<P>(rows: seq<Row<P>>, f: Row<P> -> bool, g: Row<P> -> bool)
    requires forall x :: f(x) <==> !g(x)
    ensures |Filter(rows, f)| + |Filter(rows, g)| == |rows|
  {
    if |rows| > 0 {
      FilterSplit(rows[1..], f, g);
    }
  }

  /** A row with an id below the counter and below every id of a valid table may go in front of it. */
  lemma ConsValid<P>(x: Row<P>, t: Table<P>)
    requires Valid(t) && 1 <= x.id < t.nextId
    requires forall j :: 0 <= j < |t.rows| ==> x.id < t.rows[j].id
    ensures Valid(Table([x] + t.rows, t.nextId))
  {
    var f := [x] + t.rows;
    forall i, j | 0 <= i < j < |f| ensures f[i].id < f[j].id {
      assert f[j] == t.rows[j - 1];
      if i > 0 { assert f[i] == t.rows[i - 1]; }
    }
  }

  /** A bound below every id of the table stays below every id a query selects. */
  lemma FilterAbove<P>(rows: seq<Row<P>>, keep: Row<P> -> bool, b: int)
    requires forall i :: 0 <= i < |rows| ==> b < rows[i].id
    ensures forall j :: 0 <= j < |Filter(rows, keep)| ==> b < Filter(rows, keep)[j].id
  {
    forall j | 0 <= j < |Filter(rows, keep)| ensures b < Filter(rows, keep)[j].id {
      var i := FilterSource(rows, keep, j);
    }
  }

  /** Dropping the first row of a valid table leaves a valid table. */
  lemma TailValid<P>(t: Table<P>)
    requires Valid(t) && |t.rows| > 0
    ensures Valid(Table(t.rows[1..], t.nextId))
  {
  }

  /** One step of the query: if what it keeps of the tail is valid, so is what it keeps of the table. */
  lemma FilterValidStep<P>(t: Table<P>, keep: Row<P> -> bool)
    requires Valid(t) && |t.rows| > 0
    requires Valid(Table(Filter(t.rows[1..], keep), t.nextId))
    ensures Valid(Table(Filter(t.rows, keep), t.nextId))
  {
    var ft := Filter(t.rows[1..], keep);
    FilterAbove(t.rows[1..], keep, t.rows[0].id);
    if keep(t.rows[0]) {
      ConsValid(t.rows[0], Table(ft, t.nextId));
    } else {
      assert Filter(t.rows, keep) == ft;
    }
  }

  /** Deleting rows keeps ids ascending and below the counter. */
  lemma {:induction false} FilterValid<P>(t: Table<P>, keep: Row<P> -> bool)
    requires Valid(t)
    ensures Valid(Table(Filter(t.rows, keep), t.nextId))
    decreases |t.rows|
  {
    if |t.rows| > 0 {
      TailValid(t);
      FilterValid(Table(t.rows[1..], t.nextId), keep);
      FilterValidStep(t, keep);
    }
  }

  /** Ids are keys: in a valid table at most one row carries a given id. */
  lemma UniqueIds<P>(t: Table<P>, i: int, j: int)
    requires Valid(t) && 0 <= i < |t.rows| && 0 <= j < |t.rows|
    requires t.rows[i].id == t.rows[j].id
    ensures i == j
  {
  }

  /** In a valid table, the rows with one id number zero or one. */
  lemma {:induction false} AtMostOneWithId<P>(t: Table<P>, id: int)
    requires Valid(t)
    ensures |Filter(t.rows, (r: Row<P>) => r.id == id)| <= 1
    decreases |t.rows|
  {
    var f := (r: Row<P>) => r.id == id;
    if |t.rows| > 0 {
      var tail := Table(t.rows[1..], t.nextId);
      AtMostOneWithId(tail, id);
      assert Filter(tail.rows, f) == Filter(tail.rows, (r: Row<P>) => r.id == id);
      assert Filter(t.rows, f) == (if f(t.rows[0]) then [t.rows[0]] else []) + Filter(tail.rows, f);
      if f(t.rows[0]) {
        FilterNone(tail.rows, f);
      }
    }
  }
}
