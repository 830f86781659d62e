/**
 * The patient table the dashboard loads once at start-up, reduced to the two
 * columns its logic reads, and pandas' boolean-mask selection on the
 * `current_status` column (`patients[patients["current_status"] == v]`).
 */
module Patients {

  datatype Option<+T> = None | Some(value: T)

  /**
   * One patient row. A cell left empty in the CSV file is read by pandas as a
   * missing value (NaN); it is `None` here.
   */
  datatype Record = Record(status: Option<string>, state: Option<string>)

  /** The loaded table, in file order. */
  type Table = seq<Record>

  const HOSPITALIZED: string := "Hospitalized"
  const RECOVERED: string := "Recovered"
  const DECEASED: string := "Deceased"

  /**
   * pandas' element-wise `==` between a cell of an object column and a
   * scalar: a missing cell equals nothing, and comparing with `None` is false
   * for every cell.
   */
  predicate CellEquals(cell: Option<string>, v: Option<string>)
  {
    cell.Some? && v.Some? && cell.value == v.value
  }

  /** Rows whose `current_status` cell equals `v`, kept in table order. */
  function Select(t: Table, v: Option<string>): (s: Table)
    ensures |s| <= |t|
  {
    if t == [] then []
    else
      var n := |t| - 1;
      assert t == t[..n] + [t[n]];
      Select(t[..n], v) + (if CellEquals(t[n].status, v) then [t[n]] else [])
  }

  /**
   * The selection holds every row whose status equals `v`, as often as the
   * table does, and no other row.
   */
  lemma {:induction false} SelectExact(t: Table, v: Option<string>)
    ensures forall r :: multiset(Select(t, v))[r] == if CellEquals(r.status, v) then multiset(t)[r] else 0
  {
    if t != [] {
      var n := |t| - 1;
      SelectExact(t[..n], v);
      assert t == t[..n] + [t[n]];
    }
  }

  /** Reference definition: the positions of the rows whose status equals `v`. */
  ghost function StatusRows(t: Table, v: Option<string>): set<int>
  {
    set i | 0 <= i < |t| && CellEquals(t[i].status, v)
  }

  /** The selection holds exactly as many rows as the table has matching positions. */
  lemma {:induction false} SelectSize(t: Table, v: Option<string>)
    ensures |Select(t, v)| == |StatusRows(t, v)|
  {
    if t != [] {
      var n := |t| - 1;
      var init := t[..n];
      SelectSize(init, v);
      var extra := if CellEquals(t[n].status, v) then {n} else {};
      assert Select(t, v) == Select(init, v) + (if CellEquals(t[n].status, v) then [t[n]] else []);
      forall i ensures i in StatusRows(t, v) <==> i in StatusRows(init, v) + extra {
        if 0 <= i < n {
          assert t[i] == init[i];
        }
      }
      assert StatusRows(t, v) == StatusRows(init, v) + extra;
      assert n !in StatusRows(init, v);
    }
  }

  /** Selection keeps table order: it distributes over concatenation. */
  lemma {:induction false} SelectAppend(a: Table, b: Table, v: Option<string>)
    ensures Select(a + b, v) == Select(a, v) + Select(b, v)
  {
    if b != [] {
      var n := |b| - 1;
      var ab := a + b;
      assert ab[..|ab| - 1] == a + b[..n];
      assert ab[|ab| - 1] == b[n];
      SelectAppend(a, b[..n], v);
      assert Select(ab, v) == Select(a + b[..n], v) + (if CellEquals(b[n].status, v) then [b[n]] else []);
      assert Select(b, v) == Select(b[..n], v) + (if CellEquals(b[n].status, v) then [b[n]] else []);
    } else {
      assert a + b == a;
    }
  }
}
