/** The two things the handlers ask of a database table, on a table held as a
    sequence of rows: the row a single-row `Scan` of a `SELECT ... WHERE`
    reads, and the table after an `UPDATE ... SET ... WHERE`. SQL leaves the
    order of a result set open; the model reads the first matching row in
    table order. */
module Rows {
  import opened Wrappers

  /** The first row satisfying `p`, by index; None when no row does (the
      `sql.ErrNoRows` a `Scan` reports). */
  function FindFirst<T>(rows: seq<T>, p: T -> bool): (r: Option<nat>)
    ensures r.Some? ==> r.value < |rows| && p(rows[r.value])
    ensures r.Some? ==> forall j :: 0 <= j < r.value ==> !p(rows[j])
    ensures r.None? <==> forall j :: 0 <= j < |rows| ==> !p(rows[j])
    decreases |rows|
  {
    if |rows| == 0 then None
    else if p(rows[0]) then Some(0)
    else
      var rest := FindFirst(rows[1..], p);
      if rest.None? then None else Some(rest.value + 1)
  }

  /** Every row satisfying `p` replaced by `assign` of it, all other rows kept,
      in place. */
  function UpdateWhere<T>(rows: seq<T>, p: T -> bool, assign: T -> T): (r: seq<T>)
    ensures |r| == |rows|
    ensures forall j :: 0 <= j < |rows| ==> r[j] == if p(rows[j]) then assign(rows[j]) else rows[j]
    decreases |rows|
  {
    if |rows| == 0 then []
    else [if p(rows[0]) then assign(rows[0]) else rows[0]] + UpdateWhere(rows[1..], p, assign)
  }
}
