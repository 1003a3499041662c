/** The patched copy of one sheet row that the partial merge writes back: the pairs
    (column, text) written into a copy of the row, and the span of columns they name
    (app/infrastructure/integration/sheets_export.py). */
module RowPatch {
  /** Every pair names a column from 1 to `width`. */
  predicate Within(cols: seq<(nat, string)>, width: int) {
    forall i :: 0 <= i < |cols| ==> 1 <= cols[i].0 <= width
  }

  /** `min(c for c, _ in cols)`. */
  function MinCol(cols: seq<(nat, string)>): (m: nat)
    requires cols != []
    ensures forall i :: 0 <= i < |cols| ==> m <= cols[i].0
    ensures exists i :: 0 <= i < |cols| && cols[i].0 == m
  {
    if |cols| == 1 then cols[0].0
    else
      var rest := MinCol(cols[1..]);
      assert forall i :: 1 <= i < |cols| ==> cols[i] == cols[1..][i - 1];
      if cols[0].0 <= rest then cols[0].0 else rest
  }

  /** `max(c for c, _ in cols)`. */
  function MaxCol(cols: seq<(nat, string)>): (m: nat)
    requires cols != []
    ensures forall i :: 0 <= i < |cols| ==> cols[i].0 <= m
    ensures exists i :: 0 <= i < |cols| && cols[i].0 == m
  {
    if |cols| == 1 then cols[0].0
    else
      var rest := MaxCol(cols[1..]);
      assert forall i :: 1 <= i < |cols| ==> cols[i] == cols[1..][i - 1];
      if cols[0].0 >= rest then cols[0].0 else rest
  }

  /** The span of the pairs lies within the columns they may name. */
  lemma SpanWithin(cols: seq<(nat, string)>, width: int)
    requires cols != [] && Within(cols, width)
    ensures 1 <= MinCol(cols) <= MaxCol(cols) <= width
  {
    var i :| 0 <= i < |cols| && cols[i].0 == MinCol(cols);
    var j :| 0 <= j < |cols| && cols[j].0 == MaxCol(cols);
  }

  /** `row_copy` after `row_copy[c-1] = v` for each pair of `cols` in turn. */
  function Overwrite(row: seq<string>, cols: seq<(nat, string)>): (r: seq<string>)
    requires Within(cols, |row|)
    ensures |r| == |row|
  {
    if cols == [] then row
    else
      var n := |cols| - 1;
      Overwrite(row, cols[..n])[cols[n].0 - 1 := cols[n].1]
  }

  /** A column no pair names keeps its cell. */
  lemma {:induction false} OverwriteUntouched(row: seq<string>, cols: seq<(nat, string)>, j: nat)
    requires Within(cols, |row|)
    requires j < |row| && forall i :: 0 <= i < |cols| ==> cols[i].0 != j + 1
    ensures Overwrite(row, cols)[j] == row[j]
  {
    if cols != [] {
      OverwriteUntouched(row, cols[..|cols| - 1], j);
    }
  }

  /** The last pair naming a column decides its cell. */
  lemma {:induction false} OverwriteLast(row: seq<string>, cols: seq<(nat, string)>, i: nat)
    requires Within(cols, |row|)
    requires i < |cols| && forall k :: i < k < |cols| ==> cols[k].0 != cols[i].0
    ensures Overwrite(row, cols)[cols[i].0 - 1] == cols[i].1
  {
    var n := |cols| - 1;
    if i < n {
      assert cols[..n][i] == cols[i];
      OverwriteLast(row, cols[..n], i);
    }
  }
}
