/** A worksheet as the export sees it through the spreadsheet client: a grid of text
    cells, read whole (`get_all_values`), written block by block (`update`) or wiped
    (`clear`). Rows and columns are numbered from 1, as in A1 notation. */
module Worksheets {
  import opened Seqs

  type Grid = seq<seq<string>>

  /** A target range: whole rows `first:last`, or the cell block from
      (`top`, `left`) to (`bottom`, `right`). */
  datatype Range =
    | Rows(first: int, last: int)
    | Block(top: int, left: int, bottom: int, right: int)
  {
    function Top(): int { if Rows? then first else top }
    function Left(): int { if Rows? then 1 else left }
  }

  /** One call on the worksheet. */
  datatype Op = Update(range: Range, values: Grid) | Clear

  /** The values fit the range: rows that exist, at most as many value rows as the
      range is high and, for a block, at most as many values per row as it is wide.
      The spreadsheet service rejects anything else. */
  predicate Fits(range: Range, values: Grid) {
    match range
    case Rows(first, last) => 1 <= first <= last && |values| <= last - first + 1
    case Block(top, left, bottom, right) =>
      && 1 <= top <= bottom && 1 <= left <= right
      && |values| <= bottom - top + 1
      && forall i :: 0 <= i < |values| ==> |values[i]| <= right - left + 1
  }

  /** The text in row `r`, column `c`; a cell beyond the stored values is empty. */
  function Cell(g: Grid, r: int, c: int): string {
    if 1 <= r <= |g| && 1 <= c <= |g[r - 1]| then g[r - 1][c - 1] else ""
  }

  /** Two grids show the same text in every cell. */
  ghost predicate SameCells(g: Grid, h: Grid) {
    forall r, c :: Cell(g, r, c) == Cell(h, r, c)
  }

  function Max(a: int, b: int): int { if a < b then b else a }

  /** Cell `j` (0-based) of `row` once `vals` is written from position `left0` on. */
  function OverlayCell(row: seq<string>, left0: nat, vals: seq<string>, j: nat): string {
    if left0 <= j < left0 + |vals| then vals[j - left0] else if j < |row| then row[j] else ""
  }

  /** `row` with `vals` written from position `left0` on (0-based), padding the gap
      with empty cells. */
  function Overlay(row: seq<string>, left0: nat, vals: seq<string>): (r: seq<string>)
    ensures |r| == Max(|row|, left0 + |vals|)
    ensures forall j :: 0 <= j < |r| ==> r[j] == OverlayCell(row, left0, vals, j)
  {
    seq(Max(|row|, left0 + |vals|), j requires 0 <= j => OverlayCell(row, left0, vals, j))
  }

  /** Row `i` (0-based) of the grid once `values` is written with its first cell at
      (`top0`, `left0`). */
  function WrittenRow(g: Grid, top0: nat, left0: nat, values: Grid, i: nat): seq<string> {
    var row := if i < |g| then g[i] else [];
    if top0 <= i < top0 + |values| then Overlay(row, left0, values[i - top0]) else row
  }

  /** The grid after writing `values` with its first cell at (`top0`, `left0`) (0-based). */
  function Write(g: Grid, top0: nat, left0: nat, values: Grid): (h: Grid)
    ensures |h| == Max(|g|, top0 + |values|)
  {
    seq(Max(|g|, top0 + |values|), i requires 0 <= i => WrittenRow(g, top0, left0, values, i))
  }

  /** A write changes exactly the cells it covers: each takes its value, every other
      cell keeps its text. */
  lemma WriteCell(g: Grid, top0: nat, left0: nat, values: Grid, r: int, c: int)
    ensures Cell(Write(g, top0, left0, values), r, c) ==
      if top0 < r <= top0 + |values| && left0 < c <= left0 + |values[r - 1 - top0]|
      then values[r - 1 - top0][c - 1 - left0]
      else Cell(g, r, c)
  {
    var h := Write(g, top0, left0, values);
    if 1 <= r <= |h| {
      var row := if r - 1 < |g| then g[r - 1] else [];
      assert h[r - 1] == WrittenRow(g, top0, left0, values, r - 1);
      assert Cell(g, r, c) == if 1 <= c <= |row| then row[c - 1] else "";
      if top0 < r <= top0 + |values| {
        var vals := values[r - 1 - top0];
        if 1 <= c <= |h[r - 1]| {
          assert h[r - 1][c - 1] == OverlayCell(row, left0, vals, c - 1);
        }
      }
    }
  }

  /** An update of the block from column `left` to `right` of row `r` with that span of
      `row`: those cells show the row's text, every other cell keeps its text. */
  lemma SpanCells(g: Grid, r: int, left: int, right: int, row: seq<string>, rr: int, c: int)
    requires r >= 1 && 1 <= left <= right <= |row|
    ensures Cell(Replay(g, [Op.Update(Block(r, left, r, right), [row[left - 1 .. right]])]), rr, c) ==
      if rr == r && left <= c <= right then row[c - 1] else Cell(g, rr, c)
  {
    var vals := row[left - 1 .. right];
    ReplayOne(g, Op.Update(Block(r, left, r, right), [vals]));
    WriteCell(g, r - 1, left - 1, [vals], rr, c);
    if rr == r && left <= c <= right {
      assert vals[c - left] == row[c - 1];
    }
  }

  /** The grid after one call. */
  function Apply(g: Grid, op: Op): Grid {
    match op
    case Clear => []
    case Update(range, values) =>
      if range.Top() >= 1 && range.Left() >= 1 then Write(g, range.Top() - 1, range.Left() - 1, values) else g
  }

  /** The grid after the calls of `ops` in order, starting from `g`. */
  function Replay(g: Grid, ops: seq<Op>): Grid {
    if ops == [] then g else Apply(Replay(g, ops[..|ops| - 1]), ops[|ops| - 1])
  }

  lemma {:induction false} ReplayAppend(g: Grid, ops: seq<Op>, more: seq<Op>)
    ensures Replay(g, ops + more) == Replay(Replay(g, ops), more)
  {
    if more == [] {
      assert ops + more == ops;
    } else {
      var n := |more| - 1;
      assert (ops + more)[..|ops + more| - 1] == ops + more[..n];
      assert (ops + more)[|ops + more| - 1] == more[n];
      ReplayAppend(g, ops, more[..n]);
    }
  }

  /** Replaying a single call from `g`. */
  lemma ReplayOne(g: Grid, op: Op)
    ensures Replay(g, [op]) == Apply(g, op)
  {
    assert [op][..0] == [];
  }

  // ---------------------------------------------------------------------------
  // Reading the sheet back

  /** `row` without its trailing empty cells: the spreadsheet service leaves them out
      of the values it returns. */
  function TrimRow(row: seq<string>): (t: seq<string>)
    ensures |t| <= |row| && t == row[..|t|]
    ensures t == [] || t[|t| - 1] != ""
    ensures forall j :: |t| <= j < |row| ==> row[j] == ""
  {
    if row == [] || row[|row| - 1] != "" then row else TrimRow(row[..|row| - 1])
  }

  /** Every row of the grid trimmed. */
  function TrimAll(g: Grid): (t: Grid)
    ensures |t| == |g| && forall i :: 0 <= i < |g| ==> t[i] == TrimRow(g[i])
  {
    seq(|g|, i requires 0 <= i < |g| => TrimRow(g[i]))
  }

  /** The grid without its trailing rows that hold no cells: the service leaves them
      out too. */
  function DropEmptyTail(g: Grid): (t: Grid)
    ensures |t| <= |g| && t == g[..|t|]
    ensures t == [] || t[|t| - 1] != []
    ensures forall i :: |t| <= i < |g| ==> g[i] == []
  {
    if g == [] || g[|g| - 1] != [] then g else DropEmptyTail(g[..|g| - 1])
  }

  /** The length of the widest row, 0 for no rows. */
  function MaxWidth(g: Grid): (w: nat)
    ensures forall i :: 0 <= i < |g| ==> |g[i]| <= w
    ensures g != [] ==> exists i :: 0 <= i < |g| && |g[i]| == w
  {
    if g == [] then 0
    else
      var m := MaxWidth(g[1..]);
      assert forall i :: 1 <= i < |g| ==> g[i] == g[1..][i - 1];
      if |g[0]| < m then m else |g[0]|
  }

  /** gspread's `fill_gaps`: every row padded with empty cells to the width of the
      widest row. */
  function FillGaps(g: Grid): (f: Grid)
    ensures |f| == |g|
    ensures forall i :: 0 <= i < |f| ==> |f[i]| == MaxWidth(g) && f[i][..|g[i]|] == g[i]
    ensures forall i, j :: 0 <= i < |f| && |g[i]| <= j < |f[i]| ==> f[i][j] == ""
  {
    var w := MaxWidth(g);
    seq(|g|, i requires 0 <= i < |g| => g[i] + seq(w - |g[i]|, _ => ""))
  }

  /** What `ws.get_all_values()` returns for a sheet holding `g`: the service's values
      (trailing empty cells and rows left out), padded by the client library into a
      rectangle. */
  function AllValues(g: Grid): (v: Grid)
    ensures |v| <= |g|
    ensures forall i :: 0 <= i < |v| ==> |v[i]| == |v[0]|
  {
    FillGaps(DropEmptyTail(TrimAll(g)))
  }

  /** Reading the sheet back shows every cell as the sheet holds it. */
  lemma AllValuesCells(g: Grid, r: int, c: int)
    ensures Cell(AllValues(g), r, c) == Cell(g, r, c)
  {
    var t := TrimAll(g);
    var d := DropEmptyTail(t);
    var f := FillGaps(d);
    if 1 <= r <= |g| {
      var row := g[r - 1];
      var tr := t[r - 1];
      if r <= |d| {
        assert d[r - 1] == tr;
        if 1 <= c <= |tr| {
          assert f[r - 1][..|tr|][c - 1] == f[r - 1][c - 1];
          assert tr[c - 1] == row[c - 1];
        } else if |tr| < c <= |row| {
          assert row[c - 1] == "";
        }
      } else {
        assert tr == [];
        if 1 <= c <= |row| {
          assert row[c - 1] == "";
        }
      }
    }
  }

  /** `get_all_values` returns no rows exactly when no cell of the sheet holds text. */
  lemma AllValuesEmpty(g: Grid)
    ensures AllValues(g) == [] <==> forall r, c :: Cell(g, r, c) == ""
  {
    var t := TrimAll(g);
    var d := DropEmptyTail(t);
    if AllValues(g) == [] {
      forall r, c ensures Cell(g, r, c) == "" {
        AllValuesCells(g, r, c);
      }
    } else {
      var r, c := TextCell(g);
    }
  }

  /** A sheet that reads back some rows holds text in some cell. */
  lemma TextCell(g: Grid) returns (r: int, c: int)
    requires AllValues(g) != []
    ensures Cell(g, r, c) != ""
  {
    var t := TrimAll(g);
    var d := DropEmptyTail(t);
    var i := |d| - 1;
    var row := g[i];
    assert d[i] == t[i] == TrimRow(row) != [];
    c := |TrimRow(row)|;
    r := i + 1;
    assert row[..c][c - 1] == row[c - 1];
  }

  /** A worksheet: its cells, and every call made on it so far. */
  class Worksheet {
    var grid: Grid
    var log: seq<Op>

    /** The invariant tying the cells to the calls: the cells are what the calls made
        of the cells the worksheet was opened with. */
    ghost var initial: Grid

    ghost predicate Valid()
      reads this
    {
      grid == Replay(initial, log)
    }

    constructor (cells: Grid)
      ensures Valid() && grid == cells && log == []
    {
      grid := cells;
      log := [];
      initial := cells;
    }

    /** `ws.get_all_values()`. */
    function Values(): Grid
      reads this
    {
      AllValues(grid)
    }

    /** `ws.update(range, values)`. */
    method Update(range: Range, values: Grid)
      requires Valid() && Fits(range, values)
      modifies this
      ensures Valid() && initial == old(initial)
      ensures log == old(log) + [Op.Update(range, values)]
      ensures grid == Write(old(grid), range.Top() - 1, range.Left() - 1, values)
    {
      log := log + [Op.Update(range, values)];
      grid := Write(grid, range.Top() - 1, range.Left() - 1, values);
      assert log[..|log| - 1] == old(log);
    }

    /** `ws.clear()`. */
    method Clear()
      requires Valid()
      modifies this
      ensures Valid() && initial == old(initial)
      ensures log == old(log) + [Op.Clear]
      ensures grid == []
    {
      log := log + [Op.Clear];
      grid := [];
      assert log[..|log| - 1] == old(log);
    }
  }
}
