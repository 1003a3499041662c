/** `push_full` (app/infrastructure/integration/sheets_export.py): query rows projected onto
    the sheet's columns and written whole. */
module FullPush {
  import opened Wrappers
  import opened Seqs
  import opened Dicts
  import opened Text
  import opened Worksheets
  import opened BatchWriting

  /** A result row of the export query: column name to text, `None` for SQL `NULL`. */
  type DbRow = map<string, Option<string>>

  // ---------------------------------------------------------------------------
  // `push_full`

  /** `row.get(col)` as the sheet shows it: a missing column or `NULL` is `""`. */
  function TextOf(d: DbRow, col: string): string {
    if col in d && d[col].Some? then d[col].value else ""
  }

  /** One query row laid out under the header. */
  function Projected(d: DbRow, header: seq<string>): seq<string> {
    seq(|header|, j requires 0 <= j < |header| => TextOf(d, header[j]))
  }

  /** The projection loop of `push_full`: every row as wide as the header, cell `j`
      holding the row's value for `header[j]`, or `""` when it is missing or `NULL`. */
  method Project(data: seq<DbRow>, header: seq<string>) returns (values: Grid)
    ensures |values| == |data|
    ensures forall i :: 0 <= i < |data| ==> |values[i]| == |header|
    ensures forall i, j :: 0 <= i < |data| && 0 <= j < |header| ==>
      values[i][j] == (if header[j] in data[i] && data[i][header[j]].Some? then data[i][header[j]].value else "")
  {
    values := [];
    for i := 0 to |data|
      invariant |values| == i
      invariant forall k :: 0 <= k < i ==> values[k] == Projected(data[k], header)
    {
      values := values + [Projected(data[i], header)];
    }
  }

  /** The query rows laid out under the header, one sheet row each. */
  function ProjectedRows(data: seq<DbRow>, header: seq<string>): Grid {
    seq(|data|, i requires 0 <= i < |data| => Projected(data[i], header))
  }

  /** `push_full(..., sheet_columns, clear_before_write)` once the query has run: an
      optional clear, then `write_rows_full` of the projected rows. `ok` is false where
      `rowcol_to_a1` raises (rows under an empty header), after the clear and the header
      write. With the sheet cleared first, the sheet ends up showing exactly the header
      over the projected rows. */
  method PushFull(ws: Worksheet, data: seq<DbRow>, sheetColumns: seq<string>, clearBeforeWrite: bool)
    returns (ok: bool)
    requires ws.Valid()
    modifies ws
    ensures ws.Valid() && ws.initial == old(ws.initial)
    ensures ok <==> data == [] || |sheetColumns| > 0
    ensures ws.log == old(ws.log) + (if clearBeforeWrite then [Op.Clear] else [])
                      + (if ok then FullWrites(sheetColumns, ProjectedRows(data, sheetColumns))
                         else [Op.Update(Rows(1, 1), [sheetColumns])])
    ensures ok && clearBeforeWrite ==> SameCells(ws.grid, [sheetColumns] + ProjectedRows(data, sheetColumns))
  {
    var header := sheetColumns;
    var values := Project(data, header);
    assert values == ProjectedRows(data, sheetColumns) by {
      forall i | 0 <= i < |data| ensures values[i] == ProjectedRows(data, sheetColumns)[i] {
        assert |values[i]| == |ProjectedRows(data, sheetColumns)[i]|;
      }
    }
    if clearBeforeWrite {
      ws.Clear();
    }
    ghost var mid := ws.log;
    ok := WriteRowsFull(ws, header, values);
    if ok && clearBeforeWrite {
      ReplayAppend(ws.initial, mid, FullWrites(header, values));
      forall r, c ensures Cell(ws.grid, r, c) == Cell([header] + values, r, c) {
        FullWritesCells([], header, values, r, c);
      }
    }
  }
}
