/** What `push_partial` (app/infrastructure/integration/sheets_export.py) leaves in the
    sheet, cell by cell: the header as extended, every matched row with its pairs
    applied, every other row as read, the missing rows appended below. */
module SheetMerge {
  import opened Seqs
  import opened Dicts
  import opened Worksheets
  import opened RowPatch
  import opened BatchWriting
  import opened FullPush
  import opened HeaderIndex
  import opened Staging
  import opened RowUpdates
  import opened PartialPush

  // ---------------------------------------------------------------------------
  // The sheet after the setup writes

  /** Below the header, the padded rows show what the rows as read show: padding adds
      only empty cells. */
  lemma BodyCells(start: Grid, header: seq<string>, width: nat, r: int, c: int)
    requires start != [] && r != 1
    ensures Cell([header] + PadAll(start[1..], width), r, c) == Cell(start, r, c)
  {
    var data := [header] + PadAll(start[1..], width);
    if 2 <= r <= |start| {
      var row := start[r - 1];
      assert data[r - 1] == Pad(row, width);
      if 1 <= c <= |row| {
        assert Pad(row, width)[c - 1] == row[c - 1];
      } else if 1 <= c <= |Pad(row, width)| {
        assert Pad(row, width)[c - 1] == "";
      }
    }
  }

  /** The extended header written across row 1 of a sheet whose cell (`r`, `c`) shows
      what the rows `start` show: row 1 shows the header, other rows keep their cells. */
  lemma HeaderWriteCell(g: Grid, start: Grid, header: seq<string>, r: int, c: int)
    requires start != [] && |start[0]| <= |header| && Cell(g, r, c) == Cell(start, r, c)
    ensures Cell(Write(g, 0, 0, [header]), r, c) == if r == 1 then Cell([header], 1, c) else Cell(start, r, c)
  {
    WriteCell(g, 0, 0, [header], r, c);
  }

  /** The writes made when columns were added (the wider header across row 1, then the
      body rows padded to its width), cell by cell, on a sheet whose cell (`r`, `c`)
      shows what the rows `start` show. */
  lemma AddedColumnsCells(g: Grid, start: Grid, header: seq<string>, r: int, c: int)
    requires start != [] && |start[0]| <= |header| && Cell(g, r, c) == Cell(start, r, c)
    ensures var body := PadAll(start[1..], |header|);
      var ops := [Op.Update(Rows(1, 1), [header])] + (if body == [] then [] else [Op.Update(Rows(2, |body| + 1), body)]);
      Cell(Replay(g, ops), r, c) == Cell([header] + body, r, c)
  {
    var body := PadAll(start[1..], |header|);
    var data := [header] + body;
    var op1 := Op.Update(Rows(1, 1), [header]);
    var g1 := Write(g, 0, 0, [header]);
    if r != 1 {
      BodyCells(start, header, |header|, r, c);
    }
    ReplayOne(g, op1);
    HeaderWriteCell(g, start, header, r, c);
    if body != [] {
      var op2 := Op.Update(Rows(2, |body| + 1), body);
      var ops := [op1, op2];
      assert ops[..1] == [op1];
      assert Replay(g, ops) == Apply(g1, op2);
      WriteCell(g1, 1, 0, body, r, c);
      if 2 <= r <= |body| + 1 {
        assert data[r - 1] == body[r - 2];
      }
    }
  }

  /** The column-adding writes, cell by cell, on a sheet whose cell (`r`, `c`) shows
      what the rows `start` read from it show: the sheet shows the extended header over
      the body rows padded to its width. */
  lemma WidenCells(g: Grid, start: Grid, needed: seq<string>, r: int, c: int)
    requires start != [] && Cell(g, r, c) == Cell(start, r, c)
    ensures var header := ExtendedHeader(start[0], needed);
      Cell(Replay(g, WidenWrites(start, needed)), r, c) == Cell([header] + PadAll(start[1..], |header|), r, c)
  {
    var header := ExtendedHeader(start[0], needed);
    if |header| == |start[0]| {
      assert header == start[0];
      assert WidenWrites(start, needed) == [];
      if r != 1 {
        BodyCells(start, header, |header|, r, c);
      }
    } else {
      AddedColumnsCells(g, start, header, r, c);
    }
  }

  /** On a sheet that reads back empty, the synthesised header is all the sheet shows
      once it is written. */
  lemma EmptySheetStart(g: Grid, keyCols: seq<string>, writeCols: seq<string>, r: int, c: int)
    requires AllValues(g) == []
    ensures Cell(Replay(g, EmptySheetWrites(g, keyCols, writeCols)), r, c) == Cell(StartRows(g, keyCols, writeCols), r, c)
  {
    var h := Unseen(keyCols + writeCols, {});
    ReplayOne(g, Op.Update(Rows(1, 1), [h]));
    WriteCell(g, 0, 0, [h], r, c);
    AllValuesCells(g, r, c);
  }

  /** The setup writes of `push_partial` (the header of a sheet that reads back empty,
      then the added columns), cell by cell: every cell of the sheet equals the cell of
      the rows the merge works on, the extended header over the body rows as read. */
  lemma SetupCells(g0: Grid, keyCols: seq<string>, writeCols: seq<string>, r: int, c: int)
    ensures var start := StartRows(g0, keyCols, writeCols);
      var header := ExtendedHeader(start[0], keyCols + writeCols);
      Cell(Replay(g0, SetupWrites(g0, keyCols, writeCols)), r, c) == Cell([header] + PadAll(start[1..], |header|), r, c)
  {
    var start := StartRows(g0, keyCols, writeCols);
    var needed := keyCols + writeCols;
    var empty := EmptySheetWrites(g0, keyCols, writeCols);
    ReplayAppend(g0, empty, WidenWrites(start, needed));
    if AllValues(g0) == [] {
      EmptySheetStart(g0, keyCols, writeCols, r, c);
    } else {
      assert Replay(g0, []) == g0;
      AllValuesCells(g0, r, c);
    }
    WidenCells(Replay(g0, empty), start, needed, r, c);
  }

  // ---------------------------------------------------------------------------
  // The merged rows

  /** Cell (`r`, `c`) of the merged rows of a plan: a row with staged pairs shows its
      padded row as read with the pairs applied in order; every other row shows the
      row as read, padded to the header. */
  function MergedCell(p: Plan, r: int, c: int): string
    requires UpdatesFit(p.updates, 1, |p.data|, |p.header|)
  {
    if r in Keys(p.updates) then
      var e := p.updates[FirstIndex(Keys(p.updates), r)];
      assert EntryFits(e, 1, |p.data|, |p.header|);
      Cell([Overwrite(Pad(p.data[e.0 - 1], |p.header|), e.1)], 1, c)
    else Cell(p.data, r, c)
  }

  /** Cell (`r`, `c`) of the sheet once `push_partial` is done: the appended rows right
      under the sheet rows when they were written, the merged rows everywhere else. */
  function FinalCell(p: Plan, ok: bool, r: int, c: int): string
    requires UpdatesFit(p.updates, 1, |p.data|, |p.header|)
  {
    if ok && |p.data| < r <= |p.data| + |p.appends| then Cell([p.appends[r - |p.data| - 1]], 1, c)
    else MergedCell(p, r, c)
  }

  /** Every call `push_partial` makes on a sheet that held `g0`. */
  function PartialWrites(g0: Grid, dbRows: seq<DbRow>, keyCols: seq<string>, writeCols: seq<string>,
                         appendMissing: bool, ok: bool): seq<Op>
  {
    SetupWrites(g0, keyCols, writeCols) + MergeWrites(StartRows(g0, keyCols, writeCols), dbRows, keyCols, writeCols, appendMissing, ok)
  }

  /** A staged entry written over a grid whose row shows the row as read leaves the
      padded row with the entry's pairs applied. */
  lemma EntryRowCell(g: Grid, e: (nat, seq<(nat, string)>), data: Grid, width: nat, c: int)
    requires EntryFits(e, 1, |data|, width)
    requires forall j :: Cell(g, e.0, j) == Cell(data, e.0, j)
    ensures EntryCell(g, e, data, width, c) == Cell([Overwrite(Pad(data[e.0 - 1], width), e.1)], 1, c)
  {
    var row := data[e.0 - 1];
    var current := Pad(row, width);
    SpanWithin(e.1, width);
    if MinCol(e.1) <= c <= MaxCol(e.1) {
      EntryCellSpan(g, e, data, width, c);
    } else {
      forall j | 1 <= j <= |current| ensures current[j - 1] == Cell(g, e.0, j) {
        if j > |row| {
          assert current[j - 1] == "";
        }
      }
      EntryCellUnnamed(g, e, data, width, c);
      if 1 <= c <= |current| {
        OverwriteUntouched(current, e.1, c - 1);
      }
    }
  }

  /** The row updates of a plan, cell by cell, over a grid whose row `r` shows the
      plan's row: the sheet shows the merged rows of the plan. */
  lemma MergedRowAt(g: Grid, p: Plan, r: int, c: int)
    requires UpdatesFit(p.updates, 1, |p.data|, |p.header|) && NoDuplicates(Keys(p.updates))
    requires forall j :: Cell(g, r, j) == Cell(p.data, r, j)
    ensures Cell(Replay(g, RowWrites(p.updates, p.data, |p.header|)), r, c) == MergedCell(p, r, c)
  {
    if r in Keys(p.updates) {
      var i := FirstIndex(Keys(p.updates), r);
      forall j | 0 <= j < |p.updates| && j != i ensures p.updates[j].0 != p.updates[i].0 {
        assert Keys(p.updates)[j] == p.updates[j].0;
      }
      RowWritesEntry(g, p.updates, p.data, |p.header|, i, c);
      EntryRowCell(g, p.updates[i], p.data, |p.header|, c);
    } else {
      forall k | 0 <= k < |p.updates| ensures p.updates[k].0 != r {
        assert Keys(p.updates)[k] == p.updates[k].0;
      }
      RowWritesUntouched(g, p.updates, p.data, |p.header|, r, c);
    }
  }

  /** After the setup writes, a whole row of the sheet shows that row of the plan. */
  lemma SetupRow(g0: Grid, dbRows: seq<DbRow>, keyCols: seq<string>, writeCols: seq<string>,
                 appendMissing: bool, p: Plan, r: int)
    requires p == PartialPlan(StartRows(g0, keyCols, writeCols), dbRows, keyCols, writeCols, appendMissing)
    ensures forall j :: Cell(Replay(g0, SetupWrites(g0, keyCols, writeCols)), r, j) == Cell(p.data, r, j)
  {
    PlanShape(StartRows(g0, keyCols, writeCols), dbRows, keyCols, writeCols, appendMissing);
    forall j ensures Cell(Replay(g0, SetupWrites(g0, keyCols, writeCols)), r, j) == Cell(p.data, r, j) {
      SetupCells(g0, keyCols, writeCols, r, j);
    }
  }

  /** The setup writes and the row updates of `push_partial`, cell by cell: the sheet
      shows the merged rows of its plan. */
  lemma MergedRowsCells(g0: Grid, dbRows: seq<DbRow>, keyCols: seq<string>, writeCols: seq<string>,
                        appendMissing: bool, p: Plan, r: int, c: int)
    requires p == PartialPlan(StartRows(g0, keyCols, writeCols), dbRows, keyCols, writeCols, appendMissing)
    ensures Cell(Replay(Replay(g0, SetupWrites(g0, keyCols, writeCols)), RowWrites(p.updates, p.data, |p.header|)), r, c)
         == MergedCell(p, r, c)
  {
    SetupRow(g0, dbRows, keyCols, writeCols, appendMissing, p, r);
    MergedRowAt(Replay(g0, SetupWrites(g0, keyCols, writeCols)), p, r, c);
  }

  /** The appends written below the merged rows: the final cells. */
  lemma FinalFromStacked(g: Grid, p: Plan, r: int, c: int)
    requires UpdatesFit(p.updates, 1, |p.data|, |p.header|)
    requires Cell(g, r, c) == MergedCell(p, r, c)
    ensures Stacked(g, p.appends, |p.data| + 1, r, c) == FinalCell(p, true, r, c)
  {
    if |p.data| < r {
      forall k | 0 <= k < |p.updates| ensures Keys(p.updates)[k] != r {
        assert EntryFits(p.updates[k], 1, |p.data|, |p.header|);
      }
    }
  }

  /** All the writes of `push_partial`, cell by cell: the sheet shows the final cells of
      its plan. */
  lemma FinalCells(g0: Grid, dbRows: seq<DbRow>, keyCols: seq<string>, writeCols: seq<string>,
                   appendMissing: bool, ok: bool, p: Plan, r: int, c: int)
    requires p == PartialPlan(StartRows(g0, keyCols, writeCols), dbRows, keyCols, writeCols, appendMissing)
    ensures Cell(Replay(g0, PartialWrites(g0, dbRows, keyCols, writeCols, appendMissing, ok)), r, c)
         == FinalCell(p, ok, r, c)
  {
    var setup := SetupWrites(g0, keyCols, writeCols);
    var rows := RowWrites(p.updates, p.data, |p.header|);
    var chunks := Chunks(p.appends, BatchSize);
    var batches := if ok then BatchWrites(chunks, |p.data| + 1, |p.header|) else [];
    var g1 := Replay(g0, setup);
    ReplayAppend(g0, setup, rows + batches);
    ReplayAppend(g1, rows, batches);
    var g2 := Replay(g1, rows);
    MergedRowsCells(g0, dbRows, keyCols, writeCols, appendMissing, p, r, c);
    if ok {
      BatchWritesCells(g2, chunks, |p.data| + 1, |p.header|, r, c);
      ChunksFlatten(p.appends, BatchSize);
      FinalFromStacked(g2, p, r, c);
    } else {
      assert Replay(g2, []) == g2;
    }
  }

  // ---------------------------------------------------------------------------
  // What each row of the sheet ends as

  /** Row 1 of the final cells is the header: no update is staged for it. */
  lemma FinalCellHeader(p: Plan, ok: bool, c: int)
    requires UpdatesFit(p.updates, 1, |p.data|, |p.header|) && p.data != [] && p.data[0] == p.header
    requires forall i :: 0 <= i < |p.updates| ==> p.updates[i].0 >= 2
    ensures FinalCell(p, ok, 1, c) == Cell([p.header], 1, c)
  {
    forall k | 0 <= k < |p.updates| ensures Keys(p.updates)[k] != 1 {
      assert p.updates[k].0 >= 2;
    }
  }

  /** Row 1 ends as the extended header. */
  lemma PushPartialHeader(g0: Grid, dbRows: seq<DbRow>, keyCols: seq<string>, writeCols: seq<string>,
                          appendMissing: bool, ok: bool, p: Plan, c: int)
    requires p == PartialPlan(StartRows(g0, keyCols, writeCols), dbRows, keyCols, writeCols, appendMissing)
    ensures Cell(Replay(g0, PartialWrites(g0, dbRows, keyCols, writeCols, appendMissing, ok)), 1, c)
         == Cell([p.header], 1, c)
  {
    FinalCells(g0, dbRows, keyCols, writeCols, appendMissing, ok, p, 1, c);
    PlanShape(StartRows(g0, keyCols, writeCols), dbRows, keyCols, writeCols, appendMissing);
    FinalCellHeader(p, ok, c);
  }

  /** A row no update is staged for, and that no appended row covers, has the final
      cells of the plan's row. */
  lemma FinalCellUntouched(p: Plan, ok: bool, r: int, c: int)
    requires UpdatesFit(p.updates, 1, |p.data|, |p.header|)
    requires forall i :: 0 <= i < |p.updates| ==> p.updates[i].0 != r
    requires !(ok && |p.data| < r <= |p.data| + |p.appends|)
    ensures FinalCell(p, ok, r, c) == Cell(p.data, r, c)
  {
    forall k | 0 <= k < |p.updates| ensures Keys(p.updates)[k] != r {
    }
  }

  /** A row below the header that no query row matched, and that no appended row
      covers, ends as it was read. */
  lemma PushPartialUntouched(g0: Grid, dbRows: seq<DbRow>, keyCols: seq<string>, writeCols: seq<string>,
                             appendMissing: bool, ok: bool, p: Plan, r: int, c: int)
    requires p == PartialPlan(StartRows(g0, keyCols, writeCols), dbRows, keyCols, writeCols, appendMissing)
    requires r >= 2 && forall i :: 0 <= i < |p.updates| ==> p.updates[i].0 != r
    requires !(ok && |p.data| < r <= |p.data| + |p.appends|)
    ensures Cell(Replay(g0, PartialWrites(g0, dbRows, keyCols, writeCols, appendMissing, ok)), r, c) == Cell(g0, r, c)
  {
    var start := StartRows(g0, keyCols, writeCols);
    FinalCells(g0, dbRows, keyCols, writeCols, appendMissing, ok, p, r, c);
    FinalCellUntouched(p, ok, r, c);
    PlanShape(start, dbRows, keyCols, writeCols, appendMissing);
    BodyCells(start, p.header, |p.header|, r, c);
    AllValuesCells(g0, r, c);
  }

  /** The entry of a staged row is the one `MergedCell` applies: keys are distinct. */
  lemma StagedEntry(p: Plan, i: nat)
    requires UpdatesFit(p.updates, 1, |p.data|, |p.header|) && NoDuplicates(Keys(p.updates))
    requires i < |p.updates|
    ensures p.updates[i].0 in Keys(p.updates) && FirstIndex(Keys(p.updates), p.updates[i].0) == i
  {
    assert Keys(p.updates)[i] == p.updates[i].0;
  }

  /** In a staged row, a column none of its pairs names has the final cell of the
      plan's row. */
  lemma FinalCellUnnamed(p: Plan, ok: bool, i: nat, c: int)
    requires UpdatesFit(p.updates, 1, |p.data|, |p.header|) && NoDuplicates(Keys(p.updates))
    requires i < |p.updates| && forall k :: 0 <= k < |p.updates[i].1| ==> p.updates[i].1[k].0 != c
    ensures FinalCell(p, ok, p.updates[i].0, c) == Cell(p.data, p.updates[i].0, c)
  {
    var e := p.updates[i];
    var row := p.data[e.0 - 1];
    var current := Pad(row, |p.header|);
    StagedEntry(p, i);
    assert EntryFits(e, 1, |p.data|, |p.header|);
    if 1 <= c <= |current| {
      OverwriteUntouched(current, e.1, c - 1);
      if c > |row| {
        assert current[c - 1] == "";
      }
    }
  }

  /** In a matched row, a column none of its pairs names ends as it was read: `""` for
      a column the merge added or beyond the end of the row. */
  lemma PushPartialUnnamed(g0: Grid, dbRows: seq<DbRow>, keyCols: seq<string>, writeCols: seq<string>,
                           appendMissing: bool, ok: bool, p: Plan, i: nat, c: int)
    requires p == PartialPlan(StartRows(g0, keyCols, writeCols), dbRows, keyCols, writeCols, appendMissing)
    requires i < |p.updates| && forall k :: 0 <= k < |p.updates[i].1| ==> p.updates[i].1[k].0 != c
    ensures Cell(Replay(g0, PartialWrites(g0, dbRows, keyCols, writeCols, appendMissing, ok)), p.updates[i].0, c)
         == Cell(g0, p.updates[i].0, c)
  {
    var start := StartRows(g0, keyCols, writeCols);
    FinalCells(g0, dbRows, keyCols, writeCols, appendMissing, ok, p, p.updates[i].0, c);
    FinalCellUnnamed(p, ok, i, c);
    PlanShape(start, dbRows, keyCols, writeCols, appendMissing);
    BodyCells(start, p.header, |p.header|, p.updates[i].0, c);
    AllValuesCells(g0, p.updates[i].0, c);
  }

  /** In a staged row, a column its pairs name has the text of the last pair naming it
      as its final cell. */
  lemma FinalCellLastWins(p: Plan, ok: bool, i: nat, k: nat)
    requires UpdatesFit(p.updates, 1, |p.data|, |p.header|) && NoDuplicates(Keys(p.updates))
    requires i < |p.updates| && k < |p.updates[i].1|
    requires forall m :: k < m < |p.updates[i].1| ==> p.updates[i].1[m].0 != p.updates[i].1[k].0
    ensures FinalCell(p, ok, p.updates[i].0, p.updates[i].1[k].0) == p.updates[i].1[k].1
  {
    var e := p.updates[i];
    var current := Pad(p.data[e.0 - 1], |p.header|);
    StagedEntry(p, i);
    assert EntryFits(e, 1, |p.data|, |p.header|);
    OverwriteLast(current, e.1, k);
  }

  /** In a matched row, a column its pairs name ends with the text of the last pair
      naming it. */
  lemma PushPartialLastWins(g0: Grid, dbRows: seq<DbRow>, keyCols: seq<string>, writeCols: seq<string>,
                            appendMissing: bool, ok: bool, p: Plan, i: nat, k: nat)
    requires p == PartialPlan(StartRows(g0, keyCols, writeCols), dbRows, keyCols, writeCols, appendMissing)
    requires i < |p.updates| && k < |p.updates[i].1|
    requires forall m :: k < m < |p.updates[i].1| ==> p.updates[i].1[m].0 != p.updates[i].1[k].0
    ensures Cell(Replay(g0, PartialWrites(g0, dbRows, keyCols, writeCols, appendMissing, ok)), p.updates[i].0, p.updates[i].1[k].0)
         == p.updates[i].1[k].1
  {
    FinalCells(g0, dbRows, keyCols, writeCols, appendMissing, ok, p, p.updates[i].0, p.updates[i].1[k].0);
    FinalCellLastWins(p, ok, i, k);
  }

  /** When the appends were written, the final cells right under the sheet rows are
      the appended rows, in order. */
  lemma FinalCellAppended(p: Plan, ok: bool, r: int, c: int)
    requires UpdatesFit(p.updates, 1, |p.data|, |p.header|)
    requires ok && |p.data| < r <= |p.data| + |p.appends|
    ensures FinalCell(p, ok, r, c) == Cell([p.appends[r - |p.data| - 1]], 1, c)
  {
  }

  /** When the appends were written, the rows right under the sheet rows end as the
      appended rows, in order. */
  lemma PushPartialAppended(g0: Grid, dbRows: seq<DbRow>, keyCols: seq<string>, writeCols: seq<string>,
                            appendMissing: bool, ok: bool, p: Plan, r: int, c: int)
    requires p == PartialPlan(StartRows(g0, keyCols, writeCols), dbRows, keyCols, writeCols, appendMissing)
    requires ok && |p.data| < r <= |p.data| + |p.appends|
    ensures Cell(Replay(g0, PartialWrites(g0, dbRows, keyCols, writeCols, appendMissing, ok)), r, c)
         == Cell([p.appends[r - |p.data| - 1]], 1, c)
  {
    FinalCells(g0, dbRows, keyCols, writeCols, appendMissing, ok, p, r, c);
    FinalCellAppended(p, ok, r, c);
  }

  // ---------------------------------------------------------------------------
  // `push_partial`


  /** The sheet replayed from `initial` through `log` and then the writes of
      `push_partial` shows the final cells of its plan. */
  lemma FinalGrid(initial: Grid, log: seq<Op>, g0: Grid, dbRows: seq<DbRow>, keyCols: seq<string>, writeCols: seq<string>,
                  appendMissing: bool, ok: bool, p: Plan, g: Grid)
    requires g0 == Replay(initial, log)
    requires p == PartialPlan(StartRows(g0, keyCols, writeCols), dbRows, keyCols, writeCols, appendMissing)
    requires g == Replay(initial, log + PartialWrites(g0, dbRows, keyCols, writeCols, appendMissing, ok))
    ensures forall r, c :: Cell(g, r, c) == FinalCell(p, ok, r, c)
  {
    ReplayAppend(initial, log, PartialWrites(g0, dbRows, keyCols, writeCols, appendMissing, ok));
    forall r, c ensures Cell(g, r, c) == FinalCell(p, ok, r, c) {
      FinalCells(g0, dbRows, keyCols, writeCols, appendMissing, ok, p, r, c);
    }
  }

  /** `push_partial(..., key_cols, write_cols, append_missing)` once the query has
      returned `dbRows`. `ok` is false where `rowcol_to_a1` raises: rows to append under
      an empty header; the writes made before that stay made. */
  method PushPartial(ws: Worksheet, dbRows: seq<DbRow>, keyCols: seq<string>, writeCols: seq<string>,
                     appendMissing: bool) returns (ok: bool)
    requires ws.Valid()
    modifies ws
    ensures ws.Valid() && ws.initial == old(ws.initial)
    ensures var p := PartialPlan(StartRows(old(ws.grid), keyCols, writeCols), dbRows, keyCols, writeCols, appendMissing);
      && (ok <==> p.appends == [] || |p.header| > 0)
      && ws.log == old(ws.log) + PartialWrites(old(ws.grid), dbRows, keyCols, writeCols, appendMissing, ok)
      && forall r, c :: Cell(ws.grid, r, c) == FinalCell(p, ok, r, c)
  {
    ghost var g0, log0 := ws.grid, ws.log;
    var start, header, hmap := PrepareSheet(ws, keyCols, writeCols);
    ghost var setup := SetupWrites(g0, keyCols, writeCols);
    ok := MergeRows(ws, start, header, hmap, dbRows, keyCols, writeCols, appendMissing);
    ghost var merge := MergeWrites(start, dbRows, keyCols, writeCols, appendMissing, ok);
    ConcatAssoc(log0, setup, merge);
    assert PartialWrites(g0, dbRows, keyCols, writeCols, appendMissing, ok) == setup + merge;
    ghost var p := PartialPlan(StartRows(g0, keyCols, writeCols), dbRows, keyCols, writeCols, appendMissing);
    FinalGrid(ws.initial, log0, g0, dbRows, keyCols, writeCols, appendMissing, ok, p, ws.grid);
  }
}
