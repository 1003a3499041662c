/** `push_partial` as a whole (app/infrastructure/integration/sheets_export.py): the sheet
    prepared, the rows merged, the missing rows appended. */
module PartialPush {
  import opened Wrappers
  import opened Seqs
  import opened Dicts
  import opened Text
  import opened Worksheets
  import opened RowPatch
  import opened BatchWriting
  import opened FullPush
  import opened HeaderIndex
  import opened Staging
  import opened RowUpdates

  // ---------------------------------------------------------------------------
  // The header and the index

  /** The column-adding loop of `push_partial`, keeping `hmap` in step with the header. */
  method ExtendHeader(header: seq<string>, needed: seq<string>)
    returns (extended: seq<string>, hmap: map<string, nat>, added: bool)
    ensures extended == ExtendedHeader(header, needed)
    ensures hmap == HeaderMap(extended)
    ensures added <==> |extended| > |header|
  {
    extended := header;
    hmap := HeaderMap(header);
    added := false;
    for i := 0 to |needed|
      invariant extended == ExtendedHeader(header, needed[..i])
      invariant |extended| >= |header|
      invariant hmap == HeaderMap(extended)
      invariant added <==> |extended| > |header|
    {
      var col := needed[i];
      assert needed[..i + 1][..i] == needed[..i];
      assert col in hmap <==> col in extended by {
        HeaderMapFacts(extended);
      }
      if col !in hmap {
        assert HeaderMap(extended + [col]) == hmap[col := |extended|] by {
          assert (extended + [col])[..|extended|] == extended;
        }
        extended := extended + [col];
        hmap := hmap[col := |extended| - 1];
        added := true;
      }
    }
    assert needed[..|needed|] == needed;
  }

  /** The index loop of `push_partial`: rows narrower than the header are padded in
      place, and every body row's key is mapped to its row number. */
  method IndexRows(data: Grid, hmap: map<string, nat>, keyCols: seq<string>, width: nat)
    returns (padded: Grid, index: map<seq<string>, nat>)
    requires data != []
    ensures padded == [data[0]] + PadAll(data[1..], width)
    ensures index == SheetIndex(PadAll(data[1..], width), hmap, keyCols)
  {
    padded := data;
    index := map[];
    for i := 2 to |data| + 1
      invariant PaddedTo(padded, data, width, i - 1)
      invariant index == SheetIndex(PadAll(data[1..i - 1], width), hmap, keyCols)
    {
      ghost var before := padded;
      var row := data[i - 1];
      if |row| < width {
        row := row + Blanks(width - |row|);
        padded := padded[i - 1 := row];
      }
      PadStep(before, padded, data, width, i);
      IndexStep(data, i, width, hmap, keyCols);
      index := index[KeyTuple(row, hmap, keyCols) := i];
    }
    assert data[1..|data|] == data[1..];
    PaddedShape(padded, data, width);
  }

  // ---------------------------------------------------------------------------
  // The staging loop

  /** `new_row[header_map[c]] = text of c` for each column `c` of `cols` in turn. */
  method FillColumns(a: array<string>, cols: seq<string>, hmap: map<string, nat>, d: DbRow)
    requires forall c :: c in cols ==> c in hmap && hmap[c] < a.Length
    modifies a
    ensures a[..] == Fill(old(a[..]), cols, hmap, d)
  {
    ghost var row := a[..];
    assert cols[..0] == [];
    for j := 0 to |cols|
      invariant a[..] == Fill(row, cols[..j], hmap, d)
    {
      var col := cols[j];
      assert cols[..j + 1] == cols[..j] + [col];
      FillSnoc(row, cols[..j], col, hmap, d);
      a[hmap[col]] := TextOf(d, col);
    }
    assert cols[..|cols|] == cols;
  }

  /** `new_row` of the staging loop, built in place: blank, then the key columns, then
      the write columns. */
  method BuildNewRow(d: DbRow, width: nat, hmap: map<string, nat>, keyCols: seq<string>, writeCols: seq<string>)
    returns (row: seq<string>)
    requires forall c :: c in keyCols + writeCols ==> c in hmap && hmap[c] < width
    ensures row == NewRow(d, width, hmap, keyCols, writeCols)
  {
    var a := new string[width](_ => "");
    assert a[..] == Blanks(width);
    assert forall c :: c in keyCols ==> c in keyCols + writeCols;
    assert forall c :: c in writeCols ==> c in keyCols + writeCols;
    FillColumns(a, keyCols, hmap, d);
    FillColumns(a, writeCols, hmap, d);
    FillAppend(Blanks(width), keyCols, writeCols, hmap, d);
    row := a[..];
  }

  /** `updates[r].append((header_map[c] + 1, text of c))` for each write column `c`. */
  method PushCells(updates: Updates, r: nat, d: DbRow, hmap: map<string, nat>, writeCols: seq<string>)
    returns (u: Updates)
    requires forall c :: c in writeCols ==> c in hmap
    ensures u == Extend(updates, r, WriteCells(d, hmap, writeCols))
  {
    ghost var cells := WriteCells(d, hmap, writeCols);
    u := updates;
    assert cells[..0] == [];
    for j := 0 to |writeCols|
      invariant u == Extend(updates, r, cells[..j])
    {
      var col := writeCols[j];
      var c := hmap[col] + 1;
      var val := TextOf(d, col);
      WriteCellsStep(updates, r, d, hmap, writeCols, j);
      u := Push(u, r, (c, val));
    }
    assert cells[..|writeCols|] == cells;
  }

  /** The staging loop of `push_partial`. */
  method StageRows(dbRows: seq<DbRow>, index: map<seq<string>, nat>, hmap: map<string, nat>, width: nat,
                   keyCols: seq<string>, writeCols: seq<string>, appendMissing: bool)
    returns (updates: Updates, appends: Grid)
    requires forall c :: c in keyCols + writeCols ==> c in hmap && hmap[c] < width
    ensures updates == StagedUpdates(dbRows, index, hmap, keyCols, writeCols)
    ensures appends == StagedAppends(dbRows, index, hmap, width, keyCols, writeCols, appendMissing)
  {
    assert forall c :: c in writeCols ==> c in keyCols + writeCols;
    updates := [];
    appends := [];
    for i := 0 to |dbRows|
      invariant updates == StagedUpdates(dbRows[..i], index, hmap, keyCols, writeCols)
      invariant appends == StagedAppends(dbRows[..i], index, hmap, width, keyCols, writeCols, appendMissing)
    {
      StagedStep(dbRows, i, index, hmap, width, keyCols, writeCols, appendMissing);
      var d := dbRows[i];
      var key := DbKey(d, keyCols);
      if key in index {
        updates := PushCells(updates, index[key], d, hmap, writeCols);
      } else if appendMissing {
        var newRow := BuildNewRow(d, width, hmap, keyCols, writeCols);
        appends := appends + [newRow];
      }
    }
    assert dbRows[..|dbRows|] == dbRows;
  }

  // ---------------------------------------------------------------------------
  // The update loop

  /** `row_copy = current[:]` followed by the loop writing each pair into it. */
  method ApplyPairs(current: seq<string>, cols: seq<(nat, string)>) returns (row: seq<string>)
    requires Within(cols, |current|)
    ensures row == Overwrite(current, cols)
  {
    var rowCopy := new string[|current|](j requires 0 <= j < |current| => current[j]);
    assert rowCopy[..] == Overwrite(current, cols[..0]);
    for k := 0 to |cols|
      invariant rowCopy[..] == Overwrite(current, cols[..k])
    {
      var (c, v) := cols[k];
      assert cols[..k + 1][..k] == cols[..k];
      rowCopy[c - 1] := v;
    }
    assert cols[..|cols|] == cols;
    row := rowCopy[..];
  }

  /** One turn of the update loop: the span of columns written, the padded current
      row with the pairs applied, and one range update for the span. */
  method WriteStagedRow(ws: Worksheet, data: Grid, width: nat, e: (nat, seq<(nat, string)>))
    requires ws.Valid() && EntryFits(e, 1, |data|, width)
    modifies ws
    ensures ws.Valid() && ws.initial == old(ws.initial)
    ensures ws.log == old(ws.log) + [StagedOp(e, data, width)]
  {
    var (r, cols) := e;
    var minC := MinCol(cols);
    var maxC := MaxCol(cols);
    var current := data[r - 1];
    if |current| < width {
      current := current + Blanks(width - |current|);
    }
    var rowCopy := ApplyPairs(current, cols);
    var values := [rowCopy[minC - 1 .. maxC]];
    assert StagedOp(e, data, width) == Op.Update(Block(r, minC, r, maxC), values) by {
      assert current == Pad(data[r - 1], width);
    }
    ws.Update(Block(r, minC, r, maxC), values);
  }

  /** The update loop of `push_partial`. */
  method ApplyUpdates(ws: Worksheet, data: Grid, width: nat, updates: Updates)
    requires ws.Valid() && UpdatesFit(updates, 1, |data|, width)
    modifies ws
    ensures ws.Valid() && ws.initial == old(ws.initial)
    ensures ws.log == old(ws.log) + RowWrites(updates, data, width)
  {
    ghost var ops := RowWrites(updates, data, width);
    for i := 0 to |updates|
      invariant ws.Valid() && ws.initial == old(ws.initial)
      invariant ws.log == old(ws.log) + ops[..i]
    {
      assert EntryFits(updates[i], 1, |data|, width);
      WriteStagedRow(ws, data, width, updates[i]);
      TakeSnoc(old(ws.log), ops, i);
    }
    assert ops[..|updates|] == ops;
  }

  // ---------------------------------------------------------------------------
  // Appending

  /** The append loop of `push_partial`: batches of 500 rows below the last row of
      `data`, as wide as the header. `ok` is false where `rowcol_to_a1` raises, a
      batch under an empty header ending in column 0; nothing is written then. */
  method AppendRows(ws: Worksheet, data: Grid, width: nat, appends: Grid) returns (ok: bool)
    requires ws.Valid() && appends != []
    requires forall i :: 0 <= i < |appends| ==> |appends[i]| <= width
    modifies ws
    ensures ws.Valid() && ws.initial == old(ws.initial)
    ensures ok <==> width > 0
    ensures ok ==> ws.log == old(ws.log) + BatchWrites(Chunks(appends, BatchSize), |data| + 1, width)
    ensures !ok ==> ws.log == old(ws.log)
  {
    var rows := data;
    var chunks := Chunks(appends, BatchSize);
    for i := 0 to |chunks|
      invariant ws.Valid() && ws.initial == old(ws.initial)
      invariant |rows| == |data| + |Flatten(chunks[..i])|
      invariant ws.log == old(ws.log) + BatchWrites(chunks[..i], |data| + 1, width)
      invariant width == 0 ==> i == 0
    {
      var chunk := chunks[i];
      var startRow := |rows| + 1;
      if width < 1 {
        assert chunks[..0] == [];
        return false;
      }
      WriteChunk(ws, appends, i, |data| + 1, startRow, width, old(ws.log));
      rows := rows + chunk;
    }
    assert chunks[..|chunks|] == chunks;
    ok := true;
  }

  /** The appended batches start on the row after the last row of `data`, batch `i`
      on row `len(data) + 1 + 500 i`, one after the other, all as wide as the header. */
  lemma AppendRanges(data: Grid, width: nat, appends: Grid, i: nat)
    requires i < |Chunks(appends, BatchSize)|
    ensures var chunks := Chunks(appends, BatchSize);
      var ops := BatchWrites(chunks, |data| + 1, width);
      && |ops| == |chunks|
      && ops[i] == Op.Update(Block(|data| + 1 + BatchSize * i, 1, |data| + BatchSize * i + |chunks[i]|, width), chunks[i])
      && (i + 1 < |chunks| ==> |chunks[i]| == BatchSize)
      && (i + 1 == |chunks| ==> |data| + BatchSize * i + |chunks[i]| == |data| + |appends|)
  {
    var chunks := Chunks(appends, BatchSize);
    BatchWritesRanges(chunks, |data| + 1, width, i);
    ChunksPrefix(appends, BatchSize, i);
    ChunksSizes(appends, BatchSize, i);
    if i + 1 == |chunks| {
      ChunksFlatten(appends, BatchSize);
      FlattenAppend(chunks[..i], chunks[i]);
      assert chunks[..i] + [chunks[i]] == chunks;
    }
  }

  // ---------------------------------------------------------------------------
  // `push_partial` as a whole

  /** The rows `push_partial` starts from on a sheet holding `g`: the rows
      `get_all_values` returns or, when it returns none, the header it writes there,
      the key and write columns without repeats. */
  function StartRows(g: Grid, keyCols: seq<string>, writeCols: seq<string>): (rows: Grid)
    ensures rows != []
    ensures AllValues(g) != [] ==> rows == AllValues(g)
    ensures AllValues(g) == [] ==> rows == [Unseen(keyCols + writeCols, {})]
  {
    var values := AllValues(g);
    if values == [] then [Unseen(keyCols + writeCols, {})] else values
  }

  /** What `push_partial` works out before writing the matched rows: the header after
      extension, the sheet rows padded to its width, the index of the body rows, the
      staged updates and the rows to append. */
  datatype Plan = Plan(header: seq<string>, data: Grid, index: map<seq<string>, nat>, updates: Updates, appends: Grid)

  function PartialPlan(start: Grid, dbRows: seq<DbRow>, keyCols: seq<string>, writeCols: seq<string>,
                       appendMissing: bool): (p: Plan)
    requires start != []
    ensures p.data != [] && p.data[0] == p.header
    ensures forall c :: c in keyCols + writeCols ==> c in HeaderMap(p.header) && HeaderMap(p.header)[c] < |p.header|
    ensures forall k :: k in p.index ==> 2 <= p.index[k] <= |p.data|
    ensures UpdatesFit(p.updates, 1, |p.data|, |p.header|)
    ensures NoDuplicates(Keys(p.updates)) && forall i :: 0 <= i < |p.updates| ==> p.updates[i].0 >= 2
    ensures forall i :: 0 <= i < |p.appends| ==> |p.appends[i]| == |p.header|
    ensures !appendMissing ==> p.appends == []
  {
    var header := ExtendedHeader(start[0], keyCols + writeCols);
    var hmap := HeaderMap(header);
    var width := |header|;
    var data := [header] + PadAll(start[1..], width);
    var index := SheetIndex(PadAll(start[1..], width), hmap, keyCols);
    ExtendedHeaderFacts(start[0], keyCols + writeCols);
    assert forall k :: k in index ==> 2 <= index[k] <= |data| by {
      forall k | k in index ensures 2 <= index[k] <= |data| {
        PositionsFacts(RowKeys(PadAll(start[1..], width), hmap, keyCols), k);
      }
    }
    var updates := StagedUpdates(dbRows, index, hmap, keyCols, writeCols);
    var appends := StagedAppends(dbRows, index, hmap, width, keyCols, writeCols, appendMissing);
    StagedUpdatesFit(dbRows, index, hmap, keyCols, writeCols, |data|, width);
    assert UpdatesFit(updates, 1, |data|, width) && forall i :: 0 <= i < |updates| ==> updates[i].0 >= 2 by {
      forall i | 0 <= i < |updates| ensures EntryFits(updates[i], 1, |data|, width) && updates[i].0 >= 2 {
        assert EntryFits(updates[i], 2, |data|, width);
      }
    }
    StagedUpdatesDistinct(dbRows, index, hmap, keyCols, writeCols);
    assert forall i :: 0 <= i < |appends| ==> |appends[i]| == width by {
      forall i | 0 <= i < |appends| ensures |appends[i]| == width {
        StagedAppendsFrom(dbRows, index, hmap, width, keyCols, writeCols, appendMissing, i);
      }
    }
    assert !appendMissing ==> appends == [] by {
      if !appendMissing {
        StagedAppendsOff(dbRows, index, hmap, width, keyCols, writeCols);
      }
    }
    Plan(header, data, index, updates, appends)
  }

  /** The rows a plan works on: the extended header over the body rows as read, padded
      to its width; its updates are the staged ones. */
  lemma PlanShape(start: Grid, dbRows: seq<DbRow>, keyCols: seq<string>, writeCols: seq<string>, appendMissing: bool)
    requires start != []
    ensures var p := PartialPlan(start, dbRows, keyCols, writeCols, appendMissing);
      && p.header == ExtendedHeader(start[0], keyCols + writeCols)
      && p.data == [p.header] + PadAll(start[1..], |p.header|)
      && p.updates == StagedUpdates(dbRows, p.index, HeaderMap(p.header), keyCols, writeCols)
  {
  }

  /** The writes `push_partial` makes on a sheet holding `g` that reads back empty: its
      header, through `write_rows_full` with no rows. */
  function EmptySheetWrites(g: Grid, keyCols: seq<string>, writeCols: seq<string>): seq<Op> {
    if AllValues(g) == [] then [Op.Update(Rows(1, 1), [Unseen(keyCols + writeCols, {})])] else []
  }

  /** The writes of the column-adding step: when columns were added, the extended
      header across row 1 and, below it, the body rows padded to the new width. */
  function WidenWrites(start: Grid, needed: seq<string>): seq<Op>
    requires start != []
  {
    var header := ExtendedHeader(start[0], needed);
    var body := PadAll(start[1..], |header|);
    if |header| == |start[0]| then []
    else [Op.Update(Rows(1, 1), [header])] + (if body == [] then [] else [Op.Update(Rows(2, |body| + 1), body)])
  }

  /** All the writes `push_partial` makes before the matched rows on a sheet holding `g`. */
  function SetupWrites(g: Grid, keyCols: seq<string>, writeCols: seq<string>): seq<Op> {
    EmptySheetWrites(g, keyCols, writeCols) + WidenWrites(StartRows(g, keyCols, writeCols), keyCols + writeCols)
  }

  /** Lines 61-65 of `push_partial`: read the sheet and give an empty one its header. */
  method StartSheet(ws: Worksheet, keyCols: seq<string>, writeCols: seq<string>) returns (start: Grid)
    requires ws.Valid()
    modifies ws
    ensures ws.Valid() && ws.initial == old(ws.initial)
    ensures start == StartRows(old(ws.grid), keyCols, writeCols)
    ensures ws.log == old(ws.log) + EmptySheetWrites(old(ws.grid), keyCols, writeCols)
  {
    start := ws.Values();
    if start == [] {
      var first := Unseen(keyCols + writeCols, {});
      var _ := WriteRowsFull(ws, first, []);
      WriteRowsEmpty(first);
      start := [first];
    }
  }

  /** The column-adding step of `push_partial`: extend the header and, when anything
      was added, write back the header and the padded body. */
  method WidenSheet(ws: Worksheet, start: Grid, needed: seq<string>) returns (header: seq<string>, hmap: map<string, nat>)
    requires ws.Valid() && start != []
    modifies ws
    ensures ws.Valid() && ws.initial == old(ws.initial)
    ensures header == ExtendedHeader(start[0], needed) && hmap == HeaderMap(header)
    ensures ws.log == old(ws.log) + WidenWrites(start, needed)
  {
    var added;
    header, hmap, added := ExtendHeader(start[0], needed);
    if added {
      var width := |header|;
      ws.Update(Rows(1, 1), [header]);
      var body := PadAll(start[1..], width);
      if body != [] {
        ws.Update(Rows(2, |body| + 1), body);
      }
    }
  }

  /** The first steps of `push_partial`: read the sheet, give an empty one its
      header, add the missing columns on the right and write back the header and the
      padded body when any were added. */
  method PrepareSheet(ws: Worksheet, keyCols: seq<string>, writeCols: seq<string>)
    returns (start: Grid, header: seq<string>, hmap: map<string, nat>)
    requires ws.Valid()
    modifies ws
    ensures ws.Valid() && ws.initial == old(ws.initial)
    ensures start == StartRows(old(ws.grid), keyCols, writeCols)
    ensures header == ExtendedHeader(start[0], keyCols + writeCols) && hmap == HeaderMap(header)
    ensures ws.log == old(ws.log) + SetupWrites(old(ws.grid), keyCols, writeCols)
  {
    ghost var g0, log0 := ws.grid, ws.log;
    start := StartSheet(ws, keyCols, writeCols);
    ghost var empty := EmptySheetWrites(g0, keyCols, writeCols);
    header, hmap := WidenSheet(ws, start, keyCols + writeCols);
    ghost var widen := WidenWrites(start, keyCols + writeCols);
    ConcatAssoc(log0, empty, widen);
    assert SetupWrites(g0, keyCols, writeCols) == empty + widen;
  }

  /** The reading half of the merge under the extended `header`: index the body and
      stage the updates and the appends; nothing is written. */
  method StagePlan(start: Grid, header: seq<string>, hmap: map<string, nat>, dbRows: seq<DbRow>,
                   keyCols: seq<string>, writeCols: seq<string>, appendMissing: bool) returns (p: Plan)
    requires start != []
    requires header == ExtendedHeader(start[0], keyCols + writeCols) && hmap == HeaderMap(header)
    ensures p == PartialPlan(start, dbRows, keyCols, writeCols, appendMissing)
  {
    var width := |header|;
    var padded, index := IndexRows([header] + start[1..], hmap, keyCols, width);
    assert ([header] + start[1..])[1..] == start[1..];
    ExtendedHeaderFacts(start[0], keyCols + writeCols);
    var updates, appends := StageRows(dbRows, index, hmap, width, keyCols, writeCols, appendMissing);
    p := Plan(header, padded, index, updates, appends);
  }

  /** The writes of the merge on the sheet rows `start`: the matched rows one by one,
      then, when `ok`, the appended rows in batches right under the sheet rows. */
  function MergeWrites(start: Grid, dbRows: seq<DbRow>, keyCols: seq<string>, writeCols: seq<string>,
                       appendMissing: bool, ok: bool): seq<Op>
    requires start != []
  {
    var p := PartialPlan(start, dbRows, keyCols, writeCols, appendMissing);
    RowWrites(p.updates, p.data, |p.header|)
      + (if ok then BatchWrites(Chunks(p.appends, BatchSize), |p.data| + 1, |p.header|) else [])
  }

  /** The rest of `push_partial`, on the sheet rows `start` under the extended
      `header`: index the body, stage the updates and the appends, write the updates
      row by row and the appends batch by batch. */
  method MergeRows(ws: Worksheet, start: Grid, header: seq<string>, hmap: map<string, nat>, dbRows: seq<DbRow>,
                   keyCols: seq<string>, writeCols: seq<string>, appendMissing: bool) returns (ok: bool)
    requires ws.Valid() && start != []
    requires header == ExtendedHeader(start[0], keyCols + writeCols) && hmap == HeaderMap(header)
    modifies ws
    ensures ws.Valid() && ws.initial == old(ws.initial)
    ensures var p := PartialPlan(start, dbRows, keyCols, writeCols, appendMissing);
      && (ok <==> p.appends == [] || |p.header| > 0)
      && ws.log == old(ws.log) + MergeWrites(start, dbRows, keyCols, writeCols, appendMissing, ok)
  {
    ghost var log0 := ws.log;
    var p := StagePlan(start, header, hmap, dbRows, keyCols, writeCols, appendMissing);
    ApplyUpdates(ws, p.data, |p.header|, p.updates);
    ghost var rows := RowWrites(p.updates, p.data, |p.header|);
    ok := true;
    if p.appends != [] {
      ok := AppendRows(ws, p.data, |p.header|, p.appends);
    } else {
      assert Chunks(p.appends, BatchSize) == [];
    }
    ghost var batches := if ok then BatchWrites(Chunks(p.appends, BatchSize), |p.data| + 1, |p.header|) else [];
    assert ws.log == log0 + rows + batches;
    ConcatAssoc(log0, rows, batches);
    assert MergeWrites(start, dbRows, keyCols, writeCols, appendMissing, ok) == rows + batches;
  }

  /** On an empty sheet the only setup write is the synthesised header, and that header
      (the key and write columns, first occurrence kept) is the one the merge works with:
      it already names every column, so nothing is added. */
  lemma EmptySheetSetup(dbRows: seq<DbRow>, keyCols: seq<string>, writeCols: seq<string>, appendMissing: bool)
    ensures SetupWrites([], keyCols, writeCols) == [Op.Update(Rows(1, 1), [Unseen(keyCols + writeCols, {})])]
    ensures PartialPlan(StartRows([], keyCols, writeCols), dbRows, keyCols, writeCols, appendMissing).header
         == Unseen(keyCols + writeCols, {})
  {
    var needed := keyCols + writeCols;
    var h := Unseen(needed, {});
    ExtendedHeaderUnseen(h, needed);
    UnseenKnown(needed, Names(h));
    assert ExtendedHeader(h, needed) == h;
  }

  /** The service returns the rows of the example sheet below as they are: neither
      ends in an empty cell. */
  lemma WideBodyRowTrimmed()
    ensures DropEmptyTail(TrimAll([["id", "name"], ["1", "a", "note"]])) == [["id", "name"], ["1", "a", "note"]]
  {
    var g := [["id", "name"], ["1", "a", "note"]];
    assert TrimRow(g[0]) == g[0] && TrimRow(g[1]) == g[1];
    assert TrimAll(g) == g;
  }

  /** The client library pads the shorter first row of the example sheet. */
  lemma WideBodyRowFilled()
    ensures FillGaps([["id", "name"], ["1", "a", "note"]]) == [["id", "name", ""], ["1", "a", "note"]]
  {
    var g := [["id", "name"], ["1", "a", "note"]];
    assert MaxWidth(g[1..][1..]) == 0;
    assert MaxWidth(g) == 3;
    var f := FillGaps(g);
    assert f[0][..2] == g[0] && f[0][2] == "";
    assert f[0] == ["id", "name", ""];
    assert f[1][..3] == g[1] && |f| == 2 && |f[1]| == 3;
    assert f[1] == f[1][..3];
  }

  /** A body row wider than row 1: `get_all_values` pads row 1 to that width, so the
      header read ends in an empty cell and an added column lands to the right of it. */
  lemma WideBodyRowExample()
    ensures var start := StartRows([["id", "name"], ["1", "a", "note"]], ["id"], ["price"]);
      && start == [["id", "name", ""], ["1", "a", "note"]]
      && ExtendedHeader(start[0], ["id", "price"]) == ["id", "name", "", "price"]
  {
    WideBodyRowTrimmed();
    WideBodyRowFilled();
    var h := ["id", "name", ""];
    assert ["id", "price"][..1] == ["id"];
    assert ExtendedHeader(h, ["id"]) == h by {
      assert ExtendedHeader(h, []) == h;
    }
  }
}
