# Sheet ↔ database synchronisation, modelled in Dafny

This project models the integration layer that moves rows between Google Sheets
worksheets and a PostgreSQL database:

- **Export** (`sheets_export.py`). `push_full` projects query records onto a header,
  wipes the worksheet if asked, and writes the header at row 1 and the records in
  500-row batches below it. `push_partial` merges query records into an existing
  worksheet by key:
  - it extends the header on the right with the missing key and write columns and
    pads the body rows;
  - it indexes the body rows by their key tuple;
  - it stages per-cell updates for the write columns of matched records;
  - it rewrites each matched row as one contiguous span `min_c..max_c`;
  - it appends unmatched records in 500-row batches below the last row.
- **Import** (`sheets_import.py`). It normalises header names, coerces cell text by a
  configured kind, maps ragged rows to records, skips records with an empty key,
  upserts the rest and, if asked, deletes table rows whose key is no longer present
  (an anti-join delete whose parameters are the keys of the prepared rows, row-major).
- **Upsert** (`bulk_upsert.py`). It builds an `INSERT ... ON CONFLICT (pk) DO UPDATE
  SET c=EXCLUDED.c` statement over the columns of the first record, and reports the
  number of records submitted.

The worksheet is a class (`Worksheets.Worksheet`) holding a grid of text cells and a
log of every call made on it (`update` of a range, `clear`). Its invariant is that the
grid is what replaying the log does to the cells it was opened with. Each exporting
method is proved against a specification function giving the exact list of calls it
makes. Lemmas then state what those calls do to the cells: which cells change, to what,
and which stay the same. Ranges are numeric (row, column) pairs, numbered from 1 as in
A1 notation. SQL statements are abstract datatypes rather than text. Reading the
sheet (`get_all_values`) returns what the spreadsheet service returns, with trailing
empty cells and rows left out. The client library then pads every row with `""` to the
width of the widest row.

Modules, in dependency order:

| file | module | models |
|---|---|---|
| wrappers.dfy | Wrappers | `Option` |
| seqs.dfy | Seqs | `dict.fromkeys` de-duplication, first index, flattening |
| dicts.dfy | Dicts | Python's insertion-ordered `dict` as a sequence of entries |
| text.dfy | Text | `str.strip`, `str.lower` on ASCII and basic Cyrillic letters, `str.replace` on single characters |
| worksheets.dfy | Worksheets | the worksheet: grid, call log, `get_all_values`, `update`, `clear` |
| rowpatch.dfy | RowPatch | `min_c`, `max_c` and the patched `row_copy` of `push_partial` |
| batch_writing.dfy | BatchWriting | `_chunks`, `ensure_header`, `write_rows_full` |
| full_push.dfy | FullPush | `push_full` |
| header_index.dfy | HeaderIndex | `header_map`, header extension, `key_tuple`, the row index |
| staging.dfy | Staging | the staged `updates` and `appends` of `push_partial` |
| row_updates.dfy | RowUpdates | the per-row span writes of `push_partial` |
| partial_push.dfy | PartialPush | the setup, staging and write loops of `push_partial` |
| sheet_merge.dfy | SheetMerge | `push_partial` as a whole, and what it leaves in the sheet, cell by cell |
| bulk_upsert.dfy | BulkUpsert | `_build_upsert_query`, `bulk_upsert` |
| sheets_import.dfy | SheetsImport | `_norm`, `_cast`, `_map_and_cast`, the per-source import |

The model keeps two behaviours of the code:

- An all-empty key tuple is indexed and matched like any other key
  (`sheets_export.py:84-92, 100-101`).
- A column named in the column map but absent from the sheet only produces a warning
  (`sheets_import.py:84-86`). Its cells become `None`, and the import goes on.

## Model

Source paths are relative to the repository root.

| member | source | states |
|---|---|---|
| Worksheets.Worksheet.constructor | app/infrastructure/integration/sheets_export.py:60-61 | An opened worksheet shows the cells it holds and has had no calls made on it. |
| Worksheets.Worksheet.Update | app/infrastructure/integration/sheets_export.py:12-13 | `ws.update(range, values)` is logged. The cells become the values written at the range's top-left corner, and the grid-equals-replayed-log invariant is kept. |
| Worksheets.Worksheet.Clear | app/infrastructure/integration/sheets_export.py:15-16 | `ws.clear()` is logged, the worksheet is left with no cells, and the invariant is kept. |
| Worksheets.WriteCell | app/infrastructure/integration/sheets_export.py:26-27 | A write changes exactly the cells it covers: each covered cell takes its value, every other cell keeps its text. |
| Worksheets.SpanCells | app/infrastructure/integration/sheets_export.py:126-127 | Writing columns `left..right` of a row with that slice of a row copy sets exactly those cells to the copy's values. |
| Worksheets.TrimRow | app/infrastructure/integration/sheets_export.py:30-31 | The row returned is a prefix of the stored row that does not end in an empty cell; every cell cut off is empty. |
| Worksheets.DropEmptyTail | app/infrastructure/integration/sheets_export.py:30-31 | The rows returned are a prefix of the trimmed rows that does not end in an empty row; every row cut off is empty. |
| Worksheets.MaxWidth | app/infrastructure/integration/sheets_export.py:30-31 | No row is wider, and some row is this wide. |
| Worksheets.FillGaps | app/infrastructure/integration/sheets_export.py:30-31 | As many rows, each the original row followed by `""` up to the widest row's width. |
| Worksheets.AllValues | app/infrastructure/integration/sheets_export.py:30-31 | `get_all_values` returns a rectangle of at most as many rows as the sheet holds. |
| Worksheets.AllValuesCells | app/infrastructure/integration/sheets_export.py:30-31 | Every cell of the rows returned shows what the sheet holds there. |
| Worksheets.AllValuesEmpty | app/infrastructure/integration/sheets_export.py:61-62 | `get_all_values` returns no rows iff no cell of the sheet holds text, so `if not data` tests for a blank sheet. |
| Worksheets.TextCell | app/infrastructure/integration/sheets_export.py:61-62 | A sheet that reads back some rows holds text in some cell. |
| Worksheets.ReplayAppend | app/infrastructure/integration/sheets_export.py:18-28 | Replaying two call lists one after the other is replaying their concatenation. |
| Seqs.Unseen | app/infrastructure/integration/sheets_export.py:63 | `dict.fromkeys` keeps each element once: exactly the elements not already known, without repeats, and no longer than the input. |
| Seqs.UnseenOrder | app/infrastructure/integration/sheets_export.py:63 | The kept elements stay in the order of their first occurrence. |
| Seqs.UnseenKnown | app/infrastructure/integration/sheets_export.py:73-75 | Nothing is added when every element is already known. |
| Dicts.Put | app/infrastructure/integration/sheets_import.py:38 | `d[k] = v`: afterwards `k` maps to `v` and every other key keeps its value. |
| Dicts.PutPut | app/infrastructure/integration/sheets_import.py:36-38 | A second assignment to a key overrides the first and leaves the key where the first assignment put it. |
| Dicts.Push | app/infrastructure/integration/sheets_export.py:96-107 | `updates[r].append(x)` on a `defaultdict(list)` adds `x` at the end of `r`'s list and changes no other key. |
| Dicts.AssignedKeys | app/infrastructure/integration/sheets_import.py:34 | A dict built by assignments holds each key once, in order of first assignment. |
| Dicts.AssignedGet | app/infrastructure/integration/sheets_import.py:34 | A key's value is the one given at its last assignment. |
| Dicts.AssignedAbsent | app/infrastructure/integration/sheets_import.py:34 | A key never assigned is absent. |
| Text.Strip | app/infrastructure/integration/sheets_import.py:13 | `strip()` leaves no whitespace at either end and never lengthens the text. |
| Text.StripAround | app/infrastructure/integration/sheets_import.py:21 | Stripping whitespace padded around a trimmed text gives back that text. |
| Text.StripTrimmed | app/infrastructure/integration/sheets_import.py:13 | Stripping a trimmed text changes nothing. |
| Text.LowerFixed | app/infrastructure/integration/sheets_import.py:13 | Lower-casing a text that is already lower-case changes nothing. |
| Text.ReplaceAbsent | app/infrastructure/integration/sheets_import.py:13 | Replacing a character the text does not contain changes nothing. |
| BatchWriting.ChunksFlatten | app/infrastructure/integration/sheets_export.py:8-10 | Concatenating the chunks gives back the sequence. |
| BatchWriting.ChunksSizes | app/infrastructure/integration/sheets_export.py:8-10 | Every chunk is non-empty and at most `size` long; every chunk but the last is exactly `size` long. |
| BatchWriting.ChunksPrefix | app/infrastructure/integration/sheets_export.py:8-10 | The first `i` chunks hold `i * size` elements, for every `i` short of the chunk count. |
| BatchWriting.ChunksMembers | app/infrastructure/integration/sheets_export.py:8-10 | Every element of a chunk is an element of the sequence. |
| BatchWriting.BatchWritesRanges | app/infrastructure/integration/sheets_export.py:22-28 | Batch `i` is written to columns `1..width` of the rows that follow, without a gap, the rows of the batches before it. |
| BatchWriting.BatchWritesCells | app/infrastructure/integration/sheets_export.py:22-28 | After the batch writes, the rows from `start` on show the concatenated batches. Cells outside them keep their text. |
| BatchWriting.WriteRowsFull | app/infrastructure/integration/sheets_export.py:18-28 | `write_rows_full` writes the header, then each 500-row chunk at its range. With rows and an empty header it stops after the header write, where the range conversion raises. |
| BatchWriting.WriteRowsEmpty | app/infrastructure/integration/sheets_export.py:19-21 | With no rows, the only write is the header across row 1. |
| BatchWriting.WriteRowsRanges | app/infrastructure/integration/sheets_export.py:22-28 | The header goes to row 1. Batch `i` covers rows `2 + 500 i` to `1 + 500 i + len(chunk)` and columns `1..len(header)`. Every batch but the last has 500 rows, and the last ends at row `len(rows) + 1`. |
| BatchWriting.FullWritesCells | app/infrastructure/integration/sheets_export.py:18-28 | After `write_rows_full`, row 1 shows the header and row `r + 2` shows `rows[r]`. Every cell beyond them keeps its text. |
| FullPush.Project | app/infrastructure/integration/sheets_export.py:43-46 | One output row per record, `len(header)` cells each. Cell `j` is the record's value for `header[j]`, or `""` when that value is missing or null. |
| FullPush.PushFull | app/infrastructure/integration/sheets_export.py:37-51 | The calls are an optional `clear` followed by `write_rows_full` of the projected rows, one per record. The call completes exactly when there are no records or the header is non-empty; otherwise it stops after the header write. After a clear and a completed write, the worksheet shows exactly the header and the projected rows. |
| HeaderIndex.HeaderMapFacts | app/infrastructure/integration/sheets_export.py:33-34 | `header_map` holds exactly the header's names, each mapped to a position holding it. |
| HeaderIndex.HeaderMapLast | app/infrastructure/integration/sheets_export.py:33-34 | For a repeated name, the mapped position is its last occurrence. |
| HeaderIndex.HeaderMapAppend | app/infrastructure/integration/sheets_export.py:73-75 | Appending columns that a name is not among leaves that name's position unchanged. |
| HeaderIndex.ExtendedHeader | app/infrastructure/integration/sheets_export.py:70-75 | The extended header starts with the original header. |
| HeaderIndex.ExtendedHeaderUnseen | app/infrastructure/integration/sheets_export.py:70-75 | The extended header is the original one followed by the needed columns it lacked, first occurrence kept. |
| HeaderIndex.ExtendedHeaderFacts | app/infrastructure/integration/sheets_export.py:70-77 | After extension, every needed column is mapped and existing columns keep their index. New columns are appended on the right, each a needed column absent before, without repeats. |
| HeaderIndex.PadSameCells | app/infrastructure/integration/sheets_export.py:89-91 | Padding a row with `""` does not change what any of its cells shows. |
| HeaderIndex.KeyTuple | app/infrastructure/integration/sheets_export.py:84-85 | `key_tuple` never fails on a ragged row. It has one entry per key column, every entry is stripped, and a key column that is unmapped or beyond the row's end yields `""`. |
| HeaderIndex.KeyTuplePad | app/infrastructure/integration/sheets_export.py:84-92 | Padding a row does not change its key tuple. |
| HeaderIndex.PositionsFacts | app/infrastructure/integration/sheets_export.py:87-92 | The index holds exactly the keys of the body rows. Each maps to a row number from 2 to `len(data)` whose row has that key, and no later row has it. |
| HeaderIndex.IndexStep | app/infrastructure/integration/sheets_export.py:87-92 | Each loop step records the current padded row's key at that row's number. |
| HeaderIndex.PadStep | app/infrastructure/integration/sheets_export.py:89-91 | Padding row `i` in place extends the padded prefix of the data by that row. |
| HeaderIndex.PaddedShape | app/infrastructure/integration/sheets_export.py:87-92 | After the loop, the data is the header row followed by every body row padded to the header's width. |
| Staging.DbKey | app/infrastructure/integration/sheets_export.py:100 | The key of a record has one entry per key column. |
| Staging.WriteCells | app/infrastructure/integration/sheets_export.py:104-107 | A matched record stages one (column, text) pair per write column. |
| Staging.ExtendPush | app/infrastructure/integration/sheets_export.py:104-107 | Staging a record's pairs appends them one by one to the row's list. |
| Staging.WriteCellsStep | app/infrastructure/integration/sheets_export.py:104-107 | Each iteration of the write-column loop appends that column's pair, the column being `hmap[col] + 1`. |
| Staging.NewRow | app/infrastructure/integration/sheets_export.py:109-115 | A new row has one cell per header column. |
| Staging.NewRowCells | app/infrastructure/integration/sheets_export.py:109-115 | Cell `j` of a new row is the record's text for the key or write column mapped to `j`, and `""` at every other position. |
| Staging.FillUntouched | app/infrastructure/integration/sheets_export.py:111-114 | Filling columns leaves every position none of them maps to unchanged. |
| Staging.FillWritten | app/infrastructure/integration/sheets_export.py:111-114 | Filling puts a column's text at its mapped position. |
| Staging.FillAppend | app/infrastructure/integration/sheets_export.py:111-114 | Filling the key columns and then the write columns is filling them all in that order. |
| Staging.FillSnoc | app/infrastructure/integration/sheets_export.py:113-114 | One more column fills one more position. |
| Staging.StagedStep | app/infrastructure/integration/sheets_export.py:99-115 | For each record, a matched key appends its write pairs to the matched row, and an unmatched key appends a new row when appending is on. Nothing else is staged. |
| Staging.CellsForRowSnoc | app/infrastructure/integration/sheets_export.py:99-107 | A row's staged pairs are those of the records matching it, in record order. |
| Staging.StagedUpdatesGet | app/infrastructure/integration/sheets_export.py:99-107 | A row has staged updates exactly when some record matched it, and they are all that records' pairs in order. |
| Staging.ExtendFits | app/infrastructure/integration/sheets_export.py:104-107 | Staging pairs within the header keeps every staged row and column in range. |
| Staging.StagedUpdatesFit | app/infrastructure/integration/sheets_export.py:101-107 | Every staged row is an indexed body row, and every staged column is within the header. |
| Staging.StagedUpdatesDistinct | app/infrastructure/integration/sheets_export.py:96-107 | The update map holds each row number once. |
| Staging.StagedAppendsOff | app/infrastructure/integration/sheets_export.py:109 | Nothing is appended when `append_missing` is false. |
| Staging.StagedAppendsFrom | app/infrastructure/integration/sheets_export.py:108-115 | Every appended row is header-wide and is the new row of some record whose key the index lacks. |
| Staging.StagedAppendsAll | app/infrastructure/integration/sheets_export.py:108-115 | With appending on, every record whose key the index lacks has its new row appended. |
| RowPatch.MinCol | app/infrastructure/integration/sheets_export.py:118 | `min_c` is at most every staged column and is one of them. |
| RowPatch.MaxCol | app/infrastructure/integration/sheets_export.py:119 | `max_c` is at least every staged column and is one of them. |
| RowPatch.SpanWithin | app/infrastructure/integration/sheets_export.py:118-119 | The span `min_c..max_c` lies within the header's columns. |
| RowPatch.Overwrite | app/infrastructure/integration/sheets_export.py:123-125 | The patched row copy is as long as the row. |
| RowPatch.OverwriteUntouched | app/infrastructure/integration/sheets_export.py:123-125 | A column no staged pair names keeps its current value in the row copy. |
| RowPatch.OverwriteLast | app/infrastructure/integration/sheets_export.py:124-125 | The last staged pair naming a column decides its value: last write wins. |
| RowUpdates.RowWrites | app/infrastructure/integration/sheets_export.py:117-127 | One write per row with staged updates. |
| RowUpdates.UpdateOpCells | app/infrastructure/integration/sheets_export.py:118-127 | A row's write sets exactly columns `min_c..max_c` of that row to the patched copy. Every other cell keeps its text. |
| RowUpdates.StagedOpCells | app/infrastructure/integration/sheets_export.py:117-127 | A staged row's write changes no cell outside that row. |
| RowUpdates.RowWritesSnoc | app/infrastructure/integration/sheets_export.py:117-127 | The writes follow the update map's order, one per entry. |
| RowUpdates.RowWritesReplay | app/infrastructure/integration/sheets_export.py:117-127 | Replaying the writes is replaying those of the earlier entries and then the last one. |
| RowUpdates.RowWritesUntouched | app/infrastructure/integration/sheets_export.py:117-127 | A row with no staged updates is left as it was. |
| RowUpdates.RowWritesLast | app/infrastructure/integration/sheets_export.py:117-127 | The last entry's row shows that entry's patched cells. |
| RowUpdates.RowWritesBefore | app/infrastructure/integration/sheets_export.py:117-127 | A write to another row does not change a row's cells. |
| RowUpdates.RowWritesEntry | app/infrastructure/integration/sheets_export.py:117-127 | After all the writes, each staged row shows its own entry's cells. |
| RowUpdates.EntryCellUnnamed | app/infrastructure/integration/sheets_export.py:120-127 | In a staged row, a column that no pair names keeps its current value, including inside the span. |
| RowUpdates.EntryCellSpan | app/infrastructure/integration/sheets_export.py:120-127 | Inside the span, a staged row shows the patched copy of the current row padded to the header's width. |
| PartialPush.ExtendHeader | app/infrastructure/integration/sheets_export.py:71-76 | The loop appends the missing needed columns and keeps `hmap` equal to the header map of the extended header. `added` holds exactly when the header grew. |
| PartialPush.IndexRows | app/infrastructure/integration/sheets_export.py:87-92 | The loop pads each short body row in place and builds the key-to-row-number index of the padded rows. |
| PartialPush.FillColumns | app/infrastructure/integration/sheets_export.py:111-114 | Filling the new row in place sets each column's mapped cell to the record's text, in column order. |
| PartialPush.BuildNewRow | app/infrastructure/integration/sheets_export.py:110-115 | `new_row` is the header-wide new row of the record. |
| PartialPush.PushCells | app/infrastructure/integration/sheets_export.py:104-107 | The write-column loop appends the record's pairs to the matched row's list. |
| PartialPush.StageRows | app/infrastructure/integration/sheets_export.py:99-115 | The staging loop builds exactly the staged updates and appends of the records. |
| PartialPush.ApplyPairs | app/infrastructure/integration/sheets_export.py:123-125 | The loop over `cols` yields the patched row copy. |
| PartialPush.WriteStagedRow | app/infrastructure/integration/sheets_export.py:118-127 | One staged row is written as its span of the patched copy. |
| PartialPush.ApplyUpdates | app/infrastructure/integration/sheets_export.py:117-127 | The update loop makes one span write per staged row, in map order. |
| PartialPush.AppendRows | app/infrastructure/integration/sheets_export.py:129-135 | The appended rows are written in 500-row batches from row `len(data) + 1` on, with `data` growing by each chunk. With a zero-width header it stops, where the range conversion raises. |
| PartialPush.AppendRanges | app/infrastructure/integration/sheets_export.py:129-135 | Append batch `i` covers rows `len(data) + 1 + 500 i` onward, `len(chunk)` rows and the header's columns. Every batch but the last has 500 rows, and the last ends at `len(data) + len(appends)`. |
| PartialPush.StartRows | app/infrastructure/integration/sheets_export.py:61-65 | A sheet that reads back no rows starts as the single header row of the key and write columns, first occurrence kept. Any other sheet starts as `get_all_values` returns it, every row padded to the widest. |
| PartialPush.PartialPlan | app/infrastructure/integration/sheets_export.py:67-115 | After the header step, every key and write column is mapped within the header. The index points at body rows, staged updates are in range, name body rows only (row 2 on) and each row once, appended rows are header-wide, and nothing is appended when `append_missing` is false. |
| PartialPush.PlanShape | app/infrastructure/integration/sheets_export.py:67-92 | The plan's rows are the extended header over the body rows as read, padded to its width, and its updates are the staged ones. |
| PartialPush.StartSheet | app/infrastructure/integration/sheets_export.py:61-65 | Reading the sheet, and writing the synthesised header when it is empty. |
| PartialPush.WidenSheet | app/infrastructure/integration/sheets_export.py:67-81 | When columns were added, the extended header is written to row 1 and the padded body rows to rows `2..len(body)+1`. Otherwise nothing is written. |
| PartialPush.PrepareSheet | app/infrastructure/integration/sheets_export.py:60-81 | The setup calls, the starting rows and the extended header with its map. |
| PartialPush.StagePlan | app/infrastructure/integration/sheets_export.py:84-115 | Indexing and staging compute the plan's index, updates and appends. |
| PartialPush.MergeRows | app/infrastructure/integration/sheets_export.py:117-135 | The span writes for the staged rows, then the append batches; the batches are written exactly when there is nothing to append or the header is non-empty. |
| PartialPush.WideBodyRowExample | app/infrastructure/integration/sheets_export.py:61-77 | For the sheet `[["id","name"],["1","a","note"]]` the header read is `["id","name",""]`, and adding `price` puts it in column D, not over `note`. |
| PartialPush.WideBodyRowTrimmed | app/infrastructure/integration/sheets_export.py:30-31 | The service returns both rows of that sheet unchanged. |
| PartialPush.WideBodyRowFilled | app/infrastructure/integration/sheets_export.py:30-31 | The client library pads row 1 of that sheet to three cells. |
| PartialPush.EmptySheetSetup | app/infrastructure/integration/sheets_export.py:62-81 | On an empty sheet, the only setup write is the synthesised header, and the merge's header is that header. |
| SheetMerge.BodyCells | app/infrastructure/integration/sheets_export.py:78-79 | Below the header, the body rows padded with `""` show the same cells as the rows read. |
| SheetMerge.HeaderWriteCell | app/infrastructure/integration/sheets_export.py:76-77 | Writing the wider header across row 1 sets row 1 to it and keeps every other row's cells. |
| SheetMerge.AddedColumnsCells | app/infrastructure/integration/sheets_export.py:76-81 | After the header and padded-body writes, every cell shows the extended header over the body rows as read. |
| SheetMerge.WidenCells | app/infrastructure/integration/sheets_export.py:71-81 | After the column-adding writes, row 1 shows the extended header and every body row shows its cells as read; the added columns are empty. |
| SheetMerge.EmptySheetStart | app/infrastructure/integration/sheets_export.py:62-65 | On a sheet that reads back no rows, once the synthesised header is written every cell shows the sheet the merge starts from. |
| SheetMerge.SetupCells | app/infrastructure/integration/sheets_export.py:60-81 | After the setup writes, every cell of the sheet equals the cell of the plan's rows: the extended header over the body rows as read. |
| SheetMerge.SetupRow | app/infrastructure/integration/sheets_export.py:60-81 | After the setup writes, each whole row of the sheet shows that row of the plan. |
| SheetMerge.EntryRowCell | app/infrastructure/integration/sheets_export.py:120-127 | A staged row written over a grid that shows the row as read ends as the padded row with its pairs applied, inside and outside the span. |
| SheetMerge.MergedRowAt | app/infrastructure/integration/sheets_export.py:117-127 | After the span writes, a staged row shows its padded row with its own pairs applied, and a row with no staged pairs keeps its cells. |
| SheetMerge.MergedRowsCells | app/infrastructure/integration/sheets_export.py:60-127 | After the setup writes and the span writes, every cell of the sheet is the merged cell of the plan. |
| SheetMerge.FinalFromStacked | app/infrastructure/integration/sheets_export.py:129-135 | The append batches stack the appended rows right under the sheet rows and leave every other cell as merged. |
| SheetMerge.FinalCells | app/infrastructure/integration/sheets_export.py:54-135 | After every call `push_partial` makes, each cell of the sheet is the final cell of its plan: appended rows when written, merged rows elsewhere. |
| SheetMerge.FinalCellHeader | app/infrastructure/integration/sheets_export.py:87-92 | No update is staged for row 1, so the final row 1 is the header. |
| SheetMerge.PushPartialHeader | app/infrastructure/integration/sheets_export.py:70-81 | Row 1 of the sheet ends as the extended header. |
| SheetMerge.FinalCellUntouched | app/infrastructure/integration/sheets_export.py:117-127 | A row with no staged update, outside the appended rows, keeps the plan's row. |
| SheetMerge.PushPartialUntouched | app/infrastructure/integration/sheets_export.py:87-135 | A body row that no record matched, and that no appended row covers, ends exactly as it was read. |
| SheetMerge.StagedEntry | app/infrastructure/integration/sheets_export.py:96-107 | The entry of a staged row is the only entry for that row. |
| SheetMerge.FinalCellUnnamed | app/infrastructure/integration/sheets_export.py:120-125 | In a staged row, a column no pair names keeps the plan's cell. |
| SheetMerge.PushPartialUnnamed | app/infrastructure/integration/sheets_export.py:117-127 | In a matched row, a column no staged pair names ends as read: `""` for a column the merge added or one beyond the row's end. |
| SheetMerge.FinalCellLastWins | app/infrastructure/integration/sheets_export.py:124-125 | In a staged row, a named column takes the text of the last pair naming it. |
| SheetMerge.PushPartialLastWins | app/infrastructure/integration/sheets_export.py:104-127 | In a matched row, a column the staged pairs name ends with the text of the last pair naming it, i.e. the last matching record's value. |
| SheetMerge.FinalCellAppended | app/infrastructure/integration/sheets_export.py:129-135 | When the appends were written, the final cells right under the sheet rows are the appended rows in order. |
| SheetMerge.PushPartialAppended | app/infrastructure/integration/sheets_export.py:129-135 | When the appends were written, the rows right under the sheet rows show the appended rows in order. |
| SheetMerge.FinalGrid | app/infrastructure/integration/sheets_export.py:54-135 | A sheet replayed through `push_partial`'s calls shows the final cells of its plan. |
| SheetMerge.PushPartial | app/infrastructure/integration/sheets_export.py:54-135 | The whole call sequence: setup writes, then one span write per staged row, then the append batches, which are written exactly when there is nothing to append or the header is non-empty. Afterwards every cell of the sheet is the final cell of the plan. |
| BulkUpsert.NonKeyMembers | app/infrastructure/integration/bulk_upsert.py:12 | A column is in the SET list exactly when it is an inserted column that is not a key column. |
| BulkUpsert.NonKeyAppend | app/infrastructure/integration/bulk_upsert.py:12 | The SET list keeps `db_cols` order. |
| BulkUpsert.BuildUpsertQuery | app/infrastructure/integration/bulk_upsert.py:5-17 | Table, columns and conflict target are as given, with one placeholder per column in order. The statement does nothing on conflict exactly when every column is a key column. Otherwise it assigns `c=EXCLUDED.c` for exactly the non-key columns. |
| BulkUpsert.SetListAsWrittenRejected | app/infrastructure/integration/bulk_upsert.py:12-15 | As written, the SET list is unacceptable exactly when every column is a key column. Otherwise it is the corrected statement's assignment list. |
| BulkUpsert.KeyOnlyRecordExample | app/infrastructure/integration/bulk_upsert.py:13-15 | For `db_cols = pk_cols = ["id"]`, the rendered SET list is the bare `NOTHING`, and the corrected statement does nothing on conflict. |
| BulkUpsert.BuildUpsertAccepted | app/infrastructure/integration/bulk_upsert.py:5-16 | The statement built is one PostgreSQL parses (a conflict target, and a non-empty SET list when updating) exactly when `pk_cols` is non-empty. |
| BulkUpsert.Upsert | app/infrastructure/integration/bulk_upsert.py:19-26 | No rows: count 0 and no statement. Otherwise the count is `len(rows)` and the statement is the one `BuildUpsertQuery` builds over the keys of `rows[0]`, with `pk_cols` as the conflict target. |
| SheetsImport.NormalizeShape | app/infrastructure/integration/sheets_import.py:12-13 | `_norm` output has no space, no leading or trailing whitespace, and is never longer than its input. |
| SheetsImport.NormalizeIdempotent | app/infrastructure/integration/sheets_import.py:12-13 | `_norm(_norm(s)) == _norm(s)`. |
| SheetsImport.NormalizedIsLower | app/infrastructure/integration/sheets_import.py:12-13 | `_norm` output is lower-case. |
| SheetsImport.DigitChar | app/infrastructure/integration/sheets_import.py:21 | The digit character for each value 0-9. |
| SheetsImport.ShowNat | app/infrastructure/integration/sheets_import.py:21 | The decimal text of a natural number is a non-empty string of digits. |
| SheetsImport.ParseShowNat | app/infrastructure/integration/sheets_import.py:21 | `int()` reads back the decimal text of a natural number exactly when it has at most 4300 digits (CPython's `sys.int_max_str_digits`), and raises otherwise. |
| SheetsImport.ShowNatLength | app/infrastructure/integration/sheets_import.py:21 | The decimal text of `n` has at most `k` digits exactly when `n < 10^k`. |
| SheetsImport.WithinDigitLimitBound | app/infrastructure/integration/sheets_import.py:21 | The integers within the digit limit are exactly those of magnitude below 10^4300. |
| SheetsImport.ParseShowInt | app/infrastructure/integration/sheets_import.py:21 | `int()` reads back the decimal text of an integer, sign included, exactly when its magnitude is below 10^4300, and raises otherwise. |
| SheetsImport.CastKinds | app/infrastructure/integration/sheets_import.py:15-30 | `None` or `""` gives `None` for every kind. An int kind gives an integer exactly when the stripped text parses, and `None` otherwise. A bool kind always gives a boolean, true exactly for the truthy words. Float and timestamp give a value exactly when the parser accepts, and `None` otherwise; a float may be NaN or an infinity. Any other kind gives the text unchanged. |
| SheetsImport.CastIntRoundTrip | app/infrastructure/integration/sheets_import.py:20-21 | Casting a whitespace-padded decimal integer with kind `int` gives that integer within the digit limit, and `None` beyond it. |
| SheetsImport.PaddedIntParses | app/infrastructure/integration/sheets_import.py:21 | Stripping and parsing a whitespace-padded decimal integer gives that integer within the digit limit, and fails beyond it. |
| SheetsImport.IntKindTag | app/infrastructure/integration/sheets_import.py:18-20 | The kind `int` selects the integer cast. |
| SheetsImport.FloatKindTag | app/infrastructure/integration/sheets_import.py:18-22 | The kind `float` selects the float cast. |
| SheetsImport.NonFiniteCast | app/infrastructure/integration/sheets_import.py:15-93 | A cell `float()` reads as NaN or an infinity is cast to that float, and as a key value it passes the key check. |
| SheetsImport.NormalizedHeader | app/infrastructure/integration/sheets_import.py:34 | Every header name is normalised, position by position. |
| SheetsImport.LastIndexOf | app/infrastructure/integration/sheets_import.py:34 | The last position holding a name. |
| SheetsImport.SourceCellsGet | app/infrastructure/integration/sheets_import.py:34 | The row dict maps a normalised name to the cell under its last occurrence (`None` past the row's end), and maps nothing else. |
| SheetsImport.EntryValues | app/infrastructure/integration/sheets_import.py:36-38 | One value per column-map entry. |
| SheetsImport.MapAndCastKeys | app/infrastructure/integration/sheets_import.py:32-39 | The record's keys are exactly the column map's values, each once, in first-occurrence order. |
| SheetsImport.MapAndCastGet | app/infrastructure/integration/sheets_import.py:36-38 | A destination column holds the cast cell of the last entry mapping to it. |
| SheetsImport.MissingCellIsNull | app/infrastructure/integration/sheets_import.py:34-38 | A column absent from the header, or whose cells lie past the end of a ragged row, gives `None`. |
| SheetsImport.IdentityColumnsKeys | app/infrastructure/integration/sheets_import.py:80-81 | The identity map has each header name once, in order. |
| SheetsImport.IdentityColumnsGet | app/infrastructure/integration/sheets_import.py:80-81 | The identity map sends each header name `h` to `_norm(h)`. |
| SheetsImport.Records | app/infrastructure/integration/sheets_import.py:90-91 | One record per body row. |
| SheetsImport.RecordsKeys | app/infrastructure/integration/sheets_import.py:90-91 | Every record has exactly the column map's values as keys. |
| SheetsImport.Survivors | app/infrastructure/integration/sheets_import.py:88-96 | The key check never adds records. |
| SheetsImport.SurvivorsMembers | app/infrastructure/integration/sheets_import.py:88-96 | A record is prepared exactly when it is one of the records and has a non-`None`, non-`""` value for every key column. |
| SheetsImport.SurvivorsAppend | app/infrastructure/integration/sheets_import.py:88-96 | Filtering distributes over concatenation, so the survivors keep their original order. |
| SheetsImport.SurvivorsStep | app/infrastructure/integration/sheets_import.py:90-96 | Each loop step appends the record exactly when it passes the key check. |
| SheetsImport.PrepareRows | app/infrastructure/integration/sheets_import.py:88-96 | The loop yields the survivors of the key check, and `len(prepared) + skipped_empty_pk == len(rows)`. |
| SheetsImport.KeyValues | app/infrastructure/integration/sheets_import.py:118-119 | One delete parameter per key column for each row. |
| SheetsImport.DeleteParamsLayout | app/infrastructure/integration/sheets_import.py:113-119 | The delete parameters are row-major: `len(prepared) * len(pk)` values, the one at `i * len(pk) + j` being row `i`'s value for key column `j`, `None` if absent. |
| SheetsImport.DeleteParamsLength | app/infrastructure/integration/sheets_import.py:113-119 | There are `len(prepared) * len(pk)` delete parameters. |
| SheetsImport.BuildDelete | app/infrastructure/integration/sheets_import.py:112-132 | The loops build one placeholder group per prepared row and the row-major parameter list. |
| SheetsImport.StripAll | app/infrastructure/integration/sheets_import.py:75 | One stripped name per header cell. |
| SheetsImport.ImportSource | app/infrastructure/integration/sheets_import.py:58-133 | The per-source body reports `SourceResult` and makes exactly the store calls `SourceCalls`. |
| SheetsImport.EmptyFetch | app/infrastructure/integration/sheets_import.py:70-72 | An empty fetch reports `(table, 0)` and makes no store call. |
| SheetsImport.BatchCount | app/infrastructure/integration/sheets_import.py:100-106 | A prepared batch reports its own size. The store is called exactly when the batch is non-empty. |
| SheetsImport.DeleteGuard | app/infrastructure/integration/sheets_import.py:100-133 | A delete is issued exactly when `delete_missing` is set and `prepared` is non-empty, and then only second, after the upsert. |
| SheetsImport.UpsertRowsFit | app/infrastructure/integration/sheets_import.py:88-106 | Every upserted row has every key column non-empty, and its keys are the statement's columns. |
| SheetsImport.AllCallsStep | app/infrastructure/integration/sheets_import.py:58-133 | Each source appends its own calls after those of the sources before it. |
| SheetsImport.ImportAll | app/infrastructure/integration/sheets_import.py:41-135 | One result per source, in order, each being that source's result. The store calls are those of the sources in turn. |

## Left out

- Network and storage I/O are outside the model. This covers the spreadsheet client
  (`open_worksheet`, authentication, `fetch_values`), the database connection and cursor,
  `executemany`, the async executor and connection pool, loading the sources file and
  the configuration, and logging. The worksheet is an in-memory grid with a call log.
  A query's result arrives as a parameter (`seq<DbRow>`), and so does each source's
  fetched values (`fetch`).
- `get_all_values` is modelled on the stored grid (`Worksheets.AllValues`): trailing
  empty cells and rows are left out, then every row is padded to the widest. What the
  service does with formulas, number formats and merged cells is not modelled; the
  stored text is what is read.
- A1 notation (`rowcol_to_a1`): ranges are numeric (row, column) pairs. The conversion
  raises for column 0; the model makes that a `false` result that ends the operation
  (`BatchWriting.WriteRowsFull`, `PartialPush.AppendRows`, `FullPush.PushFull`,
  `SheetMerge.PushPartial`).
- The values read from the database are already text (`Option<string>`). Python's
  `str()` of other types is not modelled.
- `float()` and `datetime.fromisoformat` in `_cast` are parameters (`Parsers`) that
  return `None` where Python raises. Their parsing is not modelled. A float is finite,
  NaN or an infinity (`PyFloat`), so the non-finite values `float()` returns for
  "nan", "inf" or "1e400" are representable.
- `int()` is modelled for an optional sign, ASCII decimal digits and single
  underscores between digits, with CPython's default limit of 4300 digits. Non-ASCII
  decimal digits, which Python also accepts, are not modelled, nor is a limit changed
  through `sys.set_int_max_str_digits`.
- Text.LowerChar: lower-casing is modelled for ASCII `A`-`Z` and the Cyrillic capitals
  U+0400-U+042F only. Every other mapping of Python's full-Unicode `str.lower` is not
  modelled, for example `É` to `é`, `Ґ` (U+0490) to `ґ`, and `İ` (U+0130) to the two
  characters `i` and U+0307.
- SheetsImport.NormalizeShape: the bound `len(_norm(s)) <= len(s)` holds for the
  lowering modelled here. Python's `_norm("İ")` has two characters, so the bound does
  not hold for full-Unicode `str.lower`.
- BulkUpsert.Upsert, SheetsImport.ImportSource, SheetsImport.ImportAll: these use the
  corrected `DO NOTHING` statement (see Findings). As written, a column map whose only
  destination columns are key columns fails in `executemany`
  (`bulk_upsert.py:25`). No `try` surrounds the per-source loop
  (`sheets_import.py:58-135`), so the exception escapes and the remaining sources are
  not imported. The model reports `(table, n)` for that source and goes on.
- BulkUpsert.BuildUpsertQuery, SheetsImport.ImportSource, SheetsImport.ImportAll: an
  empty key list (`"pk": []`) is not treated as an error. The conflict clause renders
  as `ON CONFLICT ()` and, with `delete_missing`, the delete has an empty key tuple.
  PostgreSQL rejects both, so `executemany` raises and the remaining sources are not
  imported. The model reports `(table, n)` for that source and goes on.
  `BulkUpsert.BuildUpsertAccepted` states which statements the store accepts.
- The dead branch at `sheets_import.py:109-110` is not modelled, since `prepared` is
  never empty at that point. The unused `row = data[r-1]` at `sheets_export.py:103` is
  not modelled either.
- The delete runs on a connection that the preceding `async with` block has already
  released (`sheets_import.py:104-132`). The model treats both calls as made on the
  same store.
- The text of the delete statement (`values_clause`, `join_cond`) is summarised by the
  `AntiJoinDelete` datatype: table, key columns, group count and parameters.
- `app/infrastructure/integration/sheets_sync.py` is not part of this model. It passes a
  ninth argument (`delete_missing`) to `push_partial`, which takes eight, so that call
  raises a `TypeError`.

## Findings

| source | as written | input that shows it | evidently intended | confidence | as-written member | corrected member |
|---|---|---|---|---|---|---|
| app/infrastructure/integration/bulk_upsert.py:13-15 | When every column is a key column, the conflict clause renders as `ON CONFLICT (pk) DO UPDATE SET NOTHING`, which PostgreSQL rejects as a syntax error | `_build_upsert_query("t", ["id"], ["id"])`, i.e. importing a sheet whose only mapped column is the primary key | `ON CONFLICT (pk) DO NOTHING` | not executed | BulkUpsert.SetListAsWrittenRejected, BulkUpsert.KeyOnlyRecordExample | BulkUpsert.BuildUpsertQuery |
