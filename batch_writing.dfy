/** Batched range writes (app/infrastructure/integration/sheets_export.py): `_chunks`, the
    batch loop and `write_rows_full`. Ranges stay numeric (row, column) pairs; the
    worksheet is the grid-and-log model of Worksheets. */
module BatchWriting {
  import opened Wrappers
  import opened Seqs
  import opened Dicts
  import opened Text
  import opened Worksheets

  /** The number of rows sent in one range update. */
  const BatchSize: nat := 500

  // ---------------------------------------------------------------------------
  // `_chunks`

  /** `list(_chunks(s, size))`: consecutive slices of `size` elements, the last one
      possibly shorter. */
  function Chunks<T>(s: seq<T>, size: nat): seq<seq<T>>
    requires size > 0
    decreases |s|
  {
    if s == [] then []
    else if |s| <= size then [s]
    else [s[..size]] + Chunks(s[size..], size)
  }

  /** Concatenating the chunks gives the sequence back. */
  lemma {:induction false} ChunksFlatten<T>(s: seq<T>, size: nat)
    requires size > 0
    ensures Flatten(Chunks(s, size)) == s
    decreases |s|
  {
    if s != [] && |s| > size {
      ChunksFlatten(s[size..], size);
      assert s == s[..size] + s[size..];
    } else if s != [] {
      assert Flatten([s]) == s + Flatten([]);
    }
  }

  /** Every chunk holds between 1 and `size` elements, and every chunk but the last
      holds exactly `size`. */
  lemma {:induction false} ChunksSizes<T>(s: seq<T>, size: nat, i: nat)
    requires size > 0 && i < |Chunks(s, size)|
    ensures 0 < |Chunks(s, size)[i]| <= size
    ensures i < |Chunks(s, size)| - 1 ==> |Chunks(s, size)[i]| == size
    decreases |s|
  {
    if |s| > size && i > 0 {
      ChunksSizes(s[size..], size, i - 1);
    }
  }

  /** The elements before chunk `i` are `i` full chunks. */
  lemma {:induction false} ChunksPrefix<T>(s: seq<T>, size: nat, i: nat)
    requires size > 0 && i <= |Chunks(s, size)|
    ensures |Flatten(Chunks(s, size)[..i])| == i * size || i == |Chunks(s, size)|
    ensures i < |Chunks(s, size)| ==> |Flatten(Chunks(s, size)[..i])| == i * size
    decreases |s|
  {
    var cs := Chunks(s, size);
    if i > 0 && |s| > size {
      ChunksPrefix(s[size..], size, i - 1);
      assert cs[..i] == [s[..size]] + Chunks(s[size..], size)[..i - 1];
      assert Flatten(cs[..i]) == s[..size] + Flatten(Chunks(s[size..], size)[..i - 1]);
      assert i * size == size + (i - 1) * size;
    } else if i == 0 {
      assert cs[..0] == [];
    }
  }

  /** Every element of a chunk is an element of the sequence. */
  lemma {:induction false} ChunksMembers<T>(s: seq<T>, size: nat, i: nat, x: T)
    requires size > 0 && i < |Chunks(s, size)| && x in Chunks(s, size)[i]
    ensures x in s
    decreases |s|
  {
    if |s| > size {
      if i == 0 {
        assert x in s[..size];
      } else {
        ChunksMembers(s[size..], size, i - 1, x);
      }
    }
  }

  // ---------------------------------------------------------------------------
  // `write_rows_full`

  /** The range updates of the batch loop: chunk after chunk, each written as the
      block of rows starting at `start` plus the rows already written, columns
      `1..width`. */
  function BatchWrites(chunks: seq<Grid>, start: int, width: int): seq<Op> {
    if chunks == [] then []
    else
      [Op.Update(Block(start, 1, start + |chunks[0]| - 1, width), chunks[0])]
      + BatchWrites(chunks[1..], start + |chunks[0]|, width)
  }

  lemma {:induction false} BatchWritesAppend(chunks: seq<Grid>, chunk: Grid, start: int, width: int)
    ensures BatchWrites(chunks + [chunk], start, width)
         == BatchWrites(chunks, start, width)
            + [Op.Update(Block(start + |Flatten(chunks)|, 1, start + |Flatten(chunks)| + |chunk| - 1, width), chunk)]
  {
    if chunks != [] {
      assert (chunks + [chunk])[1..] == chunks[1..] + [chunk];
      BatchWritesAppend(chunks[1..], chunk, start + |chunks[0]|, width);
    }
  }

  /** Batch `i` covers the rows right after those of the batches before it, and
      columns `1..width`. */
  lemma {:induction false} BatchWritesRanges(chunks: seq<Grid>, start: int, width: int, i: nat)
    requires i < |chunks|
    ensures |BatchWrites(chunks, start, width)| == |chunks|
    ensures BatchWrites(chunks, start, width)[i]
         == Op.Update(Block(start + |Flatten(chunks[..i])|, 1, start + |Flatten(chunks[..i])| + |chunks[i]| - 1, width), chunks[i])
  {
    if i == 0 {
      BatchWritesLength(chunks, start, width);
      assert chunks[..0] == [];
    } else {
      BatchWritesRanges(chunks[1..], start + |chunks[0]|, width, i - 1);
      assert chunks[..i] == [chunks[0]] + chunks[1..][..i - 1];
    }
  }

  lemma {:induction false} BatchWritesLength(chunks: seq<Grid>, start: int, width: int)
    ensures |BatchWrites(chunks, start, width)| == |chunks|
  {
    if chunks != [] {
      BatchWritesLength(chunks[1..], start + |chunks[0]|, width);
    }
  }

  /** Replaying the batch writes is writing the first chunk, then replaying the rest. */
  lemma BatchWritesStep(g: Grid, chunks: seq<Grid>, start: int, width: int)
    requires start >= 1 && chunks != []
    ensures Replay(g, BatchWrites(chunks, start, width))
         == Replay(Write(g, start - 1, 0, chunks[0]), BatchWrites(chunks[1..], start + |chunks[0]|, width))
  {
    var op := Op.Update(Block(start, 1, start + |chunks[0]| - 1, width), chunks[0]);
    var rest := BatchWrites(chunks[1..], start + |chunks[0]|, width);
    ReplayAppend(g, [op], rest);
    assert [op] + rest == BatchWrites(chunks, start, width);
    ReplayOne(g, op);
  }

  /** The cell (`r`, `c`) once `rows` are written from row `start` over `g`. */
  function Stacked(g: Grid, rows: Grid, start: int, r: int, c: int): string {
    if start <= r < start + |rows| && 1 <= c <= |rows[r - start]| then rows[r - start][c - 1]
    else Cell(g, r, c)
  }

  /** Writing one chunk, then the rows after it, stacks them all. */
  lemma StackedStep(g: Grid, chunk: Grid, tail: Grid, start: int, r: int, c: int)
    requires start >= 1
    ensures Stacked(Write(g, start - 1, 0, chunk), tail, start + |chunk|, r, c) == Stacked(g, chunk + tail, start, r, c)
  {
    WriteCell(g, start - 1, 0, chunk, r, c);
    if start <= r < start + |chunk| {
      assert (chunk + tail)[r - start] == chunk[r - start];
    } else if start + |chunk| <= r < start + |chunk| + |tail| {
      assert (chunk + tail)[r - start] == tail[r - start - |chunk|];
    }
  }

  /** One step of BatchWritesCells: from what the later batches leave over the first
      chunk's write to what all the batches leave. */
  lemma BatchWritesCellsStep(g: Grid, chunks: seq<Grid>, start: int, width: int, r: int, c: int)
    requires start >= 1 && chunks != []
    requires Cell(Replay(Write(g, start - 1, 0, chunks[0]), BatchWrites(chunks[1..], start + |chunks[0]|, width)), r, c)
          == Stacked(Write(g, start - 1, 0, chunks[0]), Flatten(chunks[1..]), start + |chunks[0]|, r, c)
    ensures Cell(Replay(g, BatchWrites(chunks, start, width)), r, c) == Stacked(g, Flatten(chunks), start, r, c)
  {
    var g1 := Write(g, start - 1, 0, chunks[0]);
    var tail := Flatten(chunks[1..]);
    assert Replay(g, BatchWrites(chunks, start, width)) == Replay(g1, BatchWrites(chunks[1..], start + |chunks[0]|, width)) by {
      BatchWritesStep(g, chunks, start, width);
    }
    assert Stacked(g1, tail, start + |chunks[0]|, r, c) == Stacked(g, chunks[0] + tail, start, r, c) by {
      StackedStep(g, chunks[0], tail, start, r, c);
    }
    assert Flatten(chunks) == chunks[0] + tail;
  }

  /** What the batch writes leave in the grid: the rows of the chunks, one after the
      other from row `start`, over what was there; nothing else changes. */
  lemma {:induction false} BatchWritesCells(g: Grid, chunks: seq<Grid>, start: int, width: int, r: int, c: int)
    requires start >= 1
    ensures Cell(Replay(g, BatchWrites(chunks, start, width)), r, c) == Stacked(g, Flatten(chunks), start, r, c)
    decreases chunks
  {
    if chunks != [] {
      BatchWritesCells(Write(g, start - 1, 0, chunks[0]), chunks[1..], start + |chunks[0]|, width, r, c);
      BatchWritesCellsStep(g, chunks, start, width, r, c);
    } else {
      assert BatchWrites(chunks, start, width) == [] && Flatten(chunks) == [];
      assert Replay(g, []) == g;
    }
  }

  /** The batch writes of the first `i + 1` chunks: those of the first `i`, then
      chunk `i` on the rows right after theirs. */
  lemma BatchWritesPrefix(chunks: seq<Grid>, i: nat, start: int, width: int)
    requires i < |chunks|
    ensures |Flatten(chunks[..i + 1])| == |Flatten(chunks[..i])| + |chunks[i]|
    ensures BatchWrites(chunks[..i + 1], start, width)
         == BatchWrites(chunks[..i], start, width)
            + [Op.Update(Block(start + |Flatten(chunks[..i])|, 1, start + |Flatten(chunks[..i])| + |chunks[i]| - 1, width), chunks[i])]
  {
    assert chunks[..i + 1] == chunks[..i] + [chunks[i]];
    FlattenAppend(chunks[..i], chunks[i]);
    BatchWritesAppend(chunks[..i], chunks[i], start, width);
  }

  /** One `ws.update` of the batch loops: chunk `i` of `rows` as the block from row
      `startRow`, columns `1..width`, right after the rows of the chunks before it. */
  method WriteChunk(ws: Worksheet, rows: Grid, i: nat, start: int, startRow: int, width: int, ghost before: seq<Op>)
    requires ws.Valid() && i < |Chunks(rows, BatchSize)| && start >= 1 && width >= 1
    requires forall j :: 0 <= j < |rows| ==> |rows[j]| <= width
    requires startRow == start + |Flatten(Chunks(rows, BatchSize)[..i])|
    requires ws.log == before + BatchWrites(Chunks(rows, BatchSize)[..i], start, width)
    modifies ws
    ensures ws.Valid() && ws.initial == old(ws.initial)
    ensures startRow + |Chunks(rows, BatchSize)[i]| == start + |Flatten(Chunks(rows, BatchSize)[..i + 1])|
    ensures ws.log == before + BatchWrites(Chunks(rows, BatchSize)[..i + 1], start, width)
  {
    var chunk := Chunks(rows, BatchSize)[i];
    ChunksSizes(rows, BatchSize, i);
    var endRow := startRow + |chunk| - 1;
    assert Fits(Block(startRow, 1, endRow, width), chunk) by {
      forall j | 0 <= j < |chunk| ensures |chunk[j]| <= width {
        ChunksMembers(rows, BatchSize, i, chunk[j]);
      }
    }
    BatchWritesPrefix(Chunks(rows, BatchSize), i, start, width);
    ws.Update(Block(startRow, 1, endRow, width), chunk);
  }

  /** The calls of `write_rows_full(ws, header, rows)` when it completes: the header on
      row 1, then the rows in batches of 500 from row 2. */
  function FullWrites(header: seq<string>, rows: Grid): seq<Op> {
    [Op.Update(Rows(1, 1), [header])] + BatchWrites(Chunks(rows, BatchSize), 2, |header|)
  }

  /** `write_rows_full(ws, header, rows)`. `ok` is false where `rowcol_to_a1` raises:
      a batch to write under an empty header ends in column 0. */
  method WriteRowsFull(ws: Worksheet, header: seq<string>, rows: Grid) returns (ok: bool)
    requires ws.Valid()
    requires forall i :: 0 <= i < |rows| ==> |rows[i]| <= |header|
    modifies ws
    ensures ws.Valid() && ws.initial == old(ws.initial)
    ensures ok <==> rows == [] || |header| > 0
    ensures ok ==> ws.log == old(ws.log) + FullWrites(header, rows)
    ensures !ok ==> ws.log == old(ws.log) + [Op.Update(Rows(1, 1), [header])]
  {
    ws.Update(Rows(1, 1), [header]);
    ghost var before := ws.log;
    var chunks := Chunks(rows, BatchSize);
    if rows == [] {
      assert chunks == [];
      return true;
    }
    var startRow := 2;
    for i := 0 to |chunks|
      invariant ws.Valid() && ws.initial == old(ws.initial)
      invariant startRow == 2 + |Flatten(chunks[..i])|
      invariant ws.log == before + BatchWrites(chunks[..i], 2, |header|)
      invariant |header| == 0 ==> i == 0
    {
      var chunk := chunks[i];
      var endRow := startRow + |chunk| - 1;
      var endCol := |header|;
      if endCol < 1 {
        assert chunks[..0] == [];
        return false;
      }
      WriteChunk(ws, rows, i, 2, startRow, endCol, before);
      startRow := endRow + 1;
    }
    assert chunks[..|chunks|] == chunks;
    ok := true;
  }

  /** The ranges `write_rows_full` writes: the header on row 1 alone; batch `i` on rows
      `2 + 500 i` to `2 + 500 i + len(chunk) - 1` and columns `1..len(header)`; each
      batch starting on the row after the previous one ends; the last ending on row
      `len(rows) + 1`. */
  lemma WriteRowsRanges(header: seq<string>, rows: Grid, i: nat)
    requires i < |Chunks(rows, BatchSize)|
    ensures var ops := FullWrites(header, rows); var chunks := Chunks(rows, BatchSize);
      && |ops| == 1 + |chunks|
      && ops[0] == Op.Update(Rows(1, 1), [header])
      && ops[i + 1] == Op.Update(Block(2 + BatchSize * i, 1, 1 + BatchSize * i + |chunks[i]|, |header|), chunks[i])
      && (i + 1 < |chunks| ==> |chunks[i]| == BatchSize)
      && (i + 1 == |chunks| ==> 1 + BatchSize * i + |chunks[i]| == |rows| + 1)
  {
    var chunks := Chunks(rows, BatchSize);
    BatchWritesRanges(chunks, 2, |header|, i);
    ChunksPrefix(rows, BatchSize, i);
    ChunksSizes(rows, BatchSize, i);
    if i + 1 < |chunks| {
      BatchWritesRanges(chunks, 2, |header|, i + 1);
      ChunksPrefix(rows, BatchSize, i + 1);
    } else {
      ChunksFlatten(rows, BatchSize);
      assert chunks[..i + 1] == chunks;
      FlattenAppend(chunks[..i], chunks[i]);
      assert chunks[..i] + [chunks[i]] == chunks;
    }
  }

  /** With no rows, `write_rows_full` writes the header row and nothing else. */
  lemma WriteRowsEmpty(header: seq<string>)
    ensures FullWrites(header, []) == [Op.Update(Rows(1, 1), [header])]
  {
  }

  /** What `write_rows_full` leaves in the grid: the header across row 1 and the rows
      below it; every cell outside those stays as it was. */
  lemma FullWritesCells(g: Grid, header: seq<string>, rows: Grid, r: int, c: int)
    ensures Cell(Replay(g, FullWrites(header, rows)), r, c) ==
      if (r == 1 && 1 <= c <= |header|) || (2 <= r <= |rows| + 1 && 1 <= c <= |rows[r - 2]|)
      then Cell([header] + rows, r, c)
      else Cell(g, r, c)
  {
    var first := [Op.Update(Rows(1, 1), [header])];
    var batches := BatchWrites(Chunks(rows, BatchSize), 2, |header|);
    ReplayAppend(g, first, batches);
    assert first[..0] == [];
    var g1 := Write(g, 0, 0, [header]);
    assert Replay(g, first) == g1;
    ChunksFlatten(rows, BatchSize);
    BatchWritesCells(g1, Chunks(rows, BatchSize), 2, |header|, r, c);
    WriteCell(g, 0, 0, [header], r, c);
  }
}
