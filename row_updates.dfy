/** The update loop of `push_partial` (app/infrastructure/integration/sheets_export.py): one
    range update per staged row, and what it does to the sheet cell by cell. */
module RowUpdates {
  import opened Wrappers
  import opened Seqs
  import opened Dicts
  import opened Text
  import opened Worksheets
  import opened RowPatch
  import opened BatchWriting
  import opened FullPush
  import opened HeaderIndex
  import opened Staging

  // ---------------------------------------------------------------------------
  // Applying the staged updates

  /** The range update for one staged row: row `r`, from the leftmost to the rightmost
      column written, holding the copy of `current` with the pairs applied. */
  function UpdateOp(r: nat, cols: seq<(nat, string)>, current: seq<string>): Op
    requires cols != [] && Within(cols, |current|)
  {
    Op.Update(Block(r, MinCol(cols), r, MaxCol(cols)), [Overwrite(current, cols)[MinCol(cols) - 1 .. MaxCol(cols)]])
  }

  /** The range updates for all staged rows, in staging order. */
  function RowWrites(updates: Updates, data: Grid, width: nat): (ops: seq<Op>)
    requires UpdatesFit(updates, 1, |data|, width)
    ensures |ops| == |updates|
  {
    seq(|updates|, i requires 0 <= i < |updates| => StagedOp(updates[i], data, width))
  }

  /** The range update for one staged entry, on the row of `data` it names padded to
      the header's width. */
  function StagedOp(e: (nat, seq<(nat, string)>), data: Grid, width: nat): Op
    requires EntryFits(e, 1, |data|, width)
  {
    UpdateOp(e.0, e.1, Pad(data[e.0 - 1], width))
  }

  /** What one row update does to the grid: inside its span on row `r`, the cells of
      the patched row; everywhere else, nothing. */
  lemma UpdateOpCells(g: Grid, r: nat, cols: seq<(nat, string)>, current: seq<string>, rr: int, c: int)
    requires r >= 1 && cols != [] && Within(cols, |current|)
    ensures Cell(Replay(g, [UpdateOp(r, cols, current)]), rr, c) ==
      if rr == r && MinCol(cols) <= c <= MaxCol(cols) then Overwrite(current, cols)[c - 1] else Cell(g, rr, c)
  {
    var minC, maxC := MinCol(cols), MaxCol(cols);
    SpanWithin(cols, |current|);
    SpanCells(g, r, minC, maxC, Overwrite(current, cols), rr, c);
  }

  /** What cell `c` of the row of staged entry `e` shows once the entry is written:
      inside the span, the patched copy of the padded row; outside, what `g` shows. */
  function EntryCell(g: Grid, e: (nat, seq<(nat, string)>), data: Grid, width: nat, c: int): string
    requires EntryFits(e, 1, |data|, width)
  {
    if MinCol(e.1) <= c <= MaxCol(e.1) then Overwrite(Pad(data[e.0 - 1], width), e.1)[c - 1] else Cell(g, e.0, c)
  }

  /** One staged row update, cell by cell. */
  lemma StagedOpCells(g: Grid, e: (nat, seq<(nat, string)>), data: Grid, width: nat, rr: int, c: int)
    requires EntryFits(e, 1, |data|, width)
    ensures Cell(Replay(g, [StagedOp(e, data, width)]), rr, c) ==
      if rr == e.0 then EntryCell(g, e, data, width, c) else Cell(g, rr, c)
  {
    var current := Pad(data[e.0 - 1], width);
    assert StagedOp(e, data, width) == UpdateOp(e.0, e.1, current);
    UpdateOpCells(g, e.0, e.1, current, rr, c);
    if rr == e.0 {
      assert EntryCell(g, e, data, width, c) ==
        if MinCol(e.1) <= c <= MaxCol(e.1) then Overwrite(current, e.1)[c - 1] else Cell(g, e.0, c);
    }
  }

  lemma RowWritesSnoc(updates: Updates, data: Grid, width: nat)
    requires updates != [] && UpdatesFit(updates, 1, |data|, width)
    ensures var n := |updates| - 1;
      UpdatesFit(updates[..n], 1, |data|, width)
      && RowWrites(updates, data, width) == RowWrites(updates[..n], data, width) + [StagedOp(updates[n], data, width)]
  {
  }

  /** The grid after the row updates of all but the last entry, then the last one. */
  lemma RowWritesReplay(g: Grid, updates: Updates, data: Grid, width: nat)
    requires updates != [] && UpdatesFit(updates, 1, |data|, width)
    ensures var n := |updates| - 1;
      UpdatesFit(updates[..n], 1, |data|, width)
      && Replay(g, RowWrites(updates, data, width))
         == Replay(Replay(g, RowWrites(updates[..n], data, width)), [StagedOp(updates[n], data, width)])
  {
    var n := |updates| - 1;
    RowWritesSnoc(updates, data, width);
    ReplayAppend(g, RowWrites(updates[..n], data, width), [StagedOp(updates[n], data, width)]);
  }

  /** A sheet row with no staged entry keeps every cell through the row updates. */
  lemma {:induction false} RowWritesUntouched(g: Grid, updates: Updates, data: Grid, width: nat, rr: int, c: int)
    requires UpdatesFit(updates, 1, |data|, width)
    requires forall i :: 0 <= i < |updates| ==> updates[i].0 != rr
    ensures Cell(Replay(g, RowWrites(updates, data, width)), rr, c) == Cell(g, rr, c)
  {
    if updates != [] {
      var n := |updates| - 1;
      var pre := updates[..n];
      RowWritesReplay(g, updates, data, width);
      StagedOpCells(Replay(g, RowWrites(pre, data, width)), updates[n], data, width, rr, c);
      RowWritesUntouched(g, pre, data, width, rr, c);
    }
  }

  /** The last entry's row, when no earlier entry names it. */
  lemma RowWritesLast(g: Grid, updates: Updates, data: Grid, width: nat, c: int)
    requires UpdatesFit(updates, 1, |data|, width) && updates != []
    requires forall j :: 0 <= j < |updates| - 1 ==> updates[j].0 != updates[|updates| - 1].0
    ensures Cell(Replay(g, RowWrites(updates, data, width)), updates[|updates| - 1].0, c)
         == EntryCell(g, updates[|updates| - 1], data, width, c)
  {
    var n := |updates| - 1;
    var pre := updates[..n];
    var e := updates[n];
    var h := Replay(g, RowWrites(pre, data, width));
    RowWritesReplay(g, updates, data, width);
    assert Cell(h, e.0, c) == Cell(g, e.0, c) by {
      RowWritesUntouched(g, pre, data, width, e.0, c);
    }
    StagedOpCells(h, e, data, width, e.0, c);
  }

  /** A row the last entry does not name shows what the earlier entries left. */
  lemma RowWritesBefore(g: Grid, updates: Updates, data: Grid, width: nat, r: int, c: int)
    requires UpdatesFit(updates, 1, |data|, width) && updates != [] && updates[|updates| - 1].0 != r
    ensures UpdatesFit(updates[..|updates| - 1], 1, |data|, width)
    ensures Cell(Replay(g, RowWrites(updates, data, width)), r, c)
         == Cell(Replay(g, RowWrites(updates[..|updates| - 1], data, width)), r, c)
  {
    var n := |updates| - 1;
    RowWritesReplay(g, updates, data, width);
    StagedOpCells(Replay(g, RowWrites(updates[..n], data, width)), updates[n], data, width, r, c);
  }

  /** After the row updates, the row of entry `i` shows its patched copy across the
      span the entry writes and its old cells elsewhere, provided no other entry names
      that row (as no two entries of a dict do, StagedUpdatesDistinct). */
  lemma {:induction false} RowWritesEntry(g: Grid, updates: Updates, data: Grid, width: nat, i: nat, c: int)
    requires UpdatesFit(updates, 1, |data|, width) && i < |updates|
    requires forall j :: 0 <= j < |updates| && j != i ==> updates[j].0 != updates[i].0
    ensures Cell(Replay(g, RowWrites(updates, data, width)), updates[i].0, c) == EntryCell(g, updates[i], data, width, c)
  {
    var n := |updates| - 1;
    if i == n {
      RowWritesLast(g, updates, data, width, c);
    } else {
      var pre := updates[..n];
      assert pre[i] == updates[i];
      RowWritesBefore(g, updates, data, width, updates[i].0, c);
      RowWritesEntry(g, pre, data, width, i, c);
    }
  }

  /** Inside its row, an entry changes only the columns its pairs name, provided the
      padded row it copied shows what the grid shows on that row. */
  lemma EntryCellUnnamed(g: Grid, e: (nat, seq<(nat, string)>), data: Grid, width: nat, c: int)
    requires EntryFits(e, 1, |data|, width)
    requires var current := Pad(data[e.0 - 1], width);
      forall j :: 1 <= j <= |current| ==> current[j - 1] == Cell(g, e.0, j)
    requires forall i :: 0 <= i < |e.1| ==> e.1[i].0 != c
    ensures EntryCell(g, e, data, width, c) == Cell(g, e.0, c)
  {
    var current := Pad(data[e.0 - 1], width);
    if MinCol(e.1) <= c <= MaxCol(e.1) {
      assert 1 <= c <= |current| by {
        SpanWithin(e.1, width);
      }
      calc {
        EntryCell(g, e, data, width, c);
        Overwrite(current, e.1)[c - 1];
        { OverwriteUntouched(current, e.1, c - 1); }
        current[c - 1];
        Cell(g, e.0, c);
      }
    }
  }

  /** Inside the span, the cell is that of the patched copy. */
  lemma EntryCellSpan(g: Grid, e: (nat, seq<(nat, string)>), data: Grid, width: nat, c: int)
    requires EntryFits(e, 1, |data|, width) && MinCol(e.1) <= c <= MaxCol(e.1)
    ensures EntryCell(g, e, data, width, c) == Overwrite(Pad(data[e.0 - 1], width), e.1)[c - 1]
  {
    SpanWithin(e.1, width);
  }
}
