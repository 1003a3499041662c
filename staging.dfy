/** The staging loop of `push_partial` (app/infrastructure/integration/sheets_export.py): query
    rows matched to sheet rows by key, the cells to update and the rows to append. */
module Staging {
  import opened Wrappers
  import opened Seqs
  import opened Dicts
  import opened Text
  import opened Worksheets
  import opened RowPatch
  import opened BatchWriting
  import opened FullPush
  import opened HeaderIndex

  // ---------------------------------------------------------------------------
  // Staging the updates and appends of `push_partial`

  /** The key of a query row: its key columns as text, `""` when missing or `NULL`.
      Unlike the sheet side (KeyTuple), the text is not stripped. */
  function DbKey(d: DbRow, keyCols: seq<string>): (key: seq<string>)
    ensures |key| == |keyCols|
  {
    seq(|keyCols|, j requires 0 <= j < |keyCols| => TextOf(d, keyCols[j]))
  }

  /** The (1-based column, text) pairs a matched query row contributes, one per write
      column, in `write_cols` order. */
  function WriteCells(d: DbRow, hmap: map<string, nat>, writeCols: seq<string>): (cells: seq<(nat, string)>)
    requires forall c :: c in writeCols ==> c in hmap
    ensures |cells| == |writeCols|
  {
    seq(|writeCols|, j requires 0 <= j < |writeCols| => (hmap[writeCols[j]] + 1, TextOf(d, writeCols[j])))
  }

  /** The staged updates: sheet row to the (column, text) pairs to write there. */
  type Updates = Dict<nat, seq<(nat, string)>>

  /** `updates[r].append(p)` for each pair `p` of `cells` in turn. */
  function Extend(u: Updates, r: nat, cells: seq<(nat, string)>): Updates {
    if cells == [] then u else Put(u, r, Get(u, r).GetOr([]) + cells)
  }

  lemma ExtendPush(u: Updates, r: nat, cells: seq<(nat, string)>, p: (nat, string))
    ensures Extend(u, r, cells + [p]) == Push(Extend(u, r, cells), r, p)
  {
    if cells != [] {
      var g := Get(u, r).GetOr([]);
      var e := Put(u, r, g + cells);
      assert Extend(u, r, cells) == e;
      assert Get(e, r) == Some(g + cells);
      assert Push(e, r, p) == Put(e, r, g + cells + [p]);
      PutPut(u, r, g + cells, g + cells + [p]);
      assert g + (cells + [p]) == g + cells + [p];
    } else {
      assert cells + [p] == [p];
    }
  }

  /** One more write column for the inner staging loop. */
  lemma WriteCellsStep(u: Updates, r: nat, d: DbRow, hmap: map<string, nat>, writeCols: seq<string>, j: nat)
    requires forall c :: c in writeCols ==> c in hmap
    requires j < |writeCols|
    ensures var cells := WriteCells(d, hmap, writeCols);
      Extend(u, r, cells[..j + 1]) == Push(Extend(u, r, cells[..j]), r, (hmap[writeCols[j]] + 1, TextOf(d, writeCols[j])))
  {
    var cells := WriteCells(d, hmap, writeCols);
    assert cells[..j + 1] == cells[..j] + [cells[j]];
    ExtendPush(u, r, cells[..j], cells[j]);
  }

  /** The row after `row[hmap[c]] = text of c` for each column `c` of `cols` in turn. */
  function Fill(row: seq<string>, cols: seq<string>, hmap: map<string, nat>, d: DbRow): (r: seq<string>)
    requires forall c :: c in cols ==> c in hmap && hmap[c] < |row|
    ensures |r| == |row|
  {
    if cols == [] then row
    else
      var n := |cols| - 1;
      Fill(row, cols[..n], hmap, d)[hmap[cols[n]] := TextOf(d, cols[n])]
  }

  /** A position no column of `cols` maps to keeps its cell. */
  lemma {:induction false} FillUntouched(row: seq<string>, cols: seq<string>, hmap: map<string, nat>, d: DbRow, j: nat)
    requires forall c :: c in cols ==> c in hmap && hmap[c] < |row|
    requires j < |row| && forall c :: c in cols ==> hmap[c] != j
    ensures Fill(row, cols, hmap, d)[j] == row[j]
  {
    if cols != [] {
      FillUntouched(row, cols[..|cols| - 1], hmap, d, j);
    }
  }

  /** The position of a column that no other column of `cols` shares holds that
      column's text. */
  lemma {:induction false} FillWritten(row: seq<string>, cols: seq<string>, hmap: map<string, nat>, d: DbRow, c: string)
    requires forall c :: c in cols ==> c in hmap && hmap[c] < |row|
    requires c in cols && forall c' :: c' in cols && hmap[c'] == hmap[c] ==> c' == c
    ensures Fill(row, cols, hmap, d)[hmap[c]] == TextOf(d, c)
  {
    var n := |cols| - 1;
    if cols[n] != c {
      assert c in cols[..n];
      FillWritten(row, cols[..n], hmap, d, c);
    }
  }

  /** The row appended for an unmatched query row: as wide as the header, holding the
      key and write columns. */
  function NewRow(d: DbRow, width: nat, hmap: map<string, nat>, keyCols: seq<string>, writeCols: seq<string>): (row: seq<string>)
    requires forall c :: c in keyCols + writeCols ==> c in hmap && hmap[c] < width
    ensures |row| == width
  {
    Fill(Blanks(width), keyCols + writeCols, hmap, d)
  }

  /** Cell `j` of an appended row: under a header whose last `c` column is at `j`, with
      `c` a key or write column, the query row's text for `c`; empty otherwise. */
  lemma NewRowCells(d: DbRow, header: seq<string>, keyCols: seq<string>, writeCols: seq<string>, j: nat)
    requires forall c :: c in keyCols + writeCols ==> c in HeaderMap(header) && HeaderMap(header)[c] < |header|
    requires j < |header|
    ensures NewRow(d, |header|, HeaderMap(header), keyCols, writeCols)[j] ==
        if header[j] in keyCols + writeCols && HeaderMap(header)[header[j]] == j then TextOf(d, header[j]) else ""
  {
    HeaderMapFacts(header);
    var hmap := HeaderMap(header);
    var cols := keyCols + writeCols;
    if header[j] in cols && hmap[header[j]] == j {
      FillWritten(Blanks(|header|), cols, hmap, d, header[j]);
    } else {
      forall c | c in cols ensures hmap[c] != j {
      }
      FillUntouched(Blanks(|header|), cols, hmap, d, j);
    }
  }

  /** The updates staged for the query rows, in query order: a row whose key is in the
      index adds its write cells to the sheet row the index gives. */
  function StagedUpdates(dbRows: seq<DbRow>, index: map<seq<string>, nat>, hmap: map<string, nat>,
                         keyCols: seq<string>, writeCols: seq<string>): Updates
    requires forall c :: c in writeCols ==> c in hmap
  {
    if dbRows == [] then []
    else
      var n := |dbRows| - 1;
      var u := StagedUpdates(dbRows[..n], index, hmap, keyCols, writeCols);
      var key := DbKey(dbRows[n], keyCols);
      if key in index then Extend(u, index[key], WriteCells(dbRows[n], hmap, writeCols)) else u
  }

  /** The rows staged for appending: one new row per query row whose key is not in the
      index, when appending is on. */
  function StagedAppends(dbRows: seq<DbRow>, index: map<seq<string>, nat>, hmap: map<string, nat>, width: nat,
                         keyCols: seq<string>, writeCols: seq<string>, appendMissing: bool): Grid
    requires forall c :: c in keyCols + writeCols ==> c in hmap && hmap[c] < width
  {
    if dbRows == [] then []
    else
      var n := |dbRows| - 1;
      StagedAppends(dbRows[..n], index, hmap, width, keyCols, writeCols, appendMissing)
      + if DbKey(dbRows[n], keyCols) !in index && appendMissing
        then [NewRow(dbRows[n], width, hmap, keyCols, writeCols)] else []
  }

  /** Filling the columns of `a` and then those of `b` is filling those of `a + b`. */
  lemma {:induction false} FillAppend(row: seq<string>, a: seq<string>, b: seq<string>, hmap: map<string, nat>, d: DbRow)
    requires forall c :: c in a + b ==> c in hmap && hmap[c] < |row|
    ensures Fill(row, a + b, hmap, d) == Fill(Fill(row, a, hmap, d), b, hmap, d)
  {
    if b == [] {
      assert a + b == a;
    } else {
      var n := |b| - 1;
      assert (a + b)[..|a + b| - 1] == a + b[..n];
      assert (a + b)[|a + b| - 1] == b[n];
      FillAppend(row, a, b[..n], hmap, d);
    }
  }

  /** One more query row for the staging loop: its cells go to the sheet row its key
      leads to, or, when the key is new and appending is on, it adds one new row. */
  lemma StagedStep(dbRows: seq<DbRow>, i: nat, index: map<seq<string>, nat>, hmap: map<string, nat>, width: nat,
                   keyCols: seq<string>, writeCols: seq<string>, appendMissing: bool)
    requires i < |dbRows|
    requires forall c :: c in keyCols + writeCols ==> c in hmap && hmap[c] < width
    ensures var key := DbKey(dbRows[i], keyCols);
      StagedUpdates(dbRows[..i + 1], index, hmap, keyCols, writeCols)
        == if key in index
           then Extend(StagedUpdates(dbRows[..i], index, hmap, keyCols, writeCols), index[key], WriteCells(dbRows[i], hmap, writeCols))
           else StagedUpdates(dbRows[..i], index, hmap, keyCols, writeCols)
    ensures StagedAppends(dbRows[..i + 1], index, hmap, width, keyCols, writeCols, appendMissing)
         == StagedAppends(dbRows[..i], index, hmap, width, keyCols, writeCols, appendMissing)
            + if DbKey(dbRows[i], keyCols) !in index && appendMissing
              then [NewRow(dbRows[i], width, hmap, keyCols, writeCols)] else []
  {
    assert forall c :: c in writeCols ==> c in keyCols + writeCols;
    assert dbRows[..i + 1][..i] == dbRows[..i];
    assert dbRows[..i + 1][i] == dbRows[i];
  }

  lemma FillSnoc(row: seq<string>, cols: seq<string>, c: string, hmap: map<string, nat>, d: DbRow)
    requires forall c' :: c' in cols + [c] ==> c' in hmap && hmap[c'] < |row|
    ensures Fill(row, cols + [c], hmap, d) == Fill(row, cols, hmap, d)[hmap[c] := TextOf(d, c)]
  {
    assert (cols + [c])[..|cols|] == cols;
  }

  /** The write cells a query row sends to sheet row `r`: all of them when its key
      leads there, none otherwise. */
  function CellsFor(d: DbRow, r: nat, index: map<seq<string>, nat>, hmap: map<string, nat>,
                    keyCols: seq<string>, writeCols: seq<string>): seq<(nat, string)>
    requires forall c :: c in writeCols ==> c in hmap
  {
    var key := DbKey(d, keyCols);
    if key in index && index[key] == r then WriteCells(d, hmap, writeCols) else []
  }

  /** Everything the query sends to sheet row `r`, in query order. */
  function CellsForRow(dbRows: seq<DbRow>, r: nat, index: map<seq<string>, nat>, hmap: map<string, nat>,
                       keyCols: seq<string>, writeCols: seq<string>): seq<(nat, string)>
    requires forall c :: c in writeCols ==> c in hmap
  {
    Flatten(seq(|dbRows|, i requires 0 <= i < |dbRows| => CellsFor(dbRows[i], r, index, hmap, keyCols, writeCols)))
  }

  lemma CellsForRowSnoc(dbRows: seq<DbRow>, r: nat, index: map<seq<string>, nat>, hmap: map<string, nat>,
                        keyCols: seq<string>, writeCols: seq<string>)
    requires dbRows != [] && forall c :: c in writeCols ==> c in hmap
    ensures var n := |dbRows| - 1;
      CellsForRow(dbRows, r, index, hmap, keyCols, writeCols)
        == CellsForRow(dbRows[..n], r, index, hmap, keyCols, writeCols) + CellsFor(dbRows[n], r, index, hmap, keyCols, writeCols)
  {
    var n := |dbRows| - 1;
    var all := seq(|dbRows|, i requires 0 <= i < |dbRows| => CellsFor(dbRows[i], r, index, hmap, keyCols, writeCols));
    var init := seq(n, i requires 0 <= i < n => CellsFor(dbRows[..n][i], r, index, hmap, keyCols, writeCols));
    assert all == init + [CellsFor(dbRows[n], r, index, hmap, keyCols, writeCols)];
    FlattenAppend(init, CellsFor(dbRows[n], r, index, hmap, keyCols, writeCols));
  }

  /** What `updates[r]` holds after staging: the write cells of every query row whose
      key the index maps to `r`, in query order, and no entry at all when there are
      none (as `defaultdict` creates an entry only on the first append). */
  lemma {:induction false} StagedUpdatesGet(dbRows: seq<DbRow>, index: map<seq<string>, nat>, hmap: map<string, nat>,
                                            keyCols: seq<string>, writeCols: seq<string>, r: nat)
    requires forall c :: c in writeCols ==> c in hmap
    ensures var cells := CellsForRow(dbRows, r, index, hmap, keyCols, writeCols);
      Get(StagedUpdates(dbRows, index, hmap, keyCols, writeCols), r) == if cells == [] then None else Some(cells)
  {
    if dbRows == [] {
      assert CellsForRow(dbRows, r, index, hmap, keyCols, writeCols) == Flatten([]);
    } else {
      var n := |dbRows| - 1;
      StagedUpdatesGet(dbRows[..n], index, hmap, keyCols, writeCols, r);
      CellsForRowSnoc(dbRows, r, index, hmap, keyCols, writeCols);
      var prev := CellsForRow(dbRows[..n], r, index, hmap, keyCols, writeCols);
      var u := StagedUpdates(dbRows[..n], index, hmap, keyCols, writeCols);
      var key := DbKey(dbRows[n], keyCols);
      if key in index && index[key] == r {
        var cells := WriteCells(dbRows[n], hmap, writeCols);
        assert Get(u, r).GetOr([]) == prev;
        if cells == [] {
          assert prev + cells == prev;
        }
      } else {
        assert prev + [] == prev;
      }
    }
  }

  /** A staged entry fits a sheet: it names a row between `lo` and `hi` and holds at
      least one pair, each with a column from 1 to `width`. */
  predicate EntryFits(e: (nat, seq<(nat, string)>), lo: int, hi: int, width: int) {
    && lo <= e.0 <= hi
    && e.1 != []
    && Within(e.1, width)
  }

  predicate UpdatesFit(u: Updates, lo: int, hi: int, width: int) {
    forall i :: 0 <= i < |u| ==> EntryFits(u[i], lo, hi, width)
  }

  lemma ExtendFits(u: Updates, r: nat, cells: seq<(nat, string)>, lo: int, hi: int, width: int)
    requires UpdatesFit(u, lo, hi, width) && lo <= r <= hi
    requires Within(cells, width)
    ensures UpdatesFit(Extend(u, r, cells), lo, hi, width)
  {
    if cells != [] {
      var prior := Get(u, r).GetOr([]);
      assert Within(prior, width) by {
        if Get(u, r).Some? {
          GetEntry(u, r);
          var j :| 0 <= j < |u| && u[j] == (r, prior);
          assert EntryFits(u[j], lo, hi, width);
        }
      }
      var v := prior + cells;
      assert Within(v, width) by {
        forall i | 0 <= i < |v| ensures 1 <= v[i].0 <= width {
          if i < |prior| { assert v[i] == prior[i]; } else { assert v[i] == cells[i - |prior|]; }
        }
      }
      assert EntryFits((r, v), lo, hi, width);
      var w := Put(u, r, v);
      forall i | 0 <= i < |w| ensures EntryFits(w[i], lo, hi, width) {
        PutEntry(u, r, v, i);
        if w[i] != (r, v) {
          var j :| 0 <= j < |u| && u[j] == w[i];
        }
      }
    }
  }

  /** The staged updates address body rows the index gives, and columns of the header. */
  lemma {:induction false} StagedUpdatesFit(dbRows: seq<DbRow>, index: map<seq<string>, nat>, hmap: map<string, nat>,
                                            keyCols: seq<string>, writeCols: seq<string>, hi: int, width: int)
    requires forall c :: c in writeCols ==> c in hmap && hmap[c] < width
    requires forall k :: k in index ==> 2 <= index[k] <= hi
    ensures UpdatesFit(StagedUpdates(dbRows, index, hmap, keyCols, writeCols), 2, hi, width)
  {
    if dbRows != [] {
      var n := |dbRows| - 1;
      StagedUpdatesFit(dbRows[..n], index, hmap, keyCols, writeCols, hi, width);
      var key := DbKey(dbRows[n], keyCols);
      if key in index {
        var cells := WriteCells(dbRows[n], hmap, writeCols);
        assert Within(cells, width) by {
          forall j | 0 <= j < |cells| ensures 1 <= cells[j].0 <= width {
            assert writeCols[j] in writeCols;
          }
        }
        ExtendFits(StagedUpdates(dbRows[..n], index, hmap, keyCols, writeCols), index[key], cells, 2, hi, width);
      }
    }
  }

  /** With appending off, nothing is appended. */
  lemma {:induction false} StagedAppendsOff(dbRows: seq<DbRow>, index: map<seq<string>, nat>, hmap: map<string, nat>,
                                            width: nat, keyCols: seq<string>, writeCols: seq<string>)
    requires forall c :: c in keyCols + writeCols ==> c in hmap && hmap[c] < width
    ensures StagedAppends(dbRows, index, hmap, width, keyCols, writeCols, false) == []
  {
    if dbRows != [] {
      StagedAppendsOff(dbRows[..|dbRows| - 1], index, hmap, width, keyCols, writeCols);
    }
  }

  /** Every appended row is the new row of a query row whose key the sheet lacks. */
  lemma {:induction false} StagedAppendsFrom(dbRows: seq<DbRow>, index: map<seq<string>, nat>, hmap: map<string, nat>,
                                             width: nat, keyCols: seq<string>, writeCols: seq<string>, appendMissing: bool, i: nat)
    requires forall c :: c in keyCols + writeCols ==> c in hmap && hmap[c] < width
    requires i < |StagedAppends(dbRows, index, hmap, width, keyCols, writeCols, appendMissing)|
    ensures |StagedAppends(dbRows, index, hmap, width, keyCols, writeCols, appendMissing)[i]| == width
    ensures exists k ::
      && 0 <= k < |dbRows|
      && DbKey(dbRows[k], keyCols) !in index
      && StagedAppends(dbRows, index, hmap, width, keyCols, writeCols, appendMissing)[i]
           == NewRow(dbRows[k], width, hmap, keyCols, writeCols)
  {
    var n := |dbRows| - 1;
    var init := dbRows[..n];
    var prev := StagedAppends(init, index, hmap, width, keyCols, writeCols, appendMissing);
    var appends := StagedAppends(dbRows, index, hmap, width, keyCols, writeCols, appendMissing);
    if i < |prev| {
      assert appends[i] == prev[i];
      StagedAppendsFrom(init, index, hmap, width, keyCols, writeCols, appendMissing, i);
      var k :| 0 <= k < |init| && DbKey(init[k], keyCols) !in index
        && prev[i] == NewRow(init[k], width, hmap, keyCols, writeCols);
      assert dbRows[k] == init[k];
    } else {
      assert DbKey(dbRows[n], keyCols) !in index && appends[i] == NewRow(dbRows[n], width, hmap, keyCols, writeCols);
    }
  }

  /** With appending on, every query row whose key the sheet lacks has its new row
      appended. */
  lemma {:induction false} StagedAppendsAll(dbRows: seq<DbRow>, index: map<seq<string>, nat>, hmap: map<string, nat>,
                                            width: nat, keyCols: seq<string>, writeCols: seq<string>, k: nat)
    requires forall c :: c in keyCols + writeCols ==> c in hmap && hmap[c] < width
    requires k < |dbRows| && DbKey(dbRows[k], keyCols) !in index
    ensures NewRow(dbRows[k], width, hmap, keyCols, writeCols) in StagedAppends(dbRows, index, hmap, width, keyCols, writeCols, true)
  {
    var n := |dbRows| - 1;
    var init := dbRows[..n];
    var prev := StagedAppends(init, index, hmap, width, keyCols, writeCols, true);
    var row := NewRow(dbRows[k], width, hmap, keyCols, writeCols);
    var tail := if DbKey(dbRows[n], keyCols) !in index then [NewRow(dbRows[n], width, hmap, keyCols, writeCols)] else [];
    assert StagedAppends(dbRows, index, hmap, width, keyCols, writeCols, true) == prev + tail;
    if k < n {
      assert dbRows[k] == init[k];
      StagedAppendsAll(init, index, hmap, width, keyCols, writeCols, k);
      assert row in prev;
    } else {
      assert tail == [row];
    }
  }

  /** Staging never gives a sheet row two entries. */
  lemma {:induction false} StagedUpdatesDistinct(dbRows: seq<DbRow>, index: map<seq<string>, nat>, hmap: map<string, nat>,
                                                 keyCols: seq<string>, writeCols: seq<string>)
    requires forall c :: c in writeCols ==> c in hmap
    ensures NoDuplicates(Keys(StagedUpdates(dbRows, index, hmap, keyCols, writeCols)))
  {
    if dbRows != [] {
      var n := |dbRows| - 1;
      var u := StagedUpdates(dbRows[..n], index, hmap, keyCols, writeCols);
      StagedUpdatesDistinct(dbRows[..n], index, hmap, keyCols, writeCols);
      var key := DbKey(dbRows[n], keyCols);
      if key in index {
        var cells := WriteCells(dbRows[n], hmap, writeCols);
        if cells != [] {
          PutDistinct(u, index[key], Get(u, index[key]).GetOr([]) + cells);
        }
      }
    }
  }
}
