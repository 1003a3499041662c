/** The sheet side of `push_partial` (app/infrastructure/integration/sheets_export.py):
    `header_map`, the header extension, the padded rows and the key index. */
module HeaderIndex {
  import opened Wrappers
  import opened Seqs
  import opened Dicts
  import opened Text
  import opened Worksheets

  // ---------------------------------------------------------------------------
  // `header_map` and the header extension of `push_partial`

  /** `header_map(header)`: each name to its 0-based position; a name that occurs
      twice maps to its last position (HeaderMapFacts, HeaderMapLast). */
  function HeaderMap(header: seq<string>): map<string, nat> {
    if header == [] then map[]
    else
      var n := |header| - 1;
      HeaderMap(header[..n])[header[n] := n]
  }

  /** The map holds exactly the names of the header, each at a position holding it. */
  lemma {:induction false} HeaderMapFacts(header: seq<string>)
    ensures forall h :: h in HeaderMap(header) <==> h in header
    ensures forall h :: h in HeaderMap(header) ==> HeaderMap(header)[h] < |header| && header[HeaderMap(header)[h]] == h
  {
    if header != [] {
      var n := |header| - 1;
      HeaderMapFacts(header[..n]);
      assert forall h :: h in header <==> h in header[..n] || h == header[n];
    }
  }

  /** No later position holds the name: the last occurrence wins. */
  lemma {:induction false} HeaderMapLast(header: seq<string>, h: string, j: nat)
    requires h in HeaderMap(header) && HeaderMap(header)[h] < j < |header|
    ensures header[j] != h
  {
    var n := |header| - 1;
    if j < n {
      HeaderMapFacts(header[..n]);
      assert header[n] != h;
      assert header[..n][j] == header[j];
      HeaderMapLast(header[..n], h, j);
    }
  }

  /** Names that do not occur in `more` keep their position when `more` is appended. */
  lemma {:induction false} HeaderMapAppend(header: seq<string>, more: seq<string>, h: string)
    requires h in HeaderMap(header) && h !in more
    ensures h in HeaderMap(header + more) && HeaderMap(header + more)[h] == HeaderMap(header)[h]
  {
    if more != [] {
      var n := |more| - 1;
      assert (header + more)[..|header + more| - 1] == header + more[..n];
      HeaderMapAppend(header, more[..n], h);
    } else {
      assert header + more == header;
    }
  }

  /** The header after the loop adding the missing columns: each needed column not
      yet present goes to the right (ExtendedHeaderUnseen states the result plainly). */
  function ExtendedHeader(header: seq<string>, needed: seq<string>): (ext: seq<string>)
    ensures |ext| >= |header| && ext[..|header|] == header
  {
    if needed == [] then header
    else
      var n := |needed| - 1;
      var ext := ExtendedHeader(header, needed[..n]);
      if needed[n] in ext then ext else ext + [needed[n]]
  }

  /** The names a header holds. */
  function Names(header: seq<string>): set<string> {
    set h | h in header
  }

  /** The extended header is `header` followed by every needed column it lacks, once
      each, in order of first need: what `dict.fromkeys` keeps of the missing ones. */
  lemma {:induction false} ExtendedHeaderUnseen(header: seq<string>, needed: seq<string>)
    ensures ExtendedHeader(header, needed) == header + Unseen(needed, Names(header))
  {
    if needed == [] {
      assert header + [] == header;
    } else {
      var n := |needed| - 1;
      ExtendedHeaderUnseen(header, needed[..n]);
      var prev := Unseen(needed[..n], Names(header));
      assert needed[n] in header + prev <==> needed[n] in Names(header) || needed[n] in prev;
      assert (header + prev) + [needed[n]] == header + (prev + [needed[n]]);
    }
  }

  /** What the extension promises: the old header is a prefix and its names keep
      their positions; every needed column is in the map, at a position holding its
      name; the added columns are new, needed and distinct. */
  lemma ExtendedHeaderFacts(header: seq<string>, needed: seq<string>)
    ensures var ext := ExtendedHeader(header, needed); var hmap := HeaderMap(ext);
      && ext[..|header|] == header
      && (forall c :: c in needed ==> c in hmap && hmap[c] < |ext| && ext[hmap[c]] == c)
      && (forall h :: h in header ==> h in hmap && h in HeaderMap(header) && hmap[h] == HeaderMap(header)[h])
      && (forall j :: |header| <= j < |ext| ==> ext[j] in needed && ext[j] !in header)
      && NoDuplicates(ext[|header|..])
  {
    var more := Unseen(needed, Names(header));
    var ext := header + more;
    ExtendedHeaderUnseen(header, needed);
    assert ext[|header|..] == more;
    HeaderMapFacts(header);
    HeaderMapFacts(ext);
    forall h | h in header ensures h in HeaderMap(ext) && h in HeaderMap(header) && HeaderMap(ext)[h] == HeaderMap(header)[h] {
      HeaderMapAppend(header, more, h);
    }
    forall j | |header| <= j < |ext| ensures ext[j] in needed && ext[j] !in header {
      assert ext[j] == more[j - |header|];
    }
  }

  // ---------------------------------------------------------------------------
  // Padding and the sheet index of `push_partial`

  /** `row + [""] * (width - len(row))`: a row at least `width` cells wide. */
  function Pad(row: seq<string>, width: nat): (r: seq<string>)
    ensures |r| == Max(|row|, width)
  {
    if |row| < width then row + Blanks(width - |row|) else row
  }

  /** Padding adds only empty cells: the row shows the same text in every column. */
  lemma PadSameCells(row: seq<string>, width: nat, c: int)
    ensures Cell([Pad(row, width)], 1, c) == Cell([row], 1, c)
  {
  }

  /** `[r + [""] * (width - len(r)) for r in rows]`. */
  function PadAll(rows: Grid, width: nat): (padded: Grid)
    ensures |padded| == |rows|
  {
    seq(|rows|, i requires 0 <= i < |rows| => Pad(rows[i], width))
  }

  /** `key_tuple(row)`: the stripped cells of the key columns; a key column missing
      from the map or beyond the end of the row reads as `""`. */
  function KeyTuple(row: seq<string>, hmap: map<string, nat>, keyCols: seq<string>): (key: seq<string>)
    ensures |key| == |keyCols|
    ensures forall j :: 0 <= j < |keyCols| ==> Trimmed(key[j])
    ensures forall j :: 0 <= j < |keyCols| && (keyCols[j] !in hmap || hmap[keyCols[j]] >= |row|) ==> key[j] == ""
  {
    seq(|keyCols|, j requires 0 <= j < |keyCols| =>
      if keyCols[j] in hmap && hmap[keyCols[j]] < |row| then Strip(row[hmap[keyCols[j]]]) else "")
  }

  /** Padding a row does not change its key. */
  lemma KeyTuplePad(row: seq<string>, width: nat, hmap: map<string, nat>, keyCols: seq<string>)
    ensures KeyTuple(Pad(row, width), hmap, keyCols) == KeyTuple(row, hmap, keyCols)
  {
    var padded := Pad(row, width);
    forall j | 0 <= j < |keyCols|
      ensures KeyTuple(padded, hmap, keyCols)[j] == KeyTuple(row, hmap, keyCols)[j]
    {
      var k := keyCols[j];
      if k in hmap && |row| <= hmap[k] < |padded| {
        assert padded[hmap[k]] == "";
        assert Strip("") == "";
      } else if k in hmap && hmap[k] < |row| {
        assert padded[hmap[k]] == row[hmap[k]];
      }
    }
  }

  /** Each key to the 1-based sheet row of its last occurrence, the first key being
      on row 2. */
  function Positions<T>(keys: seq<T>): map<T, nat> {
    if keys == [] then map[]
    else
      var n := |keys| - 1;
      Positions(keys[..n])[keys[n] := n + 2]
  }

  /** The map holds exactly the keys; each maps to a position holding it, and no later
      position holds it. */
  lemma {:induction false} PositionsFacts<T>(keys: seq<T>, key: T)
    ensures key in Positions(keys) <==> key in keys
    ensures key in Positions(keys) ==>
      && 2 <= Positions(keys)[key] <= |keys| + 1
      && keys[Positions(keys)[key] - 2] == key
      && forall i :: Positions(keys)[key] - 2 < i < |keys| ==> keys[i] != key
  {
    if keys != [] {
      var n := |keys| - 1;
      var init := keys[..n];
      PositionsFacts(init, key);
      assert key in keys <==> key in init || key == keys[n];
      if key != keys[n] && key in init {
        var r := Positions(init)[key];
        assert keys[r - 2] == init[r - 2];
        forall i | r - 2 < i < |keys| ensures keys[i] != key {
          if i < n { assert keys[i] == init[i]; }
        }
      }
    }
  }

  /** The keys of the body rows, in sheet order. */
  function RowKeys(rows: Grid, hmap: map<string, nat>, keyCols: seq<string>): (keys: seq<seq<string>>)
    ensures |keys| == |rows|
  {
    seq(|rows|, i requires 0 <= i < |rows| => KeyTuple(rows[i], hmap, keyCols))
  }

  /** The index built over the body rows: each key to the sheet row holding it, the
      last such row when several do (PositionsFacts). */
  function SheetIndex(rows: Grid, hmap: map<string, nat>, keyCols: seq<string>): map<seq<string>, nat> {
    Positions(RowKeys(rows, hmap, keyCols))
  }

  /** One turn of the index loop. */
  lemma IndexStep(data: Grid, i: nat, width: nat, hmap: map<string, nat>, keyCols: seq<string>)
    requires 2 <= i <= |data|
    ensures SheetIndex(PadAll(data[1..i], width), hmap, keyCols)
         == SheetIndex(PadAll(data[1..i - 1], width), hmap, keyCols)[KeyTuple(Pad(data[i - 1], width), hmap, keyCols) := i]
  {
    var rows := PadAll(data[1..i - 1], width);
    var row := Pad(data[i - 1], width);
    assert PadAll(data[1..i], width) == rows + [row];
    RowKeysSnoc(rows, row, hmap, keyCols);
    PositionsSnoc(RowKeys(rows, hmap, keyCols), KeyTuple(row, hmap, keyCols));
  }

  /** The rows of `data` before position `n` padded, the header and the rest as read. */
  ghost predicate PaddedTo(padded: Grid, data: Grid, width: nat, n: nat) {
    && |padded| == |data| && data != [] && padded[0] == data[0]
    && (forall k :: 1 <= k < n && k < |data| ==> padded[k] == Pad(data[k], width))
    && (forall k :: n <= k < |data| && k >= 1 ==> padded[k] == data[k])
  }

  /** Padding row `i - 1` in place (when it is narrower than the header) moves the
      padded prefix on by one. */
  lemma PadStep(before: Grid, padded: Grid, data: Grid, width: nat, i: nat)
    requires 2 <= i <= |data| && PaddedTo(before, data, width, i - 1)
    requires |data[i - 1]| < width ==> padded == before[i - 1 := Pad(data[i - 1], width)]
    requires |data[i - 1]| >= width ==> padded == before
    ensures PaddedTo(padded, data, width, i)
  {
  }

  lemma PaddedShape(padded: Grid, data: Grid, width: nat)
    requires PaddedTo(padded, data, width, |data|)
    ensures padded == [data[0]] + PadAll(data[1..], width)
  {
  }

  lemma PositionsSnoc<T>(keys: seq<T>, key: T)
    ensures Positions(keys + [key]) == Positions(keys)[key := |keys| + 2]
  {
    assert (keys + [key])[..|keys|] == keys;
  }

  lemma RowKeysSnoc(rows: Grid, row: seq<string>, hmap: map<string, nat>, keyCols: seq<string>)
    ensures RowKeys(rows + [row], hmap, keyCols) == RowKeys(rows, hmap, keyCols) + [KeyTuple(row, hmap, keyCols)]
  {
  }
}
