/** Pulling a sheet into a table (app/infrastructure/integration/sheets_import.py):
    header normalisation, per-cell type coercion, row-to-record mapping, and the
    per-source preparation that feeds the bulk upsert and the anti-join delete. */
module SheetsImport {
  import opened Wrappers
  import opened Seqs
  import opened Dicts
  import opened Text
  import BulkUpsert

  /** A sheet row as fetched: text cells, possibly shorter than the header. */
  type Row = seq<string>

  /** What `datetime.fromisoformat` produces, field by field. */
  datatype DateTime = DateTime(
    year: int, month: int, day: int,
    hour: int, minute: int, second: int, microsecond: int,
    utcOffsetMinutes: Option<int>)

  /** A typed cell of a record bound for the relational store; `Null` is Python's `None`. */
  datatype Value =
    | Null
    | Str(s: string)
    | Int(n: int)
    | Float(f: PyFloat)
    | Bool(b: bool)
    | Stamp(t: DateTime)

  /** What Python's `float(text)` returns: a finite number, or one of the non-finite
      values it reads from "nan", "inf", "-Infinity" or an out-of-range text such as
      "1e400". */
  datatype PyFloat = Finite(x: real) | NaN | Infinity(negative: bool)

  /** A record keyed by destination column, in insertion order. */
  type Record = Dict<string, Value>

  /** The library parsers the model does not look inside: `float(text)` and
      `datetime.fromisoformat(text)`, each `None` where Python raises. */
  datatype Parsers = Parsers(float: string -> Option<PyFloat>, timestamp: string -> Option<DateTime>)

  // ---------------------------------------------------------------------------
  // Header normalisation

  /** `_norm(s)`: strip, lower-case, and turn every space into an underscore. */
  function Normalize(s: string): string {
    ReplaceChar(Lower(Strip(s)), ' ', '_')
  }

  /** A normalised name holds no space, does not start or end with whitespace, and is
      no longer than the original. */
  lemma NormalizeShape(s: string)
    ensures ' ' !in Normalize(s)
    ensures Trimmed(Normalize(s))
    ensures |Normalize(s)| <= |s|
  {
    var t := Strip(s);
    var n := Normalize(s);
    assert n == ReplaceChar(Lower(t), ' ', '_');
    assert ' ' !in n by {
      forall i | 0 <= i < |n| ensures n[i] != ' ' { }
    }
    if t != [] {
      NormalizeEnd(t, 0);
      NormalizeEnd(t, |t| - 1);
      assert !IsSpace(n[0]) && !IsSpace(n[|n| - 1]);
    } else {
      assert n == [];
    }
  }

  /** A non-whitespace character stays non-whitespace through lowering and the
      space-to-underscore replacement. */
  lemma NormalizeEnd(t: string, i: nat)
    requires i < |t| && !IsSpace(t[i])
    ensures !IsSpace(ReplaceChar(Lower(t), ' ', '_')[i])
  {
    LowerCharSpace(t[i]);
    assert Lower(t)[i] == LowerChar(t[i]);
  }

  /** Normalising a normalised header changes nothing. */
  lemma NormalizeIdempotent(s: string)
    ensures Normalize(Normalize(s)) == Normalize(s)
  {
    var n := Normalize(s);
    NormalizeShape(s);
    NormalizedIsLower(s);
    LowerFixed(n);
    ReplaceAbsent(n, ' ', '_');
    StripTrimmed(n);
    assert Lower(Strip(n)) == n;
  }

  lemma NormalizedIsLower(s: string)
    ensures var n := Normalize(s); forall i :: 0 <= i < |n| ==> LowerChar(n[i]) == n[i]
  {
    var n := Normalize(s);
    var low := Lower(Strip(s));
    forall i | 0 <= i < |n| ensures LowerChar(n[i]) == n[i] {
      if low[i] == ' ' {
        assert n[i] == '_';
      } else {
        assert n[i] == low[i] == LowerChar(Strip(s)[i]);
        LowerCharIdempotent(Strip(s)[i]);
      }
    }
  }

  // ---------------------------------------------------------------------------
  // Integers as Python's `int(text)` reads and `str(n)` writes them

  predicate IsDigit(c: char) { '0' <= c <= '9' }

  /** The body of a decimal integer after its sign: digits, with single underscores
      allowed between two digits. */
  predicate DigitGroups(s: string) {
    && |s| > 0 && IsDigit(s[0]) && IsDigit(s[|s| - 1])
    && (forall i :: 0 <= i < |s| ==> IsDigit(s[i]) || s[i] == '_')
    && (forall i :: 0 <= i < |s| - 1 ==> !(s[i] == '_' && s[i + 1] == '_'))
  }

  /** The number the digits of `s` spell, underscores ignored. */
  function DigitsValue(s: string): nat {
    if s == [] then 0
    else if IsDigit(s[|s| - 1]) then 10 * DigitsValue(s[..|s| - 1]) + (s[|s| - 1] as int - '0' as int)
    else DigitsValue(s[..|s| - 1])
  }

  /** CPython's default `sys.int_max_str_digits`: `int(text)` raises `ValueError` for
      a decimal text holding more digits than this. */
  const MaxStrDigits := 4300

  /** How many digits `s` holds, underscores not counted. */
  function DigitCount(s: string): (n: nat)
    ensures n <= |s|
  {
    if s == [] then 0 else DigitCount(s[..|s| - 1]) + (if IsDigit(s[|s| - 1]) then 1 else 0)
  }

  /** The unsigned part of `int(s)`: `None` unless `s` is digit groups of at most
      `MaxStrDigits` digits. */
  function ParseUnsigned(s: string): Option<nat> {
    if DigitGroups(s) && DigitCount(s) <= MaxStrDigits then Some(DigitsValue(s)) else None
  }

  /** `int(s)` on an already stripped string; `None` where Python raises `ValueError`. */
  function ParseInt(s: string): Option<int> {
    if |s| > 0 && (s[0] == '+' || s[0] == '-') then
      match ParseUnsigned(s[1..])
      case Some(m) => Some(if s[0] == '-' then -(m as int) else m as int)
      case None => None
    else
      match ParseUnsigned(s)
      case Some(m) => Some(m as int)
      case None => None
  }

  function DigitChar(d: nat): (c: char)
    requires d < 10
    ensures IsDigit(c) && c as int - '0' as int == d
  {
    (d + '0' as int) as char
  }

  /** `str(n)` for an integer. */
  function ShowNat(n: nat): (s: string)
    ensures |s| > 0 && forall i :: 0 <= i < |s| ==> IsDigit(s[i])
  {
    if n < 10 then [DigitChar(n)] else ShowNat(n / 10) + [DigitChar(n % 10)]
  }

  function ShowInt(n: int): string {
    if n < 0 then "-" + ShowNat(-n) else ShowNat(n)
  }

  lemma {:induction false} DigitsValueShowNat(n: nat)
    ensures DigitsValue(ShowNat(n)) == n
  {
    if n >= 10 {
      var s := ShowNat(n);
      assert s[..|s| - 1] == ShowNat(n / 10);
      DigitsValueShowNat(n / 10);
    }
  }

  lemma {:induction false} DigitCountDigits(s: string)
    requires forall i :: 0 <= i < |s| ==> IsDigit(s[i])
    ensures DigitCount(s) == |s|
  {
    if s != [] {
      DigitCountDigits(s[..|s| - 1]);
    }
  }

  /** `int()` reads back `str(n)` of a natural number exactly when it has at most
      `MaxStrDigits` digits, and raises otherwise. */
  lemma ParseShowNat(n: nat)
    ensures ParseUnsigned(ShowNat(n)) == if |ShowNat(n)| <= MaxStrDigits then Some(n) else None
  {
    DigitsValueShowNat(n);
    DigitCountDigits(ShowNat(n));
    assert DigitGroups(ShowNat(n));
  }

  function Pow10(k: nat): (p: nat)
    ensures p >= 1
  {
    if k == 0 then 1 else 10 * Pow10(k - 1)
  }

  /** `str(n)` has at most `k` digits exactly when `n < 10^k`. */
  lemma {:induction false} ShowNatLength(n: nat, k: nat)
    requires k >= 1
    ensures |ShowNat(n)| <= k <==> n < Pow10(k)
  {
    if n < 10 {
      if k > 1 {
        ShowNatLength(n, k - 1);
      }
    } else if k == 1 {
      assert |ShowNat(n)| == |ShowNat(n / 10)| + 1;
    } else {
      ShowNatLength(n / 10, k - 1);
      assert |ShowNat(n)| == |ShowNat(n / 10)| + 1;
      assert n / 10 < Pow10(k - 1) <==> n < 10 * Pow10(k - 1);
    }
  }

  /** The integers `int()` reads and `str()` writes: fewer than 10^4300 in magnitude. */
  predicate WithinDigitLimit(n: int) {
    |ShowNat(if n < 0 then -n else n)| <= MaxStrDigits
  }

  lemma WithinDigitLimitBound(n: int)
    ensures WithinDigitLimit(n) <==> -(Pow10(MaxStrDigits) as int) < n < Pow10(MaxStrDigits)
  {
    ShowNatLength(if n < 0 then -n else n, MaxStrDigits);
  }

  /** Reading back the text of an integer gives the integer, within the digit limit;
      beyond it `int()` raises. */
  lemma ParseShowInt(n: int)
    ensures ParseInt(ShowInt(n)) == if WithinDigitLimit(n) then Some(n) else None
  {
    var t := ShowInt(n);
    if n < 0 {
      ParseShowNat(-n);
      assert t[0] == '-' && t[1..] == ShowNat(-n);
    } else {
      ParseShowNat(n);
      assert IsDigit(t[0]);
    }
  }

  // ---------------------------------------------------------------------------
  // Type coercion

  /** The coercions `_cast` knows. */
  datatype CastKind = IntCast | FloatCast | BoolCast | StampCast | NoCast

  /** The coercion a configured kind selects, compared as `(kind or "").lower()`. */
  function Classify(kind: Option<string>): CastKind {
    var tag := Lower(kind.GetOr(""));
    if tag in {"int", "integer"} then IntCast
    else if tag in {"float", "numeric", "double"} then FloatCast
    else if tag in {"bool", "boolean"} then BoolCast
    else if tag in {"datetime", "timestamp"} then StampCast
    else NoCast
  }

  /** The texts a boolean cell reads as true, after stripping and lower-casing. */
  const Truthy: set<string> := {"1", "true", "yes", "y", "\U{434}\U{430}", "\U{438}\U{441}\U{442}\U{438}\U{43D}\U{430}"}

  predicate IsTruthy(s: string) { Lower(Strip(s)) in Truthy }

  /** `_cast(v, kind)`: no text gives `None`; otherwise the text is coerced by kind. */
  function Cast(v: Option<string>, kind: Option<string>, parsers: Parsers): Value {
    if v == None || v == Some("") then Null else CastText(v.value, kind, parsers)
  }

  /** The `try` block of `_cast` on a non-empty text; a parser that raises gives `None`. */
  function CastText(s: string, kind: Option<string>, parsers: Parsers): Value {
    match Classify(kind)
    case IntCast =>
      (match ParseInt(Strip(s))
       case Some(n) => Int(n)
       case None => Null)
    case FloatCast =>
      (match parsers.float(ReplaceChar(s, ',', '.'))
       case Some(x) => Float(x)
       case None => Null)
    case BoolCast => Bool(IsTruthy(s))
    case StampCast =>
      (match parsers.timestamp(Strip(s))
       case Some(t) => Stamp(t)
       case None => Null)
    case NoCast => Str(s)
  }

  /** What each kind of cast yields: `None` for a missing or empty cell; an integer
      exactly when the stripped text parses; a boolean always, true exactly for the
      truthy words; a float or timestamp exactly when the parser accepts; the text
      itself for any other kind. */
  lemma CastKinds(v: Option<string>, kind: Option<string>, parsers: Parsers)
    ensures var r := Cast(v, kind, parsers);
      && (v == None || v == Some("") ==> r == Null)
      && (v != None && v != Some("") ==>
        && (Classify(kind) == IntCast ==> (r.Int? || r.Null?) && (r.Int? <==> ParseInt(Strip(v.value)).Some?))
        && (Classify(kind) == BoolCast ==> r.Bool? && (r.b <==> IsTruthy(v.value)))
        && (Classify(kind) == FloatCast ==> (r.Float? || r.Null?) && (r.Float? <==> parsers.float(ReplaceChar(v.value, ',', '.')).Some?))
        && (Classify(kind) == StampCast ==> (r.Stamp? || r.Null?) && (r.Stamp? <==> parsers.timestamp(Strip(v.value)).Some?))
        && (Classify(kind) == NoCast ==> r == Str(v.value)))
  {
  }

  /** An integer cell written with surrounding whitespace casts back to that integer. */
  lemma CastIntRoundTrip(n: int, pad: string, parsers: Parsers)
    requires AllSpace(pad)
    ensures Cast(Some(pad + ShowInt(n) + pad), Some("int"), parsers) == if WithinDigitLimit(n) then Int(n) else Null
  {
    PaddedIntParses(n, pad);
    IntKindTag();
  }

  lemma PaddedIntParses(n: int, pad: string)
    requires AllSpace(pad)
    ensures ParseInt(Strip(pad + ShowInt(n) + pad)) == if WithinDigitLimit(n) then Some(n) else None
  {
    var t := ShowInt(n);
    assert t[0] == '-' || IsDigit(t[0]);
    assert IsDigit(t[|t| - 1]);
    StripAround(pad, t, pad);
    ParseShowInt(n);
  }

  lemma IntKindTag()
    ensures Classify(Some("int")) == IntCast
  {
    LowerFixed("int");
  }

  lemma FloatKindTag()
    ensures Classify(Some("float")) == FloatCast
  {
    LowerFixed("float");
  }

  /** A float cell Python reads as NaN or an infinity keeps that value: `_cast`
      returns it, and as a key value it passes the key check, being neither `None`
      nor "". */
  lemma NonFiniteCast(s: string, parsers: Parsers, f: PyFloat)
    requires s != "" && !f.Finite? && parsers.float(ReplaceChar(s, ',', '.')) == Some(f)
    ensures Cast(Some(s), Some("float"), parsers) == Float(f)
    ensures forall d: Record, k :: Get(d, k) == Some(Float(f)) ==> !PkMissing(d, k)
  {
    FloatKindTag();
  }

  // ---------------------------------------------------------------------------
  // From a ragged row to a record

  /** The cell at position `i`, or `None` past the end of a short row. */
  function CellAt(row: Row, i: nat): Option<string> {
    if i < |row| then Some(row[i]) else None
  }

  /** `_norm(h)` for every header column, in order. */
  function NormalizedHeader(header: seq<string>): (names: seq<string>)
    ensures |names| == |header| && forall i :: 0 <= i < |header| ==> names[i] == Normalize(header[i])
  {
    seq(|header|, i requires 0 <= i < |header| => Normalize(header[i]))
  }

  /** `src` in `_map_and_cast`, built from the normalised header `names`: name to cell;
      a later column with the same name replaces an earlier one. */
  function SourceCells(names: seq<string>, row: Row): Dict<string, Option<string>> {
    Assigned(names, seq(|names|, i requires 0 <= i < |names| => CellAt(row, i)))
  }

  /** The last position of `names` that holds `key`. */
  function LastIndexOf(names: seq<string>, key: string): (k: nat)
    requires key in names
    ensures k < |names| && names[k] == key
    ensures forall j :: k < j < |names| ==> names[j] != key
  {
    var n := |names| - 1;
    if names[n] == key then n
    else
      assert key in names[..n];
      LastIndexOf(names[..n], key)
  }

  /** What `src` holds for `key`: the cell under the last column named `key`, and
      nothing when no column is. */
  lemma SourceCellsGet(names: seq<string>, row: Row, key: string)
    ensures key !in names ==> Get(SourceCells(names, row), key) == None
    ensures key in names ==> Get(SourceCells(names, row), key) == Some(CellAt(row, LastIndexOf(names, key)))
  {
    var cells := seq(|names|, i requires 0 <= i < |names| => CellAt(row, i));
    if key in names {
      AssignedGet(names, cells, LastIndexOf(names, key));
    } else {
      AssignedAbsent(names, cells, key);
    }
  }

  /** `src.get(key)`: `None` both for an absent name and for a cell past the row's end. */
  function SourceValue(header: seq<string>, row: Row, key: string): Option<string> {
    match Get(SourceCells(NormalizedHeader(header), row), key)
    case Some(cell) => cell
    case None => None
  }

  /** `casts.get(sheet_col) if casts else None`. */
  function KindOf(casts: map<string, string>, sheetCol: string): Option<string> {
    if sheetCol in casts then Some(casts[sheetCol]) else None
  }

  /** The value one `col_map` entry contributes:
      `_cast(src.get(_norm(sheet_col)), casts.get(sheet_col))`. */
  function EntryValue(header: seq<string>, row: Row, entry: (string, string),
                      casts: map<string, string>, parsers: Parsers): Value
  {
    Cast(SourceValue(header, row, Normalize(entry.0)), KindOf(casts, entry.0), parsers)
  }

  /** `_map_and_cast(header, row, col_map, casts)`: one entry per destination column of
      `col_map`, in the order those first appear; a later sheet column mapped to the
      same destination replaces an earlier one. */
  function MapAndCast(header: seq<string>, row: Row, colMap: Dict<string, string>,
                      casts: map<string, string>, parsers: Parsers): Record
  {
    Assigned(Vals(colMap), EntryValues(header, row, colMap, casts, parsers))
  }

  function EntryValues(header: seq<string>, row: Row, colMap: Dict<string, string>,
                       casts: map<string, string>, parsers: Parsers): (vs: seq<Value>)
    ensures |vs| == |colMap|
  {
    seq(|colMap|, i requires 0 <= i < |colMap| => EntryValue(header, row, colMap[i], casts, parsers))
  }

  /** The record has one column per distinct destination, in the order the
      destinations first appear in `col_map`. */
  lemma MapAndCastKeys(header: seq<string>, row: Row, colMap: Dict<string, string>,
                       casts: map<string, string>, parsers: Parsers)
    ensures Keys(MapAndCast(header, row, colMap, casts, parsers)) == Unseen(Vals(colMap), {})
  {
    AssignedKeys(Vals(colMap), EntryValues(header, row, colMap, casts, parsers));
  }

  /** The value of destination column `colMap[i].1` is the one entry `i` contributes
      when `i` is the last entry mapped to that destination. */
  lemma MapAndCastGet(header: seq<string>, row: Row, colMap: Dict<string, string>,
                      casts: map<string, string>, parsers: Parsers, i: nat)
    requires i < |colMap|
    requires forall j :: i < j < |colMap| ==> colMap[j].1 != colMap[i].1
    ensures Get(MapAndCast(header, row, colMap, casts, parsers), colMap[i].1)
         == Some(EntryValue(header, row, colMap[i], casts, parsers))
  {
    AssignedGet(Vals(colMap), EntryValues(header, row, colMap, casts, parsers), i);
  }

  /** A sheet column that is not in the header, or whose cell lies past the end of the
      row, yields `None` in the record. */
  lemma MissingCellIsNull(header: seq<string>, row: Row, colMap: Dict<string, string>,
                          casts: map<string, string>, parsers: Parsers, i: nat)
    requires i < |colMap|
    requires forall j :: i < j < |colMap| ==> colMap[j].1 != colMap[i].1
    requires forall k :: 0 <= k < |header| && Normalize(header[k]) == Normalize(colMap[i].0) ==> k >= |row|
    ensures Get(MapAndCast(header, row, colMap, casts, parsers), colMap[i].1) == Some(Null)
  {
    MapAndCastGet(header, row, colMap, casts, parsers, i);
    var names := NormalizedHeader(header);
    assert EntryValue(header, row, colMap[i], casts, parsers)
        == Cast(SourceValue(header, row, Normalize(colMap[i].0)), KindOf(casts, colMap[i].0), parsers);
    SourceCellsGet(names, row, Normalize(colMap[i].0));
  }

  /** The identity map used when a source declares no columns:
      `{h: _norm(h) for h in header}`. */
  function IdentityColumns(header: seq<string>): Dict<string, string> {
    Assigned(header, NormalizedHeader(header))
  }

  /** Each header name appears once, in header order. */
  lemma IdentityColumnsKeys(header: seq<string>)
    ensures Keys(IdentityColumns(header)) == Unseen(header, {})
  {
    AssignedKeys(header, NormalizedHeader(header));
  }

  /** Each header name maps to its own normalised form. */
  lemma IdentityColumnsGet(header: seq<string>, h: string)
    requires h in header
    ensures Get(IdentityColumns(header), h) == Some(Normalize(h))
  {
    AssignedGet(header, NormalizedHeader(header), LastIndexOf(header, h));
  }

  // ---------------------------------------------------------------------------
  // Row preparation: `for r in rows` in `import_all_from_config`

  /** The records `_map_and_cast` builds for the body rows, in row order. */
  function Records(header: seq<string>, rows: seq<Row>, colMap: Dict<string, string>,
                   casts: map<string, string>, parsers: Parsers): (ds: seq<Record>)
    ensures |ds| == |rows|
  {
    seq(|rows|, i requires 0 <= i < |rows| => MapAndCast(header, rows[i], colMap, casts, parsers))
  }

  /** Every record of a source has the same columns, so the statement built from the
      first one names a value for every row. */
  lemma RecordsKeys(header: seq<string>, rows: seq<Row>, colMap: Dict<string, string>,
                    casts: map<string, string>, parsers: Parsers, i: nat)
    requires i < |rows|
    ensures Keys(Records(header, rows, colMap, casts, parsers)[i]) == Unseen(Vals(colMap), {})
  {
    MapAndCastKeys(header, rows[i], colMap, casts, parsers);
  }

  /** `d.get(k) in (None, "")`. */
  predicate PkMissing(d: Record, k: string) {
    Get(d, k) == None || Get(d, k) == Some(Null) || Get(d, k) == Some(Str(""))
  }

  /** No key column of `d` is missing, `None` or empty. */
  predicate HasPk(d: Record, pk: seq<string>) {
    forall k :: k in pk ==> !PkMissing(d, k)
  }

  /** The records that pass the key check, in their original order. */
  function Survivors(records: seq<Record>, pk: seq<string>): (kept: seq<Record>)
    ensures |kept| <= |records|
  {
    if records == [] then []
    else
      var n := |records| - 1;
      Survivors(records[..n], pk) + (if HasPk(records[n], pk) then [records[n]] else [])
  }

  /** A record is kept exactly when it is one of the records and has all its keys. */
  lemma {:induction false} SurvivorsMembers(records: seq<Record>, pk: seq<string>, d: Record)
    ensures d in Survivors(records, pk) <==> d in records && HasPk(d, pk)
  {
    if records != [] {
      var n := |records| - 1;
      SurvivorsMembers(records[..n], pk, d);
      assert records == records[..n] + [records[n]];
    }
  }

  /** Filtering distributes over concatenation: the kept records keep their order. */
  lemma {:induction false} SurvivorsAppend(a: seq<Record>, b: seq<Record>, pk: seq<string>)
    ensures Survivors(a + b, pk) == Survivors(a, pk) + Survivors(b, pk)
  {
    if b == [] {
      assert a + b == a;
    } else {
      var n := |b| - 1;
      assert (a + b)[..|a + b| - 1] == a + b[..n];
      SurvivorsAppend(a, b[..n], pk);
    }
  }

  lemma SurvivorsStep(records: seq<Record>, i: nat, pk: seq<string>)
    requires i < |records|
    ensures Survivors(records[..i + 1], pk)
         == Survivors(records[..i], pk) + (if HasPk(records[i], pk) then [records[i]] else [])
  {
    assert records[..i + 1][..i] == records[..i];
  }

  /** The preparation loop: each row is mapped and cast, a row with a missing key is
      counted as skipped, every other row is kept. */
  method PrepareRows(header: seq<string>, rows: seq<Row>, colMap: Dict<string, string>,
                     casts: map<string, string>, parsers: Parsers, pk: seq<string>)
    returns (prepared: seq<Record>, skipped: nat)
    ensures prepared == Survivors(Records(header, rows, colMap, casts, parsers), pk)
    ensures |prepared| + skipped == |rows|
  {
    ghost var all := Records(header, rows, colMap, casts, parsers);
    prepared, skipped := [], 0;
    var i := 0;
    while i < |rows|
      invariant i <= |rows|
      invariant prepared == Survivors(all[..i], pk)
      invariant |prepared| + skipped == i
    {
      var d := MapAndCast(header, rows[i], colMap, casts, parsers);
      assert d == all[i];
      SurvivorsStep(all, i, pk);
      if !HasPk(d, pk) {
        skipped := skipped + 1;
      } else {
        prepared := prepared + [d];
      }
      i := i + 1;
    }
    assert all[..|rows|] == all;
  }

  // ---------------------------------------------------------------------------
  // The anti-join delete's parameters

  /** `row.get(col)` for each key column, `None` for a column the record lacks. */
  function KeyValues(d: Record, pk: seq<string>): (vs: seq<Value>)
    ensures |vs| == |pk|
  {
    seq(|pk|, j requires 0 <= j < |pk| => Get(d, pk[j]).GetOr(Null))
  }

  /** The parameters of the delete: each prepared row's key values, row after row. */
  function DeleteParams(prepared: seq<Record>, pk: seq<string>): seq<Value> {
    if prepared == [] then []
    else
      var n := |prepared| - 1;
      DeleteParams(prepared[..n], pk) + KeyValues(prepared[n], pk)
  }

  /** The parameter list is row-major: `len(prepared) * len(pk)` entries, the one at
      `i * len(pk) + j` being row `i`'s value for key column `j`. */
  lemma {:induction false} DeleteParamsLayout(prepared: seq<Record>, pk: seq<string>, i: nat, j: nat)
    requires i < |prepared| && j < |pk|
    ensures |DeleteParams(prepared, pk)| == |prepared| * |pk|
    ensures i * |pk| + j < |prepared| * |pk|
    ensures DeleteParams(prepared, pk)[i * |pk| + j] == Get(prepared[i], pk[j]).GetOr(Null)
  {
    var n := |prepared| - 1;
    var w := |pk|;
    var init := prepared[..n];
    DeleteParamsLength(init, pk);
    assert |prepared| * w == n * w + w;
    if i < n {
      DeleteParamsLayout(init, pk, i, j);
      assert init[i] == prepared[i];
    } else {
      assert i * w + j == n * w + j;
    }
  }

  lemma {:induction false} DeleteParamsLength(prepared: seq<Record>, pk: seq<string>)
    ensures |DeleteParams(prepared, pk)| == |prepared| * |pk|
  {
    if prepared != [] {
      var n := |prepared| - 1;
      DeleteParamsLength(prepared[..n], pk);
      assert |prepared| * |pk| == n * |pk| + |pk|;
    }
  }

  /** One call the import makes on the relational store. */
  datatype DbCall =
    | RunUpsert(statement: BulkUpsert.Statement, rows: seq<Record>)
      /** `DELETE FROM table t WHERE NOT EXISTS (SELECT 1 FROM (VALUES ...) AS v(keyCols)
          WHERE v.c::text = t.c::text AND ...)`: `groups` value tuples of `|keyCols|`
          placeholders each, bound to `params`. */
    | AntiJoinDelete(table: string, keyCols: seq<string>, groups: nat, params: seq<Value>)

  /** The loops that build `values_parts` and `params` for the delete. */
  method BuildDelete(table: string, prepared: seq<Record>, pk: seq<string>) returns (call: DbCall)
    ensures call == AntiJoinDelete(table, pk, |prepared|, DeleteParams(prepared, pk))
  {
    var groups := 0;
    var params: seq<Value> := [];
    for i := 0 to |prepared|
      invariant groups == i
      invariant params == DeleteParams(prepared[..i], pk)
    {
      groups := groups + 1;
      ghost var before := params;
      for j := 0 to |pk|
        invariant params == before + KeyValues(prepared[i], pk)[..j]
      {
        params := params + [Get(prepared[i], pk[j]).GetOr(Null)];
      }
      assert KeyValues(prepared[i], pk)[..|pk|] == KeyValues(prepared[i], pk);
      assert prepared[..i + 1][..i] == prepared[..i];
    }
    assert prepared[..|prepared|] == prepared;
    call := AntiJoinDelete(table, pk, groups, params);
  }

  // ---------------------------------------------------------------------------
  // One configured source

  /** One entry of the `sources` configuration. */
  datatype Source = Source(
    spreadsheetId: string,
    worksheet: Option<string>,
    range: string,
    table: string,
    pk: seq<string>,
    columns: Dict<string, string>,
    casts: map<string, string>,
    deleteMissing: bool)

  /** `[str(h).strip() for h in header]`. */
  function StripAll(header: seq<string>): (r: seq<string>)
    ensures |r| == |header|
  {
    seq(|header|, i requires 0 <= i < |header| => Strip(header[i]))
  }

  /** The column map in force: the configured one, or the identity map when none is given. */
  function ColumnsFor(s: Source, header: seq<string>): Dict<string, string> {
    if s.columns == [] then IdentityColumns(header) else s.columns
  }

  /** The prepared records of a non-empty fetch: header row stripped, body rows mapped,
      cast and filtered by the key check. */
  function Prepared(s: Source, values: seq<Row>, parsers: Parsers): seq<Record>
    requires values != []
  {
    var header := StripAll(values[0]);
    Survivors(Records(header, values[1..], ColumnsFor(s, header), s.casts, parsers), s.pk)
  }

  /** The `(table, count)` pair reported for a source. */
  function SourceResult(s: Source, values: seq<Row>, parsers: Parsers): (string, nat) {
    if values == [] then (s.table, 0) else BatchResult(s, Prepared(s, values, parsers))
  }

  /** The pair reported once the rows are prepared: no upsert and a zero count for an
      empty batch, the upsert's count otherwise. */
  function BatchResult(s: Source, prepared: seq<Record>): (string, nat) {
    if prepared == [] then (s.table, 0)
    else (s.table, BulkUpsert.Upsert(s.table, prepared, s.pk).count)
  }

  /** The calls made on the store for a source, in order. */
  function SourceCalls(s: Source, values: seq<Row>, parsers: Parsers): seq<DbCall> {
    if values == [] then [] else BatchCalls(s, Prepared(s, values, parsers))
  }

  /** The calls made once the rows are prepared: the upsert, then the delete when it is
      requested; nothing for an empty batch. */
  function BatchCalls(s: Source, prepared: seq<Record>): seq<DbCall> {
    if prepared == [] then []
    else
      [RunUpsert(BulkUpsert.Upsert(s.table, prepared, s.pk).statement.value, prepared)]
      + (if s.deleteMissing then [AntiJoinDelete(s.table, s.pk, |prepared|, DeleteParams(prepared, s.pk))] else [])
  }

  /** The body of the per-source loop of `import_all_from_config`, given the fetched
      `values`. */
  method ImportSource(s: Source, values: seq<Row>, parsers: Parsers)
    returns (result: (string, nat), calls: seq<DbCall>)
    ensures result == SourceResult(s, values, parsers)
    ensures calls == SourceCalls(s, values, parsers)
  {
    if values == [] {
      return (s.table, 0), [];
    }
    var header := StripAll(values[0]);
    var rows := values[1..];
    var colMap := s.columns;
    if colMap == [] {
      colMap := IdentityColumns(header);
    }
    var prepared, skipped := PrepareRows(header, rows, colMap, s.casts, parsers, s.pk);
    if prepared == [] {
      return (s.table, 0), [];
    }
    var outcome := BulkUpsert.Upsert(s.table, prepared, s.pk);
    result := (s.table, outcome.count);
    calls := [RunUpsert(outcome.statement.value, prepared)];
    if s.deleteMissing {
      var delete := BuildDelete(s.table, prepared, s.pk);
      calls := calls + [delete];
    }
  }

  /** An empty fetch reports `(table, 0)` and touches the store not at all. */
  lemma EmptyFetch(s: Source, parsers: Parsers)
    ensures SourceResult(s, [], parsers) == (s.table, 0)
    ensures SourceCalls(s, [], parsers) == []
  {
  }

  /** A batch reports its own size, and the store is called exactly when the batch is
      not empty. */
  lemma BatchCount(s: Source, prepared: seq<Record>)
    ensures BatchResult(s, prepared) == (s.table, |prepared|)
    ensures prepared == [] <==> BatchCalls(s, prepared) == []
  {
  }

  /** The delete runs exactly when it is requested and the batch is not empty, and only
      after the upsert. */
  lemma DeleteGuard(s: Source, prepared: seq<Record>)
    ensures var calls := BatchCalls(s, prepared);
      (exists i :: 0 <= i < |calls| && calls[i].AntiJoinDelete?) <==> s.deleteMissing && prepared != []
    ensures var calls := BatchCalls(s, prepared);
      forall i :: 0 <= i < |calls| && calls[i].AntiJoinDelete? ==> i == 1 && calls[0].RunUpsert?
  {
    var calls := BatchCalls(s, prepared);
    if s.deleteMissing && prepared != [] {
      assert calls[1].AntiJoinDelete?;
    }
  }

  /** Every row handed to the upsert has all its key values, and every row has exactly
      the columns the statement inserts. */
  lemma UpsertRowsFit(s: Source, values: seq<Row>, parsers: Parsers, i: nat, k: nat)
    requires var calls := SourceCalls(s, values, parsers); k < |calls| && calls[k].RunUpsert? && i < |calls[k].rows|
    ensures var call := SourceCalls(s, values, parsers)[k];
      HasPk(call.rows[i], s.pk) && Keys(call.rows[i]) == call.statement.columns
  {
    var header := StripAll(values[0]);
    var colMap := ColumnsFor(s, header);
    var records := Records(header, values[1..], colMap, s.casts, parsers);
    var prepared := Prepared(s, values, parsers);
    assert k == 0;
    SurvivorsMembers(records, s.pk, prepared[i]);
    SurvivorsMembers(records, s.pk, prepared[0]);
    var a :| 0 <= a < |records| && records[a] == prepared[i];
    var b :| 0 <= b < |records| && records[b] == prepared[0];
    RecordsKeys(header, values[1..], colMap, s.casts, parsers, a);
    RecordsKeys(header, values[1..], colMap, s.casts, parsers, b);
  }

  // ---------------------------------------------------------------------------
  // All sources

  /** The store calls for `sources`, source after source. */
  function AllCalls(sources: seq<Source>, fetch: Source -> seq<Row>, parsers: Parsers): seq<DbCall> {
    if sources == [] then []
    else
      var n := |sources| - 1;
      AllCalls(sources[..n], fetch, parsers) + SourceCalls(sources[n], fetch(sources[n]), parsers)
  }

  lemma AllCallsStep(sources: seq<Source>, fetch: Source -> seq<Row>, parsers: Parsers, i: nat)
    requires i < |sources|
    ensures AllCalls(sources[..i + 1], fetch, parsers)
         == AllCalls(sources[..i], fetch, parsers) + SourceCalls(sources[i], fetch(sources[i]), parsers)
  {
    assert sources[..i + 1][..i] == sources[..i];
  }

  /** The loop of `import_all_from_config` over the configured sources; `fetch` stands
      for reading a source's worksheet range. One result per source, in order. */
  method ImportAll(sources: seq<Source>, fetch: Source -> seq<Row>, parsers: Parsers)
    returns (results: seq<(string, nat)>, calls: seq<DbCall>)
    ensures |results| == |sources|
    ensures forall i :: 0 <= i < |sources| ==> results[i] == SourceResult(sources[i], fetch(sources[i]), parsers)
    ensures calls == AllCalls(sources, fetch, parsers)
  {
    results, calls := [], [];
    for i := 0 to |sources|
      invariant |results| == i
      invariant forall j :: 0 <= j < i ==> results[j] == SourceResult(sources[j], fetch(sources[j]), parsers)
      invariant calls == AllCalls(sources[..i], fetch, parsers)
    {
      var r, c := ImportSource(sources[i], fetch(sources[i]), parsers);
      AllCallsStep(sources, fetch, parsers, i);
      results := results + [r];
      calls := calls + c;
    }
    assert sources[..|sources|] == sources;
  }
}
