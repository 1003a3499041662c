/** Set-based insert-or-update statements for the relational store
    (app/infrastructure/integration/bulk_upsert.py). The SQL is kept as an
    abstract statement rather than text. */
module BulkUpsert {
  import opened Wrappers
  import opened Dicts

  /** A named placeholder `%(c)s`: the value of column `c` of the record being inserted. */
  datatype Placeholder = Named(column: string)

  /** `c=EXCLUDED.c`: on conflict, column `c` takes the value that was proposed for insertion. */
  datatype Assignment = FromExcluded(column: string)

  datatype ConflictAction = DoUpdate(assignments: seq<Assignment>) | DoNothing

  /** `INSERT INTO table (columns) VALUES (values) ON CONFLICT (conflictTarget) DO action`. */
  datatype Statement = Insert(
    table: string,
    columns: seq<string>,
    values: seq<Placeholder>,
    conflictTarget: seq<string>,
    action: ConflictAction)

  /** What `bulk_upsert` reports and what it sends to the store. */
  datatype Outcome = Outcome(count: nat, statement: Option<Statement>)

  /** The columns of `dbCols` that are not key columns, in `dbCols` order. */
  function NonKey(dbCols: seq<string>, pkCols: seq<string>): (r: seq<string>)
    ensures |r| <= |dbCols|
  {
    if dbCols == [] then []
    else (if dbCols[0] in pkCols then [] else [dbCols[0]]) + NonKey(dbCols[1..], pkCols)
  }

  /** A column is in the SET list exactly when it is an inserted column and not a key column. */
  lemma {:induction false} NonKeyMembers(dbCols: seq<string>, pkCols: seq<string>, c: string)
    ensures c in NonKey(dbCols, pkCols) <==> c in dbCols && c !in pkCols
  {
    if dbCols != [] {
      NonKeyMembers(dbCols[1..], pkCols, c);
      assert c in dbCols <==> c == dbCols[0] || c in dbCols[1..];
    }
  }

  /** The SET list keeps the order of `dbCols`: filtering distributes over concatenation. */
  lemma {:induction false} NonKeyAppend(a: seq<string>, b: seq<string>, pkCols: seq<string>)
    ensures NonKey(a + b, pkCols) == NonKey(a, pkCols) + NonKey(b, pkCols)
  {
    if a == [] {
      assert a + b == b;
    } else {
      assert (a + b)[1..] == a[1..] + b;
      NonKeyAppend(a[1..], b, pkCols);
    }
  }

  /** `_build_upsert_query(table, db_cols, pk_cols)`, except that a record with no
      column left to update gets `DO NOTHING` (the rendering the code actually produces
      is SetListAsWritten). */
  function BuildUpsertQuery(table: string, dbCols: seq<string>, pkCols: seq<string>): (q: Statement)
    ensures q.table == table && q.columns == dbCols && q.conflictTarget == pkCols
    ensures |q.values| == |q.columns| && forall i :: 0 <= i < |q.values| ==> q.values[i] == Named(q.columns[i])
    ensures q.action == DoNothing <==> forall c :: c in dbCols ==> c in pkCols
    ensures q.action.DoUpdate? ==>
      && |q.action.assignments| > 0
      && forall c :: (exists i :: 0 <= i < |q.action.assignments| && q.action.assignments[i] == FromExcluded(c))
                     <==> c in dbCols && c !in pkCols
  {
    var setCols := NonKey(dbCols, pkCols);
    forall c ensures c in setCols <==> c in dbCols && c !in pkCols {
      NonKeyMembers(dbCols, pkCols, c);
    }
    assert setCols != [] ==> setCols[0] in dbCols && setCols[0] !in pkCols;
    var pairs := seq(|setCols|, i requires 0 <= i < |setCols| => FromExcluded(setCols[i]));
    assert forall c :: (exists i :: 0 <= i < |pairs| && pairs[i] == FromExcluded(c)) <==> c in setCols by {
      forall c | c in setCols ensures exists i :: 0 <= i < |pairs| && pairs[i] == FromExcluded(c) {
        var i :| 0 <= i < |setCols| && setCols[i] == c;
        assert pairs[i] == FromExcluded(c);
      }
    }
    Insert(
      table,
      dbCols,
      seq(|dbCols|, i requires 0 <= i < |dbCols| => Named(dbCols[i])),
      pkCols,
      if pairs == [] then DoNothing else DoUpdate(pairs))
  }

  /** PostgreSQL parses `ON CONFLICT (target)` only with at least one target column,
      and `DO UPDATE SET` only with at least one assignment. */
  predicate AcceptedStatement(q: Statement) {
    q.conflictTarget != [] && (q.action.DoUpdate? ==> q.action.assignments != [])
  }

  /** The statement built is accepted exactly when there is a key column: an empty
      `pk_cols` renders `ON CONFLICT ()`, which the store rejects. */
  lemma BuildUpsertAccepted(table: string, dbCols: seq<string>, pkCols: seq<string>)
    ensures AcceptedStatement(BuildUpsertQuery(table, dbCols, pkCols)) <==> pkCols != []
  {
  }

  /** An item of the SET list as `_build_upsert_query` renders it. */
  datatype SetItem = ExcludedPair(column: string) | Keyword(word: string)

  /** The SET list exactly as rendered after `DO UPDATE SET`: the `c=EXCLUDED.c` pairs,
      or the bare keyword `NOTHING` when there are none. */
  function SetListAsWritten(dbCols: seq<string>, pkCols: seq<string>): seq<SetItem> {
    var setCols := NonKey(dbCols, pkCols);
    if setCols == [] then [Keyword("NOTHING")]
    else seq(|setCols|, i requires 0 <= i < |setCols| => ExcludedPair(setCols[i]))
  }

  /** PostgreSQL accepts `DO UPDATE SET` only when followed by one or more assignments. */
  predicate AcceptedSetList(items: seq<SetItem>) {
    |items| > 0 && forall i :: 0 <= i < |items| ==> items[i].ExcludedPair?
  }

  /** As written, a record made only of key columns yields `DO UPDATE SET NOTHING`,
      which the store rejects; everywhere else the rendered SET list is accepted and
      is exactly the corrected statement's assignments. */
  lemma SetListAsWrittenRejected(table: string, dbCols: seq<string>, pkCols: seq<string>)
    ensures (forall c :: c in dbCols ==> c in pkCols) <==> !AcceptedSetList(SetListAsWritten(dbCols, pkCols))
    ensures var q := BuildUpsertQuery(table, dbCols, pkCols);
      q.action.DoUpdate? ==>
        && |q.action.assignments| == |SetListAsWritten(dbCols, pkCols)|
        && forall i :: 0 <= i < |q.action.assignments| ==>
             SetListAsWritten(dbCols, pkCols)[i] == ExcludedPair(q.action.assignments[i].column)
  {
    var setCols := NonKey(dbCols, pkCols);
    forall c ensures c in setCols <==> c in dbCols && c !in pkCols {
      NonKeyMembers(dbCols, pkCols, c);
    }
    if setCols != [] {
      assert setCols[0] in dbCols && setCols[0] !in pkCols;
    }
  }

  /** The smallest case: a table keyed by `id` and records holding only `id`. */
  lemma KeyOnlyRecordExample()
    ensures SetListAsWritten(["id"], ["id"]) == [Keyword("NOTHING")]
    ensures BuildUpsertQuery("t", ["id"], ["id"]).action == DoNothing
  {
    assert NonKey(["id"], ["id"]) == [];
  }

  /** `bulk_upsert(conn, table, rows, pk_cols)`: nothing is sent for no rows; otherwise one
      statement whose columns are the keys of the first row, run for every row, and the
      number of rows submitted is reported whatever the conflicts. */
  function Upsert<V>(table: string, rows: seq<Dict<string, V>>, pkCols: seq<string>): (r: Outcome)
    ensures rows == [] ==> r == Outcome(0, None)
    ensures rows != [] ==>
      && r.count == |rows|
      && r.statement == Some(BuildUpsertQuery(table, Keys(rows[0]), pkCols))
  {
    if rows == [] then Outcome(0, None)
    else Outcome(|rows|, Some(BuildUpsertQuery(table, Keys(rows[0]), pkCols)))
  }
}
