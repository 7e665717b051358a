/** The database maintenance routes: search/replace across the text columns of the
    site's tables, the table list `optimize_tables` walks, and the per-post revision
    pruning of `clean_revisions`.

    A table is its column list (as `DESCRIBE` reports it) and its rows; a row maps
    column names to values, and a column missing from a row holds NULL. SQL text
    comparison is taken to be case-sensitive (a binary collation). */
module Database {
  import opened Envelope
  import opened PhpArray
  import opened PhpString

  datatype Column = Column(field: string, colType: string)

  type Row = map<string, string>

  datatype Table = Table(columns: seq<Column>, rows: seq<Row>)

  /** The database: table name -> table, in `SHOW TABLES` order, and `$wpdb->prefix`. */
  datatype Db = Db(prefix: string, tables: Assoc<string, Table>)

  /** No two columns of a table share a name. */
  predicate DistinctFields(cs: seq<Column>)
  {
    forall i, j :: 0 <= i < j < |cs| ==> cs[i].field != cs[j].field
  }

  ghost predicate WellFormedTables(ts: Assoc<string, Table>)
  {
    ts.Valid() && forall n :: n in ts.vals ==> DistinctFields(ts.vals[n].columns)
  }

  // ----------------------------------------------------------- table lists

  /** The names of `names` that match `LIKE 'prefix%'`, in their order. */
  function LikeFilter(names: seq<string>, prefix: string): (r: seq<string>)
    ensures |r| <= |names|
    ensures forall x :: x in r <==> x in names && LikePrefix(prefix, x)
  {
    if names == [] then []
    else
      var last := names[|names| - 1];
      var r := LikeFilter(names[..|names| - 1], prefix) + (if LikePrefix(prefix, last) then [last] else []);
      assert names == names[..|names| - 1] + [last];
      r
  }

  /** `SHOW TABLES LIKE '{prefix}%'`. */
  function PrefixedTables(db: Db): seq<string>
  {
    LikeFilter(db.tables.keys, db.prefix)
  }

  /** `optimize_tables`: every prefixed table is listed, whatever `OPTIMIZE TABLE` answers. */
  method OptimizeTables(db: Db) returns (optimized: seq<string>, count: nat)
    ensures optimized == PrefixedTables(db)
    ensures forall x :: x in optimized <==> x in db.tables.keys && LikePrefix(db.prefix, x)
    ensures count == |optimized|
  {
    var tables := PrefixedTables(db);
    optimized := [];
    var i := 0;
    while i < |tables|
      invariant 0 <= i <= |tables|
      invariant optimized == tables[..i]
    {
      optimized := optimized + [tables[i]];
      i := i + 1;
    }
    assert tables[..i] == tables;
    count := |optimized|;
  }

  // -------------------------------------------------------- column handling

  /** `preg_match('/(char|text|blob)/i', $column->Type)`. */
  predicate IsTextColumn(c: Column)
  {
    var t := Lower(c.colType);
    Contains(t, "char") || Contains(t, "text") || Contains(t, "blob")
  }

  /** `col LIKE '%search%'` holds for the row (false for NULL). */
  predicate Matches(row: Row, col: string, search: string)
  {
    col in row && Contains(row[col], search)
  }

  /** `SELECT COUNT(*) FROM t WHERE col LIKE '%search%'`. */
  function CountMatches(rows: seq<Row>, col: string, search: string): (n: nat)
    ensures n <= |rows|
    ensures n == 0 <==> forall i :: 0 <= i < |rows| ==> !Matches(rows[i], col, search)
  {
    if rows == [] then 0
    else
      var prefix := rows[..|rows| - 1];
      assert forall i :: 0 <= i < |prefix| ==> prefix[i] == rows[i];
      CountMatches(prefix, col, search) + (if Matches(rows[|rows| - 1], col, search) then 1 else 0)
  }

  /** `UPDATE t SET col = REPLACE(col, search, replace) WHERE col LIKE '%search%'`. */
  function ReplaceInColumn(rows: seq<Row>, col: string, search: string, replace: string): (r: seq<Row>)
    ensures |r| == |rows|
    ensures forall i :: 0 <= i < |rows| && !Matches(rows[i], col, search) ==> r[i] == rows[i]
    ensures forall i :: 0 <= i < |rows| && Matches(rows[i], col, search) ==>
      && r[i].Keys == rows[i].Keys
      && r[i][col] == ReplaceAll(rows[i][col], search, replace)
      && forall k :: k in rows[i] && k != col ==> r[i][k] == rows[i][k]
  {
    seq(|rows|, i requires 0 <= i < |rows| =>
      if Matches(rows[i], col, search) then rows[i][col := ReplaceAll(rows[i][col], search, replace)] else rows[i])
  }

  /** Replacing in one column changes no other column's count. */
  lemma {:induction false} CountOtherColumn(rows: seq<Row>, c1: string, c2: string, search: string, replace: string)
    requires c1 != c2
    ensures CountMatches(ReplaceInColumn(rows, c1, search, replace), c2, search) == CountMatches(rows, c2, search)
  {
    if rows != [] {
      var prefix := rows[..|rows| - 1];
      CountOtherColumn(prefix, c1, c2, search, replace);
      assert ReplaceInColumn(rows, c1, search, replace)[..|rows| - 1] == ReplaceInColumn(prefix, c1, search, replace);
    }
  }

  /** The rows after the replacement has run over every text column of `cs`. */
  function ApplyColumns(rows: seq<Row>, cs: seq<Column>, search: string, replace: string): (r: seq<Row>)
    ensures |r| == |rows|
    ensures forall i :: 0 <= i < |rows| ==> r[i].Keys == rows[i].Keys
  {
    if cs == [] then rows
    else
      var prev := ApplyColumns(rows, cs[..|cs| - 1], search, replace);
      var c := cs[|cs| - 1];
      if IsTextColumn(c) then ReplaceInColumn(prev, c.field, search, replace) else prev
  }

  /** The sum of the counts of the text columns of `cs`. */
  function ColumnsChanges(rows: seq<Row>, cs: seq<Column>, search: string): nat
  {
    if cs == [] then 0
    else
      var c := cs[|cs| - 1];
      ColumnsChanges(rows, cs[..|cs| - 1], search) + (if IsTextColumn(c) then CountMatches(rows, c.field, search) else 0)
  }

  /** A column not among `cs` keeps its count while `cs` is processed. */
  lemma {:induction false} ApplyColumnsKeepsCount(rows: seq<Row>, cs: seq<Column>, f: string, search: string, replace: string)
    requires forall j :: 0 <= j < |cs| ==> cs[j].field != f
    ensures CountMatches(ApplyColumns(rows, cs, search, replace), f, search) == CountMatches(rows, f, search)
  {
    if cs != [] {
      var c := cs[|cs| - 1];
      ApplyColumnsKeepsCount(rows, cs[..|cs| - 1], f, search, replace);
      if IsTextColumn(c) {
        CountOtherColumn(ApplyColumns(rows, cs[..|cs| - 1], search, replace), c.field, f, search, replace);
      }
    }
  }

  /** A row with no match in any text column comes through unchanged. */
  lemma {:induction false} ApplyColumnsUntouched(rows: seq<Row>, cs: seq<Column>, search: string, replace: string, i: nat)
    requires i < |rows|
    requires forall j :: 0 <= j < |cs| && IsTextColumn(cs[j]) ==> !Matches(rows[i], cs[j].field, search)
    ensures ApplyColumns(rows, cs, search, replace)[i] == rows[i]
  {
    if cs != [] {
      ApplyColumnsUntouched(rows, cs[..|cs| - 1], search, replace, i);
    }
  }

  /** After the replacement, a column outside `cs` holds its old value. */
  lemma {:induction false} ApplyColumnsOther(rows: seq<Row>, cs: seq<Column>, search: string, replace: string, i: nat, f: string)
    requires i < |rows| && f in rows[i]
    requires forall j :: 0 <= j < |cs| ==> cs[j].field != f
    ensures ApplyColumns(rows, cs, search, replace)[i][f] == rows[i][f]
  {
    if cs != [] {
      ApplyColumnsOther(rows, cs[..|cs| - 1], search, replace, i, f);
    }
  }

  /** After the replacement, each text column of a row holds `REPLACE()` of its old
      value when it contained the search string, and its old value otherwise. */
  lemma {:induction false} ApplyColumnsValue(rows: seq<Row>, cs: seq<Column>, search: string, replace: string, i: nat, j: nat)
    requires i < |rows| && j < |cs| && DistinctFields(cs) && IsTextColumn(cs[j]) && cs[j].field in rows[i]
    ensures var f := cs[j].field;
            ApplyColumns(rows, cs, search, replace)[i][f]
              == if Contains(rows[i][f], search) then ReplaceAll(rows[i][f], search, replace) else rows[i][f]
  {
    var n := |cs|;
    var prefix := cs[..n - 1];
    var f := cs[j].field;
    if j == n - 1 {
      assert forall k :: 0 <= k < |prefix| ==> prefix[k].field != f by {
        forall k | 0 <= k < |prefix| ensures prefix[k].field != f {
          assert prefix[k] == cs[k];
        }
      }
      ApplyColumnsOther(rows, prefix, search, replace, i, f);
    } else {
      assert prefix[j] == cs[j];
      assert DistinctFields(prefix) by {
        forall a, b | 0 <= a < b < |prefix| ensures prefix[a].field != prefix[b].field {
          assert prefix[a] == cs[a] && prefix[b] == cs[b];
        }
      }
      ApplyColumnsValue(rows, prefix, search, replace, i, j);
      assert cs[n - 1].field != f;
    }
  }

  /** The table after a real run over it. */
  function ApplyTable(t: Table, search: string, replace: string): (r: Table)
    ensures r.columns == t.columns && |r.rows| == |t.rows|
  {
    Table(t.columns, ApplyColumns(t.rows, t.columns, search, replace))
  }

  /** The count reported for a table: rows containing the search string, summed over
      its text columns. */
  function TableChanges(t: Table, search: string): nat
  {
    ColumnsChanges(t.rows, t.columns, search)
  }

  // ----------------------------------------------------------- search_replace

  /** `DESCRIBE` and `SELECT` on a table that does not exist yield nothing. */
  function Describe(ts: Assoc<string, Table>, name: string): Table
  {
    if name in ts.vals then ts.vals[name] else Table([], [])
  }

  datatype Outcome = Outcome(tables: Assoc<string, Table>, results: Assoc<string, nat>, total: nat)

  /** The loop over the requested tables: each table's count is taken on the data as
      it stands when the loop reaches it; a real run rewrites the table when its count
      is positive; a positive count is recorded under the table's name and added to
      the total. */
  function Process(ts: Assoc<string, Table>, names: seq<string>, search: string, replace: string, dryRun: bool): (o: Outcome)
    requires WellFormedTables(ts)
    ensures WellFormedTables(o.tables) && o.results.Valid()
    ensures o.tables.keys == ts.keys
    ensures forall k :: k in o.results.vals ==> k in names
  {
    if names == [] then Outcome(ts, Empty(), 0)
    else
      var prev := Process(ts, names[..|names| - 1], search, replace, dryRun);
      var name := names[|names| - 1];
      var t := Describe(prev.tables, name);
      var c := TableChanges(t, search);
      if c == 0 then prev
      else
        var tables' := if dryRun then prev.tables else prev.tables.Put(name, ApplyTable(t, search, replace));
        Outcome(tables', prev.results.Put(name, c), prev.total + c)
  }

  /** One more table: how `Process` extends from the first `i` names to `i + 1`. */
  lemma ProcessStep(ts: Assoc<string, Table>, names: seq<string>, i: nat, search: string, replace: string, dryRun: bool)
    requires WellFormedTables(ts) && i < |names|
    ensures var prev := Process(ts, names[..i], search, replace, dryRun);
            var t := Describe(prev.tables, names[i]);
            var c := TableChanges(t, search);
            Process(ts, names[..i + 1], search, replace, dryRun)
              == if c == 0 then prev
                 else Outcome(if dryRun then prev.tables else prev.tables.Put(names[i], ApplyTable(t, search, replace)),
                              prev.results.Put(names[i], c), prev.total + c)
  {
    assert names[..i + 1][..i] == names[..i];
  }

  /** `ProcessStep` for a loop that holds the outcome so far in its own variables:
      given the count of the next table and the loop's variables after it, the
      outcome of one more table. */
  lemma ProcessAdvance(ts: Assoc<string, Table>, names: seq<string>, i: nat, search: string, replace: string, dryRun: bool,
                       o: Outcome, c: nat, o': Outcome)
    requires WellFormedTables(ts) && i < |names|
    requires Process(ts, names[..i], search, replace, dryRun) == o
    requires c == TableChanges(Describe(o.tables, names[i]), search)
    requires o'.tables == if c == 0 || dryRun then o.tables else o.tables.Put(names[i], ApplyTable(Describe(o.tables, names[i]), search, replace))
    requires c == 0 ==> o'.results == o.results && o'.total == o.total
    requires c > 0 ==> o.results.Valid() && o'.results == o.results.Put(names[i], c) && o'.total == o.total + c
    ensures Process(ts, names[..i + 1], search, replace, dryRun) == o'
  {
    ProcessStep(ts, names, i, search, replace, dryRun);
  }

  datatype ReplaceReport = ReplaceReport(dryRun: bool, search: string, replace: string, totalChanges: nat, tables: Assoc<string, nat>)

  /** One more column: how the count and the rewritten rows extend from the first
      `j` columns to `j + 1`. Earlier columns leave this column's count alone, and a
      rewrite with no matching row changes nothing. */
  lemma ScanStep(t: Table, j: nat, search: string, replace: string)
    requires DistinctFields(t.columns) && j < |t.columns|
    ensures var c := t.columns[j];
            var before := ApplyColumns(t.rows, t.columns[..j], search, replace);
            && ColumnsChanges(t.rows, t.columns[..j + 1], search)
                 == ColumnsChanges(t.rows, t.columns[..j], search) + (if IsTextColumn(c) then CountMatches(t.rows, c.field, search) else 0)
            && (IsTextColumn(c) ==> CountMatches(before, c.field, search) == CountMatches(t.rows, c.field, search))
            && ApplyColumns(t.rows, t.columns[..j + 1], search, replace)
                 == if IsTextColumn(c) && CountMatches(t.rows, c.field, search) > 0
                    then ReplaceInColumn(before, c.field, search, replace) else before
  {
    var cs := t.columns;
    var c := cs[j];
    var before := ApplyColumns(t.rows, cs[..j], search, replace);
    assert cs[..j + 1][..j] == cs[..j];
    if IsTextColumn(c) {
      assert forall k :: 0 <= k < j ==> cs[..j][k].field != c.field;
      ApplyColumnsKeepsCount(t.rows, cs[..j], c.field, search, replace);
      if CountMatches(t.rows, c.field, search) == 0 {
        assert ReplaceInColumn(before, c.field, search, replace) == before;
      }
    }
  }

  /** The column loop's variables after one more column. */
  lemma ScanAdvance(t: Table, j: nat, search: string, replace: string, dryRun: bool,
                    changes: nat, rows: seq<Row>, changes': nat, rows': seq<Row>)
    requires DistinctFields(t.columns) && j < |t.columns|
    requires changes == ColumnsChanges(t.rows, t.columns[..j], search)
    requires rows == if dryRun then t.rows else ApplyColumns(t.rows, t.columns[..j], search, replace)
    requires var c := t.columns[j];
             var n := if IsTextColumn(c) then CountMatches(rows, c.field, search) else 0;
             && changes' == changes + n
             && rows' == if n > 0 && !dryRun then ReplaceInColumn(rows, c.field, search, replace) else rows
    ensures changes' == ColumnsChanges(t.rows, t.columns[..j + 1], search)
    ensures rows' == if dryRun then t.rows else ApplyColumns(t.rows, t.columns[..j + 1], search, replace)
  {
    ScanStep(t, j, search, replace);
  }

  /** The column loop for one table: count the matching rows of each text column and,
      in a real run, rewrite the columns whose count is positive. */
  method ScanTable(t: Table, search: string, replace: string, dryRun: bool) returns (tableChanges: nat, rows: seq<Row>)
    requires DistinctFields(t.columns)
    ensures tableChanges == TableChanges(t, search)
    ensures rows == if dryRun then t.rows else ApplyTable(t, search, replace).rows
  {
    var columns := t.columns;
    rows := t.rows;
    tableChanges := 0;
    var j := 0;
    while j < |columns|
      invariant 0 <= j <= |columns|
      invariant tableChanges == ColumnsChanges(t.rows, columns[..j], search)
      invariant rows == if dryRun then t.rows else ApplyColumns(t.rows, columns[..j], search, replace)
    {
      var col := columns[j];
      ghost var changesBefore, rowsBefore := tableChanges, rows;
      if IsTextColumn(col) {
        var count := CountMatches(rows, col.field, search);
        if count > 0 {
          tableChanges := tableChanges + count;
          if !dryRun {
            rows := ReplaceInColumn(rows, col.field, search, replace);
          }
        }
      }
      ScanAdvance(t, j, search, replace, dryRun, changesBefore, rowsBefore, tableChanges, rows);
      j := j + 1;
    }
    assert columns[..j] == columns;
  }

  /** One pass of the table loop: scan the table and, in a real run with a positive
      count, store the rewritten table. */
  method ReplaceInTable(ts: Assoc<string, Table>, name: string, search: string, replace: string, dryRun: bool)
    returns (tableChanges: nat, ts': Assoc<string, Table>)
    requires WellFormedTables(ts)
    ensures tableChanges == TableChanges(Describe(ts, name), search)
    ensures ts' == if tableChanges == 0 || dryRun then ts else ts.Put(name, ApplyTable(Describe(ts, name), search, replace))
  {
    var t := Describe(ts, name);
    var rows;
    tableChanges, rows := ScanTable(t, search, replace, dryRun);
    ts' := ts;
    if tableChanges > 0 && !dryRun {
      ts' := ts.Put(name, Table(t.columns, rows));
    }
  }

  /** `search_replace`: 400 `empty_search` for an empty (or "0") search string with
      nothing read or written; otherwise process the given tables, or every prefixed
      table when none are given. */
  method SearchReplace(db: Db, search: string, replace: string, tables: seq<string>, dryRun: bool)
    returns (r: Response<ReplaceReport>, db': Db)
    requires WellFormedTables(db.tables)
    ensures FalsyString(search) ==> r == Err("empty_search", BadRequest) && db' == db
    ensures !FalsyString(search) ==>
      var names := if tables == [] then PrefixedTables(db) else tables;
      var o := Process(db.tables, names, search, replace, dryRun);
      r == Ok(ReplaceReport(dryRun, search, replace, o.total, o.results)) && db' == db.(tables := o.tables)
  {
    if FalsyString(search) {
      return Err("empty_search", BadRequest), db;
    }
    var names := if tables == [] then PrefixedTables(db) else tables;
    var current := db.tables;
    var results: Assoc<string, nat> := Empty();
    var totalChanges := 0;
    var i := 0;
    while i < |names|
      invariant 0 <= i <= |names|
      invariant Process(db.tables, names[..i], search, replace, dryRun) == Outcome(current, results, totalChanges)
      invariant results.Valid()
    {
      var name := names[i];
      ghost var before := Outcome(current, results, totalChanges);
      var tableChanges;
      tableChanges, current := ReplaceInTable(current, name, search, replace, dryRun);
      if tableChanges > 0 {
        results := results.Put(name, tableChanges);
        totalChanges := totalChanges + tableChanges;
      }
      ProcessAdvance(db.tables, names, i, search, replace, dryRun, before, tableChanges, Outcome(current, results, totalChanges));
      i := i + 1;
    }
    assert names[..i] == names;
    r := Ok(ReplaceReport(dryRun, search, replace, totalChanges, results));
    db' := db.(tables := current);
  }

  // --------------------------------------------------- what search_replace does

  /** A dry run writes nothing. */
  lemma {:induction false} DryRunLeavesData(ts: Assoc<string, Table>, names: seq<string>, search: string, replace: string)
    requires WellFormedTables(ts)
    ensures Process(ts, names, search, replace, true).tables == ts
  {
    if names != [] {
      DryRunLeavesData(ts, names[..|names| - 1], search, replace);
    }
  }

  /** A table not yet reached is seen as it was, in a dry run and in a real run. */
  lemma {:induction false} UnreachedTableUnchanged(ts: Assoc<string, Table>, names: seq<string>, search: string, replace: string, dryRun: bool, y: string)
    requires WellFormedTables(ts)
    requires y !in names
    ensures Describe(Process(ts, names, search, replace, dryRun).tables, y) == Describe(ts, y)
  {
    if names != [] {
      UnreachedTableUnchanged(ts, names[..|names| - 1], search, replace, dryRun, y);
    }
  }

  /** The sum of the values of a count table, in key order. */
  function SumCounts(keys: seq<string>, vals: map<string, nat>): nat
    requires forall k :: k in keys ==> k in vals
  {
    if keys == [] then 0 else SumCounts(keys[..|keys| - 1], vals) + vals[keys[|keys| - 1]]
  }

  lemma {:induction false} SumCountsFrame(keys: seq<string>, vals: map<string, nat>, k: string, v: nat)
    requires forall x :: x in keys ==> x in vals
    requires k !in keys
    ensures SumCounts(keys, vals[k := v]) == SumCounts(keys, vals)
  {
    if keys != [] {
      SumCountsFrame(keys[..|keys| - 1], vals, k, v);
    }
  }

  lemma {:induction false} ReportedEntry(ts: Assoc<string, Table>, names: seq<string>, search: string, replace: string, dryRun: bool, y: string)
    requires WellFormedTables(ts)
    requires Distinct(names) && y in names
    ensures var o := Process(ts, names, search, replace, dryRun);
            && (y in o.results.vals <==> TableChanges(Describe(ts, y), search) > 0)
            && (y in o.results.vals ==> o.results.vals[y] == TableChanges(Describe(ts, y), search))
  {
    var prefix := names[..|names| - 1];
    var name := names[|names| - 1];
    assert Distinct(prefix);
    if y == name {
      assert y !in prefix;
      UnreachedTableUnchanged(ts, prefix, search, replace, dryRun, y);
    } else {
      assert y in prefix by { assert names == prefix + [name]; }
      ReportedEntry(ts, prefix, search, replace, dryRun, y);
    }
  }

  lemma {:induction false} TotalIsSum(ts: Assoc<string, Table>, names: seq<string>, search: string, replace: string, dryRun: bool)
    requires WellFormedTables(ts)
    requires Distinct(names)
    ensures var o := Process(ts, names, search, replace, dryRun);
            o.total == SumCounts(o.results.keys, o.results.vals)
  {
    if names != [] {
      var prefix := names[..|names| - 1];
      var name := names[|names| - 1];
      assert Distinct(prefix);
      TotalIsSum(ts, prefix, search, replace, dryRun);
      var prev := Process(ts, prefix, search, replace, dryRun);
      var c := TableChanges(Describe(prev.tables, name), search);
      var o := Process(ts, names, search, replace, dryRun);
      assert o.results == (if c == 0 then prev.results else prev.results.Put(name, c))
          && o.total == (if c == 0 then prev.total else prev.total + c);
      if c > 0 {
        assert name !in prefix;
        assert name !in prev.results.vals;
        var after := prev.results.Put(name, c);
        assert after.keys[..|after.keys| - 1] == prev.results.keys;
        SumCountsFrame(prev.results.keys, prev.results.vals, name, c);
        assert SumCounts(after.keys, after.vals) == SumCounts(prev.results.keys, prev.results.vals) + c;
      }
    }
  }

  /** With each table named once: a table is reported exactly when its count on the
      original data is positive, with that count, and `total_changes` is the sum of
      the reported counts. */
  lemma ReportedCounts(ts: Assoc<string, Table>, names: seq<string>, search: string, replace: string, dryRun: bool)
    requires WellFormedTables(ts)
    requires Distinct(names)
    ensures var o := Process(ts, names, search, replace, dryRun);
            && (forall y :: y in names ==>
                  && (y in o.results.vals <==> TableChanges(Describe(ts, y), search) > 0)
                  && (y in o.results.vals ==> o.results.vals[y] == TableChanges(Describe(ts, y), search)))
            && o.total == SumCounts(o.results.keys, o.results.vals)
  {
    forall y | y in names
      ensures var o := Process(ts, names, search, replace, dryRun);
              && (y in o.results.vals <==> TableChanges(Describe(ts, y), search) > 0)
              && (y in o.results.vals ==> o.results.vals[y] == TableChanges(Describe(ts, y), search))
    {
      ReportedEntry(ts, names, search, replace, dryRun, y);
    }
    TotalIsSum(ts, names, search, replace, dryRun);
  }

  /** With each table named once, a dry run reports exactly what a real run would. */
  lemma {:induction false} DryRunReportsSame(ts: Assoc<string, Table>, names: seq<string>, search: string, replace: string)
    requires WellFormedTables(ts)
    requires Distinct(names)
    ensures Process(ts, names, search, replace, true).results == Process(ts, names, search, replace, false).results
    ensures Process(ts, names, search, replace, true).total == Process(ts, names, search, replace, false).total
  {
    if names != [] {
      var prefix := names[..|names| - 1];
      var name := names[|names| - 1];
      DryRunReportsSame(ts, prefix, search, replace);
      UnreachedTableUnchanged(ts, prefix, search, replace, true, name);
      UnreachedTableUnchanged(ts, prefix, search, replace, false, name);
    }
  }

  /** With each table named once, a real run leaves every table it was not asked to
      process as it was, and every processed table holds the replaced data. */
  lemma {:induction false} RealRunRewrites(ts: Assoc<string, Table>, names: seq<string>, search: string, replace: string, y: string)
    requires WellFormedTables(ts)
    requires Distinct(names)
    requires y in ts.vals
    ensures var after := Process(ts, names, search, replace, false).tables;
            && (y !in names ==> after.vals[y] == ts.vals[y])
            && (y in names ==> after.vals[y] == if TableChanges(ts.vals[y], search) > 0 then ApplyTable(ts.vals[y], search, replace) else ts.vals[y])
  {
    if names != [] {
      var prefix := names[..|names| - 1];
      var name := names[|names| - 1];
      assert Distinct(prefix);
      RealRunRewrites(ts, prefix, search, replace, y);
      if y == name {
        assert y !in prefix;
        UnreachedTableUnchanged(ts, prefix, search, replace, false, name);
      } else {
        assert y in names <==> y in prefix by { assert names == prefix + [name]; }
      }
    }
  }

  /** In a rewritten table, rows without the search string in any text column are
      untouched, and each text column of a row holds `REPLACE()` of its old value. */
  lemma ApplyTableRows(t: Table, search: string, replace: string, i: nat)
    requires DistinctFields(t.columns) && i < |t.rows|
    ensures var r := ApplyTable(t, search, replace);
            && r.rows[i].Keys == t.rows[i].Keys
            && ((forall j :: 0 <= j < |t.columns| && IsTextColumn(t.columns[j]) ==> !Matches(t.rows[i], t.columns[j].field, search))
                  ==> r.rows[i] == t.rows[i])
            && (forall j :: 0 <= j < |t.columns| && IsTextColumn(t.columns[j]) && t.columns[j].field in t.rows[i] ==>
                  var f := t.columns[j].field;
                  r.rows[i][f] == if Contains(t.rows[i][f], search) then ReplaceAll(t.rows[i][f], search, replace) else t.rows[i][f])
  {
    if forall j :: 0 <= j < |t.columns| && IsTextColumn(t.columns[j]) ==> !Matches(t.rows[i], t.columns[j].field, search) {
      ApplyColumnsUntouched(t.rows, t.columns, search, replace, i);
    }
    forall j | 0 <= j < |t.columns| && IsTextColumn(t.columns[j]) && t.columns[j].field in t.rows[i]
      ensures var f := t.columns[j].field;
              ApplyTable(t, search, replace).rows[i][f]
                == if Contains(t.rows[i][f], search) then ReplaceAll(t.rows[i][f], search, replace) else t.rows[i][f]
    {
      ApplyColumnsValue(t.rows, t.columns, search, replace, i, j);
    }
  }

  // ---------------------------------------------------------- clean_revisions

  /** Revision ids per parent post, newest first (`ORDER BY post_modified DESC`); the
      keys are the distinct `post_parent` values of all revisions. */
  type Revisions = Assoc<int, seq<int>>

  /** `array_slice($revisions, $keep)`: what is deleted. */
  function Drop(s: seq<int>, keep: nat): seq<int>
  {
    if keep >= |s| then [] else s[keep..]
  }

  /** What survives: the `keep` newest. */
  function Kept(s: seq<int>, keep: nat): seq<int>
  {
    if keep >= |s| then s else s[..keep]
  }

  /** Kept and deleted revisions split the list, newest ones kept. */
  lemma KeptAndDropPartition(s: seq<int>, keep: nat)
    ensures Kept(s, keep) + Drop(s, keep) == s
    ensures |Kept(s, keep)| == Min(keep, |s|)
    ensures |Drop(s, keep)| == if |s| > keep then |s| - keep else 0
  {
    if keep < |s| { assert s[..keep] + s[keep..] == s; }
  }

  function Min(a: int, b: int): int { if a <= b then a else b }

  /** The revisions deleted for the first `n` parents, in order; parent 0 is skipped. */
  function Deleted(revs: Revisions, n: nat, keep: nat): seq<int>
    requires revs.Valid() && n <= |revs.keys|
  {
    if n == 0 then []
    else
      var p := revs.keys[n - 1];
      Deleted(revs, n - 1, keep) + (if p == 0 then [] else Drop(revs.vals[p], keep))
  }

  /** Σ max(0, n_p − keep) over the first `n` parents, parent 0 excluded. */
  function Excess(revs: Revisions, n: nat, keep: nat): nat
    requires revs.Valid() && n <= |revs.keys|
  {
    if n == 0 then 0
    else
      var p := revs.keys[n - 1];
      Excess(revs, n - 1, keep) + (if p == 0 || |revs.vals[p]| <= keep then 0 else |revs.vals[p]| - keep)
  }

  /** The number deleted is Σ max(0, n_p − keep). */
  lemma {:induction false} DeletedCount(revs: Revisions, n: nat, keep: nat)
    requires revs.Valid() && n <= |revs.keys|
    ensures |Deleted(revs, n, keep)| == Excess(revs, n, keep)
  {
    if n > 0 {
      DeletedCount(revs, n - 1, keep);
      KeptAndDropPartition(revs.vals[revs.keys[n - 1]], keep);
    }
  }

  /** The revision table once the parents in `done` have been pruned. */
  function Pruned(revs: map<int, seq<int>>, done: seq<int>, keep: nat): (r: map<int, seq<int>>)
    ensures r.Keys == revs.Keys
  {
    map p | p in revs :: if p != 0 && p in done then Kept(revs[p], keep) else revs[p]
  }

  /** Once every parent is done, each non-zero parent keeps only its newest revisions. */
  lemma PrunedAll(revs: Revisions, keep: nat)
    requires revs.Valid()
    ensures forall p :: p in revs.vals ==> Pruned(revs.vals, revs.keys, keep)[p] == if p == 0 then revs.vals[p] else Kept(revs.vals[p], keep)
  {
  }

  lemma PrunedStep(revs: map<int, seq<int>>, done: seq<int>, p: int, keep: nat)
    requires p in revs
    ensures Pruned(revs, done + [p], keep) == if p == 0 then Pruned(revs, done, keep) else Pruned(revs, done, keep)[p := Kept(revs[p], keep)]
  {
  }

  /** One more parent: how the pruned table and the deleted list extend from the
      first `i` parents to `i + 1`. */
  lemma CleanStep(revs: Revisions, i: nat, keep: nat)
    requires revs.Valid() && i < |revs.keys|
    ensures var p := revs.keys[i];
            && p in revs.vals
            && Pruned(revs.vals, revs.keys[..i + 1], keep)
                 == (if p == 0 then Pruned(revs.vals, revs.keys[..i], keep)
                     else Pruned(revs.vals, revs.keys[..i], keep)[p := Kept(revs.vals[p], keep)])
            && Deleted(revs, i + 1, keep) == Deleted(revs, i, keep) + (if p == 0 then [] else Drop(revs.vals[p], keep))
  {
    assert revs.keys[..i + 1] == revs.keys[..i] + [revs.keys[i]];
    PrunedStep(revs.vals, revs.keys[..i], revs.keys[i], keep);
  }

  /** The parent loop's state after the first `i` parents: the table pruned for
      them and the revisions deleted for them. */
  ghost predicate CleanedUpTo(revs: Revisions, keep: nat, i: nat, cur: Revisions, removed: seq<int>)
    requires revs.Valid() && i <= |revs.keys|
  {
    && cur.Valid() && cur.keys == revs.keys
    && cur.vals == Pruned(revs.vals, revs.keys[..i], keep)
    && removed == Deleted(revs, i, keep)
  }

  /** The parent loop's state after one more parent. */
  lemma CleanAdvance(revs: Revisions, i: nat, keep: nat, cur: Revisions, removed: seq<int>, cur': Revisions, removed': seq<int>)
    requires revs.Valid() && i < |revs.keys|
    requires CleanedUpTo(revs, keep, i, cur, removed)
    requires var p := revs.keys[i];
             p in revs.vals
             && (p == 0 ==> cur' == cur && removed' == removed)
             && (p != 0 ==> cur' == cur.Put(p, Kept(revs.vals[p], keep)) && removed' == removed + Drop(revs.vals[p], keep))
    ensures CleanedUpTo(revs, keep, i + 1, cur', removed')
  {
    CleanStep(revs, i, keep);
  }

  /** Before the first parent nothing is pruned or deleted. */
  lemma CleanedNone(revs: Revisions, keep: nat)
    requires revs.Valid()
    ensures CleanedUpTo(revs, keep, 0, revs, [])
  {
    assert revs.keys[..0] == [];
    assert Pruned(revs.vals, [], keep) == revs.vals;
  }

  /** After the last parent the loop state is the whole specification. */
  lemma CleanedAll(revs: Revisions, keep: nat, cur: Revisions, removed: seq<int>)
    requires revs.Valid()
    requires CleanedUpTo(revs, keep, |revs.keys|, cur, removed)
    ensures cur.Valid() && cur.keys == revs.keys
    ensures cur.vals == Pruned(revs.vals, revs.keys, keep)
    ensures removed == Deleted(revs, |revs.keys|, keep)
    ensures |removed| == Excess(revs, |revs.keys|, keep)
  {
    assert revs.keys[..|revs.keys|] == revs.keys;
    DeletedCount(revs, |revs.keys|, keep);
  }

  /** The inner loop of `clean_revisions`: delete every revision after the first
      `keep`, oldest last; `batch` lists the deleted ids in order. */
  method DeleteSurplus(revisions: seq<int>, keep: nat) returns (batch: seq<int>)
    ensures batch == Drop(revisions, keep)
    ensures |batch| == if |revisions| > keep then |revisions| - keep else 0
  {
    var toDelete := Drop(revisions, keep);
    batch := [];
    var k := 0;
    while k < |toDelete|
      invariant 0 <= k <= |toDelete|
      invariant batch == toDelete[..k]
    {
      batch := batch + [toDelete[k]];
      k := k + 1;
    }
    assert toDelete[..k] == toDelete;
    KeptAndDropPartition(revisions, keep);
  }

  /** One pass of the parent loop of `clean_revisions`: a non-zero parent loses
      the revisions after its `keep` newest; parent 0 is skipped. */
  method CleanParent(revs: Revisions, keep: nat, i: nat, cur: Revisions, removed: seq<int>, deleted: nat)
    returns (cur': Revisions, removed': seq<int>, deleted': nat)
    requires revs.Valid() && i < |revs.keys|
    requires CleanedUpTo(revs, keep, i, cur, removed) && deleted == |removed|
    ensures CleanedUpTo(revs, keep, i + 1, cur', removed') && deleted' == |removed'|
  {
    var postId := revs.keys[i];
    assert postId in revs.vals by { assert revs.keys[i] in revs.keys; }
    cur', removed', deleted' := cur, removed, deleted;
    if postId != 0 {
      var revisions := revs.vals[postId];
      var batch := DeleteSurplus(revisions, keep);
      removed' := removed + batch;
      deleted' := deleted + |batch|;
      cur' := cur.Put(postId, Kept(revisions, keep));
    }
    CleanAdvance(revs, i, keep, cur, removed, cur', removed');
  }

  /** The parent loop of `clean_revisions`, over every parent in order. */
  method CleanParents(revs: Revisions, keep: nat) returns (deleted: nat, removed: seq<int>, revs': Revisions)
    requires revs.Valid()
    ensures CleanedUpTo(revs, keep, |revs.keys|, revs', removed) && deleted == |removed|
  {
    revs' := revs;
    deleted := 0;
    removed := [];
    var i := 0;
    CleanedNone(revs, keep);
    while i < |revs.keys|
      invariant 0 <= i <= |revs.keys|
      invariant CleanedUpTo(revs, keep, i, revs', removed)
      invariant deleted == |removed|
    {
      revs', removed, deleted := CleanParent(revs, keep, i, revs', removed, deleted);
      i := i + 1;
    }
    assert i == |revs.keys|;
  }

  /** `clean_revisions`: for each non-zero parent, delete all but the `absint(keep)`
      newest revisions. `removed` lists the deleted revision ids in deletion order. */
  method CleanRevisions(revs: Revisions, keepParam: int) returns (deleted: nat, keptPerPost: nat, removed: seq<int>, revs': Revisions)
    requires revs.Valid()
    ensures keptPerPost == AbsInt(keepParam)
    ensures revs'.Valid() && revs'.keys == revs.keys
    ensures revs'.vals == Pruned(revs.vals, revs.keys, keptPerPost)
    ensures removed == Deleted(revs, |revs.keys|, keptPerPost)
    ensures deleted == |removed| == Excess(revs, |revs.keys|, keptPerPost)
  {
    keptPerPost := AbsInt(keepParam);
    deleted, removed, revs' := CleanParents(revs, keptPerPost);
    CleanedAll(revs, keptPerPost, revs', removed);
  }
}
