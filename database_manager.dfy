/**
 * The SQLite side of the tool: the text of the one `CREATE TABLE` statement, the text
 * of the `INSERT` statements, and the two procedures that run them, `create_database`
 * and `insert_table_data`. The SQL engine is not modelled: a `Database` object keeps
 * what has been committed, what is waiting for a commit, and the statements handed to a
 * cursor; whether the engine raises `sqlite3.Error` at a given call is an input.
 */
module DatabaseManager {
  import opened Runtime
  import opened Text
  import opened Groups

  // ---------------------------------------------------------------------------
  // The table definition
  // ---------------------------------------------------------------------------

  /** A column definition: the column's name, a blank, then its type and constraints. */
  function ColumnDef(name: string, kind: string): (def: string)
    ensures Declares(def, name)
  {
    name + " " + kind
  }

  /** A column definition declares the column whose name is its first word. */
  predicate Declares(def: string, name: string) { name + " " <= def }

  /** The column definitions every table starts with, in the order of the statement. */
  const FixedColumnDefs: seq<string> := [
    ColumnDef("id", "INTEGER PRIMARY KEY"),
    ColumnDef("iteration", "INTEGER NOT NULL"),
    ColumnDef("best_local_min", "TEXT NOT NULL"),
    ColumnDef("current_epoch", "INTEGER NOT NULL"),
    ColumnDef("trades_count", "INTEGER NOT NULL"),
    ColumnDef("avg_profit_pct", "REAL NOT NULL"),
    ColumnDef("total_profit_currency", "REAL NOT NULL"),
    ColumnDef("total_profit_pct", "REAL NOT NULL"),
    ColumnDef("avg_duration_minutes", "REAL NOT NULL"),
    ColumnDef("loss_func", "REAL NOT NULL")
  ]

  /** The indentation of the continuation lines of the multi-line column literal. */
  const Indent: string := "                    "

  /**
   * The multi-line literal `table_root` starts as: the fixed definitions, one per line
   * (comma, line break, indentation between them), closed by a comma and a blank.
   */
  const TableRootStart: string := Join(FixedColumnDefs, ",\n" + Indent) + ", "

  /** `spaces_col`: the column definition of each group, a text column named after it. */
  const SpacesCol: map<string, string> := map g | g in AllGroups :: ColumnDef(g, "TEXT NOT NULL")

  /**
   * What the `add_col` loop computes: the definition of each group in order, or the
   * `KeyError` of the first group `spaces_col` does not know.
   */
  function AddCol(groups: seq<string>): Result<seq<string>>
  {
    GetAll(SpacesCol, groups)
  }

  /** The `add_col` loop of `create_database`. */
  method BuildAddCol(tableData: seq<string>) returns (r: Result<seq<string>>)
    ensures r.Ok? <==> forall k :: 0 <= k < |tableData| ==> tableData[k] in SpacesCol
    ensures r.Ok? ==> |r.value| == |tableData| &&
                      forall k :: 0 <= k < |tableData| ==> r.value[k] == SpacesCol[tableData[k]]
    ensures r == AddCol(tableData)
  {
    var addCol: seq<string> := [];
    var k := 0;
    while k < |tableData|
      invariant 0 <= k <= |tableData|
      invariant |addCol| == k
      invariant forall j :: 0 <= j < k ==> tableData[j] in SpacesCol && addCol[j] == SpacesCol[tableData[j]]
    {
      if tableData[k] !in SpacesCol {
        r := Err(KeyError(tableData[k]));
        GetAllFirstMissing(SpacesCol, tableData, k);
        return;
      }
      addCol := addCol + [SpacesCol[tableData[k]]];
      k := k + 1;
    }
    r := Ok(addCol);
    GetAllFound(SpacesCol, tableData, addCol);
  }

  /** `table_root` once the group definitions are appended, joined by `', '`. */
  function ColumnList(addCol: seq<string>): string
  {
    TableRootStart + Join(addCol, ", ")
  }

  /** `create_hyperopt_data_table`. */
  function CreateStatement(addCol: seq<string>): string
  {
    "CREATE TABLE hyperopt_results (" + ColumnList(addCol) + ");"
  }

  /** Each group's column is a text column named after the group. */
  lemma SpacesColDeclaresGroup()
    ensures SpacesCol.Keys == set g | g in AllGroups
    ensures forall g :: g in SpacesCol ==> SpacesCol[g] == g + " TEXT NOT NULL" && Declares(SpacesCol[g], g)
  {
    assert " " + "TEXT NOT NULL" == " TEXT NOT NULL";
    forall g | g in SpacesCol ensures SpacesCol[g] == g + " TEXT NOT NULL" {
      assert SpacesCol[g] == g + " " + "TEXT NOT NULL";
    }
    assert SpacesCol.Keys == set g | g in AllGroups;
  }

  /** A definition made of a bare name and a separator-free type reads back whole. */
  lemma ColumnDefBare(name: string, kind: string, sep: char)
    requires name != [] && Bare(name, sep) && sep !in kind && sep != ' '
    ensures Bare(ColumnDef(name, kind), sep)
  {
    assert ColumnDef(name, kind)[0] == name[0];
  }

  lemma FixedColumnDefsBare()
    ensures forall k :: 0 <= k < |FixedColumnDefs| ==> Bare(FixedColumnDefs[k], ',')
  {
    assert ',' !in "INTEGER PRIMARY KEY" && ',' !in "INTEGER NOT NULL";
    assert ',' !in "TEXT NOT NULL" && ',' !in "REAL NOT NULL";
    ColumnDefBare("id", "INTEGER PRIMARY KEY", ',');
    ColumnDefBare("iteration", "INTEGER NOT NULL", ',');
    ColumnDefBare("best_local_min", "TEXT NOT NULL", ',');
    ColumnDefBare("current_epoch", "INTEGER NOT NULL", ',');
    ColumnDefBare("trades_count", "INTEGER NOT NULL", ',');
    ColumnDefBare("avg_profit_pct", "REAL NOT NULL", ',');
    ColumnDefBare("total_profit_currency", "REAL NOT NULL", ',');
    ColumnDefBare("total_profit_pct", "REAL NOT NULL", ',');
    ColumnDefBare("avg_duration_minutes", "REAL NOT NULL", ',');
    ColumnDefBare("loss_func", "REAL NOT NULL", ',');
  }

  lemma SpacesColBare()
    ensures forall g :: g in SpacesCol ==> Bare(SpacesCol[g], ',') && Bare(g, ',')
  {
    assert ',' !in "TEXT NOT NULL";
    assert Bare("buy", ',') && Bare("sell", ',') && Bare("roi", ',');
    assert Bare("stoploss", ',') && Bare("trailing", ',');
    forall g | g in SpacesCol ensures Bare(SpacesCol[g], ',') && Bare(g, ',') {
      ColumnDefBare(g, "TEXT NOT NULL", ',');
    }
  }

  /**
   * Read back at its commas, the column list of the table is the ten fixed definitions
   * followed by the given definitions, in order. With no definitions the list ends in a
   * dangling comma, which reads back as one empty definition.
   */
  lemma {:induction false} ColumnListFields(addCol: seq<string>)
    requires forall k :: 0 <= k < |addCol| ==> Bare(addCol[k], ',')
    ensures Fields(ColumnList(addCol), ',') == FixedColumnDefs + (if addCol == [] then [""] else addCol)
  {
    var fixed := Join(FixedColumnDefs, [','] + ("\n" + Indent));
    assert ",\n" + Indent == [','] + ("\n" + Indent);
    assert ", " == [','] + " ";
    assert ColumnList(addCol) == fixed + [','] + (" " + Join(addCol, [','] + " "));
    FieldsConcat(fixed, " " + Join(addCol, [','] + " "), ',');
    FixedColumnDefsBare();
    assert AllSpace("\n" + Indent);
    FieldsJoin("", FixedColumnDefs, ',', "\n" + Indent);
    assert "" + fixed == fixed;
    if addCol == [] {
      FieldsBlank(" ", ',');
    } else {
      FieldsJoin(" ", addCol, ',', " ");
    }
  }

  /**
   * For known groups the table has 10 + |groups| columns: the fixed ones, then one
   * `<group> TEXT NOT NULL` column per group, in the order of the groups.
   */
  lemma TableColumns(groups: seq<string>)
    requires groups != []
    requires AddCol(groups).Ok?
    ensures var cols := Fields(ColumnList(AddCol(groups).value), ',');
            |cols| == 10 + |groups| &&
            cols[..10] == FixedColumnDefs &&
            forall k :: 0 <= k < |groups| ==> cols[10 + k] == groups[k] + " TEXT NOT NULL"
  {
    var defs := AddCol(groups).value;
    SpacesColBare();
    SpacesColDeclaresGroup();
    ColumnListFields(defs);
    var cols := Fields(ColumnList(defs), ',');
    assert cols == FixedColumnDefs + defs;
    assert cols[..10] == FixedColumnDefs;
  }

  // ---------------------------------------------------------------------------
  // The insert statements
  // ---------------------------------------------------------------------------

  /** The columns every insert names, in the order of the statement. */
  const FixedInsertNames: seq<string> := [
    "iteration", "best_local_min", "current_epoch", "trades_count", "avg_profit_pct",
    "total_profit_currency", "total_profit_pct", "avg_duration_minutes", "loss_func"
  ]

  /**
   * The two literals that make up `table_root` of `insert_table_data`: the first ends in
   * `total_profit_currency,` and the second starts with `total_profit_pct` without a
   * blank in between; the second ends in a comma and a blank.
   */
  const InsertRootStart: string :=
    Join(FixedInsertNames[..6], ", ") + "," + Join(FixedInsertNames[6..], ", ") + ", "

  /** `table_root` of `insert_table_data` once `', '.join(insert_data[0])` is appended. */
  function InsertColumns(header: seq<string>): string
  {
    InsertRootStart + Join(header, ", ")
  }

  /** `insert_hyperopt_results` for one entry: every value quoted with `"` after `str()`. */
  function InsertStatement(columns: string, entry: seq<Value>): string
  {
    "INSERT INTO hyperopt_results (" + columns + ") VALUES (\"" + Join(Strs(entry), "\", \"") + "\");"
  }

  /** The statements of one batch, one per entry, in the order of the entries. */
  function InsertStatements(header: seq<string>, entries: seq<seq<Value>>): (r: seq<string>)
    ensures |r| == |entries|
    ensures forall k :: 0 <= k < |entries| ==> r[k] == InsertStatement(InsertColumns(header), entries[k])
  {
    seq(|entries|, k requires 0 <= k < |entries| => InsertStatement(InsertColumns(header), entries[k]))
  }

  lemma FixedInsertNamesPlain()
    ensures forall k :: 0 <= k < |FixedInsertNames| ==> '"' !in FixedInsertNames[k]
  {
  }

  lemma FixedInsertNamesBare()
    ensures forall k :: 0 <= k < |FixedInsertNames| ==> Bare(FixedInsertNames[k], ',')
  {
    assert Bare(FixedInsertNames[0], ',');
    assert Bare(FixedInsertNames[1], ',');
    assert Bare(FixedInsertNames[2], ',');
    assert Bare(FixedInsertNames[3], ',');
    assert Bare(FixedInsertNames[4], ',');
    assert Bare(FixedInsertNames[5], ',');
    assert Bare(FixedInsertNames[6], ',');
    assert Bare(FixedInsertNames[7], ',');
    assert Bare(FixedInsertNames[8], ',');
  }

  /** The two literals of `table_root`, read back at their commas, give the nine fixed names. */
  lemma FixedInsertFields()
    ensures Fields(Join(FixedInsertNames[..6], ", "), ',') == FixedInsertNames[..6]
    ensures Fields(Join(FixedInsertNames[6..], ", "), ',') == FixedInsertNames[6..]
  {
    FixedInsertNamesBare();
    assert ", " == [','] + " ";
    assert "" + Join(FixedInsertNames[..6], ", ") == Join(FixedInsertNames[..6], ", ");
    assert "" + Join(FixedInsertNames[6..], ", ") == Join(FixedInsertNames[6..], ", ");
    FieldsJoin("", FixedInsertNames[..6], ',', " ");
    FieldsJoin("", FixedInsertNames[6..], ',', " ");
  }

  /** The header part, after the blank that follows the last fixed name. */
  lemma HeaderFields(header: seq<string>)
    requires forall k :: 0 <= k < |header| ==> Bare(header[k], ',')
    ensures Fields(" " + Join(header, ", "), ',') == (if header == [] then [""] else header)
  {
    var blank := " ";
    assert AllSpace(blank) && ',' !in blank;
    if header == [] {
      assert blank + Join(header, ", ") == blank;
      FieldsBlank(blank, ',');
    } else {
      CommaBlank();
      FieldsJoin(blank, header, ',', blank);
    }
  }

  /** The joiner `", "` seen as the separator followed by its padding. */
  lemma CommaBlank()
    ensures ", " == [','] + " "
  {
  }

  /** The column list of an insert, cut at the comma inside the literal and at the one before the header. */
  lemma InsertColumnsPieces(header: seq<string>)
    ensures InsertColumns(header) ==
              Join(FixedInsertNames[..6], ", ") + [','] +
              (Join(FixedInsertNames[6..], ", ") + [','] + (" " + Join(header, ", ")))
  {
    CommaBlank();
  }

  /**
   * Read back at its commas, the column list of an insert is the nine fixed names
   * followed by the header's names; an empty header leaves a dangling comma.
   */
  lemma InsertColumnsFields(header: seq<string>)
    requires forall k :: 0 <= k < |header| ==> Bare(header[k], ',')
    ensures Fields(InsertColumns(header), ',') == FixedInsertNames + (if header == [] then [""] else header)
  {
    var first := Join(FixedInsertNames[..6], ", ");
    var second := Join(FixedInsertNames[6..], ", ");
    var rest := " " + Join(header, ", ");
    InsertColumnsPieces(header);
    FieldsThree(first, second, rest, ',');
    FixedInsertFields();
    HeaderFields(header);
    assert FixedInsertNames == FixedInsertNames[..6] + FixedInsertNames[6..];
  }

  /**
   * The table created from a list of known groups and the inserts made with the same
   * list agree column by column: after `id`, the k-th defined column is the k-th
   * inserted one.
   */
  lemma SchemaMatchesInsert(groups: seq<string>)
    requires groups != []
    requires AddCol(groups).Ok?
    ensures var defined := Fields(ColumnList(AddCol(groups).value), ',');
            var inserted := Fields(InsertColumns(groups), ',');
            |defined| == 1 + |inserted| && |inserted| == 9 + |groups| &&
            defined[0] == ColumnDef("id", "INTEGER PRIMARY KEY") &&
            forall k :: 0 <= k < |inserted| ==> Declares(defined[k + 1], inserted[k])
  {
    var defs := AddCol(groups).value;
    var defined := Fields(ColumnList(defs), ',');
    var inserted := Fields(InsertColumns(groups), ',');
    SpacesColBare();
    assert defined == FixedColumnDefs + defs by {
      ColumnListFields(defs);
    }
    assert inserted == FixedInsertNames + groups by {
      InsertColumnsFields(groups);
    }
    FixedColumnsDeclareInsertNames();
    forall k | 0 <= k < |inserted| ensures Declares(defined[k + 1], inserted[k]) {
      if k < 9 {
        assert defined[k + 1] == FixedColumnDefs[k + 1];
        assert inserted[k] == FixedInsertNames[k];
      } else {
        assert inserted[k] == groups[k - 9];
        assert defined[k + 1] == defs[k - 9] == ColumnDef(groups[k - 9], "TEXT NOT NULL");
      }
    }
  }

  /** After `id`, the fixed definitions declare the fixed insert names, in the same order. */
  lemma FixedColumnsDeclareInsertNames()
    ensures forall k :: 0 <= k < 9 ==> Declares(FixedColumnDefs[k + 1], FixedInsertNames[k])
  {
    forall k | 0 <= k < 9 ensures Declares(FixedColumnDefs[k + 1], FixedInsertNames[k]) {
    }
  }

  /** The values of an insert read back: the pieces between its `"` marks, every other one. */
  function ValuesOf(statement: string): seq<string>
  {
    Odds(Split(statement, '"'))
  }

  /**
   * An insert carries the entry's values in order, one per element: reading the quoted
   * values back gives `str()` of each element, provided no value text holds a `"`.
   */
  lemma InsertValuesRoundTrip(columns: string, entry: seq<Value>)
    requires '"' !in columns
    requires entry != []
    requires forall k :: 0 <= k < |entry| ==> '"' !in Str(entry[k])
    ensures ValuesOf(InsertStatement(columns, entry)) == Strs(entry)
    ensures |ValuesOf(InsertStatement(columns, entry))| == |entry|
  {
    var head := "INSERT INTO hyperopt_results (" + columns + ") VALUES (";
    var strs := Strs(entry);
    var body := Join(strs, "\", \"");
    var tail := ");";
    assert InsertStatement(columns, entry) == head + ['"'] + (body + ['"'] + tail);
    assert Split(head, '"') == [head] by {
      assert '"' !in head;
      SplitNoSep(head, '"');
    }
    assert Split(tail, '"') == [tail] by {
      SplitNoSep(tail, '"');
    }
    assert Split(body, '"') == Interleave(strs, ", ") by {
      SplitQuotedJoin(strs);
    }
    SplitConcat(head, body + ['"'] + tail, '"');
    SplitConcat(body, tail, '"');
    assert Split(InsertStatement(columns, entry), '"') == [head] + Interleave(strs, ", ") + [tail];
    OddsInterleave(head, strs, ", ", tail);
  }

  /** The column list of an insert holds no `"` when the groups are known. */
  lemma InsertColumnsUnquoted(groups: seq<string>)
    requires forall k :: 0 <= k < |groups| ==> groups[k] in SpacesCol
    ensures '"' !in InsertColumns(groups)
  {
    assert forall k :: 0 <= k < |FixedInsertNames| ==> '"' !in FixedInsertNames[k] by {
      FixedInsertNamesPlain();
    }
    JoinExcludes(FixedInsertNames[..6], ", ", '"');
    JoinExcludes(FixedInsertNames[6..], ", ", '"');
    forall k | 0 <= k < |groups| ensures '"' !in groups[k] {
      assert groups[k] in AllGroups by { SpacesColDeclaresGroup(); }
    }
    JoinExcludes(groups, ", ", '"');
  }

  // ---------------------------------------------------------------------------
  // The store
  // ---------------------------------------------------------------------------

  /** A statement handed to `cursor.execute`. */
  datatype Statement = CreateTable(ddl: string) | InsertRow(sql: string)

  /**
   * Where the SQL engine raises `sqlite3.Error` during one connection: at connecting, at
   * the `failingExecute`-th `execute` call (counting from 0), or at `commit`.
   */
  datatype EngineFaults = EngineFaults(connectFails: bool, failingExecute: Option<nat>, commitFails: bool)

  /** How a procedure ends: normally, after printing a caught `sqlite3.Error`, or by raising. */
  datatype Outcome = Done | SqlErrorPrinted | Raised(error: Error)

  /**
   * The SQLite file. `table` and `rows` are what has been committed (the table's
   * definition and the insert statements, in order); `pendingTable` and `pending` are
   * the effects of the current connection not yet committed; `executed` lists every
   * statement ever handed to a cursor.
   */
  class Database {
    var fileExists: bool
    var table: Option<string>
    var rows: seq<string>
    var isOpen: bool
    var pendingTable: Option<string>
    var pending: seq<string>
    var executed: seq<Statement>

    ghost predicate Valid()
      reads this
    {
      && (!fileExists ==> table.None? && rows == [] && !isOpen)
      && (!isOpen ==> pendingTable.None? && pending == [])
    }

    /** A file that either does not exist or holds a table and committed rows. */
    constructor (present: bool, table: Option<string>, rows: seq<string>)
      requires !present ==> table.None? && rows == []
      ensures Valid() && !isOpen
      ensures fileExists == present && this.table == table && this.rows == rows && executed == []
    {
      fileExists := present;
      this.table := table;
      this.rows := rows;
      isOpen := false;
      pendingTable := None;
      pending := [];
      executed := [];
    }

    /** `os.remove`: the file and everything in it go; a missing file is the `OSError` case. */
    method Remove() returns (failed: bool)
      requires Valid() && !isOpen
      modifies this
      ensures Valid() && !isOpen
      ensures failed == !old(fileExists)
      ensures !fileExists && table.None? && rows == []
      ensures executed == old(executed)
    {
      failed := !fileExists;
      fileExists := false;
      table := None;
      rows := [];
    }

    /** `sqlite3.connect`: opens the file, creating an empty one when there is none. */
    method Connect(fails: bool) returns (ok: bool)
      requires Valid() && !isOpen
      modifies this
      ensures Valid()
      ensures ok == !fails
      ensures isOpen == ok
      ensures fileExists == (old(fileExists) || ok)
      ensures table == old(table) && rows == old(rows) && executed == old(executed)
      ensures pendingTable.None? && pending == []
    {
      ok := !fails;
      if ok {
        fileExists := true;
        isOpen := true;
      }
    }

    /** `cursor.execute`: the statement is issued; unless it fails, its effect waits for a commit. */
    method Execute(s: Statement, fails: bool) returns (ok: bool)
      requires Valid() && isOpen
      modifies this
      ensures Valid() && isOpen
      ensures ok == !fails
      ensures executed == old(executed) + [s]
      ensures pendingTable == (if ok && s.CreateTable? then Some(s.ddl) else old(pendingTable))
      ensures pending == (if ok && s.InsertRow? then old(pending) + [s.sql] else old(pending))
      ensures fileExists == old(fileExists) && table == old(table) && rows == old(rows)
    {
      ok := !fails;
      executed := executed + [s];
      if ok {
        match s
        case CreateTable(ddl) => pendingTable := Some(ddl);
        case InsertRow(sql) => pending := pending + [sql];
      }
    }

    /** `connection.commit`: everything pending becomes permanent, or nothing does. */
    method Commit(fails: bool) returns (ok: bool)
      requires Valid() && isOpen
      modifies this
      ensures Valid() && isOpen
      ensures ok == !fails
      ensures ok ==> table == (if old(pendingTable).Some? then old(pendingTable) else old(table)) &&
                     rows == old(rows) + old(pending) && pendingTable.None? && pending == []
      ensures !ok ==> table == old(table) && rows == old(rows) &&
                      pendingTable == old(pendingTable) && pending == old(pending)
      ensures fileExists == old(fileExists) && executed == old(executed)
    {
      ok := !fails;
      if ok {
        if pendingTable.Some? {
          table := pendingTable;
        }
        rows := rows + pending;
        pendingTable := None;
        pending := [];
      }
    }

    /** `connection.close`: anything not committed is rolled back. */
    method Close()
      requires Valid() && isOpen
      modifies this
      ensures Valid() && !isOpen
      ensures fileExists == old(fileExists) && table == old(table) && rows == old(rows)
      ensures executed == old(executed)
    {
      isOpen := false;
      pendingTable := None;
      pending := [];
    }
  }

  /**
   * `create_database`: removes the old file (a failed removal is printed and
   * ignored), connects, expands the tokens, maps every group to its column, executes
   * the one `CREATE TABLE` statement and commits. An `sqlite3.Error` is printed and
   * ends the procedure; a `KeyError` for an unknown group, or the `TypeError` of a
   * missing token list, escapes. The connection, once opened, is closed on every path.
   */
  method CreateDatabase(db: Database, tableData: Option<seq<string>>, faults: EngineFaults)
    returns (r: Outcome, removeFailed: bool)
    requires db.Valid() && !db.isOpen
    modifies db
    ensures db.Valid() && !db.isOpen
    ensures removeFailed == !old(db.fileExists)
    ensures db.rows == []
    ensures db.fileExists == !faults.connectFails
    ensures faults.connectFails ==> r == SqlErrorPrinted && db.table.None? && db.executed == old(db.executed)
    ensures !faults.connectFails && tableData.None? ==>
              r == Raised(TypeError) && db.table.None? && db.executed == old(db.executed)
    ensures !faults.connectFails && tableData.Some? && AddCol(Expand(tableData.value)).Err? ==>
              r == Raised(AddCol(Expand(tableData.value)).error) && db.table.None? && db.executed == old(db.executed)
    ensures !faults.connectFails && tableData.Some? && AddCol(Expand(tableData.value)).Ok? ==>
              var ddl := CreateStatement(AddCol(Expand(tableData.value)).value);
              && db.executed == old(db.executed) + [CreateTable(ddl)]
              && (r == Done <==> faults.failingExecute != Some(0) && !faults.commitFails)
              && (r != Done ==> r == SqlErrorPrinted)
              && db.table == (if r == Done then Some(ddl) else None)
  {
    removeFailed := db.Remove();
    var connected := db.Connect(faults.connectFails);
    if !connected {
      r := SqlErrorPrinted;
      return;
    }
    if tableData.None? {
      db.Close();
      r := Raised(TypeError);
      return;
    }
    var groups := Expand(tableData.value);
    var addCol := BuildAddCol(groups);
    if addCol.Err? {
      db.Close();
      r := Raised(addCol.error);
      return;
    }
    var ddl := CreateStatement(addCol.value);
    var ok := db.Execute(CreateTable(ddl), faults.failingExecute == Some(0));
    if ok {
      ok := db.Commit(faults.commitFails);
    }
    r := if ok then Done else SqlErrorPrinted;
    db.Close();
  }

  /** Whether a batch of `count` inserts gets committed under the given faults. */
  predicate BatchCommits(count: nat, faults: EngineFaults)
  {
    && !faults.connectFails
    && !faults.commitFails
    && (faults.failingExecute.None? || faults.failingExecute.value >= count)
  }

  /** How many of a batch's inserts reach `cursor.execute` under the given faults. */
  function IssuedCount(count: nat, faults: EngineFaults): (n: nat)
    ensures n <= count
    ensures !faults.connectFails && (faults.failingExecute.None? || faults.failingExecute.value >= count) ==> n == count
  {
    if faults.connectFails then 0
    else if faults.failingExecute.Some? && faults.failingExecute.value < count then faults.failingExecute.value + 1
    else count
  }

  /** The insert statements as they are handed to the cursor. */
  function AsInserts(sqls: seq<string>): (r: seq<Statement>)
    ensures |r| == |sqls|
    ensures forall k :: 0 <= k < |sqls| ==> r[k] == InsertRow(sqls[k])
  {
    seq(|sqls|, k requires 0 <= k < |sqls| => InsertRow(sqls[k]))
  }

  /** One more statement handed to the cursor is one more element of the log. */
  lemma AsInsertsSnoc(sqls: seq<string>, sql: string)
    ensures AsInserts(sqls + [sql]) == AsInserts(sqls) + [InsertRow(sql)]
  {
    assert |AsInserts(sqls + [sql])| == |sqls| + 1;
    assert forall k :: 0 <= k < |sqls| + 1 ==>
      AsInserts(sqls + [sql])[k] == (AsInserts(sqls) + [InsertRow(sql)])[k];
  }

  /**
   * The loop of `insert_table_data` on an open connection: the statements in order,
   * stopping at the first one the engine refuses. `ok` says whether every statement
   * went through, and then all of them wait for the commit. The statements are those of
   * `InsertStatements`; building each one just before it is executed, as the loop does,
   * gives the same text since the text depends on nothing the loop changes.
   */
  method ExecuteInserts(db: Database, sqls: seq<string>, failingExecute: Option<nat>)
    returns (ok: bool)
    requires db.Valid() && db.isOpen && db.pending == [] && db.pendingTable.None?
    modifies db
    ensures db.Valid() && db.isOpen
    ensures ok <==> failingExecute.None? || failingExecute.value >= |sqls|
    ensures ok ==> db.pending == sqls
    ensures db.pendingTable.None?
    ensures db.executed == old(db.executed) + AsInserts(sqls[..IssuedCount(|sqls|, EngineFaults(false, failingExecute, false))])
    ensures db.rows == old(db.rows) && db.table == old(db.table) && db.fileExists == old(db.fileExists)
  {
    var k := 0;
    while k < |sqls|
      invariant 0 <= k <= |sqls|
      invariant db.Valid() && db.isOpen
      invariant failingExecute.Some? ==> failingExecute.value >= k
      invariant db.pending == sqls[..k]
      invariant db.pendingTable.None?
      invariant db.executed == old(db.executed) + AsInserts(sqls[..k])
      invariant db.rows == old(db.rows) && db.table == old(db.table) && db.fileExists == old(db.fileExists)
    {
      ok := db.Execute(InsertRow(sqls[k]), failingExecute == Some(k));
      assert sqls[..k + 1] == sqls[..k] + [sqls[k]];
      AsInsertsSnoc(sqls[..k], sqls[k]);
      if !ok {
        assert IssuedCount(|sqls|, EngineFaults(false, failingExecute, false)) == k + 1;
        return;
      }
      k := k + 1;
    }
    assert sqls[..k] == sqls;
    ok := true;
  }

  /**
   * `insert_table_data`: one insert per entry of the batch, in order, all naming the
   * same columns (the fixed nine, then the batch's header), then a single commit. An
   * `sqlite3.Error` anywhere is printed and skips the commit, so the batch is committed
   * whole or not at all; the connection, once opened, is closed on every path.
   */
  method InsertTableData(db: Database, header: seq<string>, entries: seq<seq<Value>>, faults: EngineFaults)
    returns (r: Outcome)
    requires db.Valid() && !db.isOpen
    modifies db
    ensures db.Valid() && !db.isOpen
    ensures r == Done || r == SqlErrorPrinted
    ensures r == Done <==> BatchCommits(|entries|, faults)
    ensures db.rows == old(db.rows) + (if r == Done then InsertStatements(header, entries) else [])
    ensures db.executed == old(db.executed) + AsInserts(InsertStatements(header, entries)[..IssuedCount(|entries|, faults)])
    ensures db.table == old(db.table)
    ensures db.fileExists == (old(db.fileExists) || !faults.connectFails)
  {
    var connected := db.Connect(faults.connectFails);
    if !connected {
      r := SqlErrorPrinted;
      assert InsertStatements(header, entries)[..0] == [];
      return;
    }
    var ok := ExecuteInserts(db, InsertStatements(header, entries), faults.failingExecute);
    if !ok {
      db.Close();
      r := SqlErrorPrinted;
      return;
    }
    var committed := db.Commit(faults.commitFails);
    r := if committed then Done else SqlErrorPrinted;
    db.Close();
  }
}
