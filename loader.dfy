/**
  What a run of `GtfsParser` does to the SQLite database, as functions on an
  abstract store: the tables and their rows, the `_gtfs_issues` rows, the DDL
  executed and the indexes.  The store has a live state, which every executed
  statement changes, and a committed state, which only `commit` moves (the
  connection runs with auto-commit off).

  A GTFS file is given by what the CSV reader would yield from it: the detected
  charset, the header row, the records, and where reading or executing
  breaks off, if it does.
 */
module Loader {
  import opened Wrappers
  import opened JavaText
  import opened Schema
  import opened SqlText
  import opened Resolver

  type Row = seq<string>

  /** A table of TEXT columns and the rows inserted into it, in insertion order. */
  datatype Table = Table(columns: seq<string>, rows: seq<Row>)

  datatype IssueKind = Error | Warning

  /** A row of `_gtfs_issues`; a SQL NULL column is `None`. */
  datatype Issue = Issue(filename: string, kind: IssueKind, column: Option<string>, line: int, message: string)

  datatype Db = Db(ddl: seq<string>, tables: map<string, Table>, issues: seq<Issue>, indexes: seq<string>)

  /** The connection: what later statements see, and what has been committed. */
  datatype Store = Store(live: Db, committed: Db)

  /** A fresh database file. */
  const EmptyDb: Db := Db([], map[], [], [])

  /** Every row of a table has one value per column. */
  predicate RowsFit(tables: map<string, Table>)
  {
    forall t :: t in tables ==> forall r :: r in tables[t].rows ==> |r| == |tables[t].columns|
  }

  function Commit(s: Store): (r: Store)
    ensures r.live == s.live && r.committed == s.live
  {
    Store(s.live, s.live)
  }

  // ---------------------------------------------------------------- files

  /** A `java.io.File`, by its path. */
  datatype File = File(path: string)
  {
    /** `getName`: the path after its last separator. */
    function Name(separator: char): string
    {
      LastComponent(path, separator)
    }
  }

  /** The longest suffix of `path` that holds no separator. */
  function LastComponent(path: string, separator: char): (name: string)
    ensures separator !in name
    ensures |name| <= |path| && path[|path| - |name|..] == name
    ensures |name| < |path| ==> path[|path| - |name| - 1] == separator
  {
    if |path| == 0 || path[|path| - 1] == separator then ""
    else LastComponent(path[..|path| - 1], separator) + [path[|path| - 1]]
  }

  /** `getFile`: the GTFS directory, the platform's file separator, and the file name. */
  function GetFile(dir: string, separator: char, filename: string): File
  {
    File(dir + [separator] + filename)
  }

  /** The name of the file `getFile` builds is the name it was given. */
  lemma GetFileName(dir: string, separator: char, filename: string)
    requires separator !in filename
    ensures GetFile(dir, separator, filename).Name(separator) == filename
  {
    var path := dir + [separator] + filename;
    var name := LastComponent(path, separator);
    assert path[|dir|] == separator;
    assert forall i :: |dir| < i < |path| ==> path[i] == filename[i - |dir| - 1];
    assert forall i :: |path| - |name| <= i < |path| ==> path[i] == name[i - (|path| - |name|)];
    assert |name| == |filename|;
    assert path[|path| - |filename|..] == filename;
  }

  /** The charset `getCsv` decodes a file with: the detected one, else ISO-8859-1. */
  const FallbackCharset: string := "ISO-8859-1"

  function CharsetFor(detected: Option<string>): (charset: string)
    ensures detected.Some? ==> charset == detected.value
    ensures detected.None? ==> charset == FallbackCharset
  {
    match detected
    case Some(name) => name
    case None => FallbackCharset
  }

  /**
    Where loading a file breaks off.  `HeaderFault`: an I/O error while
    detecting the charset or reading the header row, before the INSERT is
    prepared.  `RecordFault(n)`: after `n` records were inserted, reading the
    next record, executing its batch, or (when `n` is at least the number of
    records) the final flush or commit fails.
   */
  datatype Fault = NoFault | HeaderFault | RecordFault(executed: nat)

  /** A GTFS file as the CSV reader yields it. */
  datatype CsvFile = CsvFile(detectedCharset: Option<string>, headers: seq<string>, records: seq<Row>, fault: Fault)

  /** The files present, by path; a path that is absent makes `getCsv` throw FileNotFoundException. */
  type FileSystem = map<string, CsvFile>

  /** How many records of `f` reach the table. */
  function Executed(f: CsvFile): (n: nat)
    ensures n <= |f.records|
    ensures f.fault == NoFault ==> n == |f.records|
    ensures f.fault == HeaderFault ==> n == 0
    ensures f.fault.RecordFault? ==> n == if f.fault.executed < |f.records| then f.fault.executed else |f.records|
  {
    match f.fault
    case NoFault => |f.records|
    case HeaderFault => 0
    case RecordFault(k) => if k < |f.records| then k else |f.records|
  }

  /** The first `n` records of `f`, each bound to the schema columns. */
  function BoundRows(f: CsvFile, fields: seq<string>, n: nat): (rows: seq<Row>)
    requires n <= |f.records|
    ensures |rows| == n
    ensures forall j :: 0 <= j < n ==> |rows[j]| == |fields|
  {
    var indexes := Resolve(fields, f.headers);
    seq(n, j requires 0 <= j < n => BindRow(f.records[j], indexes))
  }

  /** The rows the INSERT adds for `f`: its first `Executed(f)` records. */
  function LoadedRows(f: CsvFile, fields: seq<string>): (rows: seq<Row>)
    ensures |rows| == Executed(f)
    ensures forall j :: 0 <= j < |rows| ==> |rows[j]| == |fields|
  {
    BoundRows(f, fields, Executed(f))
  }

  /** The INSERT for `table` can be prepared: the table exists with exactly these columns. */
  predicate Prepared(db: Db, table: string, fields: seq<string>)
  {
    table in db.tables && db.tables[table].columns == fields
  }

  // ---------------------------------------------------------------- issues

  /** `recordIssue`: one `_gtfs_issues` row, unless executing it fails, which is ignored. */
  function RecordIssue(db: Db, issue: Issue, logged: bool): (r: Db)
    ensures r.issues == db.issues + (if logged then [issue] else [])
    ensures r.tables == db.tables && r.ddl == db.ddl && r.indexes == db.indexes
  {
    if logged then db.(issues := db.issues + [issue]) else db
  }

  /** `recordError`: an ERROR issue for the file's name. */
  function ErrorIssue(file: File, separator: char, column: Option<string>, line: int, message: string): (issue: Issue)
    ensures issue.kind == Error && issue.column == column && issue.line == line && issue.message == message
    ensures separator !in issue.filename && |issue.filename| <= |file.path|
    ensures file.path[|file.path| - |issue.filename|..] == issue.filename
    ensures |issue.filename| < |file.path| ==> file.path[|file.path| - |issue.filename| - 1] == separator
  {
    Issue(file.Name(separator), Error, column, line, message)
  }

  /** `recordWarning`: a WARNING issue for the file's name. */
  function WarningIssue(file: File, separator: char, column: Option<string>, line: int, message: string): (issue: Issue)
    ensures issue.kind == Warning && issue.column == column && issue.line == line && issue.message == message
    ensures separator !in issue.filename && |issue.filename| <= |file.path|
    ensures file.path[|file.path| - |issue.filename|..] == issue.filename
    ensures |issue.filename| < |file.path| ==> file.path[|file.path| - |issue.filename| - 1] == separator
  {
    Issue(file.Name(separator), Warning, column, line, message)
  }

  const FileNotFoundMessage: string := "File not found"

  /** `recordFileNotFoundError`: an ERROR with no column and line -1. */
  function FileNotFoundIssue(file: File, separator: char): (issue: Issue)
    ensures issue.kind == Error && issue.column == None && issue.line == -1 && issue.message == "File not found"
    ensures separator !in issue.filename
  {
    ErrorIssue(file, separator, None, -1, FileNotFoundMessage)
  }

  /** The issue logged for a missing GTFS file names the file as `<table>.txt`. */
  lemma FileNotFoundIssueOf(dir: string, separator: char, table: string)
    requires separator !in table + ".txt"
    ensures FileNotFoundIssue(GetFile(dir, separator, table + ".txt"), separator)
      == Issue(table + ".txt", Error, None, -1, "File not found")
  {
    GetFileName(dir, separator, table + ".txt");
  }

  // ---------------------------------------------------------------- loading

  /**
    `parseFile` for one table: a missing file logs one issue; a header fault
    or an INSERT that cannot be prepared changes nothing; otherwise the
    executed rows are appended, and committed only when the whole file went
    through.  Nothing is rolled back on a fault.
   */
  function LoadFile(s: Store, file: File, separator: char, table: string, fields: seq<string>,
                    fs: FileSystem, logged: bool): (r: Store)
    ensures r.live.ddl == s.live.ddl && r.live.indexes == s.live.indexes
    ensures r.live.tables.Keys == s.live.tables.Keys && s.live.issues <= r.live.issues
    ensures r.committed == s.committed || r.committed == r.live
  {
    if file.path !in fs then
      Store(RecordIssue(s.live, FileNotFoundIssue(file, separator), logged), s.committed)
    else
      var csv := fs[file.path];
      if csv.fault == HeaderFault || !Prepared(s.live, table, fields) then s
      else
        var t := s.live.tables[table];
        var live := s.live.(tables := s.live.tables[table := t.(rows := t.rows + LoadedRows(csv, fields))]);
        if csv.fault == NoFault then Store(live, live) else Store(live, s.committed)
  }

  /** The file `parseFiles` opens for a table. */
  function SourceFile(dir: string, separator: char, spec: TableSpec): File
  {
    GetFile(dir, separator, spec.name + ".txt")
  }

  /** `parseFiles` over the given tables, in order. */
  function LoadAll(s: Store, specs: seq<TableSpec>, dir: string, separator: char, fs: FileSystem,
                   logged: bool): (r: Store)
    ensures r.live.ddl == s.live.ddl && r.live.indexes == s.live.indexes
    ensures r.live.tables.Keys == s.live.tables.Keys && s.live.issues <= r.live.issues
  {
    if specs == [] then s
    else
      var last := specs[|specs| - 1];
      LoadFile(LoadAll(s, specs[..|specs| - 1], dir, separator, fs, logged),
               SourceFile(dir, separator, last), separator, last.name, last.columns, fs, logged)
  }

  /** `LoadAll` over one more spec loads that table's file last. */
  lemma LoadAllStep(s: Store, specs: seq<TableSpec>, k: nat, dir: string, separator: char, fs: FileSystem,
                    logged: bool)
    requires k < |specs|
    ensures LoadAll(s, specs[..k + 1], dir, separator, fs, logged)
      == LoadFile(LoadAll(s, specs[..k], dir, separator, fs, logged),
                  SourceFile(dir, separator, specs[k]), separator, specs[k].name, specs[k].columns, fs, logged)
  {
    assert specs[..k + 1][..k] == specs[..k];
  }

  /** The rows a table gains from its file: none when the file is missing or its header cannot be read. */
  function Contribution(file: File, fields: seq<string>, fs: FileSystem): seq<Row>
  {
    if file.path in fs && fs[file.path].fault != HeaderFault then LoadedRows(fs[file.path], fields) else []
  }

  /** The issues `parseFiles` logs: one per missing file, in table order. */
  function MissingIssues(specs: seq<TableSpec>, dir: string, separator: char, fs: FileSystem,
                         logged: bool): seq<Issue>
  {
    if specs == [] then []
    else
      var file := SourceFile(dir, separator, specs[|specs| - 1]);
      MissingIssues(specs[..|specs| - 1], dir, separator, fs, logged)
        + (if file.path !in fs && logged then [FileNotFoundIssue(file, separator)] else [])
  }

  /** One `parseFile` adds rows to `table` only, and exactly the rows its file contributes. */
  lemma LoadFileTables(s: Store, file: File, separator: char, table: string, fields: seq<string>,
                       fs: FileSystem, logged: bool)
    requires Prepared(s.live, table, fields)
    ensures var r := LoadFile(s, file, separator, table, fields, fs, logged);
      && r.live.tables.Keys == s.live.tables.Keys
      && r.live.tables[table] == s.live.tables[table].(rows := s.live.tables[table].rows + Contribution(file, fields, fs))
      && (forall t :: t in s.live.tables && t != table ==> r.live.tables[t] == s.live.tables[t])
      && r.live.ddl == s.live.ddl && r.live.indexes == s.live.indexes
  {
  }

  /**
    One `parseFile` logs an issue only for a missing file, and commits only
    when the file went through whole: a fault leaves the committed state as it
    was, and nothing is rolled back.
   */
  lemma LoadFileIssuesAndCommit(s: Store, file: File, separator: char, table: string, fields: seq<string>,
                                fs: FileSystem, logged: bool)
    ensures var r := LoadFile(s, file, separator, table, fields, fs, logged);
      && r.live.issues == s.live.issues + (if file.path !in fs && logged then [FileNotFoundIssue(file, separator)] else [])
      && (Prepared(s.live, table, fields) && file.path in fs && fs[file.path].fault == NoFault ==> r.committed == r.live)
      && (file.path !in fs || fs[file.path].fault != NoFault ==> r.committed == s.committed)
  {
  }

  /** Rows keep one value per column through a `parseFile`. */
  lemma LoadFileRowsFit(s: Store, file: File, separator: char, table: string, fields: seq<string>,
                        fs: FileSystem, logged: bool)
    requires RowsFit(s.live.tables)
    ensures RowsFit(LoadFile(s, file, separator, table, fields, fs, logged).live.tables)
  {
    var r := LoadFile(s, file, separator, table, fields, fs, logged);
    if file.path in fs && fs[file.path].fault != HeaderFault && Prepared(s.live, table, fields) {
      var added := LoadedRows(fs[file.path], fields);
      forall t | t in r.live.tables
        ensures forall row :: row in r.live.tables[t].rows ==> |row| == |r.live.tables[t].columns|
      {
        if t == table {
          forall row | row in r.live.tables[t].rows
            ensures |row| == |fields|
          {
            if row !in s.live.tables[t].rows {
              assert row in added;
            }
          }
        }
      }
    }
  }

  /**
    A file abandoned part-way keeps the rows it inserted, uncommitted; the
    next file that loads completely commits them along with its own.
   */
  lemma AbandonedRowsCommittedLater(s: Store, separator: char, fs: FileSystem, logged: bool,
                                    file1: File, table1: string, fields1: seq<string>,
                                    file2: File, table2: string, fields2: seq<string>)
    requires Prepared(s.live, table1, fields1) && Prepared(s.live, table2, fields2) && table1 != table2
    requires file1.path in fs && fs[file1.path].fault.RecordFault?
    requires file2.path in fs && fs[file2.path].fault == NoFault
    ensures var mid := LoadFile(s, file1, separator, table1, fields1, fs, logged);
      && mid.committed == s.committed
      && mid.live.tables[table1].rows == s.live.tables[table1].rows + LoadedRows(fs[file1.path], fields1)
      && var r := LoadFile(mid, file2, separator, table2, fields2, fs, logged);
         && r.committed == r.live
         && r.committed.tables[table1].rows == s.live.tables[table1].rows + LoadedRows(fs[file1.path], fields1)
  {
  }

  predicate DistinctNames(specs: seq<TableSpec>)
  {
    forall i, j :: 0 <= i < j < |specs| ==> specs[i].name != specs[j].name
  }

  /** Every table of `specs` exists with its schema columns. */
  predicate TablesReady(db: Db, specs: seq<TableSpec>)
  {
    forall k :: 0 <= k < |specs| ==> Prepared(db, specs[k].name, specs[k].columns)
  }

  /**
    `parseFiles` over distinct, existing tables: each table ends with its old
    rows followed by what its own file contributes, and no other table changes.
   */
  lemma {:induction false} LoadAllTables(s: Store, specs: seq<TableSpec>, dir: string, separator: char,
                                         fs: FileSystem, logged: bool)
    requires DistinctNames(specs)
    requires TablesReady(s.live, specs)
    ensures var r := LoadAll(s, specs, dir, separator, fs, logged);
      && r.live.tables.Keys == s.live.tables.Keys
      && (forall k :: 0 <= k < |specs| ==> r.live.tables[specs[k].name] == s.live.tables[specs[k].name].(
            rows := s.live.tables[specs[k].name].rows + Contribution(SourceFile(dir, separator, specs[k]), specs[k].columns, fs)))
      && (forall t :: t in s.live.tables && t !in Names(specs) ==> r.live.tables[t] == s.live.tables[t])
      && r.live.ddl == s.live.ddl && r.live.indexes == s.live.indexes
  {
    if specs != [] {
      var n := |specs| - 1;
      var last := specs[n];
      assert Names(specs) == Names(specs[..n]) + [last.name];
      assert last.name !in Names(specs[..n]);
      LoadAllTables(s, specs[..n], dir, separator, fs, logged);
      var mid := LoadAll(s, specs[..n], dir, separator, fs, logged);
      LoadFileTables(mid, SourceFile(dir, separator, last), separator, last.name, last.columns, fs, logged);
    }
  }

  /** `parseFiles` logs exactly one issue per missing file, in table order, and no other. */
  lemma {:induction false} LoadAllIssues(s: Store, specs: seq<TableSpec>, dir: string, separator: char,
                                         fs: FileSystem, logged: bool)
    ensures LoadAll(s, specs, dir, separator, fs, logged).live.issues
      == s.live.issues + MissingIssues(specs, dir, separator, fs, logged)
  {
    if specs != [] {
      var n := |specs| - 1;
      var last := specs[n];
      LoadAllIssues(s, specs[..n], dir, separator, fs, logged);
      var mid := LoadAll(s, specs[..n], dir, separator, fs, logged);
      LoadFileIssuesAndCommit(mid, SourceFile(dir, separator, last), separator, last.name, last.columns, fs, logged);
    }
  }

  lemma {:induction false} LoadAllRowsFit(s: Store, specs: seq<TableSpec>, dir: string, separator: char,
                                          fs: FileSystem, logged: bool)
    requires RowsFit(s.live.tables)
    ensures RowsFit(LoadAll(s, specs, dir, separator, fs, logged).live.tables)
  {
    if specs != [] {
      var n := |specs| - 1;
      var last := specs[n];
      LoadAllRowsFit(s, specs[..n], dir, separator, fs, logged);
      var mid := LoadAll(s, specs[..n], dir, separator, fs, logged);
      LoadFileRowsFit(mid, SourceFile(dir, separator, last), separator, last.name, last.columns, fs, logged);
    }
  }

  /** Every issue `parseFiles` logs is a "File not found" ERROR for `<table>.txt` of a table whose file is absent. */
  lemma {:induction false} MissingIssuesNameFiles(specs: seq<TableSpec>, dir: string, separator: char,
                                                  fs: FileSystem, logged: bool, issue: Issue)
    requires forall k :: 0 <= k < |specs| ==> separator !in specs[k].name + ".txt"
    requires issue in MissingIssues(specs, dir, separator, fs, logged)
    ensures logged
    ensures exists k :: (0 <= k < |specs| && SourceFile(dir, separator, specs[k]).path !in fs
                         && issue == Issue(specs[k].name + ".txt", Error, None, -1, "File not found"))
  {
    var n := |specs| - 1;
    var file := SourceFile(dir, separator, specs[n]);
    if issue in MissingIssues(specs[..n], dir, separator, fs, logged) {
      MissingIssuesNameFiles(specs[..n], dir, separator, fs, logged, issue);
      var k :| 0 <= k < n && SourceFile(dir, separator, specs[..n][k]).path !in fs
        && issue == Issue(specs[..n][k].name + ".txt", Error, None, -1, "File not found");
      assert specs[..n][k] == specs[k];
    } else {
      FileNotFoundIssueOf(dir, separator, specs[n].name);
    }
  }

  // ---------------------------------------------------------------- DDL

  function CreateTable(db: Db, spec: TableSpec): Db
  {
    db.(ddl := db.ddl + [CreateTableSql(spec.name, spec.columns)],
        tables := db.tables[spec.name := Table(spec.columns, [])])
  }

  /** The names of `specs`, in order. */
  function Names(specs: seq<TableSpec>): (names: seq<string>)
    ensures |names| == |specs|
    ensures forall k :: 0 <= k < |specs| ==> names[k] == specs[k].name
  {
    seq(|specs|, k requires 0 <= k < |specs| => specs[k].name)
  }

  /** None of the tables of `specs` exists yet in `db`. */
  predicate NoneExist(db: Db, specs: seq<TableSpec>)
  {
    forall k :: 0 <= k < |specs| ==> specs[k].name !in db.tables
  }

  /** `createGtfsTables`: one CREATE TABLE per spec, in order. */
  function CreateTables(db: Db, specs: seq<TableSpec>): (r: Db)
    ensures r.issues == db.issues && r.indexes == db.indexes
  {
    if specs == [] then db
    else CreateTable(CreateTables(db, specs[..|specs| - 1]), specs[|specs| - 1])
  }

  /**
    When the names are distinct and none of the tables exists yet (SQLite
    refuses a second CREATE TABLE), every spec gets its own empty table and
    the tables already there are left alone.
   */
  lemma {:induction false} CreateTablesEffect(db: Db, specs: seq<TableSpec>)
    requires DistinctNames(specs) && NoneExist(db, specs)
    ensures forall t :: t in CreateTables(db, specs).tables <==> t in db.tables || t in Names(specs)
    ensures forall k :: 0 <= k < |specs| ==>
      specs[k].name in CreateTables(db, specs).tables &&
      CreateTables(db, specs).tables[specs[k].name] == Table(specs[k].columns, [])
    ensures forall t :: t in db.tables ==> t in CreateTables(db, specs).tables && CreateTables(db, specs).tables[t] == db.tables[t]
  {
    if specs != [] {
      var n := |specs| - 1;
      var prev := CreateTables(db, specs[..n]);
      var r := CreateTables(db, specs);
      assert DistinctNames(specs[..n]) && NoneExist(db, specs[..n]);
      CreateTablesEffect(db, specs[..n]);
      assert r.tables == prev.tables[specs[n].name := Table(specs[n].columns, [])];
      assert Names(specs) == Names(specs[..n]) + [specs[n].name];
      forall k | 0 <= k < n
        ensures specs[k].name != specs[n].name && specs[..n][k] == specs[k]
      {
      }
    }
  }

  const IssuesTableSql: string := "CREATE TABLE _gtfs_issues (filename TEXT, type TEXT, column TEXT, line INTEGER, message TEXT)"

  /** `createAuxilaryTables`: the `_gtfs_issues` table, kept apart from the GTFS tables. */
  function CreateAuxiliaryTables(db: Db): Db
  {
    db.(ddl := db.ddl + [IssuesTableSql])
  }

  function CreateIndex(db: Db, ix: IndexSpec): Db
  {
    db.(ddl := db.ddl + [CreateIndexSql(ix.table, ix.column)],
        indexes := db.indexes + [IndexName(ix.table, ix.column)])
  }

  /**
    `createIndexes`: one index per planned (table, column).  SQLite would
    refuse an index on a missing table or column; `PlanTargetsExist` shows
    `parse` never asks for one.
   */
  function CreateIndexes(db: Db, plan: seq<IndexSpec>): (r: Db)
    ensures r.tables == db.tables && r.issues == db.issues
    ensures r.indexes == db.indexes + seq(|plan|, k requires 0 <= k < |plan| => IndexName(plan[k].table, plan[k].column))
  {
    if plan == [] then db
    else
      var n := |plan| - 1;
      CreateIndex(CreateIndexes(db, plan[..n]), plan[n])
  }

  /** `CreateIndexes` over one more index creates that one last. */
  lemma CreateIndexesStep(db: Db, plan: seq<IndexSpec>, ix: IndexSpec)
    ensures CreateIndexes(db, plan + [ix]) == CreateIndex(CreateIndexes(db, plan), ix)
  {
    assert (plan + [ix])[..|plan|] == plan;
  }

  /** Creating the indexes of `a + b` is creating those of `a`, then those of `b`. */
  lemma {:induction false} CreateIndexesAppend(db: Db, a: seq<IndexSpec>, b: seq<IndexSpec>)
    ensures CreateIndexes(db, a + b) == CreateIndexes(CreateIndexes(db, a), b)
    decreases |b|
  {
    if b == [] {
      assert a + b == a;
    } else {
      var n := |b| - 1;
      assert (a + b)[..|a + b| - 1] == a + b[..n];
      CreateIndexesAppend(db, a, b[..n]);
    }
  }

  // ---------------------------------------------------------------- a whole run

  /** Every index of `plan` names a table of `specs` and one of its columns. */
  predicate PlanFits(specs: seq<TableSpec>, plan: seq<IndexSpec>)
  {
    forall ix :: ix in plan ==>
      exists k :: 0 <= k < |specs| && specs[k].name == ix.table && ix.column in specs[k].columns
  }

  lemma SchemaPlanFits()
    ensures PlanFits(TableSpecs(), IndexPlan())
  {
    forall ix | ix in IndexPlan()
      ensures exists k :: 0 <= k < |TableSpecs()| && TableSpecs()[k].name == ix.table && ix.column in TableSpecs()[k].columns
    {
      IndexesReferToSchema(ix);
    }
  }

  /** Tables ready for `specs` have every column `plan` indexes. */
  lemma PlanTargetsExist(db: Db, specs: seq<TableSpec>, plan: seq<IndexSpec>)
    requires TablesReady(db, specs) && PlanFits(specs, plan)
    ensures forall ix :: ix in plan ==> ix.table in db.tables && ix.column in db.tables[ix.table].columns
  {
    forall ix | ix in plan
      ensures ix.table in db.tables && ix.column in db.tables[ix.table].columns
    {
      var k :| 0 <= k < |specs| && specs[k].name == ix.table && ix.column in specs[k].columns;
      assert Prepared(db, specs[k].name, specs[k].columns);
    }
  }

  /** A fresh database after `createGtfsTables` and `createAuxilaryTables`, both committed. */
  function Created(specs: seq<TableSpec>): (s: Store)
    requires DistinctNames(specs)
    ensures s.committed == s.live && TablesReady(s.live, specs) && RowsFit(s.live.tables)
    ensures s.live.tables.Keys == set t | t in Names(specs)
    ensures s.live.issues == [] && s.live.indexes == []
    ensures forall k :: 0 <= k < |specs| ==> s.live.tables[specs[k].name].rows == []
  {
    CreateTablesEffect(EmptyDb, specs);
    var created := CreateAuxiliaryTables(CreateTables(EmptyDb, specs));
    Store(created, created)
  }

  /** ... then `parseFiles`. */
  function Loaded(specs: seq<TableSpec>, dir: string, separator: char, fs: FileSystem, logged: bool): (s: Store)
    requires DistinctNames(specs)
    ensures TablesReady(s.live, specs)
  {
    LoadAllTables(Created(specs), specs, dir, separator, fs, logged);
    LoadAll(Created(specs), specs, dir, separator, fs, logged)
  }

  /**
    `parse` on a fresh database, for a table list and an index plan: create
    the tables and commit, create `_gtfs_issues` and commit, load every file,
    create the indexes and commit.
   */
  function Run(specs: seq<TableSpec>, plan: seq<IndexSpec>, dir: string, separator: char,
               fs: FileSystem, logged: bool): (r: Store)
    requires DistinctNames(specs) && PlanFits(specs, plan)
    ensures r.committed == r.live
  {
    var loaded := Loaded(specs, dir, separator, fs, logged);
    Commit(Store(CreateIndexes(loaded.live, plan), loaded.committed))
  }

  /**
    Stated once as a lemma so that the proofs below use it as a fact: proving
    it afresh inside their larger contexts costs the solver several times more.
   */
  lemma EmptyPrefix<T>(xs: seq<T>)
    ensures [] + xs == xs
  {
  }

  /** After `parseFiles`, each table holds exactly what its own file contributed; no other table exists. */
  lemma LoadedTables(specs: seq<TableSpec>, dir: string, separator: char, fs: FileSystem, logged: bool)
    requires DistinctNames(specs)
    ensures var l := Loaded(specs, dir, separator, fs, logged);
      && l.live.tables.Keys == set t | t in Names(specs)
      && (forall k :: 0 <= k < |specs| ==>
            l.live.tables[specs[k].name] == Table(specs[k].columns, Contribution(SourceFile(dir, separator, specs[k]), specs[k].columns, fs)))
  {
    var loaded := Loaded(specs, dir, separator, fs, logged);
    LoadAllTables(Created(specs), specs, dir, separator, fs, logged);
    forall k | 0 <= k < |specs|
      ensures loaded.live.tables[specs[k].name]
        == Table(specs[k].columns, Contribution(SourceFile(dir, separator, specs[k]), specs[k].columns, fs))
    {
      var before := Created(specs).live.tables[specs[k].name];
      assert before.rows == [] && before.columns == specs[k].columns;
      var rows := Contribution(SourceFile(dir, separator, specs[k]), specs[k].columns, fs);
      EmptyPrefix(rows);
    }
  }

  /** Each table holds exactly what its own file contributed; no other table exists. */
  lemma RunTables(specs: seq<TableSpec>, plan: seq<IndexSpec>, dir: string, separator: char,
                  fs: FileSystem, logged: bool)
    requires DistinctNames(specs) && PlanFits(specs, plan)
    ensures var r := Run(specs, plan, dir, separator, fs, logged);
      && r.live.tables.Keys == set t | t in Names(specs)
      && (forall k :: 0 <= k < |specs| ==>
            r.live.tables[specs[k].name] == Table(specs[k].columns, Contribution(SourceFile(dir, separator, specs[k]), specs[k].columns, fs)))
  {
    LoadedTables(specs, dir, separator, fs, logged);
    var loaded := Loaded(specs, dir, separator, fs, logged);
    assert Run(specs, plan, dir, separator, fs, logged).live.tables == loaded.live.tables;
  }

  /** The issues of a run are the missing files, in table order. */
  lemma RunIssues(specs: seq<TableSpec>, plan: seq<IndexSpec>, dir: string, separator: char,
                  fs: FileSystem, logged: bool)
    requires DistinctNames(specs) && PlanFits(specs, plan)
    ensures Run(specs, plan, dir, separator, fs, logged).live.issues == MissingIssues(specs, dir, separator, fs, logged)
  {
    var loaded := Loaded(specs, dir, separator, fs, logged);
    LoadAllIssues(Created(specs), specs, dir, separator, fs, logged);
    var missing := MissingIssues(specs, dir, separator, fs, logged);
    EmptyPrefix(missing);
  }

  /** One index per planned column, and every row has one value per column. */
  lemma RunIndexesAndRows(specs: seq<TableSpec>, plan: seq<IndexSpec>, dir: string, separator: char,
                          fs: FileSystem, logged: bool)
    requires DistinctNames(specs) && PlanFits(specs, plan)
    ensures var r := Run(specs, plan, dir, separator, fs, logged);
      |r.live.indexes| == |plan| && RowsFit(r.live.tables)
  {
    LoadAllRowsFit(Created(specs), specs, dir, separator, fs, logged);
    LoadAllTables(Created(specs), specs, dir, separator, fs, logged);
  }

  /** A run names its indexes `table_column`, in plan order. */
  lemma RunIndexNames(specs: seq<TableSpec>, plan: seq<IndexSpec>, dir: string, separator: char,
                      fs: FileSystem, logged: bool)
    requires DistinctNames(specs) && PlanFits(specs, plan)
    ensures Run(specs, plan, dir, separator, fs, logged).live.indexes
      == seq(|plan|, k requires 0 <= k < |plan| => IndexName(plan[k].table, plan[k].column))
  {
    var loaded := Loaded(specs, dir, separator, fs, logged);
    var names := seq(|plan|, k requires 0 <= k < |plan| => IndexName(plan[k].table, plan[k].column));
    assert loaded.live.indexes == [];
    assert CreateIndexes(loaded.live, plan).indexes == [] + names;
    assert [] + names == names;
  }

  /** `parse` itself: the schema's thirteen tables and eighteen indexes. */
  function ParseResult(dir: string, separator: char, fs: FileSystem, logged: bool): Store
  {
    TableNamesDistinct();
    SchemaPlanFits();
    Run(TableSpecs(), IndexPlan(), dir, separator, fs, logged)
  }

  /** `ParseResult` is `Run` over the pairs of `SCHEMA` and `INDEXES`, whose names are distinct and whose indexes fit. */
  lemma ParseResultOfPairs(dir: string, separator: char, fs: FileSystem, logged: bool)
    ensures |SCHEMA| % 2 == 0 && |INDEXES| % 2 == 0
    ensures DistinctNames(SpecsOf(SCHEMA)) && PlanFits(SpecsOf(SCHEMA), IndexesOf(INDEXES))
    ensures ParseResult(dir, separator, fs, logged) == Run(SpecsOf(SCHEMA), IndexesOf(INDEXES), dir, separator, fs, logged)
  {
    PairCounts();
    TableNamesDistinct();
    SchemaPlanFits();
  }

  /** `parse` commits everything, creates the eighteen planned indexes, and logs only missing files. */
  lemma ParseOutcome(dir: string, separator: char, fs: FileSystem, logged: bool)
    ensures var r := ParseResult(dir, separator, fs, logged);
      && r.committed == r.live
      && |r.live.indexes| == 18
      && r.live.issues == MissingIssues(TableSpecs(), dir, separator, fs, logged)
  {
    TableNamesDistinct();
    SchemaPlanFits();
    RunIssues(TableSpecs(), IndexPlan(), dir, separator, fs, logged);
    RunIndexesAndRows(TableSpecs(), IndexPlan(), dir, separator, fs, logged);
    IndexPlanShape();
  }

  /** After `parse`, each GTFS table holds exactly the rows its own file contributed. */
  lemma ParsedTable(dir: string, separator: char, fs: FileSystem, logged: bool, k: nat)
    requires k < |TableSpecs()|
    ensures var spec := TableSpecs()[k];
      ParseResult(dir, separator, fs, logged).live.tables[spec.name]
        == Table(spec.columns, Contribution(SourceFile(dir, separator, spec), spec.columns, fs))
  {
    TableNamesDistinct();
    SchemaPlanFits();
    RunTables(TableSpecs(), IndexPlan(), dir, separator, fs, logged);
  }

  /**
    A file read to the end yields exactly one row per record, and the value
    in column `i` of row `j` is the record's field under the first header
    that contains the column's name, or the missing marker.
   */
  lemma CompleteFileRows(f: CsvFile, fields: seq<string>)
    requires f.fault == NoFault
    ensures |LoadedRows(f, fields)| == |f.records|
    ensures forall j, i :: 0 <= j < |f.records| && 0 <= i < |fields| ==>
      LoadedRows(f, fields)[j][i] == Get(f.records[j], FirstMatch(f.headers, fields[i]))
  {
  }
}
