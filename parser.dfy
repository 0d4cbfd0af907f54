/**
  The `GtfsParser` object: its argument checks, and the steps of `parse` as
  methods that change the connection's state in place.  Each method is proved
  against the function in `Loader` that says what it does to the store.
 */
module Parser {
  import opened Wrappers
  import opened JavaText
  import opened Schema
  import opened SqlText
  import opened Resolver
  import opened Loader

  /** What the file system holds at a path. */
  datatype PathStatus = Absent | RegularFile | Directory

  /** Why the constructor refuses its arguments. */
  datatype SetupError = GtfsNotFound | GtfsNotDirectory | SqliteExists

  /** The message of the exception each refusal throws. */
  function SetupMessage(e: SetupError): string
  {
    match e
    case GtfsNotFound => "GTFS file not found"
    case GtfsNotDirectory => "GTFS path must be a directory"
    case SqliteExists => "Sqlite file already exists"
  }

  /**
    The constructor's checks, in their order: the GTFS path must exist, must
    be a directory, and the database file must not exist yet.
   */
  function SetupCheck(gtfs: PathStatus, sqliteExists: bool): (r: Option<SetupError>)
    ensures r.None? <==> gtfs == Directory && !sqliteExists
    ensures gtfs == Absent ==> r == Some(GtfsNotFound) && SetupMessage(r.value) == "GTFS file not found"
    ensures gtfs == RegularFile ==> r == Some(GtfsNotDirectory) && SetupMessage(r.value) == "GTFS path must be a directory"
    ensures gtfs == Directory && sqliteExists ==> r == Some(SqliteExists) && SetupMessage(r.value) == "Sqlite file already exists"
  {
    if gtfs == Absent then Some(GtfsNotFound)
    else if gtfs != Directory then Some(GtfsNotDirectory)
    else if sqliteExists then Some(SqliteExists)
    else None
  }

  class GtfsParser {
    /** The GTFS directory's absolute path, and the platform's file separator. */
    const gtfsDir: string
    const separator: char

    /** The live state of the database, field by field (see `Loader.Db`). */
    var ddl: seq<string>
    var tables: map<string, Table>
    var issues: seq<Issue>
    var createdIndexes: seq<string>

    /** The state as of the last commit. */
    var committed: Db

    /** The batch of the INSERT being run: rows added but not yet executed. */
    var pending: seq<Row>

    function Live(): Db
      reads this
    {
      Db(ddl, tables, issues, createdIndexes)
    }

    function State(): Store
      reads this
    {
      Store(Live(), committed)
    }

    /** A connection to a database file that did not exist: nothing in it, nothing pending. */
    constructor (gtfsDir: string, separator: char)
      ensures this.gtfsDir == gtfsDir && this.separator == separator
      ensures State() == Store(EmptyDb, EmptyDb) && pending == []
    {
      this.gtfsDir := gtfsDir;
      this.separator := separator;
      ddl := [];
      tables := map[];
      issues := [];
      createdIndexes := [];
      committed := EmptyDb;
      pending := [];
    }

    /** `new GtfsParser(gtfsFile, sqliteFile)`: the checks, then a fresh connection. */
    static method Open(gtfs: PathStatus, gtfsDir: string, separator: char, sqliteExists: bool)
      returns (r: Result<GtfsParser, SetupError>)
      ensures SetupCheck(gtfs, sqliteExists).Some? ==> r == Failure(SetupCheck(gtfs, sqliteExists).value)
      ensures SetupCheck(gtfs, sqliteExists).None? ==>
        && r.Success? && fresh(r.value)
        && r.value.gtfsDir == gtfsDir && r.value.separator == separator
        && r.value.State() == Store(EmptyDb, EmptyDb) && r.value.pending == []
    {
      if gtfs == Absent {
        return Failure(GtfsNotFound);
      }
      if gtfs != Directory {
        return Failure(GtfsNotDirectory);
      }
      if sqliteExists {
        return Failure(SqliteExists);
      }
      var p := new GtfsParser(gtfsDir, separator);
      return Success(p);
    }

    method Commit()
      modifies this
      ensures Live() == old(Live()) && committed == Live() && pending == old(pending)
    {
      committed := Live();
    }

    /** `executeBatch`: every pending row is inserted, in order, and the batch is emptied. */
    method ExecuteBatch(table: string)
      requires table in tables
      modifies this
      ensures tables == old(tables)[table := old(tables)[table].(rows := old(tables)[table].rows + old(pending))]
      ensures ddl == old(ddl) && issues == old(issues) && createdIndexes == old(createdIndexes)
      ensures committed == old(committed) && pending == []
    {
      var t := tables[table];
      tables := tables[table := t.(rows := t.rows + pending)];
      pending := [];
    }

    /** `recordIssue`: a failure to write the issue row is swallowed. */
    method RecordIssue(issue: Issue, logged: bool)
      modifies this
      ensures Live() == Loader.RecordIssue(old(Live()), issue, logged)
      ensures committed == old(committed) && pending == old(pending)
    {
      if logged {
        issues := issues + [issue];
      }
    }

    /**
      `createGtfsTables`: one CREATE TABLE per pair of `schema` (`parse` passes
      `SCHEMA`), then a commit.
     */
    method CreateGtfsTables(schema: seq<string>)
      requires |schema| % 2 == 0 && DistinctNames(SpecsOf(schema))
      requires NoneExist(Live(), SpecsOf(schema))
      modifies this
      ensures Live() == CreateTables(old(Live()), SpecsOf(schema))
      ensures committed == Live() && pending == old(pending)
    {
      ghost var db0 := Live();
      ghost var specs := SpecsOf(schema);
      ghost var k := 0;
      var i := 0;
      while i < |schema|
        invariant 0 <= i <= |schema| && i == 2 * k && |specs| * 2 == |schema|
        invariant Live() == CreateTables(db0, specs[..k])
        invariant committed == old(committed) && pending == old(pending)
      {
        var fields := Fields(schema[i + 1]);
        CreateTablesNext(db0, schema, k);
        CreateGtfsTable(schema[i], fields);
        i := i + 2;
        k := k + 1;
      }
      assert specs[..k] == specs;
      Commit();
    }

    /** One CREATE TABLE statement of `createGtfsTables`, executed. */
    method CreateGtfsTable(table: string, fields: seq<string>)
      modifies this
      ensures Live() == CreateTable(old(Live()), TableSpec(table, fields))
      ensures committed == old(committed) && pending == old(pending)
    {
      var query := CreateTableQuery(table, fields);
      ddl := ddl + [query];
      tables := tables[table := Table(fields, [])];
    }

    /** `createAuxilaryTables`: the issues table, then a commit. */
    method CreateAuxiliaryTables()
      modifies this
      ensures Live() == Loader.CreateAuxiliaryTables(old(Live()))
      ensures committed == Live() && pending == old(pending)
    {
      ddl := ddl + [IssuesTableSql];
      Commit();
    }

    /**
      `parseFile`.  The row counter is never incremented, so `row % 1000 == 0`
      holds on every record and the batch is executed after each one.  A
      fault abandons the file where it happens: rows already executed stay in
      the table, uncommitted, and nothing is rolled back.
     */
    method ParseFile(f: File, table: string, fields: seq<string>, fs: FileSystem, logged: bool)
      requires pending == []
      modifies this
      ensures State() == LoadFile(old(State()), f, separator, table, fields, fs, logged)
      ensures pending == []
    {
      if f.path !in fs {
        // getCsv throws FileNotFoundException
        RecordIssue(FileNotFoundIssue(f, separator), logged);
        return;
      }
      var csv := fs[f.path];
      // the reader decodes the file with this charset; decoding is not modelled
      var charset := CharsetFor(csv.detectedCharset);
      if csv.fault == HeaderFault {
        return;
      }
      var query := InsertQuery(table, fields);
      if !Prepared(Live(), table, fields) {
        // prepareStatement throws SQLException
        return;
      }
      var indexes := ResolveColumns(fields, csv.headers);
      ghost var t := tables[table];
      var completed := InsertRecords(table, fields, csv, indexes);
      if !completed {
        // a record fault ended the loop
        return;
      }
      if csv.fault.RecordFault? {
        // the final executeBatch or the commit throws SQLException
        return;
      }
      ExecuteBatch(table);
      assert t.rows + LoadedRows(csv, fields) + [] == t.rows + LoadedRows(csv, fields);
      Commit();
    }

    /**
      The record loop of `parseFile`: each record is bound to the resolved
      columns, added to the batch and, since the row counter stays 0, executed
      at once.  `completed` is false when a record fault stops the loop; the
      rows before the fault have been executed.
     */
    method InsertRecords(table: string, fields: seq<string>, csv: CsvFile, indexes: array<int>)
      returns (completed: bool)
      requires table in tables && pending == [] && csv.fault != HeaderFault
      requires indexes[..] == Resolve(fields, csv.headers)
      modifies this
      ensures completed <==> !(csv.fault.RecordFault? && csv.fault.executed < |csv.records|)
      ensures tables == old(tables)[table := old(tables)[table].(rows := old(tables)[table].rows + BoundRows(csv, fields, Executed(csv)))]
      ensures ddl == old(ddl) && issues == old(issues) && createdIndexes == old(createdIndexes)
      ensures committed == old(committed) && pending == []
    {
      ghost var t := tables[table];
      assert BoundRows(csv, fields, 0) == [];
      assert t.rows + [] == t.rows;
      assert old(tables)[table := t.(rows := t.rows + [])] == old(tables);
      var row := 0;
      var n := 0;
      while n < |csv.records|
        invariant 0 <= n <= |csv.records|
        invariant row == 0 && pending == []
        invariant csv.fault.RecordFault? ==> n <= csv.fault.executed
        invariant ddl == old(ddl) && issues == old(issues) && createdIndexes == old(createdIndexes)
        invariant committed == old(committed)
        invariant tables == old(tables)[table := t.(rows := t.rows + BoundRows(csv, fields, n))]
      {
        if csv.fault == RecordFault(n) {
          // readRecord throws IOException, or executeBatch throws SQLException
          return false;
        }
        var values := BindRecord(csv.records[n], indexes);
        BoundRowsStep(csv, fields, n);
        InsertStep(old(tables), table, t, BoundRows(csv, fields, n), values);
        pending := pending + [values];
        assert pending == [values];
        if row % 1000 == 0 {
          ExecuteBatch(table);
        }
        n := n + 1;
      }
      assert Executed(csv) == n;
      return true;
    }

    /** `parseFiles`: every table of `schema` from `<name>.txt` in the GTFS directory, in order. */
    method ParseFiles(schema: seq<string>, fs: FileSystem, logged: bool)
      requires |schema| % 2 == 0 && pending == []
      modifies this
      ensures State() == LoadAll(old(State()), SpecsOf(schema), gtfsDir, separator, fs, logged)
      ensures pending == []
    {
      ghost var s0 := State();
      ghost var specs := SpecsOf(schema);
      ghost var k := 0;
      var i := 0;
      while i < |schema|
        invariant 0 <= i <= |schema| && i == 2 * k && |specs| * 2 == |schema|
        invariant pending == []
        invariant State() == LoadAll(s0, specs[..k], gtfsDir, separator, fs, logged)
      {
        LoadAllNext(s0, schema, k, gtfsDir, separator, fs, logged);
        ParseSchemaFile(schema[i], schema[i + 1], fs, logged);
        i := i + 2;
        k := k + 1;
      }
      assert specs[..k] == specs;
    }

    /** One table of `parseFiles`: its file, its name and its column list decoded. */
    method ParseSchemaFile(table: string, list: string, fs: FileSystem, logged: bool)
      requires pending == []
      modifies this
      ensures State() == LoadFile(old(State()), GetFile(gtfsDir, separator, table + ".txt"), separator, table, Fields(list), fs, logged)
      ensures pending == []
    {
      var fields := Fields(list);
      var f := GetFile(gtfsDir, separator, table + ".txt");
      ParseFile(f, table, fields, fs, logged);
    }

    /**
      `createIndexes`: one CREATE INDEX per column of every pair of
      `indexPairs` (`parse` passes `INDEXES`), then a commit.
     */
    method CreateIndexes(indexPairs: seq<string>)
      requires |indexPairs| % 2 == 0
      requires forall ix :: ix in IndexesOf(indexPairs) ==> ix.table in tables && ix.column in tables[ix.table].columns
      modifies this
      ensures Live() == Loader.CreateIndexes(old(Live()), IndexesOf(indexPairs))
      ensures committed == Live() && pending == old(pending)
    {
      ghost var m := 0;
      var i := 0;
      while i < |indexPairs|
        invariant 0 <= i <= |indexPairs| && i == 2 * m
        invariant tables == old(tables) && pending == old(pending)
        invariant Live() == Loader.CreateIndexes(old(Live()), IndexesOf(indexPairs[..i]))
      {
        var table := indexPairs[i];
        var fields := Fields(indexPairs[i + 1]);
        IndexesOfStep(indexPairs, i);
        CreateIndexesAppend(old(Live()), IndexesOf(indexPairs[..i]), Group(table, fields));
        CreateIndexGroup(table, fields);
        i := i + 2;
        m := m + 1;
      }
      assert indexPairs[..|indexPairs|] == indexPairs;
      Commit();
    }

    /** The inner loop of `createIndexes`: one CREATE INDEX per column of one pair. */
    method CreateIndexGroup(table: string, fields: seq<string>)
      modifies this
      ensures Live() == Loader.CreateIndexes(old(Live()), Group(table, fields))
      ensures tables == old(tables) && committed == old(committed) && pending == old(pending)
    {
      for j := 0 to |fields|
        invariant tables == old(tables) && committed == old(committed) && pending == old(pending)
        invariant Live() == Loader.CreateIndexes(old(Live()), Group(table, fields[..j]))
      {
        var query := CreateIndexSql(table, fields[j]);
        GroupStep(table, fields, j);
        CreateIndexesStep(old(Live()), Group(table, fields[..j]), IndexSpec(table, fields[j]));
        ddl := ddl + [query];
        createdIndexes := createdIndexes + [IndexName(table, fields[j])];
      }
      assert fields[..|fields|] == fields;
    }

    /**
      `parse` on the fresh database the constructor opened: tables, issue
      table, every file, indexes.  Afterwards the database is what
      `ParseResult` says, all of it committed.
     */
    method Parse(fs: FileSystem, logged: bool)
      requires State() == Store(EmptyDb, EmptyDb) && pending == []
      modifies this
      ensures State() == ParseResult(gtfsDir, separator, fs, logged)
      ensures committed == Live()
    {
      ParseResultOfPairs(gtfsDir, separator, fs, logged);
      ParseWith(SCHEMA, INDEXES, fs, logged);
    }

    /** The steps of `parse`, for a table list and an index list given as name/columns pairs. */
    method ParseWith(schema: seq<string>, indexPairs: seq<string>, fs: FileSystem, logged: bool)
      requires State() == Store(EmptyDb, EmptyDb) && pending == []
      requires |schema| % 2 == 0 && |indexPairs| % 2 == 0
      requires DistinctNames(SpecsOf(schema)) && PlanFits(SpecsOf(schema), IndexesOf(indexPairs))
      modifies this
      ensures State() == Run(SpecsOf(schema), IndexesOf(indexPairs), gtfsDir, separator, fs, logged)
    {
      CreateGtfsTables(schema);
      CreateAuxiliaryTables();
      assert State() == Created(SpecsOf(schema));
      ParseFiles(schema, fs, logged);
      assert State() == Loaded(SpecsOf(schema), gtfsDir, separator, fs, logged);
      PlanTargetsExist(Live(), SpecsOf(schema), IndexesOf(indexPairs));
      CreateIndexes(indexPairs);
    }
  }

  /** Creating the table of one more pair of a schema list. */
  lemma CreateTablesNext(db: Db, schema: seq<string>, k: nat)
    requires 2 * k + 1 < |schema|
    ensures CreateTables(db, SpecsOf(schema)[..k + 1])
         == CreateTable(CreateTables(db, SpecsOf(schema)[..k]), TableSpec(schema[2 * k], Fields(schema[2 * k + 1])))
  {
    var specs := SpecsOf(schema);
    assert specs[..k + 1][..k] == specs[..k];
  }

  /** Loading the file of one more pair of a schema list. */
  lemma LoadAllNext(s: Store, schema: seq<string>, k: nat, dir: string, separator: char, fs: FileSystem, logged: bool)
    requires 2 * k + 1 < |schema|
    ensures LoadAll(s, SpecsOf(schema)[..k + 1], dir, separator, fs, logged)
         == LoadFile(LoadAll(s, SpecsOf(schema)[..k], dir, separator, fs, logged),
                     GetFile(dir, separator, schema[2 * k] + ".txt"), separator, schema[2 * k], Fields(schema[2 * k + 1]), fs, logged)
  {
    LoadAllStep(s, SpecsOf(schema), k, dir, separator, fs, logged);
  }

  lemma BoundRowsStep(f: CsvFile, fields: seq<string>, n: nat)
    requires n < |f.records|
    ensures BoundRows(f, fields, n + 1) == BoundRows(f, fields, n) + [BindRow(f.records[n], Resolve(fields, f.headers))]
  {
  }

  lemma GroupStep(table: string, columns: seq<string>, j: nat)
    requires j < |columns|
    ensures Group(table, columns[..j + 1]) == Group(table, columns[..j]) + [IndexSpec(table, columns[j])]
  {
  }

  /** Appending one more row to a table already updated in a map. */
  lemma InsertStep(m: map<string, Table>, table: string, t: Table, rows: seq<Row>, values: Row)
    ensures m[table := t.(rows := t.rows + rows)][table := t.(rows := t.rows + rows + [values])]
         == m[table := t.(rows := t.rows + (rows + [values]))]
  {
    assert t.rows + rows + [values] == t.rows + (rows + [values]);
  }
}
