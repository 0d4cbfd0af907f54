# GtfsToSql loader, modelled in Dafny

This project models the core of `GtfsParser`, the class of GtfsToSql that
copies a GTFS feed (a directory of CSV files) into a fresh SQLite database.
It covers:

- the two static tables `SCHEMA` and `INDEXES` and their decoding with Java's
  `split(",")`;
- the SQL text builders (`getList`, `getPlaceholders`, CREATE TABLE, INSERT,
  CREATE INDEX);
- the mapping from a file's header row to the schema columns;
- the loading of each file, record by record, into a store with a live and a
  committed state;
- the `_gtfs_issues` log and its wrappers;
- `getFile`, the charset fallback of `getCsv`, and the constructor's checks.

The database is an abstract store. A GTFS file is given by what the CSV
reader would yield from it, plus where reading or executing breaks off.

Modules, in dependency order:

- `Wrappers`: `Option` and `Result`.
- `JavaText`: `String.contains`, `String.split` on one character (trailing
  empty strings dropped), and the separator-joining the builders do.
- `Schema`: `SCHEMA`, `INDEXES`, and what they decode to.
- `SqlText`: the statement texts. The source's string-building loops are
  methods proved equal to the functions that define those texts.
- `Resolver`: header-to-column resolution and binding a record's values.
- `Loader`: the store, and what each step of a run does to it, as functions
  and lemmas.
- `Parser`: the `GtfsParser` class. Its fields hold the live state, the
  committed snapshot and the pending batch. Each method is proved to change
  them as the matching `Loader` function says.

Two behaviours of the source are kept as written:

- The batch counter `row` is never incremented, so every record's batch is
  executed at once (`row % 1000 == 0` always holds).
- A failure while loading a file abandons it without a rollback. Rows
  already executed stay uncommitted until the next successful file commits
  them.

## Model

| member | source | states |
|---|---|---|
| JavaText.Contains | src/com/transitfeeds/gtfs/GtfsParser.java:267 | `headers[j].contains(col)` holds exactly when some window of the header equals the column name |
| JavaText.JavaSplit | src/com/transitfeeds/gtfs/GtfsParser.java:102 | `split(",")`: a string without the delimiter comes back as the single piece; otherwise the last piece is never empty, because trailing empty strings are dropped |
| JavaText.JavaSplitJoinTrailing | src/com/transitfeeds/gtfs/GtfsParser.java:57 | `split(",")` of a comma-free list that ends in a stray comma gives back the names without an empty last field |
| Schema.TableSpecsDecoded | src/com/transitfeeds/gtfs/GtfsParser.java:48-62 | `SCHEMA` decodes to 13 tables in source order with their column lists; `fare_rules` has 5 columns, not 6 |
| Schema.FieldsOfJoinTrailing | src/com/transitfeeds/gtfs/GtfsParser.java:57 | a column list with a trailing comma splits into the names before the comma |
| Schema.TableNamesDistinct | src/com/transitfeeds/gtfs/GtfsParser.java:48-62 | no two pairs of `SCHEMA` name the same table, so no CREATE TABLE meets a table that already exists |
| Schema.FareRulesList | src/com/transitfeeds/gtfs/GtfsParser.java:57 | the modelled `fare_rules` column list is the literal of the source, trailing comma included |
| Schema.PairCounts | src/com/transitfeeds/gtfs/GtfsParser.java:48-77 | `SCHEMA` holds 13 pairs and `INDEXES` 12, so both loops stepping by two read whole pairs |
| Schema.IndexPlanDecoded | src/com/transitfeeds/gtfs/GtfsParser.java:64-77 | `INDEXES` decodes pair by pair into one index per listed column, in table order |
| Schema.IndexPlanShape | src/com/transitfeeds/gtfs/GtfsParser.java:64-77 | the plan has 18 indexes, every one on one of the 12 listed tables, none on `feed_info` |
| Schema.IndexesReferToSchema | src/com/transitfeeds/gtfs/GtfsParser.java:48-77 | every planned index names a table of `SCHEMA` and one of that table's columns |
| SqlText.GetList | src/com/transitfeeds/gtfs/GtfsParser.java:213-225 | the loop builds the names in order, with ", " between consecutive names |
| SqlText.GetPlaceholders | src/com/transitfeeds/gtfs/GtfsParser.java:227-238 | the loop builds `len` question marks, with ", " between consecutive marks |
| SqlText.PlaceholdersShape | src/com/transitfeeds/gtfs/GtfsParser.java:227-238 | the placeholder text is empty for 0 and has length 3n-2 otherwise, with `?` at every third position and ", " between |
| SqlText.PlaceholderCount | src/com/transitfeeds/gtfs/GtfsParser.java:227-238 | the placeholder text holds exactly n question marks |
| SqlText.CreateTableQuery | src/com/transitfeeds/gtfs/GtfsParser.java:104-113 | the loop builds "CREATE TABLE t (" + each column + " TEXT", comma-separated in schema order, + ")" |
| SqlText.CreateTableColumnCount | src/com/transitfeeds/gtfs/GtfsParser.java:104-113 | the column definitions hold one TEXT column per field: n-1 separating commas |
| SqlText.InsertQuery | src/com/transitfeeds/gtfs/GtfsParser.java:248-249 | the INSERT names the fields in order and lists one placeholder per field |
| SqlText.CreateIndexSqlFormat | src/com/transitfeeds/gtfs/GtfsParser.java:131 | the statement for one index equals `String.format("CREATE INDEX %s_%s ON %s (%s)", table, column, table, column)`, under a reference `%s`-only `Format` |
| SqlText.IndexNamesOfTable | src/com/transitfeeds/gtfs/GtfsParser.java:131 | within one table, two columns get the same `table_column` index name exactly when they are the same column |
| SqlText.InsertPlaceholdersMatchColumns | src/com/transitfeeds/gtfs/GtfsParser.java:248-249 | with names free of `?` and commas, the INSERT holds exactly one `?` per field, and as many commas separate its placeholders as separate its column names |
| Resolver.FirstMatchFrom | src/com/transitfeeds/gtfs/GtfsParser.java:261-272 | the result is -1 or a header index; a found header contains the column and no earlier one does; the result is -1 exactly when no header contains the column |
| Resolver.ResolveColumns | src/com/transitfeeds/gtfs/GtfsParser.java:255-272 | the nested loop fills `indexes` with one entry per field, each the first header containing that field, else -1 |
| Resolver.BindRecord | src/com/transitfeeds/gtfs/GtfsParser.java:279-281 | the values bound for a record are, per field, the record's value at the resolved index, or the missing marker when the index is -1 or past the record's end |
| Resolver.BoundValue | src/com/transitfeeds/gtfs/GtfsParser.java:261-281 | a bound row has one value per field; a field no header contains gets the missing marker; a found field gets the record's value under its first matching header |
| Resolver.PrefixedHeaderMatches | src/com/transitfeeds/gtfs/GtfsParser.java:265-267 | for any header list, a header made of any prefix (a byte-order mark, say) followed by the column name resolves the column to that header when no earlier header contains the name |
| Resolver.EarlierContainingHeaderWins | src/com/transitfeeds/gtfs/GtfsParser.java:266-270 | for any header list, when an earlier header merely contains the name and a later one equals it, the column resolves at or before the earlier one and never to the exact header |
| Resolver.AbsentColumnUnresolved | src/com/transitfeeds/gtfs/GtfsParser.java:263-272 | for any header list, a column name longer than every header stays at -1 |
| Loader.LastComponent | src/com/transitfeeds/gtfs/GtfsParser.java:158 | `getName` gives the separator-free tail of the path, preceded by a separator when shorter than the path |
| Loader.GetFileName | src/com/transitfeeds/gtfs/GtfsParser.java:169-171 | the file `getFile` builds from directory, separator and name has that name as its `getName` |
| Loader.CharsetFor | src/com/transitfeeds/gtfs/GtfsParser.java:187-193 | a detected charset is used as is; with none detected, ISO-8859-1 |
| Loader.Executed | src/com/transitfeeds/gtfs/GtfsParser.java:276-292 | a clean file executes all its records, a header failure none, a failure after k records the first k (all of them when k reaches the end, as a failing flush or commit does) |
| Loader.RecordIssue | src/com/transitfeeds/gtfs/GtfsParser.java:143-155 | an issue is appended when its insert succeeds; a failure is swallowed and changes nothing; the tables are untouched either way |
| Loader.ErrorIssue | src/com/transitfeeds/gtfs/GtfsParser.java:157-159 | `recordError` logs an ERROR under the file's name (the separator-free tail of its path, preceded by a separator when shorter than the path), with the column, line and message it was given |
| Loader.WarningIssue | src/com/transitfeeds/gtfs/GtfsParser.java:161-163 | `recordWarning` logs a WARNING under the file's name (the separator-free tail of its path, preceded by a separator when shorter than the path), with the column, line and message it was given |
| Loader.FileNotFoundIssue | src/com/transitfeeds/gtfs/GtfsParser.java:165-167 | `recordFileNotFoundError` logs an ERROR with a NULL column, line -1 and "File not found", under a separator-free file name |
| Loader.FileNotFoundIssueOf | src/com/transitfeeds/gtfs/GtfsParser.java:165-170 | a missing `<table>.txt` is logged as (`<table>.txt`, ERROR, NULL, -1, "File not found") |
| Loader.CompleteFileRows | src/com/transitfeeds/gtfs/GtfsParser.java:276-288 | a file read to the end inserts one row per record, and row j's value i is record j's value under the first header containing field i, or the missing marker |
| Loader.LoadFile | src/com/transitfeeds/gtfs/GtfsParser.java:240-299 | one `parseFile` creates no table, DDL or index, only appends to the issue log, and either leaves the committed state alone or commits all of the live state |
| Loader.LoadAll | src/com/transitfeeds/gtfs/GtfsParser.java:200-211 | `parseFiles` creates no table, DDL or index and only appends to the issue log |
| Loader.LoadFileTables | src/com/transitfeeds/gtfs/GtfsParser.java:240-299 | one `parseFile` appends to its own table exactly the rows its file contributes (none if the file is missing or its header fails) and changes no other table |
| Loader.LoadFileIssuesAndCommit | src/com/transitfeeds/gtfs/GtfsParser.java:290-298 | `parseFile` logs an issue only for a missing file; it commits when the file loads cleanly and leaves the committed state alone when the file is missing or faults |
| Loader.LoadFileRowsFit | src/com/transitfeeds/gtfs/GtfsParser.java:279-283 | every row inserted has one value per table column |
| Loader.AbandonedRowsCommittedLater | src/com/transitfeeds/gtfs/GtfsParser.java:285-298 | the rows a faulted file already executed stay live but uncommitted, and the next clean file's commit commits them too |
| Loader.LoadAllTables | src/com/transitfeeds/gtfs/GtfsParser.java:200-211 | over distinct existing tables, `parseFiles` leaves each table with its old rows plus its own file's contribution, and no other table changes |
| Loader.LoadAllIssues | src/com/transitfeeds/gtfs/GtfsParser.java:200-211 | `parseFiles` appends exactly one issue per missing file, in table order, and the loop goes on after a missing file |
| Loader.LoadAllRowsFit | src/com/transitfeeds/gtfs/GtfsParser.java:200-211 | `parseFiles` keeps every row at one value per column |
| Loader.MissingIssuesNameFiles | src/com/transitfeeds/gtfs/GtfsParser.java:165-167 | each logged issue is the "File not found" ERROR of some table whose `<table>.txt` is absent |
| Loader.CreateTablesEffect | src/com/transitfeeds/gtfs/GtfsParser.java:100-123 | with distinct new names, each spec gets an empty table with its columns, and existing tables stay as they were |
| Loader.CreateIndexes | src/com/transitfeeds/gtfs/GtfsParser.java:125-141 | creating indexes adds one `table_column` name per planned index, in plan order, and touches no table or issue |
| Loader.CreateIndexesAppend | src/com/transitfeeds/gtfs/GtfsParser.java:125-141 | creating the indexes of two plans one after the other is creating those of the concatenated plan |
| Loader.PlanTargetsExist | src/com/transitfeeds/gtfs/GtfsParser.java:125-141 | once the schema tables exist, every planned index's table and column exist |
| Loader.Created | src/com/transitfeeds/gtfs/GtfsParser.java:80-81 | after table creation and the issue table, everything is committed, every schema table exists empty with its columns, no other table exists and no issue is logged |
| Loader.Run | src/com/transitfeeds/gtfs/GtfsParser.java:79-85 | a whole run ends with everything committed |
| Loader.LoadedTables | src/com/transitfeeds/gtfs/GtfsParser.java:79-83 | after the tables are created and every file loaded, the tables are exactly the schema's, each holding exactly its own file's contribution |
| Loader.RunTables | src/com/transitfeeds/gtfs/GtfsParser.java:79-85 | after a run the tables are exactly the schema's, each holding exactly its own file's contribution |
| Loader.RunIssues | src/com/transitfeeds/gtfs/GtfsParser.java:79-85 | after a run the issue log is exactly the missing files' issues |
| Loader.RunIndexesAndRows | src/com/transitfeeds/gtfs/GtfsParser.java:79-85 | a run creates one index per planned column, and every row fits its table |
| Loader.RunIndexNames | src/com/transitfeeds/gtfs/GtfsParser.java:125-141 | a run's indexes are named `table_column`, one per planned index, in plan order |
| Loader.ParseResultOfPairs | src/com/transitfeeds/gtfs/GtfsParser.java:48-85 | `parse` is the run over the pairs of `SCHEMA` and `INDEXES`, whose names are distinct and whose indexes fit |
| Loader.ParseOutcome | src/com/transitfeeds/gtfs/GtfsParser.java:79-85 | `parse` commits everything, creates 18 indexes after every file is loaded, and logs only the missing files |
| Loader.ParsedTable | src/com/transitfeeds/gtfs/GtfsParser.java:79-85 | after `parse`, each GTFS table holds exactly the rows its own file contributed |
| Parser.SetupCheck | src/com/transitfeeds/gtfs/GtfsParser.java:25-36 | arguments are accepted exactly when the GTFS path is a directory and no database file exists; a missing path is reported first ("GTFS file not found"), then a non-directory ("GTFS path must be a directory"), then an existing database ("Sqlite file already exists") |
| Parser.GtfsParser.Open | src/com/transitfeeds/gtfs/GtfsParser.java:25-46 | the constructor fails with the first failing check, and otherwise yields a connection to an empty database |
| Parser.GtfsParser.constructor | src/com/transitfeeds/gtfs/GtfsParser.java:38-45 | a new connection starts on an empty database, nothing committed and nothing pending |
| Parser.GtfsParser.Commit | src/com/transitfeeds/gtfs/GtfsParser.java:292 | `commit` makes the committed state the live state and changes nothing else |
| Parser.GtfsParser.ExecuteBatch | src/com/transitfeeds/gtfs/GtfsParser.java:286 | `executeBatch` appends every pending row to the table, in order, and empties the batch |
| Parser.GtfsParser.RecordIssue | src/com/transitfeeds/gtfs/GtfsParser.java:143-155 | the method changes the live state as `Loader.RecordIssue` says and commits nothing |
| Parser.GtfsParser.CreateGtfsTables | src/com/transitfeeds/gtfs/GtfsParser.java:100-123 | the loop over the pairs creates every table of the list and commits |
| Parser.GtfsParser.CreateGtfsTable | src/com/transitfeeds/gtfs/GtfsParser.java:102-119 | one pass of the loop runs that table's CREATE TABLE |
| Parser.GtfsParser.CreateAuxiliaryTables | src/com/transitfeeds/gtfs/GtfsParser.java:87-98 | the issue table is created and everything is committed |
| Parser.GtfsParser.ParseFile | src/com/transitfeeds/gtfs/GtfsParser.java:240-299 | one file's load changes the store as `Loader.LoadFile` says, leaving nothing pending |
| Parser.GtfsParser.InsertRecords | src/com/transitfeeds/gtfs/GtfsParser.java:274-288 | every record read is bound and added, and its batch is executed at once; the loop stops exactly at a record fault; nothing is left pending |
| Parser.GtfsParser.ParseFiles | src/com/transitfeeds/gtfs/GtfsParser.java:200-211 | the loop over the pairs loads every table's file in order, as `Loader.LoadAll` says |
| Parser.GtfsParser.ParseSchemaFile | src/com/transitfeeds/gtfs/GtfsParser.java:204-208 | one pass of the loop loads `<table>.txt` into the table with its decoded columns |
| Parser.GtfsParser.CreateIndexes | src/com/transitfeeds/gtfs/GtfsParser.java:125-141 | the loop creates the index of every column of every pair, in order, then commits |
| Parser.GtfsParser.CreateIndexGroup | src/com/transitfeeds/gtfs/GtfsParser.java:130-137 | the inner loop creates one index per column of one pair |
| Parser.GtfsParser.ParseWith | src/com/transitfeeds/gtfs/GtfsParser.java:79-85 | the four steps of `parse`, run over given pairs, produce `Loader.Run`'s store |
| Parser.GtfsParser.Parse | src/com/transitfeeds/gtfs/GtfsParser.java:79-85 | `parse` on a fresh database produces `Loader.ParseResult` with everything committed |

## Left out

- JDBC: driver loading, `DriverManager`, statement objects and `setAutoCommit(false)` are replaced by the store. The store keeps a live and a committed state.
- Closing statements, and statements left open on error paths: resource handling has no effect on the data.
- `UniversalDetector` and the CSV reader are external libraries. A file is given as its detected charset, header row and records. Decoding with the chosen charset is not modelled.
- The CSV reader's `get(k)` is not visible here. It is modelled as a bounds-checked lookup that answers the empty string off the record.
- `System.err` output is left out: it does not affect state.
- File-system queries are parameters. `PathStatus` stands for `exists`/`isDirectory`, a flag says whether the database file exists, and a map from path to file stands for the GTFS directory.
- `getAbsolutePath` normalisation is not modelled: the GTFS directory is taken as already absolute.
- Loader.LastComponent: `java.io.File` normalises its path when constructed, dropping a trailing separator, so `new File("a/b/").getName()` is "b" while `LastComponent("a/b/")` is "". Every path `parse` builds with `GetFile` ends in `<table>.txt`, so the two agree on the paths the model uses.
- `FileInputStream` also throws FileNotFoundException when `<table>.txt` is a directory or cannot be read. The model folds those cases into a path absent from the file map, which gets the same "File not found" issue.
- The `_gtfs_file_info` table is created by the source but never written. The model creates only `_gtfs_issues`.
- `Charset.forName` on an unknown detected name throws an unchecked exception that would leave `parse`. That path is not modelled.
- A failing `prepareStatement` of the issue INSERT would leave `parseFiles` with an exception. That path is not modelled.
- Loader.RecordIssue: one `logged` flag per run decides whether issue inserts succeed. Individual inserts cannot fail independently.
- Loader.Prepared: preparing the INSERT is modelled as succeeding exactly when the table exists with exactly the schema columns. During `parse` these are the columns it was created with.
- Loader.Fault: where a load breaks off is one event after n executed records. Whether `readRecord`, `executeBatch`, the final flush or the commit failed is not told apart. A row added to the batch whose `executeBatch` fails is treated as never added.
- Parser.GtfsParser.CreateGtfsTables: requires distinct names that do not exist yet. The SQLException of a second CREATE TABLE is not modelled. `Schema.TableNamesDistinct` shows `parse` meets the requirement.
- Loader.CreateIndexes: SQLite's refusal of an index on a missing column, or of a duplicate index name, is not modelled. `Loader.PlanTargetsExist` shows every planned column exists. `SqlText.IndexNamesOfTable` shows names within one table are distinct; that all 18 names are distinct across tables is not proved.
- Parser.GtfsParser.CreateGtfsTables: the method takes the pair list as a parameter, and `Parse` passes `SCHEMA`. `ParseFiles` and `CreateIndexes` do the same with `SCHEMA` and `INDEXES`.
- `recordWarning` is modelled as `Loader.WarningIssue`, but nothing in the loader calls it.
- Resolution is deterministic because `Resolver.ResolveColumns` is proved equal to a function of the fields and headers. No separate lemma states this.
- Integer widths are not modelled. The only integers are array positions, the line number -1 and the batch counter, which stays 0.
