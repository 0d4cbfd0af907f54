/**
  The SQL statements `GtfsParser` builds as text: the column list of `getList`,
  the `?` list of `getPlaceholders`, and the CREATE TABLE, INSERT and CREATE
  INDEX statements.  The loops are methods proved against the functions that
  say what text they build.
 */
module SqlText {
  import opened JavaText

  /** `getList(fields)`: the names separated by ", ". */
  function ColumnList(fields: seq<string>): string
  {
    Join(fields, ", ")
  }

  /** `getPlaceholders(n)`: `n` question marks separated by ", ". */
  function Placeholders(n: nat): string
  {
    Join(seq(n, _ => "?"), ", ")
  }

  /** The column definitions of a CREATE TABLE: every column is TEXT. */
  function ColumnDefs(fields: seq<string>): (defs: seq<string>)
    ensures |defs| == |fields|
  {
    seq(|fields|, j requires 0 <= j < |fields| => fields[j] + " TEXT")
  }

  function CreateTableSql(table: string, fields: seq<string>): string
  {
    "CREATE TABLE " + table + " (" + Join(ColumnDefs(fields), ", ") + ")"
  }

  function InsertSql(table: string, fields: seq<string>): string
  {
    "INSERT INTO " + table + " (" + ColumnList(fields) + ") VALUES (" + Placeholders(|fields|) + ")"
  }

  /** The name `createIndexes` gives the index of `column` on `table`. */
  function IndexName(table: string, column: string): string
  {
    table + "_" + column
  }

  /** Within one table, distinct columns give distinct index names. */
  lemma IndexNamesOfTable(table: string, c1: string, c2: string)
    ensures IndexName(table, c1) == IndexName(table, c2) <==> c1 == c2
  {
    if IndexName(table, c1) == IndexName(table, c2) {
      var n := |table| + 1;
      assert IndexName(table, c1)[n..] == c1;
      assert IndexName(table, c2)[n..] == c2;
    }
  }

  /** The statement `createIndexes` runs for one column: the `String.format` template filled in. */
  function CreateIndexSql(table: string, column: string): string
  {
    "CREATE INDEX " + IndexName(table, column) + " ON " + table + " (" + column + ")"
  }

  /**
    `String.format` with `%s` conversions only: each `%s` of the template is
    replaced by the next argument, in order; every other character is copied.
   */
  function Format(template: string, args: seq<string>): string
    decreases |template|
  {
    if |template| >= 2 && template[0] == '%' && template[1] == 's' && args != [] then
      args[0] + Format(template[2..], args[1..])
    else if template == [] then []
    else [template[0]] + Format(template[1..], args)
  }

  /** Text without `%` is copied by `Format` as it stands. */
  lemma {:induction false} FormatLiteral(lit: string, rest: string, args: seq<string>)
    requires '%' !in lit
    ensures Format(lit + rest, args) == lit + Format(rest, args)
    decreases |lit|
  {
    if lit != [] {
      var s := lit + rest;
      assert s[0] == lit[0] != '%';
      assert s[1..] == lit[1..] + rest;
      FormatLiteral(lit[1..], rest, args);
      calc {
        Format(s, args);
        [lit[0]] + Format(lit[1..] + rest, args);
        [lit[0]] + (lit[1..] + Format(rest, args));
        { assert lit == [lit[0]] + lit[1..]; }
        lit + Format(rest, args);
      }
    } else {
      assert lit + rest == rest;
    }
  }

  /** A `%s` takes the next argument. */
  lemma FormatArg(rest: string, arg: string, args: seq<string>)
    ensures Format("%s" + rest, [arg] + args) == arg + Format(rest, args)
  {
    assert ("%s" + rest)[2..] == rest;
    assert ([arg] + args)[1..] == args;
  }

  /** The index template cut at its conversions. */
  lemma IndexTemplatePieces()
    ensures "CREATE INDEX %s_%s ON %s (%s)"
      == "CREATE INDEX " + ("%s" + ("_" + ("%s" + (" ON " + ("%s" + (" (" + ("%s" + ")")))))))
  {
  }

  /** Filling the cut template: each literal piece is copied, each `%s` takes the next argument. */
  lemma FillIndexTemplatePieces(table: string, column: string)
    ensures Format("CREATE INDEX " + ("%s" + ("_" + ("%s" + (" ON " + ("%s" + (" (" + ("%s" + ")"))))))),
                   [table, column, table, column])
      == "CREATE INDEX " + (table + ("_" + (column + (" ON " + (table + (" (" + (column + ")")))))))
  {
    var a4: seq<string> := [];
    var a3 := [column] + a4;
    var a2 := [table] + a3;
    var a1 := [column] + a2;
    var a0 := [table] + a1;
    assert a0 == [table, column, table, column];
    FormatLiteral(")", [], a4);
    assert ")" + [] == ")";
    FormatArg(")", column, a4);
    FormatLiteral(" (", "%s" + ")", a3);
    FormatArg(" (" + ("%s" + ")"), table, a3);
    FormatLiteral(" ON ", "%s" + (" (" + ("%s" + ")")), a2);
    FormatArg(" ON " + ("%s" + (" (" + ("%s" + ")"))), column, a2);
    FormatLiteral("_", "%s" + (" ON " + ("%s" + (" (" + ("%s" + ")")))), a1);
    FormatArg("_" + ("%s" + (" ON " + ("%s" + (" (" + ("%s" + ")"))))), table, a1);
    FormatLiteral("CREATE INDEX ", "%s" + ("_" + ("%s" + (" ON " + ("%s" + (" (" + ("%s" + ")")))))), a0);
  }

  lemma FormatIndexTemplate(table: string, column: string)
    ensures Format("CREATE INDEX %s_%s ON %s (%s)", [table, column, table, column])
      == "CREATE INDEX " + (table + ("_" + (column + (" ON " + (table + (" (" + (column + ")")))))))
  {
    IndexTemplatePieces();
    FillIndexTemplatePieces(table, column);
  }

  lemma CreateIndexSqlPieces(table: string, column: string)
    ensures CreateIndexSql(table, column)
      == "CREATE INDEX " + (table + ("_" + (column + (" ON " + (table + (" (" + (column + ")")))))))
  {
  }

  /** `CreateIndexSql` is `String.format("CREATE INDEX %s_%s ON %s (%s)", table, column, table, column)`. */
  lemma CreateIndexSqlFormat(table: string, column: string)
    ensures CreateIndexSql(table, column)
      == Format("CREATE INDEX %s_%s ON %s (%s)", [table, column, table, column])
  {
    CreateIndexSqlPieces(table, column);
    FormatIndexTemplate(table, column);
  }

  lemma JoinStep(xs: seq<string>, i: nat, sep: string)
    requires i < |xs|
    ensures Join(xs[..i + 1], sep) == if i == 0 then xs[0] else Join(xs[..i], sep) + sep + xs[i]
  {
    assert xs[..i + 1][..i] == xs[..i];
  }

  /** `getList`: appends ", " before every name but the first. */
  method GetList(strs: seq<string>) returns (ret: string)
    ensures ret == ColumnList(strs)
  {
    ret := "";
    for i := 0 to |strs|
      invariant ret == Join(strs[..i], ", ")
    {
      if i > 0 {
        ret := ret + ", ";
      }
      ret := ret + strs[i];
      JoinStep(strs, i, ", ");
    }
    assert strs[..|strs|] == strs;
  }

  /** `getPlaceholders`: appends ", " before every `?` but the first. */
  method GetPlaceholders(len: nat) returns (ret: string)
    ensures ret == Placeholders(len)
  {
    ghost var marks: seq<string> := seq(len, _ => "?");
    ret := "";
    for i := 0 to len
      invariant ret == Join(marks[..i], ", ")
    {
      if i > 0 {
        ret := ret + ", ";
      }
      ret := ret + "?";
      JoinStep(marks, i, ", ");
    }
    assert marks[..len] == marks;
  }

  /** The body of `createGtfsTables` for one table: "CREATE TABLE t (c1 TEXT, ..., cn TEXT)". */
  method CreateTableQuery(table: string, fields: seq<string>) returns (query: string)
    ensures query == CreateTableSql(table, fields)
  {
    ghost var defs := ColumnDefs(fields);
    var prefix := "CREATE TABLE " + table + " (";
    query := prefix;
    for j := 0 to |fields|
      invariant query == prefix + Join(defs[..j], ", ")
    {
      if j > 0 {
        query := query + ", ";
      }
      query := query + fields[j] + " TEXT";
      JoinStep(defs, j, ", ");
    }
    assert defs[..|fields|] == defs;
    query := query + ")";
  }

  /** The statement `parseFile` prepares for a table. */
  method InsertQuery(table: string, fields: seq<string>) returns (query: string)
    ensures query == InsertSql(table, fields)
  {
    var list := GetList(fields);
    var marks := GetPlaceholders(|fields|);
    query := "INSERT INTO " + table + " (" + list + ") VALUES (" + marks + ")";
  }

  lemma PlaceholdersStep(n: nat)
    requires n > 0
    ensures Placeholders(n) == if n == 1 then "?" else Placeholders(n - 1) + ", ?"
  {
    var marks := seq(n, _ => "?");
    assert marks[..n - 1] == seq(n - 1, _ => "?");
  }

  /** `getPlaceholders(n)` is "?" at every third position from 0, ", " between: length 3n-2, or empty for 0. */
  lemma {:induction false} PlaceholdersShape(n: nat)
    ensures |Placeholders(n)| == if n == 0 then 0 else 3 * n - 2
    ensures forall i :: 0 <= i < |Placeholders(n)| ==>
      Placeholders(n)[i] == if i % 3 == 0 then '?' else if i % 3 == 1 then ',' else ' '
  {
    if n > 0 {
      PlaceholdersStep(n);
      if n > 1 {
        PlaceholdersShape(n - 1);
        var p := Placeholders(n - 1);
        forall i | 0 <= i < |Placeholders(n)|
          ensures Placeholders(n)[i] == if i % 3 == 0 then '?' else if i % 3 == 1 then ',' else ' '
        {
          if i >= |p| {
            assert i - |p| < 3;
          }
        }
      }
    }
  }

  /** `getPlaceholders(n)` holds exactly `n` question marks. */
  lemma {:induction false} PlaceholderCount(n: nat)
    ensures Count('?', Placeholders(n)) == n
  {
    if n > 0 {
      PlaceholdersStep(n);
      if n > 1 {
        PlaceholderCount(n - 1);
        CountAppend('?', Placeholders(n - 1), ", ?");
        CountAppend('?', ", ", "?");
        CountAbsent('?', ", ");
      }
    }
  }

  /**
    The INSERT of `parseFile` has one `?` per column named in its column list:
    when no name holds a `?`, it has exactly `|fields|` of them, and its column
    list has as many separating commas as its placeholder list.
   */
  lemma InsertPlaceholdersMatchColumns(table: string, fields: seq<string>)
    requires '?' !in table && forall k :: 0 <= k < |fields| ==> '?' !in fields[k]
    requires forall k :: 0 <= k < |fields| ==> ',' !in fields[k]
    ensures Count('?', InsertSql(table, fields)) == |fields|
    ensures Count(',', ColumnList(fields)) == Count(',', Placeholders(|fields|))
  {
    InsertMarks(table, fields);
    if |fields| > 0 {
      JoinCount(fields, ", ", ',');
      JoinCount(seq(|fields|, _ => "?"), ", ", ',');
    }
  }

  /** The only question marks of the INSERT are its placeholders. */
  lemma InsertMarks(table: string, fields: seq<string>)
    requires '?' !in table && forall k :: 0 <= k < |fields| ==> '?' !in fields[k]
    ensures Count('?', InsertSql(table, fields)) == |fields|
  {
    var list := ColumnList(fields);
    var marks := Placeholders(|fields|);
    CountAbsent('?', table);
    CountAbsent('?', "INSERT INTO ");
    CountAbsent('?', " (");
    CountAbsent('?', ") VALUES (");
    CountAbsent('?', ")");
    if |fields| > 0 {
      JoinCount(fields, ", ", '?');
    }
    assert Count('?', list) == 0;
    PlaceholderCount(|fields|);
    CountAppend('?', "INSERT INTO " + table + " (" + list + ") VALUES (" + marks, ")");
    CountAppend('?', "INSERT INTO " + table + " (" + list + ") VALUES (", marks);
    CountAppend('?', "INSERT INTO " + table + " (" + list, ") VALUES (");
    CountAppend('?', "INSERT INTO " + table + " (", list);
    CountAppend('?', "INSERT INTO " + table, " (");
    CountAppend('?', "INSERT INTO ", table);
  }

  /** CREATE TABLE declares exactly one TEXT column per field: its parentheses hold `|fields| - 1` commas. */
  lemma CreateTableColumnCount(table: string, fields: seq<string>)
    requires |fields| > 0
    requires forall k :: 0 <= k < |fields| ==> ',' !in fields[k]
    ensures Count(',', Join(ColumnDefs(fields), ", ")) == |fields| - 1
  {
    var defs := ColumnDefs(fields);
    forall k | 0 <= k < |defs|
      ensures ',' !in defs[k]
    {
      assert defs[k] == fields[k] + " TEXT";
    }
    JoinCount(defs, ", ", ',');
  }
}
