/**
  The loader's static schema: the flat `SCHEMA` and `INDEXES` string arrays of
  `GtfsParser` (pairs of a table name and a comma-separated column list), and
  their decoding with Java's `split(",")`.

  The table and column names are the file and field names of the GTFS Schedule
  Reference ("Dataset Files" and "Field Definitions"); nothing else of that
  standard is checked by the loader.  Each comma list below is written as the
  `Join` of its names, which is the same string as the literal in the source;
  the `fare_rules` list keeps the stray comma the source ends it with.
 */
module Schema {
  import opened JavaText

  /** A destination table: its name and its TEXT columns, in order. */
  datatype TableSpec = TableSpec(name: string, columns: seq<string>)

  /** One single-column index to create. */
  datatype IndexSpec = IndexSpec(table: string, column: string)

  const AgencyColumns: seq<string> := ["agency_id", "agency_name", "agency_url", "agency_timezone",
    "agency_lang", "agency_phone", "agency_fare_url"]
  const StopsColumns: seq<string> := ["stop_id", "stop_code", "stop_name", "stop_desc", "stop_lat",
    "stop_lon", "zone_id", "stop_url", "location_type", "parent_station", "stop_timezone",
    "wheelchair_boarding"]
  const RoutesColumns: seq<string> := ["route_id", "agency_id", "route_short_name", "route_long_name",
    "route_desc", "route_type", "route_url", "route_color", "route_text_color"]
  const TripsColumns: seq<string> := ["route_id", "service_id", "trip_id", "trip_headsign",
    "trip_short_name", "direction_id", "block_id", "shape_id", "wheelchair_accessible"]
  const StopTimesColumns: seq<string> := ["trip_id", "arrival_time", "departure_time", "stop_id",
    "stop_sequence", "stop_headsign", "pickup_type", "drop_off_type", "shape_dist_traveled"]
  const CalendarColumns: seq<string> := ["service_id", "monday", "tuesday", "wednesday", "thursday",
    "friday", "saturday", "sunday", "start_date", "end_date"]
  const CalendarDatesColumns: seq<string> := ["service_id", "date", "exception_type"]
  const FareAttributesColumns: seq<string> := ["fare_id", "price", "currency_type", "payment_method",
    "transfers", "transfer_duration"]
  const FareRulesColumns: seq<string> := ["fare_id", "route_id", "origin_id", "destination_id",
    "contains_id"]
  const ShapesColumns: seq<string> := ["shape_id", "shape_pt_lat", "shape_pt_lon", "shape_pt_sequence",
    "shape_dist_traveled"]
  const FrequenciesColumns: seq<string> := ["trip_id", "start_time", "end_time", "headway_secs",
    "exact_times"]
  const TransfersColumns: seq<string> := ["from_stop_id", "to_stop_id", "transfer_type",
    "min_transfer_time"]
  const FeedInfoColumns: seq<string> := ["feed_publisher_name", "feed_publisher_url", "feed_lang",
    "feed_start_date", "feed_end_date", "feed_version"]

  /** `GtfsParser.SCHEMA`: table name at even positions, its column list after it. */
  const SCHEMA: seq<string> := [
    "agency", Join(AgencyColumns, ","),
    "stops", Join(StopsColumns, ","),
    "routes", Join(RoutesColumns, ","),
    "trips", Join(TripsColumns, ","),
    "stop_times", Join(StopTimesColumns, ","),
    "calendar", Join(CalendarColumns, ","),
    "calendar_dates", Join(CalendarDatesColumns, ","),
    "fare_attributes", Join(FareAttributesColumns, ","),
    "fare_rules", Join(FareRulesColumns, ",") + ",",
    "shapes", Join(ShapesColumns, ","),
    "frequencies", Join(FrequenciesColumns, ","),
    "transfers", Join(TransfersColumns, ","),
    "feed_info", Join(FeedInfoColumns, ",")
  ]

  /** `GtfsParser.INDEXES`: table name at even positions, the columns to index after it. */
  const INDEXES: seq<string> := [
    "agency", "agency_id",
    "stops", "stop_id",
    "routes", Join(["route_id", "agency_id"], ","),
    "trips", Join(["route_id", "service_id", "trip_id", "shape_id"], ","),
    "stop_times", Join(["trip_id", "stop_id"], ","),
    "calendar", "service_id",
    "calendar_dates", "service_id",
    "fare_attributes", "fare_id",
    "fare_rules", "fare_id",
    "shapes", "shape_id",
    "frequencies", "trip_id",
    "transfers", Join(["from_stop_id", "to_stop_id"], ",")
  ]

  /** The `fare_rules` column list is the source's literal, stray trailing comma included. */
  lemma FareRulesList()
    ensures SCHEMA[17] == "fare_id,route_id,origin_id,destination_id,contains_id,"
  {
    FareRulesJoin();
  }

  lemma FareRulesJoin()
    ensures Join(FareRulesColumns, ",") + "," == "fare_id,route_id,origin_id,destination_id,contains_id,"
  {
    JoinFive("fare_id", "route_id", "origin_id", "destination_id", "contains_id", ",");
    assert FareRulesColumns == ["fare_id", "route_id", "origin_id", "destination_id", "contains_id"];
    assert "fare_id" + "," + "route_id" == "fare_id,route_id";
    assert "fare_id,route_id" + "," + "origin_id" == "fare_id,route_id,origin_id";
    assert "fare_id,route_id,origin_id" + "," + "destination_id" == "fare_id,route_id,origin_id,destination_id";
    assert "fare_id,route_id,origin_id,destination_id" + "," + "contains_id" + ","
      == "fare_id,route_id,origin_id,destination_id,contains_id,";
  }

  lemma JoinFive(a: string, b: string, c: string, d: string, e: string, sep: string)
    ensures Join([a, b, c, d, e], sep) == a + sep + b + sep + c + sep + d + sep + e
  {
    var xs := [a, b, c, d, e];
    assert Join([a, b], sep) == a + sep + b by {
      assert [a, b][..1] == [a];
    }
    assert Join([a, b, c], sep) == a + sep + b + sep + c by {
      assert [a, b, c][..2] == [a, b];
    }
    assert Join([a, b, c, d], sep) == a + sep + b + sep + c + sep + d by {
      assert [a, b, c, d][..3] == [a, b, c];
    }
    assert xs[..4] == [a, b, c, d];
  }

  /** Both tables are lists of name/columns pairs: 13 tables, 12 indexed tables. */
  lemma PairCounts()
    ensures |SCHEMA| == 26 && |INDEXES| == 24
  {
  }

  /** `list.split(",")`, as both the table builder and the loader decode a column list. */
  function Fields(list: string): seq<string>
  {
    JavaSplit(list, ',')
  }

  /** The (table, comma list) pairs of a flat array, decoded in order. */
  function SpecsOf(pairs: seq<string>): (specs: seq<TableSpec>)
    ensures |specs| == |pairs| / 2
    ensures forall k :: 0 <= k < |specs| ==> specs[k] == TableSpec(pairs[2 * k], Fields(pairs[2 * k + 1]))
  {
    seq(|pairs| / 2, k requires 0 <= k < |pairs| / 2 => TableSpec(pairs[2 * k], Fields(pairs[2 * k + 1])))
  }

  /** The tables of `SCHEMA`. */
  function TableSpecs(): (specs: seq<TableSpec>)
    ensures |specs| == |SCHEMA| / 2
  {
    SpecsOf(SCHEMA)
  }

  /** The indexes declared for one table: one per listed column, in list order. */
  function Group(table: string, columns: seq<string>): (g: seq<IndexSpec>)
    ensures |g| == |columns|
    ensures forall j :: 0 <= j < |g| ==> g[j] == IndexSpec(table, columns[j])
  {
    seq(|columns|, j requires 0 <= j < |columns| => IndexSpec(table, columns[j]))
  }

  /** The index specs of a flat (table, comma list) array, pair by pair and column by column. */
  function IndexesOf(pairs: seq<string>): seq<IndexSpec>
  {
    if |pairs| < 2 then []
    else IndexesOf(pairs[..|pairs| - 2]) + Group(pairs[|pairs| - 2], Fields(pairs[|pairs| - 1]))
  }

  function IndexPlan(): seq<IndexSpec>
  {
    IndexesOf(INDEXES)
  }

  /** A comma list written without a trailing comma splits back into its names. */
  lemma FieldsOfJoin(list: string, names: seq<string>)
    requires |names| > 0 && names[|names| - 1] != ""
    requires forall k :: 0 <= k < |names| ==> ',' !in names[k]
    requires list == Join(names, ",")
    ensures Fields(list) == names
  {
    JavaSplitJoin(names, ',');
  }

  /** A comma list that ends in a comma splits into the names before it. */
  lemma FieldsOfJoinTrailing(list: string, names: seq<string>)
    requires |names| > 0 && names[|names| - 1] != ""
    requires forall k :: 0 <= k < |names| ==> ',' !in names[k]
    requires list == Join(names, ",") + ","
    ensures Fields(list) == names
  {
    JavaSplitJoinTrailing(names, ',');
  }

  lemma AgencyDecoded()
    ensures TableSpecs()[0] == TableSpec("agency", AgencyColumns)
  {
    FieldsOfJoin(SCHEMA[1], AgencyColumns);
  }

  lemma StopsDecoded()
    ensures TableSpecs()[1] == TableSpec("stops", StopsColumns)
  {
    FieldsOfJoin(SCHEMA[3], StopsColumns);
  }

  lemma RoutesDecoded()
    ensures TableSpecs()[2] == TableSpec("routes", RoutesColumns)
  {
    FieldsOfJoin(SCHEMA[5], RoutesColumns);
  }

  lemma TripsDecoded()
    ensures TableSpecs()[3] == TableSpec("trips", TripsColumns)
  {
    FieldsOfJoin(SCHEMA[7], TripsColumns);
  }

  lemma StopTimesDecoded()
    ensures TableSpecs()[4] == TableSpec("stop_times", StopTimesColumns)
  {
    FieldsOfJoin(SCHEMA[9], StopTimesColumns);
  }

  lemma CalendarDecoded()
    ensures TableSpecs()[5] == TableSpec("calendar", CalendarColumns)
  {
    FieldsOfJoin(SCHEMA[11], CalendarColumns);
  }

  lemma CalendarDatesDecoded()
    ensures TableSpecs()[6] == TableSpec("calendar_dates", CalendarDatesColumns)
  {
    FieldsOfJoin(SCHEMA[13], CalendarDatesColumns);
  }

  lemma FareAttributesDecoded()
    ensures TableSpecs()[7] == TableSpec("fare_attributes", FareAttributesColumns)
  {
    FieldsOfJoin(SCHEMA[15], FareAttributesColumns);
  }

  lemma FareRulesDecoded()
    ensures TableSpecs()[8] == TableSpec("fare_rules", FareRulesColumns)
  {
    FieldsOfJoinTrailing(SCHEMA[17], FareRulesColumns);
  }

  lemma ShapesDecoded()
    ensures TableSpecs()[9] == TableSpec("shapes", ShapesColumns)
  {
    FieldsOfJoin(SCHEMA[19], ShapesColumns);
  }

  lemma FrequenciesDecoded()
    ensures TableSpecs()[10] == TableSpec("frequencies", FrequenciesColumns)
  {
    FieldsOfJoin(SCHEMA[21], FrequenciesColumns);
  }

  lemma TransfersDecoded()
    ensures TableSpecs()[11] == TableSpec("transfers", TransfersColumns)
  {
    FieldsOfJoin(SCHEMA[23], TransfersColumns);
  }

  lemma FeedInfoDecoded()
    ensures TableSpecs()[12] == TableSpec("feed_info", FeedInfoColumns)
  {
    FieldsOfJoin(SCHEMA[25], FeedInfoColumns);
  }

  /** `SCHEMA` decodes to thirteen tables; `fare_rules` gets five columns, the trailing empty field dropped. */
  lemma TableSpecsDecoded()
    ensures |TableSpecs()| == 13
    ensures TableSpecs()[0] == TableSpec("agency", AgencyColumns)
    ensures TableSpecs()[1] == TableSpec("stops", StopsColumns)
    ensures TableSpecs()[2] == TableSpec("routes", RoutesColumns)
    ensures TableSpecs()[3] == TableSpec("trips", TripsColumns)
    ensures TableSpecs()[4] == TableSpec("stop_times", StopTimesColumns)
    ensures TableSpecs()[5] == TableSpec("calendar", CalendarColumns)
    ensures TableSpecs()[6] == TableSpec("calendar_dates", CalendarDatesColumns)
    ensures TableSpecs()[7] == TableSpec("fare_attributes", FareAttributesColumns)
    ensures TableSpecs()[8] == TableSpec("fare_rules", FareRulesColumns)
    ensures TableSpecs()[9] == TableSpec("shapes", ShapesColumns)
    ensures TableSpecs()[10] == TableSpec("frequencies", FrequenciesColumns)
    ensures TableSpecs()[11] == TableSpec("transfers", TransfersColumns)
    ensures TableSpecs()[12] == TableSpec("feed_info", FeedInfoColumns)
  {
    AgencyDecoded();
    StopsDecoded();
    RoutesDecoded();
    TripsDecoded();
    StopTimesDecoded();
    CalendarDecoded();
    CalendarDatesDecoded();
    FareAttributesDecoded();
    FareRulesDecoded();
    ShapesDecoded();
    FrequenciesDecoded();
    TransfersDecoded();
    FeedInfoDecoded();
  }

  lemma IndexesOfStep(pairs: seq<string>, i: nat)
    requires i + 2 <= |pairs|
    ensures IndexesOf(pairs[..i + 2]) == IndexesOf(pairs[..i]) + Group(pairs[i], Fields(pairs[i + 1]))
  {
    assert pairs[..i + 2][..i] == pairs[..i];
  }

  /** The pairs of `INDEXES`, already split: the tables and their indexed columns. */
  const IndexedTables: seq<string> := ["agency", "stops", "routes", "trips", "stop_times", "calendar",
    "calendar_dates", "fare_attributes", "fare_rules", "shapes", "frequencies", "transfers"]
  const IndexedColumns: seq<seq<string>> := [["agency_id"], ["stop_id"], ["route_id", "agency_id"], ["route_id", "service_id", "trip_id", "shape_id"], ["trip_id", "stop_id"], ["service_id"], ["service_id"], ["fare_id"], ["fare_id"], ["shape_id"], ["trip_id"], ["from_stop_id", "to_stop_id"]]

  /** The first `k` groups of the plan, in order. */
  function PlannedGroups(k: nat): seq<IndexSpec>
    requires k <= |IndexedTables| && k <= |IndexedColumns|
  {
    if k == 0 then [] else PlannedGroups(k - 1) + Group(IndexedTables[k - 1], IndexedColumns[k - 1])
  }

  /*
    `IndexEntriesA` to `IndexEntriesF` each decode two of the twelve `INDEXES`
    pairs; `IndexEntry` dispatches on the position.  One lemma over all twelve
    would hold every column list at once, which makes its proof too expensive
    for the verifier.  `IndexesReferToSchema` dispatches the same way over
    `IndexedTablesExistA` to `IndexedTablesExistF`.
   */
  lemma IndexEntriesA(k: nat)
    requires 0 <= k < 2
    ensures INDEXES[2 * k] == IndexedTables[k] && Fields(INDEXES[2 * k + 1]) == IndexedColumns[k]
  {
    if k == 0 {
      FieldsOfJoin(INDEXES[1], IndexedColumns[0]);
    } else if k == 1 {
      FieldsOfJoin(INDEXES[3], IndexedColumns[1]);
    }
  }

  lemma IndexEntriesB(k: nat)
    requires 2 <= k < 4
    ensures INDEXES[2 * k] == IndexedTables[k] && Fields(INDEXES[2 * k + 1]) == IndexedColumns[k]
  {
    if k == 2 {
      FieldsOfJoin(INDEXES[5], IndexedColumns[2]);
    } else if k == 3 {
      FieldsOfJoin(INDEXES[7], IndexedColumns[3]);
    }
  }

  lemma IndexEntriesC(k: nat)
    requires 4 <= k < 6
    ensures INDEXES[2 * k] == IndexedTables[k] && Fields(INDEXES[2 * k + 1]) == IndexedColumns[k]
  {
    if k == 4 {
      FieldsOfJoin(INDEXES[9], IndexedColumns[4]);
    } else if k == 5 {
      FieldsOfJoin(INDEXES[11], IndexedColumns[5]);
    }
  }

  lemma IndexEntriesD(k: nat)
    requires 6 <= k < 8
    ensures INDEXES[2 * k] == IndexedTables[k] && Fields(INDEXES[2 * k + 1]) == IndexedColumns[k]
  {
    if k == 6 {
      FieldsOfJoin(INDEXES[13], IndexedColumns[6]);
    } else if k == 7 {
      FieldsOfJoin(INDEXES[15], IndexedColumns[7]);
    }
  }

  lemma IndexEntriesE(k: nat)
    requires 8 <= k < 10
    ensures INDEXES[2 * k] == IndexedTables[k] && Fields(INDEXES[2 * k + 1]) == IndexedColumns[k]
  {
    if k == 8 {
      FieldsOfJoin(INDEXES[17], IndexedColumns[8]);
    } else if k == 9 {
      FieldsOfJoin(INDEXES[19], IndexedColumns[9]);
    }
  }

  lemma IndexEntriesF(k: nat)
    requires 10 <= k < 12
    ensures INDEXES[2 * k] == IndexedTables[k] && Fields(INDEXES[2 * k + 1]) == IndexedColumns[k]
  {
    if k == 10 {
      FieldsOfJoin(INDEXES[21], IndexedColumns[10]);
    } else if k == 11 {
      FieldsOfJoin(INDEXES[23], IndexedColumns[11]);
    }
  }

  lemma IndexEntry(k: nat)
    requires k < 12
    ensures INDEXES[2 * k] == IndexedTables[k] && Fields(INDEXES[2 * k + 1]) == IndexedColumns[k]
  {
    if k < 2 {
      IndexEntriesA(k);
    } else if k < 4 {
      IndexEntriesB(k);
    } else if k < 6 {
      IndexEntriesC(k);
    } else if k < 8 {
      IndexEntriesD(k);
    } else if k < 10 {
      IndexEntriesE(k);
    } else {
      IndexEntriesF(k);
    }
  }

  lemma {:induction false} IndexPrefix(k: nat)
    requires k <= 12
    ensures IndexesOf(INDEXES[..2 * k]) == PlannedGroups(k)
  {
    if k > 0 {
      IndexPrefix(k - 1);
      IndexEntry(k - 1);
      IndexesOfStep(INDEXES, 2 * (k - 1));
    }
  }

  /** `INDEXES` decodes, pair by pair, to the planned groups. */
  lemma IndexPlanDecoded()
    ensures IndexPlan() == PlannedGroups(12)
  {
    IndexPrefix(12);
    assert INDEXES[..24] == INDEXES;
  }

  lemma {:induction false} PlannedGroupsMembers(k: nat, ix: IndexSpec)
    requires k <= 12
    requires ix in PlannedGroups(k)
    ensures exists m :: 0 <= m < k && ix.table == IndexedTables[m] && ix.column in IndexedColumns[m]
  {
    if ix !in PlannedGroups(k - 1) {
      var g := Group(IndexedTables[k - 1], IndexedColumns[k - 1]);
      var j :| 0 <= j < |g| && g[j] == ix;
      assert ix.column == IndexedColumns[k - 1][j];
    } else {
      PlannedGroupsMembers(k - 1, ix);
    }
  }

  lemma PlannedCount()
    ensures |PlannedGroups(12)| == 18
  {
    assert |PlannedGroups(1)| == 1;
    assert |PlannedGroups(2)| == 2;
    assert |PlannedGroups(3)| == 4;
    assert |PlannedGroups(4)| == 8;
    assert |PlannedGroups(5)| == 10;
    assert |PlannedGroups(6)| == 11;
    assert |PlannedGroups(7)| == 12;
    assert |PlannedGroups(8)| == 13;
    assert |PlannedGroups(9)| == 14;
    assert |PlannedGroups(10)| == 15;
    assert |PlannedGroups(11)| == 16;
    assert |PlannedGroups(12)| == 18;
  }

  /** Eighteen indexes over twelve tables; `feed_info` gets none. */
  lemma IndexPlanShape()
    ensures |IndexPlan()| == 18
    ensures forall ix :: ix in IndexPlan() ==> ix.table in IndexedTables
    ensures forall ix :: ix in IndexPlan() ==> ix.table != "feed_info"
  {
    assert "feed_info" !in IndexedTables;
    IndexPlanDecoded();
    PlannedCount();
    forall ix | ix in IndexPlan()
      ensures ix.table in IndexedTables
    {
      PlannedGroupsMembers(12, ix);
    }
  }

  lemma IndexedTablesExistA(m: nat)
    requires 0 <= m < 2
    ensures |TableSpecs()| == 13 && TableSpecs()[m].name == IndexedTables[m]
    ensures forall c :: c in IndexedColumns[m] ==> c in TableSpecs()[m].columns
  {
    if m == 0 {
      AgencyDecoded();
    } else if m == 1 {
      StopsDecoded();
    }
  }

  lemma IndexedTablesExistB(m: nat)
    requires 2 <= m < 4
    ensures |TableSpecs()| == 13 && TableSpecs()[m].name == IndexedTables[m]
    ensures forall c :: c in IndexedColumns[m] ==> c in TableSpecs()[m].columns
  {
    if m == 2 {
      RoutesDecoded();
    } else if m == 3 {
      TripsDecoded();
    }
  }

  lemma IndexedTablesExistC(m: nat)
    requires 4 <= m < 6
    ensures |TableSpecs()| == 13 && TableSpecs()[m].name == IndexedTables[m]
    ensures forall c :: c in IndexedColumns[m] ==> c in TableSpecs()[m].columns
  {
    if m == 4 {
      StopTimesDecoded();
    } else if m == 5 {
      CalendarDecoded();
    }
  }

  lemma IndexedTablesExistD(m: nat)
    requires 6 <= m < 8
    ensures |TableSpecs()| == 13 && TableSpecs()[m].name == IndexedTables[m]
    ensures forall c :: c in IndexedColumns[m] ==> c in TableSpecs()[m].columns
  {
    if m == 6 {
      CalendarDatesDecoded();
    } else if m == 7 {
      FareAttributesDecoded();
    }
  }

  lemma IndexedTablesExistE(m: nat)
    requires 8 <= m < 10
    ensures |TableSpecs()| == 13 && TableSpecs()[m].name == IndexedTables[m]
    ensures forall c :: c in IndexedColumns[m] ==> c in TableSpecs()[m].columns
  {
    if m == 8 {
      FareRulesDecoded();
    } else if m == 9 {
      ShapesDecoded();
    }
  }

  lemma IndexedTablesExistF(m: nat)
    requires 10 <= m < 12
    ensures |TableSpecs()| == 13 && TableSpecs()[m].name == IndexedTables[m]
    ensures forall c :: c in IndexedColumns[m] ==> c in TableSpecs()[m].columns
  {
    if m == 10 {
      FrequenciesDecoded();
    } else if m == 11 {
      TransfersDecoded();
    }
  }

  /** Every planned index names a table of `SCHEMA` and one of that table's columns. */
  lemma IndexesReferToSchema(ix: IndexSpec)
    requires ix in IndexPlan()
    ensures exists k :: 0 <= k < |TableSpecs()| && TableSpecs()[k].name == ix.table && ix.column in TableSpecs()[k].columns
  {
    IndexPlanDecoded();
    PlannedGroupsMembers(12, ix);
    var m :| 0 <= m < 12 && ix.table == IndexedTables[m] && ix.column in IndexedColumns[m];
    if m < 2 {
      IndexedTablesExistA(m);
    } else if m < 4 {
      IndexedTablesExistB(m);
    } else if m < 6 {
      IndexedTablesExistC(m);
    } else if m < 8 {
      IndexedTablesExistD(m);
    } else if m < 10 {
      IndexedTablesExistE(m);
    } else {
      IndexedTablesExistF(m);
    }
  }

  /** The table names of `SCHEMA`, in order. */
  const TableNames: seq<string> := ["agency", "stops", "routes", "trips", "stop_times", "calendar",
    "calendar_dates", "fare_attributes", "fare_rules", "shapes", "frequencies", "transfers", "feed_info"]

  lemma SchemaNameAt(k: nat)
    requires k < |TableNames|
    ensures 2 * k < |SCHEMA| && SCHEMA[2 * k] == TableNames[k]
  {
    PairCounts();
  }

  lemma TableNameAt(k: nat)
    requires k < |TableNames|
    ensures |TableSpecs()| == |TableNames| && TableSpecs()[k].name == TableNames[k]
  {
    PairCounts();
    SchemaNameAt(k);
  }

  lemma TableNamesListed()
    ensures |TableSpecs()| == |TableNames|
    ensures forall k :: 0 <= k < |TableNames| ==> TableSpecs()[k].name == TableNames[k]
  {
    TableNameAt(0);
    forall k | 0 <= k < |TableNames|
      ensures TableSpecs()[k].name == TableNames[k]
    {
      TableNameAt(k);
    }
  }

  lemma TableNamesListedDistinct()
    ensures forall i, j :: 0 <= i < j < |TableNames| ==> TableNames[i] != TableNames[j]
  {
  }

  /** No two pairs of `SCHEMA` name the same table, so each CREATE TABLE meets a fresh name. */
  lemma TableNamesDistinct()
    ensures forall i, j :: 0 <= i < j < |TableSpecs()| ==> TableSpecs()[i].name != TableSpecs()[j].name
  {
    TableNamesListed();
    TableNamesListedDistinct();
  }
}
