/**
  Header-to-column resolution and value binding in `parseFile`: each schema
  column is mapped to the first header that contains its name (or -1), and a
  record's value for a column is read with the CSV reader's bounds-checked
  `get`.
 */
module Resolver {
  import opened JavaText

  /** The position `parseFile` stores for a column no header contains. */
  const Unresolved: int := -1

  /**
    What the CSV reader's `get(k)` yields when `k` is not a position of the
    record (the reader is not part of this model; its `get` answers the empty
    string there).
   */
  const Missing: string := ""

  /** The first header at or after `from` that contains `column`, or `Unresolved`. */
  function FirstMatchFrom(headers: seq<string>, column: string, from: nat): (r: int)
    requires from <= |headers|
    ensures r == Unresolved || from <= r < |headers|
    ensures r != Unresolved ==> Contains(headers[r], column)
    ensures r != Unresolved ==> forall j :: from <= j < r ==> !Contains(headers[j], column)
    ensures r == Unresolved <==> forall j :: from <= j < |headers| ==> !Contains(headers[j], column)
    decreases |headers| - from
  {
    if from == |headers| then Unresolved
    else if Contains(headers[from], column) then from
    else FirstMatchFrom(headers, column, from + 1)
  }

  /** The header position `parseFile` resolves `column` to. */
  function FirstMatch(headers: seq<string>, column: string): int
  {
    FirstMatchFrom(headers, column, 0)
  }

  /** The whole `indexes` array of `parseFile`, as a sequence. */
  function Resolve(fields: seq<string>, headers: seq<string>): (indexes: seq<int>)
    ensures |indexes| == |fields|
  {
    seq(|fields|, i requires 0 <= i < |fields| => FirstMatch(headers, fields[i]))
  }

  /** `csv.get(k)`: the record's field at `k`, or `Missing` when `k` is not one of its positions. */
  function Get(record: seq<string>, k: int): string
  {
    if 0 <= k < |record| then record[k] else Missing
  }

  /** The values bound to the INSERT for one record, in schema column order. */
  function BindRow(record: seq<string>, indexes: seq<int>): (row: seq<string>)
    ensures |row| == |indexes|
  {
    seq(|indexes|, i requires 0 <= i < |indexes| => Get(record, indexes[i]))
  }

  /**
    The nested loop of `parseFile` that fills `indexes`: for every schema
    column, scan the headers left to right and stop at the first that contains
    the column name; -1 when none does.
   */
  method ResolveColumns(fields: seq<string>, headers: seq<string>) returns (indexes: array<int>)
    ensures indexes.Length == |fields|
    ensures forall i :: 0 <= i < |fields| ==> indexes[i] == FirstMatch(headers, fields[i])
  {
    indexes := new int[|fields|];
    for i := 0 to |fields|
      invariant forall k :: 0 <= k < i ==> indexes[k] == FirstMatch(headers, fields[k])
    {
      var col := fields[i];
      indexes[i] := Unresolved;
      var j := 0;
      while j < |headers|
        invariant 0 <= j <= |headers|
        invariant indexes[i] == Unresolved
        invariant forall m :: 0 <= m < j ==> !Contains(headers[m], col)
        invariant forall k :: 0 <= k < i ==> indexes[k] == FirstMatch(headers, fields[k])
      {
        if Contains(headers[j], col) {
          indexes[i] := j;
          break;
        }
        j := j + 1;
      }
    }
  }

  /** The inner loop over `numFields` in `parseFile`: `insert.setString(i + 1, csv.get(indexes[i]))`. */
  method BindRecord(record: seq<string>, indexes: array<int>) returns (values: seq<string>)
    ensures values == BindRow(record, indexes[..])
  {
    values := [];
    for i := 0 to indexes.Length
      invariant values == BindRow(record, indexes[..i])
    {
      values := values + [Get(record, indexes[i])];
    }
    assert indexes[..indexes.Length] == indexes[..];
  }

  /**
    A resolved column holds the field of the first header naming it, an
    unresolved one the missing marker, and no record is ever too short to be
    bound: a bound row has one value per schema column.
   */
  lemma BoundValue(record: seq<string>, fields: seq<string>, headers: seq<string>, i: nat)
    requires i < |fields|
    ensures |BindRow(record, Resolve(fields, headers))| == |fields|
    ensures var v := BindRow(record, Resolve(fields, headers))[i];
      (forall j :: 0 <= j < |headers| ==> !Contains(headers[j], fields[i])) ==> v == Missing
    ensures var v := BindRow(record, Resolve(fields, headers))[i];
      forall j :: (0 <= j < |headers| && j < |record| && Contains(headers[j], fields[i])
                   && (forall m :: 0 <= m < j ==> !Contains(headers[m], fields[i]))) ==> v == record[j]
  {
  }

  /**
    Matching is by substring: a header that carries stray characters before
    the column name (a byte-order mark, a quote) still resolves to that column
    when no earlier header contains the name.
   */
  lemma PrefixedHeaderMatches(headers: seq<string>, j: nat, prefix: string, column: string)
    requires j < |headers| && headers[j] == prefix + column
    requires forall m :: 0 <= m < j ==> !Contains(headers[m], column)
    ensures FirstMatch(headers, column) == j
  {
    assert ContainsAt(prefix + column, column, |prefix|);
  }

  /**
    The scan stops at the first header containing the name, so an earlier
    header that merely contains it (`tts_stop_name` for `stop_name`) wins
    over a later header equal to it.
   */
  lemma EarlierContainingHeaderWins(headers: seq<string>, j: nat, k: nat, column: string)
    requires j < k < |headers| && headers[k] == column && Contains(headers[j], column)
    ensures 0 <= FirstMatch(headers, column) <= j
    ensures FirstMatch(headers, column) != k
  {
  }

  /** A column whose name is longer than every header stays unresolved. */
  lemma AbsentColumnUnresolved(headers: seq<string>, column: string)
    requires forall m :: 0 <= m < |headers| ==> |headers[m]| < |column|
    ensures FirstMatch(headers, column) == Unresolved
  {
    forall m | 0 <= m < |headers|
      ensures !Contains(headers[m], column)
    {
      assert forall i :: !ContainsAt(headers[m], column, i);
    }
  }
}
