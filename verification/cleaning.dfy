/** The per-column conversions applied to the combined rows before they are
    inserted (etl.py:165-178): the designated numeric columns go through the
    numeric cleaner, the designated date columns through the date parser,
    every other column stays text. */
module Cleaning {
  import opened Wrappers
  import opened Seqs
  import opened Schema
  import opened Numeric

  /** A calendar date as the date parser yields it. */
  datatype CalDate = CalDate(year: int, month: nat, day: nat)

  /** One staged cell. Numbers and dates may be null. */
  datatype Value =
    | Str(text: string)
    | Num(number: Option<Decimal>)
    | Date(date: Option<CalDate>)

  /** The conversion schema column `col` receives. The numeric and date
      columns are disjoint, so the order of the two passes does not matter. */
  function CleanCell(col: string, raw: string, parseDate: string -> Option<CalDate>): Value {
    if col in NumericColumns then Num(CleanNumeric(raw))
    else if col in DateColumns then Date(parseDate(raw))
    else Str(raw)
  }

  /** One reconciled row, cell by cell. */
  function CleanRow(row: seq<string>, parseDate: string -> Option<CalDate>): (r: seq<Value>)
    requires |row| == |ExpectedColumns|
    ensures |r| == |ExpectedColumns|
  {
    seq(|ExpectedColumns|, k requires 0 <= k < |ExpectedColumns| =>
      CleanCell(ExpectedColumns[k], row[k], parseDate))
  }

  /** Every reconciled row. */
  function CleanRows(rows: seq<seq<string>>, parseDate: string -> Option<CalDate>): (r: seq<seq<Value>>)
    requires forall i :: 0 <= i < |rows| ==> |rows[i]| == |ExpectedColumns|
    ensures |r| == |rows|
    ensures forall i :: 0 <= i < |r| ==> |r[i]| == |ExpectedColumns|
  {
    seq(|rows|, i requires 0 <= i < |rows| => CleanRow(rows[i], parseDate))
  }

  /** The file name stays text at the `SourceFile` position. */
  lemma CleanKeepsSource(rows: seq<seq<string>>, parseDate: string -> Option<CalDate>, i: nat)
    requires forall i :: 0 <= i < |rows| ==> |rows[i]| == |ExpectedColumns|
    requires i < |rows|
    ensures CleanRows(rows, parseDate)[i][|ExpectedColumns| - 1] == Str(rows[i][|ExpectedColumns| - 1])
  {
    DesignatedColumnsInSchema();
    assert ExpectedColumns[|ExpectedColumns| - 1] == SourceFile;
  }

  /** Each numeric column's text goes through the numeric cleaner, each date
      column's through the date parser. */
  lemma CleanDesignatedColumns(rows: seq<seq<string>>, parseDate: string -> Option<CalDate>, i: nat)
    requires forall i :: 0 <= i < |rows| ==> |rows[i]| == |ExpectedColumns|
    requires i < |rows|
    ensures forall c :: c in NumericColumns ==> (c in ExpectedColumns &&
      CleanRows(rows, parseDate)[i][IndexOf(ExpectedColumns, c)]
        == Num(CleanNumeric(rows[i][IndexOf(ExpectedColumns, c)])))
    ensures forall c :: c in DateColumns ==> (c in ExpectedColumns &&
      CleanRows(rows, parseDate)[i][IndexOf(ExpectedColumns, c)]
        == Date(parseDate(rows[i][IndexOf(ExpectedColumns, c)])))
  {
    DesignatedColumnsInSchema();
    var row := CleanRows(rows, parseDate)[i];
    assert row == CleanRow(rows[i], parseDate);
    forall c | c in NumericColumns
      ensures row[IndexOf(ExpectedColumns, c)] == Num(CleanNumeric(rows[i][IndexOf(ExpectedColumns, c)]))
    {
      CellAt(rows[i], parseDate, IndexOf(ExpectedColumns, c));
    }
    forall c | c in DateColumns
      ensures row[IndexOf(ExpectedColumns, c)] == Date(parseDate(rows[i][IndexOf(ExpectedColumns, c)]))
    {
      CellAt(rows[i], parseDate, IndexOf(ExpectedColumns, c));
    }
  }

  lemma CellAt(row: seq<string>, parseDate: string -> Option<CalDate>, k: nat)
    requires |row| == |ExpectedColumns| && k < |row|
    ensures CleanRow(row, parseDate)[k] == CleanCell(ExpectedColumns[k], row[k], parseDate)
  {
  }
}
