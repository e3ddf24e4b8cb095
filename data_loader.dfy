/** The dashboard's own loader: the raw CSV or, when it is missing or empty,
    an empty table with the expected columns; a year filter; and the years
    present, missing ones included. */
module DataLoader {
  import opened Wrappers
  import opened Seqs
  import opened Tables
  import GetData

  /** What reading the CSV file gave. */
  datatype CsvRead = Parsed(table: Table) | FileMissing | FileEmpty | Unparsable

  /** The columns of the fallback table. */
  const ExpectedColumns: seq<Column> := [Group, Code, Name, Year, Antigen, Coverage]

  /** A read error other than a missing or empty file is not caught. */
  datatype LoadError = ReadFailed

  /** load_vaccination_data: the parsed table, or an empty table with the
      expected columns when the file is missing or empty. */
  function LoadVaccinationData(read: CsvRead): (r: Result<Table, LoadError>)
    ensures read.Parsed? ==> r == Ok(read.table)
    ensures (read.FileMissing? || read.FileEmpty?) ==>
      r.Ok? && r.value.rows == [] && (forall c :: c in r.value.columns <==> c in ExpectedColumns)
    ensures read.Unparsable? ==> r.Err?
  {
    match read
    case Parsed(t) => Ok(t)
    case FileMissing => Ok(Table([], set c | c in ExpectedColumns))
    case FileEmpty => Ok(Table([], set c | c in ExpectedColumns))
    case Unparsable => Err(ReadFailed)
  }

  /** The fallback table is empty in the pandas sense and every table
      operation sees all expected columns present. */
  lemma FallbackIsEmptyWithExpectedColumns(read: CsvRead)
    requires read.FileMissing? || read.FileEmpty?
    ensures IsEmpty(LoadVaccinationData(read).value)
    ensures MissingColumnsOf(ExpectedColumns, LoadVaccinationData(read).value.columns) == []
  {
  }

  /** Whether a row's YEAR is one of `years` (isin: a missing year never is). */
  predicate YearIn(years: seq<int>, r: Row) {
    r.year.Some? && r.year.value in years
  }

  /** filter_data_by_year: the rows whose YEAR is in `years`, in order; the
      table unchanged when it has no YEAR column. */
  function FilterDataByYear(t: Table, years: seq<int>): (out: Table)
    ensures Year !in t.columns ==> out == t
    ensures out.columns == t.columns
    ensures Year in t.columns ==> forall r :: r in out.rows <==> r in t.rows && YearIn(years, r)
    ensures Year in t.columns ==> out.rows == Filter(t.rows, r => YearIn(years, r))
    ensures IsSubsequence(out.rows, t.rows)
  {
    if Year !in t.columns then
      assert IsSubsequence(t.rows, t.rows) by {
        FilterKeepsAll(t.rows, r => true);
        FilterIsSubsequence(t.rows, r => true);
      }
      t
    else
      FilterIsSubsequence(t.rows, r => YearIn(years, r));
      Table(Filter(t.rows, r => YearIn(years, r)), t.columns)
  }

  /** Year by year, the filter keeps every row of a listed year, repeated
      rows included and in table order, and no row of any other year. */
  lemma FilteredYearIsWholeYear(t: Table, years: seq<int>, y: int)
    requires Year in t.columns
    ensures y in years ==>
      Filter(FilterDataByYear(t, years).rows, (r: Row) => r.year == Some(y)) == Filter(t.rows, (r: Row) => r.year == Some(y))
    ensures y !in years ==> Filter(FilterDataByYear(t, years).rows, (r: Row) => r.year == Some(y)) == []
  {
    var inYear := (r: Row) => r.year == Some(y);
    var both := (r: Row) => YearIn(years, r) && inYear(r);
    FilterFilter(t.rows, r => YearIn(years, r), inYear, both);
    if y in years {
      FilterCongruent(t.rows, both, inYear);
    } else {
      FilterKeepsNone(t.rows, both);
    }
  }

  /** get_available_years of the loader: the distinct years present in
      ascending order, followed by one None when some year is missing
      (unique() keeps NaN, the loader does not drop it). */
  function GetAvailableYears(t: Table): (ys: seq<Option<int>>)
    ensures Year !in t.columns ==> ys == []
    ensures NoDuplicates(ys)
    ensures forall i, j :: 0 <= i < j < |ys| && ys[i].Some? && ys[j].Some? ==> ys[i].value < ys[j].value
    ensures Year in t.columns ==> forall y :: y in ys <==> exists r :: r in t.rows && r.year == y
  {
    if Year !in t.columns then []
    else
      var present := GetData.GetAvailableYears(t);
      var some := Somes(present);
      if exists r :: r in t.rows && r.year.None? then
        assert forall y :: y in some + [None] <==> y in some || y == None;
        some + [None]
      else some
  }

  /** Every year wrapped as a present cell, order kept. */
  function Somes(xs: seq<int>): (ys: seq<Option<int>>)
    requires forall i, j :: 0 <= i < j < |xs| ==> xs[i] < xs[j]
    ensures |ys| == |xs| && forall i :: 0 <= i < |xs| ==> ys[i] == Some(xs[i])
    ensures forall y :: y in ys <==> y.Some? && y.value in xs
    ensures NoDuplicates(ys) && None !in ys
  {
    if xs == [] then []
    else
      var rest := Somes(xs[1..]);
      assert forall y :: y in [Some(xs[0])] + rest <==> y == Some(xs[0]) || y in rest;
      assert Some(xs[0]) !in rest;
      [Some(xs[0])] + rest
  }

  /** Dropping the missing entry gives exactly the query layer's list of years. */
  lemma PresentYearsAgreeWithQueryLayer(t: Table)
    ensures Present(GetAvailableYears(t)) == GetData.GetAvailableYears(t)
  {
    var ys := GetAvailableYears(t);
    if Year in t.columns {
      var present := GetData.GetAvailableYears(t);
      PresentOfSomes(present);
      if exists r :: r in t.rows && r.year.None? {
        PresentAppendNone(Somes(present));
      }
    }
  }

  lemma {:induction false} PresentOfSomes(xs: seq<int>)
    requires forall i, j :: 0 <= i < j < |xs| ==> xs[i] < xs[j]
    ensures Present(Somes(xs)) == xs
  {
    if xs != [] {
      PresentOfSomes(xs[1..]);
      assert Somes(xs)[1..] == Somes(xs[1..]);
    }
  }

  lemma {:induction false} PresentAppendNone(cells: seq<Option<int>>)
    ensures Present(cells + [None]) == Present(cells)
  {
    if cells != [] {
      assert (cells + [None])[1..] == cells[1..] + [None];
      PresentAppendNone(cells[1..]);
    }
  }
}
