/** The query layer the dashboard reads the cleaned table through: equality
    filters, sorted lists of the distinct values of a column, a summary, and
    the choice of which CSV file to load. */
module GetData {
  import opened Wrappers
  import opened Seqs
  import opened Stats
  import opened Tables

  // ---------------------------------------------------------------------
  // Loading
  // ---------------------------------------------------------------------

  datatype LoadError = FileNotFound(path: string)

  const CleanedPath: string := "data/cleaned/cleaneddata.csv"
  const RawPath: string := "data/raw/rawdata.csv"

  /** get_vaccination_data: `cleaned` and `raw` are the two CSV files as
      tables, None when the file does not exist. */
  function GetVaccinationData(useCleaned: bool, cleaned: Option<Table>, raw: Option<Table>): (r: Result<Table, LoadError>)
    ensures useCleaned ==> (r.Ok? <==> cleaned.Some?) && (r.Ok? ==> r.value == cleaned.value)
    ensures !useCleaned ==> (r.Ok? <==> raw.Some?) && (r.Ok? ==> r.value == raw.value)
    ensures r.Err? ==> r.error == FileNotFound(if useCleaned then CleanedPath else RawPath)
  {
    var (path, file) := if useCleaned then (CleanedPath, cleaned) else (RawPath, raw);
    if file.None? then Err(FileNotFound(path)) else Ok(file.value)
  }

  /** A missing chosen file is an error whatever the other file holds: there
      is no fallback from one file to the other. */
  lemma NoFallbackToOtherFile(useCleaned: bool, present: Table, a: Option<Table>, b: Option<Table>)
    ensures GetVaccinationData(true, None, Some(present)).Err?
    ensures GetVaccinationData(false, Some(present), None).Err?
    ensures useCleaned ==> GetVaccinationData(useCleaned, a, b) == GetVaccinationData(useCleaned, a, None)
    ensures !useCleaned ==> GetVaccinationData(useCleaned, a, b) == GetVaccinationData(useCleaned, None, b)
  {
  }

  // ---------------------------------------------------------------------
  // Filtering
  // ---------------------------------------------------------------------

  /** The category value that means "no category filter". */
  const AllCategories: string := "Toutes"

  /** Whether r passes each selection of get_filtered_data; a selection that
      is not given, or whose column the table lacks, passes every row. */
  predicate YearMatches(columns: set<Column>, year: Option<int>, r: Row) {
    year.None? || Year !in columns || r.year == year
  }

  predicate CountryMatches(columns: set<Column>, country: Option<string>, r: Row) {
    country.None? || Name !in columns || r.name == country
  }

  predicate AntigenMatches(columns: set<Column>, antigen: Option<string>, r: Row) {
    antigen.None? || Antigen !in columns || r.antigen == antigen
  }

  predicate CategoryMatches(columns: set<Column>, category: Option<string>, r: Row) {
    category.None? || CoverageCategory !in columns || category.value == AllCategories || r.coverageCategory == category
  }

  /** The four selections of get_filtered_data together. */
  predicate MatchesFilters(columns: set<Column>, year: Option<int>, country: Option<string>,
                           antigen: Option<string>, category: Option<string>, r: Row) {
    YearMatches(columns, year, r) && CountryMatches(columns, country, r)
    && AntigenMatches(columns, antigen, r) && CategoryMatches(columns, category, r)
  }

  /** filtered[filtered.YEAR == year] when a year is given and the column exists. */
  function SelectYear(rows: seq<Row>, columns: set<Column>, year: Option<int>): (out: seq<Row>)
    ensures out == Filter(rows, r => YearMatches(columns, year, r))
  {
    if year.Some? && Year in columns then
      FilterCongruent(rows, (r: Row) => r.year == year, r => YearMatches(columns, year, r));
      Filter(rows, (r: Row) => r.year == year)
    else
      FilterKeepsAll(rows, r => YearMatches(columns, year, r));
      rows
  }

  /** filtered[filtered.NAME == country] when a country is given and the column exists. */
  function SelectCountry(rows: seq<Row>, columns: set<Column>, country: Option<string>): (out: seq<Row>)
    ensures out == Filter(rows, r => CountryMatches(columns, country, r))
  {
    if country.Some? && Name in columns then
      FilterCongruent(rows, (r: Row) => r.name == country, r => CountryMatches(columns, country, r));
      Filter(rows, (r: Row) => r.name == country)
    else
      FilterKeepsAll(rows, r => CountryMatches(columns, country, r));
      rows
  }

  /** filtered[filtered.ANTIGEN == antigen] when an antigen is given and the column exists. */
  function SelectAntigen(rows: seq<Row>, columns: set<Column>, antigen: Option<string>): (out: seq<Row>)
    ensures out == Filter(rows, r => AntigenMatches(columns, antigen, r))
  {
    if antigen.Some? && Antigen in columns then
      FilterCongruent(rows, (r: Row) => r.antigen == antigen, r => AntigenMatches(columns, antigen, r));
      Filter(rows, (r: Row) => r.antigen == antigen)
    else
      FilterKeepsAll(rows, r => AntigenMatches(columns, antigen, r));
      rows
  }

  /** filtered[filtered.COVERAGE_CATEGORY == category] when a category other
      than "Toutes" is given and the column exists. */
  function SelectCategory(rows: seq<Row>, columns: set<Column>, category: Option<string>): (out: seq<Row>)
    ensures out == Filter(rows, r => CategoryMatches(columns, category, r))
  {
    if category.Some? && CoverageCategory in columns && category.value != AllCategories then
      FilterCongruent(rows, (r: Row) => r.coverageCategory == category, r => CategoryMatches(columns, category, r));
      Filter(rows, (r: Row) => r.coverageCategory == category)
    else
      FilterKeepsAll(rows, r => CategoryMatches(columns, category, r));
      rows
  }

  /** get_filtered_data: the year, country, antigen and category selections in turn. */
  function GetFilteredData(t: Table, year: Option<int>, country: Option<string>,
                           antigen: Option<string>, category: Option<string>): (out: Table)
    ensures out.columns == t.columns
    ensures |out.rows| <= |t.rows|
    ensures forall r :: r in out.rows <==> r in t.rows && MatchesFilters(t.columns, year, country, antigen, category, r)
  {
    var rows := SelectYear(t.rows, t.columns, year);
    var rows := SelectCountry(rows, t.columns, country);
    var rows := SelectAntigen(rows, t.columns, antigen);
    var rows := SelectCategory(rows, t.columns, category);
    Table(rows, t.columns)
  }

  /** The four successive selections are one selection by their conjunction:
      the result is the order-preserving subsequence of exactly the rows that
      pass every active filter. */
  lemma FilteredDataIsOneSelection(t: Table, year: Option<int>, country: Option<string>,
                                   antigen: Option<string>, category: Option<string>)
    ensures GetFilteredData(t, year, country, antigen, category).rows
         == Filter(t.rows, r => MatchesFilters(t.columns, year, country, antigen, category, r))
    ensures IsSubsequence(GetFilteredData(t, year, country, antigen, category).rows, t.rows)
  {
    var c := t.columns;
    var y := r => YearMatches(c, year, r);
    var yc := r => YearMatches(c, year, r) && CountryMatches(c, country, r);
    var yca := r => YearMatches(c, year, r) && CountryMatches(c, country, r) && AntigenMatches(c, antigen, r);
    var all := r => MatchesFilters(c, year, country, antigen, category, r);
    FilterFilter(t.rows, y, r => CountryMatches(c, country, r), yc);
    FilterFilter(t.rows, yc, r => AntigenMatches(c, antigen, r), yca);
    FilterFilter(t.rows, yca, r => CategoryMatches(c, category, r), all);
    FilterIsSubsequence(t.rows, all);
  }

  /** With no filter given, the result is the input row for row. */
  lemma NoFilterIsIdentity(t: Table)
    ensures GetFilteredData(t, None, None, None, None) == t
  {
  }

  /** A filter whose column the table lacks changes nothing, and neither does
      the category "Toutes". */
  lemma AbsentColumnFiltersAreNoOps(t: Table, year: Option<int>, country: Option<string>,
                                    antigen: Option<string>, category: Option<string>)
    ensures Year !in t.columns ==> GetFilteredData(t, year, country, antigen, category) == GetFilteredData(t, None, country, antigen, category)
    ensures Name !in t.columns ==> GetFilteredData(t, year, country, antigen, category) == GetFilteredData(t, year, None, antigen, category)
    ensures Antigen !in t.columns ==> GetFilteredData(t, year, country, antigen, category) == GetFilteredData(t, year, country, None, category)
    ensures CoverageCategory !in t.columns ==> GetFilteredData(t, year, country, antigen, category) == GetFilteredData(t, year, country, antigen, None)
    ensures GetFilteredData(t, year, country, antigen, Some(AllCategories)) == GetFilteredData(t, year, country, antigen, None)
  {
  }

  /** The filters commute: applying the category, antigen, country and year
      selections in the reverse order gives the same rows. */
  lemma FilterOrderIsIrrelevant(t: Table, year: Option<int>, country: Option<string>,
                                antigen: Option<string>, category: Option<string>)
    ensures GetFilteredData(t, year, country, antigen, category).rows
         == SelectYear(SelectCountry(SelectAntigen(SelectCategory(t.rows, t.columns, category), t.columns, antigen), t.columns, country), t.columns, year)
  {
    var c := t.columns;
    var s1 := SelectCategory(t.rows, c, category);
    var s2 := SelectAntigen(s1, c, antigen);
    var s3 := SelectCountry(s2, c, country);
    var ca := r => CategoryMatches(c, category, r) && AntigenMatches(c, antigen, r);
    var cac := r => CategoryMatches(c, category, r) && AntigenMatches(c, antigen, r) && CountryMatches(c, country, r);
    var all := r => CategoryMatches(c, category, r) && AntigenMatches(c, antigen, r) && CountryMatches(c, country, r) && YearMatches(c, year, r);
    FilterFilter(t.rows, r => CategoryMatches(c, category, r), r => AntigenMatches(c, antigen, r), ca);
    assert s2 == Filter(t.rows, ca);
    FilterFilter(t.rows, ca, r => CountryMatches(c, country, r), cac);
    assert s3 == Filter(t.rows, cac);
    FilterFilter(t.rows, cac, r => YearMatches(c, year, r), all);
    assert SelectYear(s3, c, year) == Filter(t.rows, all);
    FilterCongruent(t.rows, all, r => MatchesFilters(c, year, country, antigen, category, r));
    FilteredDataIsOneSelection(t, year, country, antigen, category);
  }

  // ---------------------------------------------------------------------
  // Distinct values
  // ---------------------------------------------------------------------

  lemma IntLeIsTotalPreorder()
    ensures TotalPreorder(IntLe)
  {
  }

  /** sorted(cells.dropna().unique()) over integers: strictly ascending, and
      exactly the values present. */
  function SortedDistinctInts(cells: seq<Option<int>>): (vs: seq<int>)
    ensures forall i, j :: 0 <= i < j < |vs| ==> vs[i] < vs[j]
    ensures forall v :: v in vs <==> Some(v) in cells
  {
    IntLeIsTotalPreorder();
    SortByIsSorted(Distinct(Present(cells)), IntLe);
    SortedUnique(cells, IntLe)
  }

  /** sorted(cells.dropna().unique()) over strings: strictly ascending in
      Python's string order, and exactly the values present. */
  function SortedDistinctTexts(cells: seq<Option<string>>): (vs: seq<string>)
    ensures SortedBy(vs, StrLe) && NoDuplicates(vs)
    ensures forall v :: v in vs <==> Some(v) in cells
  {
    StrLeIsTotalPreorder();
    SortByIsSorted(Distinct(Present(cells)), StrLe);
    SortedUnique(cells, StrLe)
  }

  function YearCells(rows: seq<Row>): seq<Option<int>> {
    seq(|rows|, i requires 0 <= i < |rows| => rows[i].year)
  }

  function NameCells(rows: seq<Row>): seq<Option<string>> {
    seq(|rows|, i requires 0 <= i < |rows| => rows[i].name)
  }

  function AntigenCells(rows: seq<Row>): seq<Option<string>> {
    seq(|rows|, i requires 0 <= i < |rows| => rows[i].antigen)
  }

  function CategoryCells(rows: seq<Row>): seq<Option<string>> {
    seq(|rows|, i requires 0 <= i < |rows| => rows[i].coverageCategory)
  }

  /** get_available_years: the distinct years present, ascending; [] without a YEAR column. */
  function GetAvailableYears(t: Table): (ys: seq<int>)
    ensures Year !in t.columns ==> ys == []
    ensures forall i, j :: 0 <= i < j < |ys| ==> ys[i] < ys[j]
    ensures Year in t.columns ==> forall y :: y in ys <==> exists r :: r in t.rows && r.year == Some(y)
  {
    if Year !in t.columns then []
    else
      var cells := YearCells(t.rows);
      assert forall y :: Some(y) in cells <==> exists r :: r in t.rows && r.year == Some(y) by {
        forall y | exists r :: r in t.rows && r.year == Some(y) ensures Some(y) in cells {
          var r :| r in t.rows && r.year == Some(y);
          var i :| 0 <= i < |t.rows| && t.rows[i] == r;
          assert cells[i] == Some(y);
        }
      }
      SortedDistinctInts(cells)
  }

  /** get_available_countries: the distinct names present, ascending; [] without a NAME column. */
  function GetAvailableCountries(t: Table): (vs: seq<string>)
    ensures Name !in t.columns ==> vs == []
    ensures SortedBy(vs, StrLe) && NoDuplicates(vs)
    ensures Name in t.columns ==> forall v :: v in vs <==> exists r :: r in t.rows && r.name == Some(v)
  {
    if Name !in t.columns then []
    else
      var cells := NameCells(t.rows);
      assert forall v :: Some(v) in cells <==> exists r :: r in t.rows && r.name == Some(v) by {
        forall v | exists r :: r in t.rows && r.name == Some(v) ensures Some(v) in cells {
          var r :| r in t.rows && r.name == Some(v);
          var i :| 0 <= i < |t.rows| && t.rows[i] == r;
          assert cells[i] == Some(v);
        }
      }
      SortedDistinctTexts(cells)
  }

  /** get_available_antigens: the distinct antigens present, ascending; [] without an ANTIGEN column. */
  function GetAvailableAntigens(t: Table): (vs: seq<string>)
    ensures Antigen !in t.columns ==> vs == []
    ensures SortedBy(vs, StrLe) && NoDuplicates(vs)
    ensures Antigen in t.columns ==> forall v :: v in vs <==> exists r :: r in t.rows && r.antigen == Some(v)
  {
    if Antigen !in t.columns then []
    else
      var cells := AntigenCells(t.rows);
      assert forall v :: Some(v) in cells <==> exists r :: r in t.rows && r.antigen == Some(v) by {
        forall v | exists r :: r in t.rows && r.antigen == Some(v) ensures Some(v) in cells {
          var r :| r in t.rows && r.antigen == Some(v);
          var i :| 0 <= i < |t.rows| && t.rows[i] == r;
          assert cells[i] == Some(v);
        }
      }
      SortedDistinctTexts(cells)
  }

  /** get_available_coverage_categories: the distinct categories present,
      ascending; [] without a COVERAGE_CATEGORY column. */
  function GetAvailableCoverageCategories(t: Table): (vs: seq<string>)
    ensures CoverageCategory !in t.columns ==> vs == []
    ensures SortedBy(vs, StrLe) && NoDuplicates(vs)
    ensures CoverageCategory in t.columns ==> forall v :: v in vs <==> exists r :: r in t.rows && r.coverageCategory == Some(v)
  {
    if CoverageCategory !in t.columns then []
    else
      var cells := CategoryCells(t.rows);
      assert forall v :: Some(v) in cells <==> exists r :: r in t.rows && r.coverageCategory == Some(v) by {
        forall v | exists r :: r in t.rows && r.coverageCategory == Some(v) ensures Some(v) in cells {
          var r :| r in t.rows && r.coverageCategory == Some(v);
          var i :| 0 <= i < |t.rows| && t.rows[i] == r;
          assert cells[i] == Some(v);
        }
      }
      SortedDistinctTexts(cells)
  }

  // ---------------------------------------------------------------------
  // Summary
  // ---------------------------------------------------------------------

  datatype DataSummary = DataSummary(
    totalRecords: nat,
    totalCountries: nat,
    totalAntigens: nat,
    yearRange: Option<(int, int)>,
    coverageCategories: nat)

  /** int(NaN): the YEAR column exists but holds no year. */
  datatype SummaryError = NoYearToConvert

  /** get_data_summary: row count, distinct counts (0 for an absent column)
      and the range of years; None stands for (None, None) without a YEAR
      column, and a YEAR column holding no year makes int(min) raise. */
  function GetDataSummary(t: Table): (r: Result<DataSummary, SummaryError>)
    ensures r.Err? <==> Year in t.columns && forall row :: row in t.rows ==> row.year.None?
    ensures r.Ok? ==>
      && r.value.totalRecords == |t.rows|
      && r.value.totalCountries == DistinctOrZero(t, Name)
      && r.value.totalAntigens == DistinctOrZero(t, Antigen)
      && r.value.coverageCategories == DistinctOrZero(t, CoverageCategory)
      && (r.value.yearRange.None? <==> Year !in t.columns)
    ensures r.Ok? && r.value.yearRange.Some? ==>
      var (lo, hi) := r.value.yearRange.value;
      && lo <= hi
      && (exists row :: row in t.rows && row.year == Some(lo))
      && (exists row :: row in t.rows && row.year == Some(hi))
      && forall row :: row in t.rows && row.year.Some? ==> lo <= row.year.value <= hi
  {
    var years := SortedDistinctInts(YearCells(t.rows));
    YearsOfRows(t.rows);
    if Year in t.columns && years == [] then Err(NoYearToConvert)
    else
      Ok(DataSummary(
        |t.rows|,
        DistinctOrZero(t, Name),
        DistinctOrZero(t, Antigen),
        if Year in t.columns then YearEnds(years) else None,
        DistinctOrZero(t, CoverageCategory)))
  }

  /** The distinct years of the rows are exactly the years some row has. */
  lemma YearsOfRows(rows: seq<Row>)
    ensures var ys := SortedDistinctInts(YearCells(rows));
      && (forall row :: row in rows && row.year.Some? ==> row.year.value in ys)
      && (forall y :: y in ys ==> exists row :: row in rows && row.year == Some(y))
      && (ys == [] <==> forall row :: row in rows ==> row.year.None?)
  {
    var ys := SortedDistinctInts(YearCells(rows));
    forall row | row in rows && row.year.Some? ensures row.year.value in ys {
      var i :| 0 <= i < |rows| && rows[i] == row;
      assert YearCells(rows)[i] == Some(row.year.value);
    }
    forall y | y in ys ensures exists row :: row in rows && row.year == Some(y) {
      var i :| 0 <= i < |rows| && YearCells(rows)[i] == Some(y);
      assert rows[i] in rows;
    }
    if ys != [] {
      assert ys[0] in ys;
    }
  }

  /** The least and greatest of a strictly ascending, non-empty list of
      years: its first and last elements. */
  function YearEnds(ys: seq<int>): (r: Option<(int, int)>)
    requires ys != []
    requires forall i, j :: 0 <= i < j < |ys| ==> ys[i] < ys[j]
    ensures r.Some? && r.value.0 in ys && r.value.1 in ys
    ensures forall y :: y in ys ==> r.value.0 <= y <= r.value.1
  {
    assert forall k :: 0 <= k < |ys| ==> ys[0] <= ys[k] <= ys[|ys| - 1];
    Some((ys[0], ys[|ys| - 1]))
  }
}
