/** The sidebar's quick statistics: the table narrowed by the year, country
    and antigen drop-downs, then its row count, mean coverage and number of
    countries. */
module Sidebar {
  import opened Wrappers
  import opened Seqs
  import opened Stats
  import opened Tables
  import GetData

  /** A drop-down value: the sentinel 'all' or one chosen value. */
  datatype Selection<T> = All | Only(value: T)

  /** The dashboard pages hand a selection to the query layer as None for
      'all' and the chosen value otherwise. */
  function AsFilter<T>(s: Selection<T>): (o: Option<T>)
    ensures o.None? <==> s.All?
    ensures s.Only? ==> o.value == s.value
  {
    if s.All? then None else Some(s.value)
  }

  datatype SidebarStats = SidebarStats(nRecords: nat, avgCoverage: Option<real>, nCountries: nat)

  /** Selecting on a column the table lacks raises KeyError(column). */
  datatype KeyError = KeyError(column: Column)

  predicate SelectionMatches<T(==)>(s: Selection<T>, cell: Option<T>) {
    s.All? || cell == Some(s.value)
  }

  /** Whether a row passes all three selections (NaN equals nothing). */
  predicate MatchesSelections(year: Selection<int>, country: Selection<string>,
                              antigen: Selection<string>, r: Row) {
    SelectionMatches(year, r.year) && SelectionMatches(country, r.name)
    && SelectionMatches(antigen, r.antigen)
  }

  /** The first column a non-'all' selection reads that the table lacks. */
  function SelectionKeyError(columns: set<Column>, year: Selection<int>, country: Selection<string>,
                             antigen: Selection<string>): (e: Option<Column>)
    ensures e.None? <==> (year.Only? ==> Year in columns) && (country.Only? ==> Name in columns)
                          && (antigen.Only? ==> Antigen in columns)
    ensures e.Some? ==> e.value !in columns
  {
    if year.Only? && Year !in columns then Some(Year)
    else if country.Only? && Name !in columns then Some(Name)
    else if antigen.Only? && Antigen !in columns then Some(Antigen)
    else None
  }

  /** The successive narrowing of update_sidebar_stats. */
  function SidebarRows(t: Table, year: Selection<int>, country: Selection<string>,
                       antigen: Selection<string>): (r: Result<seq<Row>, KeyError>)
    ensures r.Err? <==> SelectionKeyError(t.columns, year, country, antigen).Some?
    ensures r.Err? ==> r.error == KeyError(SelectionKeyError(t.columns, year, country, antigen).value)
    ensures r.Ok? ==> r.value == Filter(t.rows, x => MatchesSelections(year, country, antigen, x))
  {
    var missing := SelectionKeyError(t.columns, year, country, antigen);
    if missing.Some? then Err(KeyError(missing.value))
    else
      var rows := if year.All? then t.rows else Filter(t.rows, (x: Row) => x.year == Some(year.value));
      var rows := if country.All? then rows else Filter(rows, (x: Row) => x.name == Some(country.value));
      var rows := if antigen.All? then rows else Filter(rows, (x: Row) => x.antigen == Some(antigen.value));
      SidebarRowsAreOneSelection(t.rows, year, country, antigen);
      Ok(rows)
  }

  /** The three successive narrowings are one selection by their conjunction. */
  lemma SidebarRowsAreOneSelection(rows: seq<Row>, year: Selection<int>, country: Selection<string>,
                                   antigen: Selection<string>)
    ensures
      var a := if year.All? then rows else Filter(rows, (x: Row) => x.year == Some(year.value));
      var b := if country.All? then a else Filter(a, (x: Row) => x.name == Some(country.value));
      var c := if antigen.All? then b else Filter(b, (x: Row) => x.antigen == Some(antigen.value));
      c == Filter(rows, x => MatchesSelections(year, country, antigen, x))
  {
    var py := (x: Row) => SelectionMatches(year, x.year);
    var pc := (x: Row) => SelectionMatches(country, x.name);
    var pa := (x: Row) => SelectionMatches(antigen, x.antigen);
    var a := if year.All? then rows else Filter(rows, (x: Row) => x.year == Some(year.value));
    if year.All? { FilterKeepsAll(rows, py); } else { FilterCongruent(rows, (x: Row) => x.year == Some(year.value), py); }
    var b := if country.All? then a else Filter(a, (x: Row) => x.name == Some(country.value));
    if country.All? { FilterKeepsAll(a, pc); } else { FilterCongruent(a, (x: Row) => x.name == Some(country.value), pc); }
    var c := if antigen.All? then b else Filter(b, (x: Row) => x.antigen == Some(antigen.value));
    if antigen.All? { FilterKeepsAll(b, pa); } else { FilterCongruent(b, (x: Row) => x.antigen == Some(antigen.value), pa); }
    var pyc := (x: Row) => py(x) && pc(x);
    FilterFilter(rows, py, pc, pyc);
    var all := (x: Row) => pyc(x) && pa(x);
    FilterFilter(rows, pyc, pa, all);
    FilterCongruent(rows, all, x => MatchesSelections(year, country, antigen, x));
  }

  /** update_sidebar_stats. `avgCoverage` is 0 when no row remains and None
      (NaN) when rows remain but none has a coverage; COVERAGE and NAME are
      only read, and so can only raise, when rows remain. */
  function UpdateSidebarStats(t: Table, year: Selection<int>, country: Selection<string>,
                              antigen: Selection<string>): (r: Result<SidebarStats, KeyError>)
    ensures SidebarRows(t, year, country, antigen).Err? ==> r == Err(SidebarRows(t, year, country, antigen).error)
    ensures SidebarRows(t, year, country, antigen).Ok? ==>
      var rows := SidebarRows(t, year, country, antigen).value;
      && (rows == [] ==> r == Ok(SidebarStats(0, Some(0.0), 0)))
      && (rows != [] && Coverage !in t.columns ==> r == Err(KeyError(Coverage)))
      && (rows != [] && Coverage in t.columns && Name !in t.columns ==> r == Err(KeyError(Name)))
      && (rows != [] && Coverage in t.columns && Name in t.columns ==> r.Ok?)
      && (r.Ok? ==> r.value.nRecords == |rows| && r.value.nCountries <= r.value.nRecords)
      && (r.Ok? && rows != [] ==> r.value.nCountries == NUnique(rows, Name)
                                  && r.value.avgCoverage == Mean(NumericValues(rows, Coverage)))
  {
    match SidebarRows(t, year, country, antigen)
    case Err(e) => Err(e)
    case Ok(rows) =>
      if |rows| == 0 then Ok(SidebarStats(0, Some(0.0), 0))
      else if Coverage !in t.columns then Err(KeyError(Coverage))
      else if Name !in t.columns then Err(KeyError(Name))
      else
        NUniqueAtMostRows(rows, Name);
        Ok(SidebarStats(|rows|, Mean(NumericValues(rows, Coverage)), NUnique(rows, Name)))
  }

  /** 'all' everywhere keeps the whole table. */
  lemma AllSelectionsKeepEveryRow(t: Table)
    ensures SidebarRows(t, All, All, All) == Ok(t.rows)
  {
    FilterKeepsAll(t.rows, x => MatchesSelections(All, All, All, x));
  }

  /** A remaining row matches every non-'all' selection, and every row that
      does remains, in table order. */
  lemma SidebarRowsAreTheMatchingRows(t: Table, year: Selection<int>, country: Selection<string>,
                                      antigen: Selection<string>)
    requires SidebarRows(t, year, country, antigen).Ok?
    ensures forall x :: x in SidebarRows(t, year, country, antigen).value
                        <==> x in t.rows && MatchesSelections(year, country, antigen, x)
    ensures IsSubsequence(SidebarRows(t, year, country, antigen).value, t.rows)
  {
    FilterIsSubsequence(t.rows, x => MatchesSelections(year, country, antigen, x));
  }

  /** When it does not raise, the sidebar narrows the table exactly as the
      query layer does for the same drop-down values. */
  lemma SidebarAgreesWithQueryLayer(t: Table, year: Selection<int>, country: Selection<string>,
                                    antigen: Selection<string>)
    requires SidebarRows(t, year, country, antigen).Ok?
    ensures SidebarRows(t, year, country, antigen).value
         == GetData.GetFilteredData(t, AsFilter(year), AsFilter(country), AsFilter(antigen), None).rows
  {
    GetData.FilteredDataIsOneSelection(t, AsFilter(year), AsFilter(country), AsFilter(antigen), None);
    FilterCongruent(t.rows, x => MatchesSelections(year, country, antigen, x),
                    r => GetData.MatchesFilters(t.columns, AsFilter(year), AsFilter(country), AsFilter(antigen), None, r));
  }
}
