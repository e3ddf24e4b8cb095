/** The time-series charts: a value aggregated per time step, optionally per
    group as well, and the per-year comparison of a metric's mean. */
module TimedCount {
  import opened Wrappers
  import opened Seqs
  import opened Stats
  import opened Tables
  import opened GroupBy
  import DataLoader

  /** The aggregation string: "mean" and "sum" are themselves, anything else
      counts rows. */
  function ReducerOf(aggregation: string): (red: Reducer)
    ensures red == MeanOf <==> aggregation == "mean"
    ensures red == SumOf <==> aggregation == "sum"
    ensures red == Size <==> aggregation != "mean" && aggregation != "sum"
  {
    if aggregation == "mean" then MeanOf
    else if aggregation == "sum" then SumOf
    else Size
  }

  /** The group-by columns: (time, group) when `groupBy` names a column of
      the table, the time column alone otherwise. */
  function SeriesKeyColumns(time: Column, groupBy: Option<Column>, columns: set<Column>): (cols: seq<Column>)
    ensures groupBy.Some? && groupBy.value in columns ==> cols == [time, groupBy.value]
    ensures !(groupBy.Some? && groupBy.value in columns) ==> cols == [time]
  {
    if groupBy.Some? && groupBy.value in columns then [time, groupBy.value] else [time]
  }

  /** The "no data" guard of create_timed_count. */
  predicate HasSeriesData(t: Table, time: Column, value: Column) {
    time in t.columns && value in t.columns && !IsEmpty(t)
  }

  /** create_timed_count: the aggregated rows fed to the line chart, or None
      for the "no data" figure. */
  function TimedCountData(t: Table, time: Column, value: Column, aggregation: string,
                          groupBy: Option<Column>): (out: Option<seq<Aggregated>>)
    requires ReducerOf(aggregation) != Size ==> IsNumeric(value)
    ensures out.None? <==> !HasSeriesData(t, time, value)
    ensures out.Some? ==> |out.value| == |GroupKeys(t.rows, SeriesKeyColumns(time, groupBy, t.columns))|
  {
    if !HasSeriesData(t, time, value) then None
    else Some(Aggregate(t.rows, SeriesKeyColumns(time, groupBy, t.columns), value, ReducerOf(aggregation)))
  }

  /** One output row per distinct time value, or per distinct (time, group)
      pair when grouped: the keys are distinct and ascending, each is the key
      of some rows, every row with a complete key is represented, and each
      value is that group's mean, sum or size. */
  lemma TimedCountRowsAreGroups(t: Table, time: Column, value: Column, aggregation: string,
                                groupBy: Option<Column>)
    requires ReducerOf(aggregation) != Size ==> IsNumeric(value)
    requires HasSeriesData(t, time, value)
    ensures var cols := SeriesKeyColumns(time, groupBy, t.columns);
      var out := TimedCountData(t, time, value, aggregation, groupBy).value;
      && (forall i, j :: 0 <= i < j < |out| ==> out[i].key != out[j].key && KeyLe(out[i].key, out[j].key))
      && (forall i :: 0 <= i < |out| ==> exists r :: r in t.rows && KeyOf(r, cols) == Some(out[i].key))
      && (forall r :: r in t.rows && KeyOf(r, cols).Some? ==> exists i :: 0 <= i < |out| && out[i].key == KeyOf(r, cols).value)
      && (forall i :: 0 <= i < |out| ==> out[i].value == Reduce(ReducerOf(aggregation), GroupRows(t.rows, cols, out[i].key), value))
  {
    var cols := SeriesKeyColumns(time, groupBy, t.columns);
    var red := ReducerOf(aggregation);
    AggregateRowsAreGroups(t.rows, cols, value, red);
    forall r | r in t.rows && KeyOf(r, cols).Some?
      ensures exists i :: 0 <= i < |Aggregate(t.rows, cols, value, red)| && Aggregate(t.rows, cols, value, red)[i].key == KeyOf(r, cols).value
    {
      AggregateCoversEveryKey(t.rows, cols, value, red, r);
    }
  }

  /** A `groupBy` that is not a column of the table gives the ungrouped series. */
  lemma UnknownGroupFallsBackToTime(t: Table, time: Column, value: Column, aggregation: string, g: Column)
    requires ReducerOf(aggregation) != Size ==> IsNumeric(value)
    requires g !in t.columns
    ensures TimedCountData(t, time, value, aggregation, Some(g)) == TimedCountData(t, time, value, aggregation, None)
  {
  }

  /** Under row counting the counts add up to the rows whose time (and group)
      cells are present. */
  lemma CountsSumToKeyedRows(t: Table, time: Column, value: Column, aggregation: string,
                             groupBy: Option<Column>)
    requires ReducerOf(aggregation) == Size
    requires HasSeriesData(t, time, value)
    ensures Total(TimedCountData(t, time, value, aggregation, groupBy).value)
         == |KeyedRows(t.rows, SeriesKeyColumns(time, groupBy, t.columns))| as real
  {
    SizeCountsSumToKeyedRows(t.rows, SeriesKeyColumns(time, groupBy, t.columns), value);
  }

  // ---------------------------------------------------------------------
  // Yearly comparison
  // ---------------------------------------------------------------------

  /** The rows create_yearly_comparison averages: all of them for an empty
      (or absent) list of years, otherwise those whose YEAR is listed. */
  function ComparedRows(rows: seq<Row>, years: seq<int>): (out: seq<Row>)
    ensures years == [] ==> out == rows
    ensures years != [] ==> forall r :: r in out <==> r in rows && DataLoader.YearIn(years, r)
  {
    if years == [] then rows else Filter(rows, r => DataLoader.YearIn(years, r))
  }

  /** create_yearly_comparison: the mean of `metric` per year, or None for
      the "no data" figure. */
  function YearlyComparison(t: Table, years: seq<int>, metric: NumericColumn): (out: Option<seq<Aggregated>>)
    ensures out.None? <==> Year !in t.columns || metric !in t.columns || IsEmpty(t)
    ensures out.Some? ==> |out.value| == |GroupKeys(ComparedRows(t.rows, years), [Year])|
  {
    if Year !in t.columns || metric !in t.columns || IsEmpty(t) then None
    else Some(Aggregate(ComparedRows(t.rows, years), [Year], metric, MeanOf))
  }

  /** A one-column YEAR key is a listed year's integer. */
  lemma YearKeyOf(r: Row, k: Key)
    requires KeyOf(r, [Year]) == Some(k)
    ensures r.year.Some? && k == [IntValue(r.year.value)]
  {
    assert Cell(r, [Year][0]).Some?;
    assert k[0] == Cell(r, Year).value;
  }

  /** Restricting to listed years does not change the group of a listed year. */
  lemma ComparedGroupIsWholeYear(rows: seq<Row>, years: seq<int>, y: int)
    requires y in years
    ensures GroupRows(ComparedRows(rows, years), [Year], [IntValue(y)]) == GroupRows(rows, [Year], [IntValue(y)])
  {
    var inYear := (x: Row) => KeyOf(x, [Year]) == Some([IntValue(y)]);
    forall x ensures inYear(x) == (DataLoader.YearIn(years, x) && inYear(x)) {
      if inYear(x) {
        YearKeyOf(x, [IntValue(y)]);
      }
    }
    FilterFilter(rows, r => DataLoader.YearIn(years, r), inYear, inYear);
  }

  /** Each bar is one year, listed when a list is given, and its value is the
      mean of `metric` over all rows of that year in the table; no year
      appears twice and the years ascend. */
  lemma YearlyComparisonBarsAreYearMeans(t: Table, years: seq<int>, metric: NumericColumn)
    requires YearlyComparison(t, years, metric).Some?
    ensures var out := YearlyComparison(t, years, metric).value;
      && (forall i :: 0 <= i < |out| ==> |out[i].key| == 1 && out[i].key[0].IntValue?)
      && (forall i :: 0 <= i < |out| ==> years != [] ==> out[i].key[0].i in years)
      && (forall i, j :: 0 <= i < j < |out| ==> out[i].key[0].i < out[j].key[0].i)
      && (forall i :: 0 <= i < |out| ==> out[i].value == Mean(NumericValues(GroupRows(t.rows, [Year], out[i].key), metric)))
  {
    var rows := ComparedRows(t.rows, years);
    var out := YearlyComparison(t, years, metric).value;
    AggregateRowsAreGroups(rows, [Year], metric, MeanOf);
    forall i | 0 <= i < |out|
      ensures |out[i].key| == 1 && out[i].key[0].IntValue?
      ensures years != [] ==> out[i].key[0].i in years
      ensures GroupRows(rows, [Year], out[i].key) == GroupRows(t.rows, [Year], out[i].key)
    {
      var k := out[i].key;
      assert k in GroupKeys(rows, [Year]);
      var r :| r in rows && KeyOf(r, [Year]) == Some(k);
      YearKeyOf(r, k);
      if years != [] {
        ComparedGroupIsWholeYear(t.rows, years, r.year.value);
      }
    }
    forall i, j | 0 <= i < j < |out| ensures out[i].key[0].i < out[j].key[0].i {
      assert out[i].key != out[j].key && KeyLe(out[i].key, out[j].key);
      assert out[i].key == [out[i].key[0]] && out[j].key == [out[j].key[0]];
    }
  }
}
