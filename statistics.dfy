/** The statistics page: the seven indicator cards, the guard in front of the
    histogram, and the per-category split the box plot draws. */
module Statistics {
  import opened Wrappers
  import opened Seqs
  import opened Stats
  import opened Tables

  // ---------------------------------------------------------------------
  // Indicator cards
  // ---------------------------------------------------------------------

  /** The card values; None is a NaN the float() conversion lets through
      (a COVERAGE column with no value present). */
  datatype Cards = Cards(
    nCountries: nat,
    nYears: nat,
    avgCoverage: Option<real>,
    totalRecords: nat,
    nAntigens: nat,
    maxCoverage: Option<real>,
    minCoverage: Option<real>)

  /** min() and max() of the present values; NaN when there are none. */
  function MinOf(vs: seq<real>): (m: Option<real>)
    ensures m.Some? <==> vs != []
    ensures m.Some? ==> m.value in vs && forall v :: v in vs ==> m.value <= v
  {
    if vs == [] then None else Some(Min(vs))
  }

  function MaxOf(vs: seq<real>): (m: Option<real>)
    ensures m.Some? <==> vs != []
    ensures m.Some? ==> m.value in vs && forall v :: v in vs ==> v <= m.value
  {
    if vs == [] then None else Some(Max(vs))
  }

  /** create_statistics_cards. */
  function StatisticsCards(t: Table): (s: Cards)
    ensures IsEmpty(t) ==> s == Cards(0, 0, Some(0.0), 0, 0, Some(0.0), Some(0.0))
    ensures !IsEmpty(t) ==> s.totalRecords == |t.rows|
    ensures !IsEmpty(t) ==> s.nCountries == DistinctOrZero(t, Name) && s.nYears == DistinctOrZero(t, Year)
                            && s.nAntigens == DistinctOrZero(t, Antigen)
    ensures Coverage !in t.columns ==> s.avgCoverage == s.maxCoverage == s.minCoverage == Some(0.0)
    ensures !IsEmpty(t) && Coverage in t.columns ==>
      var vs := NumericValues(t.rows, Coverage);
      s.avgCoverage == Mean(vs) && s.maxCoverage == MaxOf(vs) && s.minCoverage == MinOf(vs)
    ensures s.nCountries <= s.totalRecords && s.nYears <= s.totalRecords && s.nAntigens <= s.totalRecords
  {
    if IsEmpty(t) then Cards(0, 0, Some(0.0), 0, 0, Some(0.0), Some(0.0))
    else
      var vs := NumericValues(t.rows, Coverage);
      var present := Coverage in t.columns;
      Cards(
        DistinctOrZero(t, Name),
        DistinctOrZero(t, Year),
        if present then Mean(vs) else Some(0.0),
        |t.rows|,
        DistinctOrZero(t, Antigen),
        if present then MaxOf(vs) else Some(0.0),
        if present then MinOf(vs) else Some(0.0))
  }

  /** The cards never show a mean outside [min, max]; the three coverage
      cards are NaN together, exactly when a non-empty table has a COVERAGE
      column with no value present. */
  lemma CardsCoverageIsOrdered(t: Table)
    ensures var s := StatisticsCards(t);
      && (s.avgCoverage.Some? <==> s.minCoverage.Some?)
      && (s.avgCoverage.Some? <==> s.maxCoverage.Some?)
      && (s.avgCoverage.None? <==> !IsEmpty(t) && Coverage in t.columns && NumericValues(t.rows, Coverage) == [])
      && (s.avgCoverage.Some? ==> s.minCoverage.value <= s.avgCoverage.value <= s.maxCoverage.value)
  {
    var vs := NumericValues(t.rows, Coverage);
    if !IsEmpty(t) && Coverage in t.columns && vs != [] {
      MeanBetweenMinAndMax(vs);
    }
  }

  /** On a table whose coverages all lie in [0, 100], so do the three cards. */
  lemma CardsCoverageWithinPercent(t: Table)
    requires forall r :: r in t.rows && r.coverage.Some? ==> 0.0 <= r.coverage.value <= 100.0
    ensures var s := StatisticsCards(t);
      && (s.minCoverage.Some? ==> 0.0 <= s.minCoverage.value <= 100.0)
      && (s.maxCoverage.Some? ==> 0.0 <= s.maxCoverage.value <= 100.0)
      && (s.avgCoverage.Some? ==> 0.0 <= s.avgCoverage.value <= 100.0)
  {
    CardsCoverageIsOrdered(t);
  }

  // ---------------------------------------------------------------------
  // Histogram and box plot
  // ---------------------------------------------------------------------

  /** The "no data" guard of the histogram and the box plot. */
  predicate HasData(t: Table, column: Column) {
    column in t.columns && !IsEmpty(t)
  }

  /** create_statistics_histogram: the cells handed to the histogram, or None
      for the "no data" figure. */
  function HistogramValues(t: Table, column: Column): (xs: Option<seq<Option<Value>>>)
    ensures xs.None? <==> column !in t.columns || |t.rows| == 0
    ensures xs.Some? ==> |xs.value| == |t.rows| && forall i :: 0 <= i < |t.rows| ==> xs.value[i] == Cell(t.rows[i], column)
  {
    if HasData(t, column) then Some(Cells(t.rows, column)) else None
  }

  /** One box: the whole column, or one category's values. */
  datatype Box = Overall(values: seq<Option<Value>>) | OfCategory(category: Option<Value>, values: seq<Option<Value>>)

  /** data[group_by].unique(): the categories, NaN included, once each and in
      order of first appearance. */
  function BoxCategories(rows: seq<Row>, g: Column): (cats: seq<Option<Value>>)
    ensures NoDuplicates(cats)
    ensures forall c :: c in cats <==> exists r :: r in rows && Cell(r, g) == c
    ensures forall c :: c in cats ==> c in Cells(rows, g)
    ensures forall i, j :: 0 <= i < j < |cats| ==> FirstIndex(Cells(rows, g), cats[i]) < FirstIndex(Cells(rows, g), cats[j])
  {
    var cells := Cells(rows, g);
    DistinctKeepsFirstAppearanceOrder(cells);
    assert forall c :: c in cells <==> exists r :: r in rows && Cell(r, g) == c by {
      forall c | c in cells ensures exists r :: r in rows && Cell(r, g) == c {
        var i :| 0 <= i < |cells| && cells[i] == c;
        assert rows[i] in rows;
      }
      forall c | exists r :: r in rows && Cell(r, g) == c ensures c in cells {
        var r :| r in rows && Cell(r, g) == c;
        var i :| 0 <= i < |rows| && rows[i] == r;
        assert cells[i] == c;
      }
    }
    Distinct(cells)
  }

  /** data[group_by] == category: pandas equality, so NaN matches no row. */
  predicate InCategory(g: Column, category: Option<Value>, r: Row) {
    category.Some? && Cell(r, g) == category
  }

  /** data[data[group_by] == category][column]. */
  function CategoryValues(rows: seq<Row>, g: Column, category: Option<Value>, column: Column): (vs: seq<Option<Value>>)
    ensures |vs| == |Filter(rows, r => InCategory(g, category, r))|
    ensures forall i :: 0 <= i < |vs| ==> vs[i] == Cell(Filter(rows, r => InCategory(g, category, r))[i], column)
    ensures forall v :: v in vs <==> exists r :: r in rows && InCategory(g, category, r) && Cell(r, column) == v
    ensures category.None? ==> vs == []
  {
    var selected := Filter(rows, r => InCategory(g, category, r));
    if category.None? then
      FilterKeepsNone(rows, r => InCategory(g, category, r));
      Cells(selected, column)
    else
      assert forall v :: v in Cells(selected, column) <==> exists r :: r in selected && Cell(r, column) == v by {
        var cs := Cells(selected, column);
        forall v | v in cs ensures exists r :: r in selected && Cell(r, column) == v {
          var i :| 0 <= i < |cs| && cs[i] == v;
          assert selected[i] in selected;
        }
        forall v | exists r :: r in selected && Cell(r, column) == v ensures v in cs {
          var r :| r in selected && Cell(r, column) == v;
          var i :| 0 <= i < |selected| && selected[i] == r;
          assert cs[i] == v;
        }
      }
      Cells(selected, column)
  }

  /** create_statistics_boxplot: None for the "no data" figure; otherwise one
      box per category of `groupBy`, in order of first appearance, when that
      column exists, and a single box of the whole column when it does not. */
  method StatisticsBoxplot(t: Table, column: Column, groupBy: Option<Column>) returns (boxes: Option<seq<Box>>)
    ensures boxes.None? <==> !HasData(t, column)
    ensures boxes.Some? && groupBy.Some? && groupBy.value in t.columns ==>
      var cats := BoxCategories(t.rows, groupBy.value);
      && |boxes.value| == |cats|
      && forall i :: 0 <= i < |cats| ==>
           boxes.value[i] == OfCategory(cats[i], CategoryValues(t.rows, groupBy.value, cats[i], column))
    ensures boxes.Some? && !(groupBy.Some? && groupBy.value in t.columns) ==> boxes.value == [Overall(Cells(t.rows, column))]
  {
    if !HasData(t, column) {
      return None;
    }
    if groupBy.Some? && groupBy.value in t.columns {
      var g := groupBy.value;
      var cats := BoxCategories(t.rows, g);
      var traces: seq<Box> := [];
      for i := 0 to |cats|
        invariant |traces| == i
        invariant forall j :: 0 <= j < i ==> traces[j] == OfCategory(cats[j], CategoryValues(t.rows, g, cats[j], column))
      {
        traces := traces + [OfCategory(cats[i], CategoryValues(t.rows, g, cats[i], column))];
      }
      boxes := Some(traces);
    } else {
      boxes := Some([Overall(Cells(t.rows, column))]);
    }
  }

  /** The total number of values in the boxes of categories cats (a box holds
      one value per row of its category). */
  function BoxSizes(rows: seq<Row>, g: Column, cats: seq<Option<Value>>): nat {
    if cats == [] then 0
    else |Filter(rows, r => InCategory(g, cats[0], r))| + BoxSizes(rows, g, cats[1..])
  }

  lemma {:induction false} BoxSizesOfNoRows(g: Column, cats: seq<Option<Value>>)
    ensures BoxSizes([], g, cats) == 0
  {
    if cats != [] {
      BoxSizesOfNoRows(g, cats[1..]);
    }
  }

  lemma {:induction false} BoxSizesCons(r: Row, rest: seq<Row>, g: Column, cats: seq<Option<Value>>)
    requires NoDuplicates(cats)
    ensures BoxSizes([r] + rest, g, cats)
         == (if Cell(r, g).Some? && Cell(r, g) in cats then 1 else 0) + BoxSizes(rest, g, cats)
  {
    if cats != [] {
      var c := Cell(r, g);
      var p := (x: Row) => InCategory(g, cats[0], x);
      assert ([r] + rest)[1..] == rest;
      assert Filter([r] + rest, p) == (if p(r) then [r] else []) + Filter(rest, p);
      assert NoDuplicates(cats[1..]);
      BoxSizesCons(r, rest, g, cats[1..]);
      assert c in cats <==> c == cats[0] || c in cats[1..];
      if p(r) {
        assert cats[0] !in cats[1..];
      }
    }
  }

  lemma {:induction false} BoxSizesCountRowsIn(rows: seq<Row>, g: Column, cats: seq<Option<Value>>)
    requires NoDuplicates(cats)
    ensures BoxSizes(rows, g, cats) == |Filter(rows, r => Cell(r, g).Some? && Cell(r, g) in cats)|
  {
    if rows == [] {
      BoxSizesOfNoRows(g, cats);
    } else {
      assert rows == [rows[0]] + rows[1..];
      BoxSizesCons(rows[0], rows[1..], g, cats);
      BoxSizesCountRowsIn(rows[1..], g, cats);
    }
  }

  /** The category boxes split the rows whose category is present: every such
      row lands in exactly one box, and rows with a NaN category in none. */
  lemma BoxesPartitionCategorisedRows(rows: seq<Row>, g: Column)
    ensures BoxSizes(rows, g, BoxCategories(rows, g)) == |Filter(rows, r => Cell(r, g).Some?)|
  {
    var cats := BoxCategories(rows, g);
    BoxSizesCountRowsIn(rows, g, cats);
    forall r | r in rows ensures (Cell(r, g).Some? && Cell(r, g) in cats) == Cell(r, g).Some? {
    }
    FilterCongruent(rows, r => Cell(r, g).Some? && Cell(r, g) in cats, r => Cell(r, g).Some?);
  }
}
