/** The hierarchical charts: the missing-column guard shared by the tree map,
    the sunburst and the grouped bar chart, and the grouped bar chart's
    two-level aggregation with its top categories. */
module TreeMap {
  import opened Wrappers
  import opened Seqs
  import opened Stats
  import opened Tables
  import opened GroupBy

  /** Why no chart is drawn: the listed columns are missing, or the table is
      empty. */
  datatype NoChart = MissingColumns(columns: seq<Column>) | NoData

  /** The guard: the required columns the table lacks, in the order
      required, else "no data" for an empty table. */
  function ChartGuard(t: Table, required: seq<Column>): (g: Option<NoChart>)
    ensures g.None? <==> (forall c :: c in required ==> c in t.columns) && !IsEmpty(t)
    ensures g.Some? && g.value.MissingColumns? ==>
      g.value.columns != [] && forall c :: c in g.value.columns <==> c in required && c !in t.columns
    ensures g == Some(NoData) <==> (forall c :: c in required ==> c in t.columns) && IsEmpty(t)
  {
    var missing := MissingColumnsOf(required, t.columns);
    if missing != [] then
      assert missing[0] in missing;
      Some(MissingColumns(missing))
    else if IsEmpty(t) then Some(NoData)
    else None
  }

  /** The missing columns are listed exactly in the order the caller named
      them: dropping the present ones from `path + [values]`. */
  lemma MissingColumnsKeepRequiredOrder(t: Table, path: seq<Column>, values: Column)
    requires ChartGuard(t, path + [values]).Some? && ChartGuard(t, path + [values]).value.MissingColumns?
    ensures ChartGuard(t, path + [values]).value.columns == Filter(path, c => c !in t.columns) + (if values in t.columns then [] else [values])
    ensures IsSubsequence(ChartGuard(t, path + [values]).value.columns, path + [values])
  {
    FilterConcat(path, [values], c => c !in t.columns);
    FilterIsSubsequence(path + [values], c => c !in t.columns);
  }

  // ---------------------------------------------------------------------
  // create_hierarchical_bar
  // ---------------------------------------------------------------------

  /** The category of a grouped (category, subcategory) row. */
  function CategoryOf(a: Aggregated): Option<Value> {
    if |a.key| > 0 then Some(a.key[0]) else None
  }

  /** The present means of the subcategories of category c, in grouped order. */
  function SubcategoryMeans(grouped: seq<Aggregated>, c: Value): seq<real> {
    if grouped == [] then []
    else
      var rest := SubcategoryMeans(grouped[1..], c);
      if CategoryOf(grouped[0]) == Some(c) && grouped[0].value.Some? then [grouped[0].value.value] + rest else rest
  }

  /** They are exactly the numeric means of c's (category, subcategory) rows. */
  lemma {:induction false} SubcategoryMeansAreNumericMeans(grouped: seq<Aggregated>, c: Value)
    ensures forall m :: m in SubcategoryMeans(grouped, c) ==> exists a :: a in grouped && CategoryOf(a) == Some(c) && a.value == Some(m)
    ensures forall a :: a in grouped && CategoryOf(a) == Some(c) && a.value.Some? ==> a.value.value in SubcategoryMeans(grouped, c)
  {
    if grouped != [] {
      SubcategoryMeansAreNumericMeans(grouped[1..], c);
      assert forall a :: a in grouped <==> a == grouped[0] || a in grouped[1..];
    }
  }

  /** A category's score: the mean of its subcategory means (NaN when none
      is a number), not the mean over its rows. */
  function CategoryScore(grouped: seq<Aggregated>, c: Value): (s: Option<real>)
    ensures s.Some? <==> SubcategoryMeans(grouped, c) != []
  {
    Mean(SubcategoryMeans(grouped, c))
  }

  /** A category has a numeric score exactly when one of its subcategory
      means is a number. */
  lemma CategoryScoreIsNumericIff(grouped: seq<Aggregated>, c: Value)
    ensures CategoryScore(grouped, c).Some? <==> exists a :: a in grouped && CategoryOf(a) == Some(c) && a.value.Some?
  {
    var ms := SubcategoryMeans(grouped, c);
    SubcategoryMeansAreNumericMeans(grouped, c);
    if ms != [] {
      assert ms[0] in ms;
    }
    if exists a :: a in grouped && CategoryOf(a) == Some(c) && a.value.Some? {
      var a :| a in grouped && CategoryOf(a) == Some(c) && a.value.Some?;
      assert a.value.value in ms;
    }
  }

  /** The categories of the grouped rows, once each, in key order. */
  function GroupedCategories(grouped: seq<Aggregated>): (cats: seq<Value>)
    ensures NoDuplicates(cats)
    ensures forall c :: c in cats <==> Some(c) in Map(grouped, CategoryOf)
  {
    SortedUnique(Map(grouped, CategoryOf), ValueLe)
  }

  /** groupby(category)[value].mean() over the grouped rows: one entry per
      category of the grouped rows, keyed by that category. */
  function CategoryScores(grouped: seq<Aggregated>): (scores: seq<Aggregated>)
    ensures |scores| == |GroupedCategories(grouped)|
    ensures forall i :: 0 <= i < |scores| ==>
      scores[i] == Aggregated([GroupedCategories(grouped)[i]], CategoryScore(grouped, GroupedCategories(grouped)[i]))
  {
    ScoresOf(grouped, GroupedCategories(grouped))
  }

  function ScoresOf(grouped: seq<Aggregated>, cats: seq<Value>): (scores: seq<Aggregated>)
    ensures |scores| == |cats|
    ensures forall i :: 0 <= i < |scores| ==> scores[i] == Aggregated([cats[i]], CategoryScore(grouped, cats[i]))
  {
    if cats == [] then [] else [Aggregated([cats[0]], CategoryScore(grouped, cats[0]))] + ScoresOf(grouped, cats[1..])
  }

  /** The category scores have distinct keys, each a category of the
      grouped rows. */
  lemma CategoryScoresAreKeyedByCategory(grouped: seq<Aggregated>)
    ensures forall s :: s in CategoryScores(grouped) ==>
      |s.key| == 1 && Some(s.key[0]) in Map(grouped, CategoryOf) && s.value == CategoryScore(grouped, s.key[0])
    ensures NoDuplicates(Map(CategoryScores(grouped), (s: Aggregated) => s.key))
  {
    var cats := GroupedCategories(grouped);
    var scores := CategoryScores(grouped);
    var key := (s: Aggregated) => s.key;
    forall s | s in scores ensures |s.key| == 1 && Some(s.key[0]) in Map(grouped, CategoryOf) && s.value == CategoryScore(grouped, s.key[0]) {
      var i :| 0 <= i < |scores| && scores[i] == s;
      assert cats[i] in cats;
    }
    forall i, j | 0 <= i < j < |scores| ensures Map(scores, key)[i] != Map(scores, key)[j] {
      assert cats[i] != cats[j];
    }
  }

  /** Series.nlargest(n): nothing for n <= 0; otherwise the first n of the
      scores ranked largest first, NaN entries after every number, so that
      NaN entries fill the selection when fewer than n scores are numbers. */
  function NLargest(scores: seq<Aggregated>, n: int): (top: seq<Aggregated>)
    ensures n <= 0 ==> top == []
    ensures n > 0 ==> top <= Ranked(scores)
    ensures |top| == if n <= 0 then 0 else if n <= |scores| then n else |scores|
  {
    if n <= 0 then []
    else
      assert |Ranked(scores)| == |multiset(Ranked(scores))| == |scores|;
      Head(Ranked(scores), n)
  }

  /** The categories kept: those of the n largest scores. */
  function TopCategories(grouped: seq<Aggregated>, n: int): seq<Value> {
    Map(NLargest(CategoryScores(grouped), n), (s: Aggregated) => if |s.key| > 0 then s.key[0] else TextValue([]))
  }

  /** create_hierarchical_bar: the (category, subcategory) means of the top
      categories, or why no chart is drawn. */
  function HierarchicalBar(t: Table, category: Column, subcategory: Column, value: NumericColumn, topN: int): (r: Result<seq<Aggregated>, NoChart>)
    ensures r.Err? <==> ChartGuard(t, [category, subcategory, value]).Some?
    ensures r.Err? ==> r.error == ChartGuard(t, [category, subcategory, value]).value
    ensures r.Ok? ==> IsSubsequence(r.value, Aggregate(t.rows, [category, subcategory], value, MeanOf))
  {
    var guard := ChartGuard(t, [category, subcategory, value]);
    if guard.Some? then Err(guard.value)
    else
      var grouped := Aggregate(t.rows, [category, subcategory], value, MeanOf);
      var top := TopCategories(grouped, topN);
      FilterIsSubsequence(grouped, (a: Aggregated) => CategoryOf(a).Some? && CategoryOf(a).value in top);
      Ok(Filter(grouped, (a: Aggregated) => CategoryOf(a).Some? && CategoryOf(a).value in top))
  }

  /** The bars are exactly the grouped rows whose category is a top one; each
      is the mean of `value` over the rows of its (category, subcategory). */
  lemma BarsAreTopCategoryGroups(t: Table, category: Column, subcategory: Column, value: NumericColumn, topN: int)
    requires HierarchicalBar(t, category, subcategory, value, topN).Ok?
    ensures var grouped := Aggregate(t.rows, [category, subcategory], value, MeanOf);
      var bars := HierarchicalBar(t, category, subcategory, value, topN).value;
      && (forall a :: a in bars <==> a in grouped && a.key[0] in TopCategories(grouped, topN))
      && (forall a :: a in bars ==> |a.key| == 2 && a.value == Mean(NumericValues(GroupRows(t.rows, [category, subcategory], a.key), value)))
  {
    var cols := [category, subcategory];
    var grouped := Aggregate(t.rows, cols, value, MeanOf);
    AggregateRowsAreGroups(t.rows, cols, value, MeanOf);
    forall a | a in grouped
      ensures |a.key| == 2 && a.value == Mean(NumericValues(GroupRows(t.rows, cols, a.key), value))
    {
      var i :| 0 <= i < |grouped| && grouped[i] == a;
      assert a.key in GroupKeys(t.rows, cols);
    }
  }

  /** The selection takes each score of the list at most as often as the
      list holds it. */
  lemma NLargestIsDrawnFromScores(scores: seq<Aggregated>, n: int)
    ensures multiset(NLargest(scores, n)) <= multiset(scores)
  {
    if n > 0 {
      var ranked := Ranked(scores);
      var top := NLargest(scores, n);
      assert ranked == top + ranked[|top|..];
      assert multiset(ranked) == multiset(top) + multiset(ranked[|top|..]);
    }
  }

  /** Selecting keeps keys distinct. */
  lemma NLargestKeysAreDistinct(scores: seq<Aggregated>, n: int)
    requires NoDuplicates(Map(scores, (s: Aggregated) => s.key))
    ensures NoDuplicates(Map(NLargest(scores, n), (s: Aggregated) => s.key))
  {
    if n > 0 {
      var key := (s: Aggregated) => s.key;
      var ranked := Ranked(scores);
      var top := NLargest(scores, n);
      MapSortByNoDuplicates(scores, ValueRankLe, key);
      assert Map(ranked, key) == Map(SortBy(scores, ValueRankLe), key);
      forall i, j | 0 <= i < j < |top| ensures Map(top, key)[i] != Map(top, key)[j] {
        assert top[i] == ranked[i] && top[j] == ranked[j];
        assert Map(ranked, key)[i] != Map(ranked, key)[j];
      }
    }
  }

  /** The selected scores come largest first, any NaN after every number. */
  lemma NLargestDescend(scores: seq<Aggregated>, n: int)
    ensures var top := NLargest(scores, n);
      forall i, j :: 0 <= i < j < |top| && top[j].value.Some? ==>
        top[i].value.Some? && top[j].value.value <= top[i].value.value
  {
    if n > 0 {
      var ranked := Ranked(scores);
      var top := NLargest(scores, n);
      forall i, j | 0 <= i < j < |top| && top[j].value.Some?
        ensures top[i].value.Some? && top[j].value.value <= top[i].value.value
      {
        assert top[i] == ranked[i] && top[j] == ranked[j];
        assert ValueRankLe(ranked[i], ranked[j]);
      }
    }
  }

  /** min(topN, number of categories) categories are kept, each once, each
      scored by the mean of its subcategory means, by non-increasing score
      with NaN-scored categories last. */
  lemma TopCategoriesAreRanked(grouped: seq<Aggregated>, n: int)
    ensures var top := NLargest(CategoryScores(grouped), n);
      var cats := |GroupedCategories(grouped)|;
      && |TopCategories(grouped, n)| == (if n <= 0 then 0 else if n <= cats then n else cats)
      && NoDuplicates(TopCategories(grouped, n))
      && (forall s :: s in top ==> |s.key| == 1 && s.value == CategoryScore(grouped, s.key[0]))
      && (forall i, j :: 0 <= i < j < |top| && top[j].value.Some? ==>
            top[i].value.Some? && top[j].value.value <= top[i].value.value)
  {
    var scores := CategoryScores(grouped);
    var top := NLargest(scores, n);
    CategoryScoresAreKeyedByCategory(grouped);
    NLargestIsDrawnFromScores(scores, n);
    NLargestKeysAreDistinct(scores, n);
    NLargestDescend(scores, n);
    forall s | s in top ensures s in scores {
      assert s in multiset(top);
    }
    SingleKeysAreDistinctValues(top);
  }

  /** Distinct one-value keys have distinct values. */
  lemma SingleKeysAreDistinctValues(top: seq<Aggregated>)
    requires forall s :: s in top ==> |s.key| == 1
    requires NoDuplicates(Map(top, (s: Aggregated) => s.key))
    ensures NoDuplicates(Map(top, (s: Aggregated) => if |s.key| > 0 then s.key[0] else TextValue([])))
  {
    var key := (s: Aggregated) => s.key;
    var cat := (s: Aggregated) => if |s.key| > 0 then s.key[0] else TextValue([]);
    forall i, j | 0 <= i < j < |top| ensures Map(top, cat)[i] != Map(top, cat)[j] {
      assert Map(top, key)[i] != Map(top, key)[j];
      assert top[i] in top && top[j] in top;
      assert top[i].key == [top[i].key[0]] && top[j].key == [top[j].key[0]];
    }
  }

  /** Whatever nlargest leaves out is NaN or no larger than what it keeps. */
  lemma NLargestOutranksRest(scores: seq<Aggregated>, n: int, kept: Aggregated, dropped: Aggregated)
    requires kept in NLargest(scores, n)
    requires dropped in scores && dropped !in NLargest(scores, n)
    ensures dropped.value.Some? ==> kept.value.Some? && dropped.value.value <= kept.value.value
  {
    var ranked := Ranked(scores);
    assert dropped in multiset(ranked);
    PrefixOutranksRest(ranked, NLargest(scores, n), ValueRankLe, kept, dropped);
  }

  /** A category left out, if it has a numeric score, scores no higher than
      every kept category. */
  lemma LeftOutCategoriesScoreLower(grouped: seq<Aggregated>, n: int, kept: Aggregated, dropped: Aggregated)
    requires kept in NLargest(CategoryScores(grouped), n)
    requires dropped in CategoryScores(grouped) && dropped !in NLargest(CategoryScores(grouped), n)
    ensures dropped.value.Some? ==> kept.value.Some? && dropped.value.value <= kept.value.value
  {
    NLargestOutranksRest(CategoryScores(grouped), n, kept, dropped);
  }
}
