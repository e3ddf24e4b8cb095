/** The pie chart: how often each value of a column occurs, most frequent
    first, cut to `maxCategories` slices when there are more. */
module PieChart {
  import opened Wrappers
  import opened Seqs
  import opened Tables
  import opened GroupBy

  /** One slice: a value of the column and how many rows hold it. */
  datatype Slice = Slice(value: Value, count: nat)

  /** The rows whose cell in column c is v. */
  function Occurrences(rows: seq<Row>, c: Column, v: Value): seq<Row> {
    Filter(rows, r => Cell(r, c) == Some(v))
  }

  /** A one-column group is exactly the rows holding that value. */
  lemma GroupOfOneColumn(rows: seq<Row>, c: Column, v: Value)
    ensures GroupRows(rows, [c], [v]) == Occurrences(rows, c, v)
  {
    forall r ensures (KeyOf(r, [c]) == Some([v])) == (Cell(r, c) == Some(v)) {
      if Cell(r, c) == Some(v) {
        assert KeyOf(r, [c]).Some?;
        assert KeyOf(r, [c]).value == [v];
      }
    }
    FilterCongruent(rows, r => KeyOf(r, [c]) == Some([v]), r => Cell(r, c) == Some(v));
  }

  /** Slices in value order, one per group of column c. */
  function SlicesOf(rows: seq<Row>, c: Column, ks: seq<Key>): (slices: seq<Slice>)
    requires forall k :: k in ks ==> |k| == 1
    ensures |slices| == |ks|
    ensures forall i :: 0 <= i < |ks| ==> slices[i] == Slice(ks[i][0], |GroupRows(rows, [c], ks[i])|)
  {
    if ks == [] then [] else [Slice(ks[0][0], |GroupRows(rows, [c], ks[0])|)] + SlicesOf(rows, c, ks[1..])
  }

  /** The order of value_counts(): larger counts first. */
  predicate CountLe(a: Slice, b: Slice) {
    a.count >= b.count
  }

  /** data[column].value_counts(): each distinct present value with its
      number of occurrences, by decreasing count. */
  function ValueCounts(rows: seq<Row>, c: Column): (slices: seq<Slice>)
    ensures SortedBy(slices, CountLe)
    ensures multiset(slices) == multiset(SlicesOf(rows, c, GroupKeys(rows, [c])))
  {
    assert TotalPreorder(CountLe);
    SortByIsSorted(SlicesOf(rows, c, GroupKeys(rows, [c])), CountLe);
    SortBy(SlicesOf(rows, c, GroupKeys(rows, [c])), CountLe)
  }

  /** Sorting only rearranges the slices. */
  lemma SliceIsOfAGroup(rows: seq<Row>, c: Column, s: Slice)
    requires s in ValueCounts(rows, c)
    ensures exists i :: 0 <= i < |GroupKeys(rows, [c])| && s == Slice(GroupKeys(rows, [c])[i][0], |GroupRows(rows, [c], GroupKeys(rows, [c])[i])|)
  {
    var unsorted := SlicesOf(rows, c, GroupKeys(rows, [c]));
    assert s in multiset(ValueCounts(rows, c));
    assert s in unsorted;
  }

  /** Each slice counts the occurrences of its value, and that value occurs. */
  lemma SliceCountsOccurrences(rows: seq<Row>, c: Column, s: Slice)
    requires s in ValueCounts(rows, c)
    ensures s.count == |Occurrences(rows, c, s.value)| && s.count > 0
  {
    var ks := GroupKeys(rows, [c]);
    SliceIsOfAGroup(rows, c, s);
    var i :| 0 <= i < |ks| && s == Slice(ks[i][0], |GroupRows(rows, [c], ks[i])|);
    assert ks[i] in ks;
    GroupOfOneKey(rows, c, ks[i]);
  }

  /** The group of a one-column key is non-empty and holds exactly the
      occurrences of its value. */
  lemma GroupOfOneKey(rows: seq<Row>, c: Column, k: Key)
    requires k in GroupKeys(rows, [c])
    ensures |k| == 1 && GroupRows(rows, [c], k) == Occurrences(rows, c, k[0])
    ensures |GroupRows(rows, [c], k)| > 0
  {
    GroupsAreNonEmpty(rows, [c]);
    assert k == [k[0]];
    GroupOfOneColumn(rows, c, k[0]);
  }

  /** Every present value of the column has a slice. */
  lemma EveryValueHasASlice(rows: seq<Row>, c: Column, r: Row)
    requires r in rows && Cell(r, c).Some?
    ensures exists s :: s in ValueCounts(rows, c) && s.value == Cell(r, c).value
  {
    var ks := GroupKeys(rows, [c]);
    var unsorted := SlicesOf(rows, c, ks);
    var v := Cell(r, c).value;
    assert Cell(r, [c][0]).Some?;
    var k := KeyOf(r, [c]).value;
    assert |k| == 1 && k[0] == v;
    assert k == [v];
    assert k in ks;
    var i :| 0 <= i < |ks| && ks[i] == k;
    assert unsorted[i].value == v;
    assert unsorted[i] in multiset(unsorted);
    assert unsorted[i] in ValueCounts(rows, c);
  }

  /** No value has two slices. */
  lemma SliceValuesAreDistinct(rows: seq<Row>, c: Column)
    ensures NoDuplicates(Map(ValueCounts(rows, c), (s: Slice) => s.value))
  {
    var ks := GroupKeys(rows, [c]);
    var unsorted := SlicesOf(rows, c, ks);
    var value := (s: Slice) => s.value;
    forall i, j | 0 <= i < j < |unsorted| ensures Map(unsorted, value)[i] != Map(unsorted, value)[j] {
      assert ks[i] == [ks[i][0]] && ks[j] == [ks[j][0]];
    }
    MapSortByNoDuplicates(unsorted, CountLe, value);
  }

  /** value_counts() lists each present value once, with its number of
      occurrences, and nothing else. */
  lemma ValueCountsAreOccurrenceCounts(rows: seq<Row>, c: Column)
    ensures forall s :: s in ValueCounts(rows, c) ==> s.count == |Occurrences(rows, c, s.value)| && s.count > 0
    ensures forall r :: r in rows && Cell(r, c).Some? ==> exists s :: s in ValueCounts(rows, c) && s.value == Cell(r, c).value
    ensures NoDuplicates(Map(ValueCounts(rows, c), (s: Slice) => s.value))
  {
    forall s | s in ValueCounts(rows, c) ensures s.count == |Occurrences(rows, c, s.value)| && s.count > 0 {
      SliceCountsOccurrences(rows, c, s);
    }
    forall r | r in rows && Cell(r, c).Some? ensures exists s :: s in ValueCounts(rows, c) && s.value == Cell(r, c).value {
      EveryValueHasASlice(rows, c, r);
    }
    SliceValuesAreDistinct(rows, c);
  }

  /** The "no data" guard of create_pie_chart. */
  predicate HasPieData(t: Table, c: Column) {
    c in t.columns && !IsEmpty(t)
  }

  /** create_pie_chart: the slices drawn, or None for the "no data" figure. */
  function PieChartData(t: Table, c: Column, maxCategories: int): (slices: Option<seq<Slice>>)
    ensures slices.None? <==> !HasPieData(t, c)
    ensures slices.Some? ==> slices.value <= ValueCounts(t.rows, c)
    ensures slices.Some? && maxCategories >= 0 ==> |slices.value| <= maxCategories
    ensures slices.Some? && |ValueCounts(t.rows, c)| <= maxCategories ==> slices.value == ValueCounts(t.rows, c)
  {
    if !HasPieData(t, c) then None
    else
      var counts := ValueCounts(t.rows, c);
      Some(if |counts| > maxCategories then Head(counts, maxCategories) else counts)
  }

  /** The truncation only when there are too many slices is head() itself. */
  lemma TruncationIsHead(t: Table, c: Column, maxCategories: int)
    requires HasPieData(t, c)
    ensures PieChartData(t, c, maxCategories).value == Head(ValueCounts(t.rows, c), maxCategories)
  {
  }

  /** Slices come by non-increasing count, and every value left out of the
      chart occurs no more often than any value shown. */
  lemma SlicesAreTheMostFrequent(t: Table, c: Column, maxCategories: int, kept: Slice, dropped: Slice)
    requires HasPieData(t, c)
    requires kept in PieChartData(t, c, maxCategories).value
    requires dropped in ValueCounts(t.rows, c) && dropped !in PieChartData(t, c, maxCategories).value
    ensures dropped.count <= kept.count
  {
    PrefixOutranksRest(ValueCounts(t.rows, c), PieChartData(t, c, maxCategories).value, CountLe, kept, dropped);
  }

  lemma {:induction false} SlicesOfCountGroups(rows: seq<Row>, c: Column, ks: seq<Key>)
    requires forall k :: k in ks ==> |k| == 1
    ensures SumBy(SlicesOf(rows, c, ks), (s: Slice) => s.count as int) == GroupSizes(rows, [c], ks)
  {
    if ks != [] {
      SlicesOfCountGroups(rows, c, ks[1..]);
      assert ks[0] == [ks[0][0]];
    }
  }

  /** Without truncation the counts add up to the number of present cells. */
  lemma CountsSumToPresentCells(t: Table, c: Column, maxCategories: int)
    requires HasPieData(t, c) && |ValueCounts(t.rows, c)| <= maxCategories
    ensures SumBy(PieChartData(t, c, maxCategories).value, (s: Slice) => s.count as int)
         == |Filter(t.rows, r => Cell(r, c).Some?)|
  {
    var ks := GroupKeys(t.rows, [c]);
    var count := (s: Slice) => s.count as int;
    SumBySortBy(SlicesOf(t.rows, c, ks), CountLe, count);
    SlicesOfCountGroups(t.rows, c, ks);
    SizesSumToKeyedRows(t.rows, [c]);
    forall r ensures KeyOf(r, [c]).Some? == Cell(r, c).Some? {
      assert Cell(r, [c][0]) == Cell(r, c);
    }
    FilterCongruent(t.rows, r => KeyOf(r, [c]).Some?, r => Cell(r, c).Some?);
  }
}
