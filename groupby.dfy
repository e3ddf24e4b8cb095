/** pandas groupby over one or more key columns, reduced by mean, sum or
    size. A row with a missing key cell belongs to no group (dropna=True) and
    the groups come out sorted by key (sort=True). */
module GroupBy {
  import opened Wrappers
  import opened Seqs
  import opened Stats
  import opened Tables

  /** The values of the key columns of one group, in key-column order. */
  type Key = seq<Value>

  /** The key of row r under key columns cols; None when a key cell is missing. */
  function KeyOf(r: Row, cols: seq<Column>): (k: Option<Key>)
    ensures k.Some? ==> |k.value| == |cols|
    ensures k.Some? <==> forall i :: 0 <= i < |cols| ==> Cell(r, cols[i]).Some?
    ensures k.Some? ==> forall i :: 0 <= i < |cols| ==> k.value[i] == Cell(r, cols[i]).value
  {
    if cols == [] then Some([])
    else
      var rest := KeyOf(r, cols[1..]);
      assert forall i :: 1 <= i < |cols| ==> cols[i] == cols[1..][i - 1];
      if Cell(r, cols[0]).Some? && rest.Some? then Some([Cell(r, cols[0]).value] + rest.value) else None
  }

  function Keys(rows: seq<Row>, cols: seq<Column>): seq<Option<Key>> {
    seq(|rows|, i requires 0 <= i < |rows| => KeyOf(rows[i], cols))
  }

  /** The rows of group k, in their original order. */
  function GroupRows(rows: seq<Row>, cols: seq<Column>, k: Key): seq<Row> {
    Filter(rows, r => KeyOf(r, cols) == Some(k))
  }

  /** The rows that belong to some group. */
  function KeyedRows(rows: seq<Row>, cols: seq<Column>): seq<Row> {
    Filter(rows, r => KeyOf(r, cols).Some?)
  }

  /** The keys of the groups: each key some row has, once, in ascending order. */
  function GroupKeys(rows: seq<Row>, cols: seq<Column>): (ks: seq<Key>)
    ensures NoDuplicates(ks)
    ensures SortedBy(ks, KeyLe)
    ensures forall k :: k in ks <==> exists r :: r in rows && KeyOf(r, cols) == Some(k)
    ensures forall k :: k in ks ==> |k| == |cols|
  {
    var keys := Keys(rows, cols);
    KeyLeIsTotalPreorder();
    SortByIsSorted(Distinct(Present(keys)), KeyLe);
    assert forall k :: Some(k) in keys <==> exists r :: r in rows && KeyOf(r, cols) == Some(k) by {
      forall k | Some(k) in keys ensures exists r :: r in rows && KeyOf(r, cols) == Some(k) {
        var i :| 0 <= i < |keys| && keys[i] == Some(k);
        assert rows[i] in rows;
      }
      forall k | exists r :: r in rows && KeyOf(r, cols) == Some(k) ensures Some(k) in keys {
        var r :| r in rows && KeyOf(r, cols) == Some(k);
        var i :| 0 <= i < |rows| && rows[i] == r;
        assert keys[i] == Some(k);
      }
    }
    SortedUnique(keys, KeyLe)
  }

  /** Every group is non-empty, and every row with a key lies in its group. */
  lemma GroupsAreNonEmpty(rows: seq<Row>, cols: seq<Column>)
    ensures forall k :: k in GroupKeys(rows, cols) ==> GroupRows(rows, cols, k) != []
    ensures forall r :: r in rows && KeyOf(r, cols).Some? ==>
      KeyOf(r, cols).value in GroupKeys(rows, cols) && r in GroupRows(rows, cols, KeyOf(r, cols).value)
  {
    forall k | k in GroupKeys(rows, cols) ensures GroupRows(rows, cols, k) != [] {
      var r :| r in rows && KeyOf(r, cols) == Some(k);
      assert r in GroupRows(rows, cols, k);
    }
  }

  datatype Reducer = MeanOf | SumOf | Size

  /** One group's reduced value: the mean (NaN when no value is present), the
      sum (0 when none is) or the number of rows. */
  function Reduce(red: Reducer, g: seq<Row>, value: Column): Option<real>
    requires red != Size ==> IsNumeric(value)
  {
    match red
    case MeanOf => Mean(NumericValues(g, value))
    case SumOf => Some(Sum(NumericValues(g, value)))
    case Size => Some(|g| as real)
  }

  /** One output row of groupby(...).agg().reset_index(). */
  datatype Aggregated = Aggregated(key: Key, value: Option<real>)

  /** groupby(cols)[value].mean() / .sum() / .size(), one row per group in key order. */
  function Aggregate(rows: seq<Row>, cols: seq<Column>, value: Column, red: Reducer): (out: seq<Aggregated>)
    requires red != Size ==> IsNumeric(value)
    ensures |out| == |GroupKeys(rows, cols)|
    ensures forall i :: 0 <= i < |out| ==> out[i].key == GroupKeys(rows, cols)[i]
  {
    var ks := GroupKeys(rows, cols);
    seq(|ks|, i requires 0 <= i < |ks| => Aggregated(ks[i], Reduce(red, GroupRows(rows, cols, ks[i]), value)))
  }

  /** The aggregated rows have distinct keys in ascending order; each is the
      key of a non-empty group and holds that group's reduction. */
  lemma AggregateRowsAreGroups(rows: seq<Row>, cols: seq<Column>, value: Column, red: Reducer)
    requires red != Size ==> IsNumeric(value)
    ensures var out := Aggregate(rows, cols, value, red);
      && (forall i, j :: 0 <= i < j < |out| ==> out[i].key != out[j].key && KeyLe(out[i].key, out[j].key))
      && (forall i :: 0 <= i < |out| ==> GroupRows(rows, cols, out[i].key) != [])
      && (forall i :: 0 <= i < |out| ==> out[i].value == Reduce(red, GroupRows(rows, cols, out[i].key), value))
  {
    GroupsAreNonEmpty(rows, cols);
  }

  /** Every row with a complete key is represented by an aggregated row. */
  lemma AggregateCoversEveryKey(rows: seq<Row>, cols: seq<Column>, value: Column, red: Reducer, r: Row)
    requires red != Size ==> IsNumeric(value)
    requires r in rows && KeyOf(r, cols).Some?
    ensures exists i :: 0 <= i < |Aggregate(rows, cols, value, red)| && Aggregate(rows, cols, value, red)[i].key == KeyOf(r, cols).value
  {
    var ks := GroupKeys(rows, cols);
    var i :| 0 <= i < |ks| && ks[i] == KeyOf(r, cols).value;
    assert Aggregate(rows, cols, value, red)[i].key == KeyOf(r, cols).value;
  }

  // ---------------------------------------------------------------------
  // Group sizes
  // ---------------------------------------------------------------------

  /** The total size of the groups with keys ks. */
  function GroupSizes(rows: seq<Row>, cols: seq<Column>, ks: seq<Key>): nat {
    if ks == [] then 0 else |GroupRows(rows, cols, ks[0])| + GroupSizes(rows, cols, ks[1..])
  }

  lemma {:induction false} GroupSizesOfNoRows(cols: seq<Column>, ks: seq<Key>)
    ensures GroupSizes([], cols, ks) == 0
  {
    if ks != [] {
      GroupSizesOfNoRows(cols, ks[1..]);
    }
  }

  lemma {:induction false} GroupSizesCons(r: Row, rest: seq<Row>, cols: seq<Column>, ks: seq<Key>)
    requires NoDuplicates(ks)
    ensures GroupSizes([r] + rest, cols, ks)
         == (if KeyOf(r, cols).Some? && KeyOf(r, cols).value in ks then 1 else 0) + GroupSizes(rest, cols, ks)
  {
    if ks != [] {
      assert ([r] + rest)[1..] == rest;
      assert NoDuplicates(ks[1..]);
      GroupSizesCons(r, rest, cols, ks[1..]);
      assert forall k :: k in ks <==> k == ks[0] || k in ks[1..];
      if KeyOf(r, cols) == Some(ks[0]) {
        assert ks[0] !in ks[1..];
      }
    }
  }

  /** For distinct keys ks, the group sizes add up to the rows whose key is among ks. */
  lemma {:induction false} GroupSizesCountRowsWithKeyIn(rows: seq<Row>, cols: seq<Column>, ks: seq<Key>)
    requires NoDuplicates(ks)
    ensures GroupSizes(rows, cols, ks) == |Filter(rows, r => KeyOf(r, cols).Some? && KeyOf(r, cols).value in ks)|
  {
    if rows == [] {
      GroupSizesOfNoRows(cols, ks);
    } else {
      assert rows == [rows[0]] + rows[1..];
      GroupSizesCons(rows[0], rows[1..], cols, ks);
      GroupSizesCountRowsWithKeyIn(rows[1..], cols, ks);
    }
  }

  /** Under size aggregation the counts add up to the number of rows with a
      complete key: every such row is counted exactly once. */
  lemma SizesSumToKeyedRows(rows: seq<Row>, cols: seq<Column>)
    ensures GroupSizes(rows, cols, GroupKeys(rows, cols)) == |KeyedRows(rows, cols)|
  {
    var ks := GroupKeys(rows, cols);
    GroupSizesCountRowsWithKeyIn(rows, cols, ks);
    forall r | r in rows ensures (KeyOf(r, cols).Some? && KeyOf(r, cols).value in ks) == KeyOf(r, cols).Some? {
    }
    FilterCongruent(rows, r => KeyOf(r, cols).Some? && KeyOf(r, cols).value in ks, r => KeyOf(r, cols).Some?);
  }

  /** The sum of the aggregated values, a NaN counting as nothing. */
  function Total(out: seq<Aggregated>): real {
    if out == [] then 0.0
    else (if out[0].value.Some? then out[0].value.value else 0.0) + Total(out[1..])
  }

  lemma {:induction false} TotalOfSizes(rows: seq<Row>, cols: seq<Column>, value: Column, ks: seq<Key>)
    ensures Total(seq(|ks|, i requires 0 <= i < |ks| => Aggregated(ks[i], Reduce(Size, GroupRows(rows, cols, ks[i]), value))))
         == GroupSizes(rows, cols, ks) as real
  {
    if ks != [] {
      var out := seq(|ks|, i requires 0 <= i < |ks| => Aggregated(ks[i], Reduce(Size, GroupRows(rows, cols, ks[i]), value)));
      assert out[1..] == seq(|ks[1..]|, i requires 0 <= i < |ks[1..]| => Aggregated(ks[1..][i], Reduce(Size, GroupRows(rows, cols, ks[1..][i]), value)));
      TotalOfSizes(rows, cols, value, ks[1..]);
    }
  }

  /** Under size aggregation the reported counts add up to the number of rows
      with a complete key. */
  lemma SizeCountsSumToKeyedRows(rows: seq<Row>, cols: seq<Column>, value: Column)
    ensures Total(Aggregate(rows, cols, value, Size)) == |KeyedRows(rows, cols)| as real
  {
    TotalOfSizes(rows, cols, value, GroupKeys(rows, cols));
    SizesSumToKeyedRows(rows, cols);
  }

  // ---------------------------------------------------------------------
  // Ranking
  // ---------------------------------------------------------------------

  /** The order of sort_values(ascending=False): larger values first, NaN last. */
  predicate RankLe(a: Option<real>, b: Option<real>) {
    b.None? || (a.Some? && a.value >= b.value)
  }

  /** Aggregated rows ranked by their value. */
  predicate ValueRankLe(a: Aggregated, b: Aggregated) {
    RankLe(a.value, b.value)
  }

  lemma ValueRankLeIsTotalPreorder()
    ensures TotalPreorder(ValueRankLe)
  {
  }

  /** The aggregated rows by decreasing value, NaN last. */
  function Ranked(out: seq<Aggregated>): (ranked: seq<Aggregated>)
    ensures multiset(ranked) == multiset(out)
    ensures SortedBy(ranked, ValueRankLe)
  {
    ValueRankLeIsTotalPreorder();
    SortByIsSorted(out, ValueRankLe);
    SortBy(out, ValueRankLe)
  }

  /** Ranking only reorders: rows with distinct keys keep distinct keys. */
  lemma RankedKeysAreDistinct(out: seq<Aggregated>)
    requires forall i, j :: 0 <= i < j < |out| ==> out[i].key != out[j].key
    ensures var ranked := Ranked(out);
      forall i, j :: 0 <= i < j < |ranked| ==> ranked[i].key != ranked[j].key
  {
    var ranked := Ranked(out);
    var key := (a: Aggregated) => a.key;
    assert NoDuplicates(Map(out, key));
    MapSortByNoDuplicates(out, ValueRankLe, key);
    assert Map(ranked, key) == Map(SortBy(out, ValueRankLe), key);
    forall i, j | 0 <= i < j < |ranked| ensures ranked[i].key != ranked[j].key {
      assert Map(ranked, key)[i] == ranked[i].key && Map(ranked, key)[j] == ranked[j].key;
    }
  }

  /** In a ranked list, an element of a prefix ranks at or above every element
      outside that prefix. */
  lemma PrefixOutranksRest<T(!new)>(ranked: seq<T>, prefix: seq<T>, le: (T, T) -> bool, kept: T, dropped: T)
    requires SortedBy(ranked, le) && prefix <= ranked
    requires kept in prefix && dropped in ranked && dropped !in prefix
    ensures le(kept, dropped)
  {
    var i :| 0 <= i < |prefix| && prefix[i] == kept;
    var j :| 0 <= j < |ranked| && ranked[j] == dropped;
    assert forall k :: 0 <= k < |prefix| ==> prefix[k] == ranked[k];
    assert j >= |prefix|;
    assert ranked[i] == kept;
  }
}
