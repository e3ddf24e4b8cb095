/** The "top countries" bar chart: the mean coverage of each country, largest
    first, cut to the first `topN`. */
module CountryDetails {
  import opened Wrappers
  import opened Seqs
  import opened Stats
  import opened Tables
  import opened GroupBy

  /** The "no data" guard of create_country_details. */
  predicate HasCountryData(t: Table) {
    Name in t.columns && Coverage in t.columns && !IsEmpty(t)
  }

  /** k is the one-value key of the name of some country of the rows. */
  predicate IsCountryOf(rows: seq<Row>, k: Key) {
    exists r :: r in rows && r.name.Some? && k == [TextValue(r.name.value)]
  }

  /** groupby('NAME')['COVERAGE'].mean(): one row per country, by name. */
  function CountryMeans(rows: seq<Row>): (means: seq<Aggregated>)
    ensures |means| == |GroupKeys(rows, [Name])|
  {
    Aggregate(rows, [Name], Coverage, MeanOf)
  }

  /** create_country_details: the (country, mean) bars, or None for the
      "no data" figure. The bars are the head of the country means ranked
      by decreasing mean. */
  function CountryDetails(t: Table, topN: int): (bars: Option<seq<Aggregated>>)
    ensures bars.None? <==> !HasCountryData(t)
    ensures bars.Some? ==> bars.value <= Ranked(CountryMeans(t.rows))
    ensures bars.Some? && topN >= 0 ==> |bars.value| == if topN <= |GroupKeys(t.rows, [Name])| then topN else |GroupKeys(t.rows, [Name])|
  {
    if !HasCountryData(t) then None
    else Some(Head(Ranked(CountryMeans(t.rows)), topN))
  }

  /** Every bar is one of the country means. */
  lemma BarsComeFromMeans(t: Table, topN: int)
    requires HasCountryData(t)
    ensures forall b :: b in CountryDetails(t, topN).value ==> b in CountryMeans(t.rows)
  {
    var ranked := Ranked(CountryMeans(t.rows));
    forall b | b in CountryDetails(t, topN).value ensures b in CountryMeans(t.rows) {
      assert b in ranked;
      assert b in multiset(ranked);
    }
  }

  /** No country has two bars. */
  lemma BarsHaveDistinctCountries(t: Table, topN: int)
    requires HasCountryData(t)
    ensures var bars := CountryDetails(t, topN).value;
      forall i, j :: 0 <= i < j < |bars| ==> bars[i].key != bars[j].key
  {
    var ranked := Ranked(CountryMeans(t.rows));
    var bars := CountryDetails(t, topN).value;
    RankedCountriesAreDistinct(t.rows);
    forall i, j | 0 <= i < j < |bars| ensures bars[i].key != bars[j].key {
      assert bars[i] == ranked[i] && bars[j] == ranked[j];
    }
  }

  /** Ranking the country means keeps one entry per country. */
  lemma RankedCountriesAreDistinct(rows: seq<Row>)
    ensures var ranked := Ranked(CountryMeans(rows));
      forall i, j :: 0 <= i < j < |ranked| ==> ranked[i].key != ranked[j].key
  {
    AggregateRowsAreGroups(rows, [Name], Coverage, MeanOf);
    RankedKeysAreDistinct(CountryMeans(rows));
  }

  /** A country mean belongs to a country of the table and is the mean
      coverage of that country's rows. */
  lemma CountryMeanIsGroupMean(rows: seq<Row>, b: Aggregated)
    requires b in CountryMeans(rows)
    ensures IsCountryOf(rows, b.key)
    ensures b.value == Mean(NumericValues(GroupRows(rows, [Name], b.key), Coverage))
  {
    var means := CountryMeans(rows);
    AggregateRowsAreGroups(rows, [Name], Coverage, MeanOf);
    var m :| 0 <= m < |means| && means[m] == b;
    assert b.value == Reduce(MeanOf, GroupRows(rows, [Name], b.key), Coverage);
    assert b.key == GroupKeys(rows, [Name])[m];
    CountryKeyIsAName(rows, b.key);
  }

  /** A key of the grouping by country is the name of a country of the rows. */
  lemma CountryKeyIsAName(rows: seq<Row>, k: Key)
    requires k in GroupKeys(rows, [Name])
    ensures IsCountryOf(rows, k)
  {
    var r :| r in rows && KeyOf(r, [Name]) == Some(k);
    assert |k| == 1 && k[0] == Cell(r, Name).value;
    assert k == [k[0]];
  }

  /** Each bar is a distinct country of the table, and its value is the mean
      coverage of that country's rows (NaN when none of them has one). */
  lemma BarsAreCountryMeans(t: Table, topN: int)
    requires HasCountryData(t)
    ensures var bars := CountryDetails(t, topN).value;
      && (forall i, j :: 0 <= i < j < |bars| ==> bars[i].key != bars[j].key)
      && (forall i :: 0 <= i < |bars| ==> IsCountryOf(t.rows, bars[i].key))
      && (forall i :: 0 <= i < |bars| ==> bars[i].value == Mean(NumericValues(GroupRows(t.rows, [Name], bars[i].key), Coverage)))
  {
    var bars := CountryDetails(t, topN).value;
    BarsHaveDistinctCountries(t, topN);
    BarsComeFromMeans(t, topN);
    EachIsACountryMean(t.rows, bars);
  }

  lemma EachIsACountryMean(rows: seq<Row>, bars: seq<Aggregated>)
    requires forall b :: b in bars ==> b in CountryMeans(rows)
    ensures forall i :: 0 <= i < |bars| ==> IsCountryOf(rows, bars[i].key)
    ensures forall i :: 0 <= i < |bars| ==> bars[i].value == Mean(NumericValues(GroupRows(rows, [Name], bars[i].key), Coverage))
  {
    forall i | 0 <= i < |bars|
      ensures IsCountryOf(rows, bars[i].key)
      ensures bars[i].value == Mean(NumericValues(GroupRows(rows, [Name], bars[i].key), Coverage))
    {
      assert bars[i] in bars;
      CountryMeanIsGroupMean(rows, bars[i]);
    }
  }

  /** The bars come by non-increasing mean, a NaN mean after every number. */
  lemma BarsAreNonIncreasing(t: Table, topN: int)
    requires HasCountryData(t)
    ensures var bars := CountryDetails(t, topN).value;
      forall i, j :: 0 <= i < j < |bars| && bars[j].value.Some? ==>
        bars[i].value.Some? && bars[j].value.value <= bars[i].value.value
  {
    var ranked := Ranked(CountryMeans(t.rows));
    var bars := CountryDetails(t, topN).value;
    forall i, j | 0 <= i < j < |bars| && bars[j].value.Some?
      ensures bars[i].value.Some? && bars[j].value.value <= bars[i].value.value
    {
      assert bars[i] == ranked[i] && bars[j] == ranked[j];
      assert ValueRankLe(ranked[i], ranked[j]);
    }
  }

  /** A country left off the chart has a mean no greater than any shown
      country's (and a NaN mean is only ever left off after every number). */
  lemma LeftOutCountriesRankLower(t: Table, topN: int, kept: Aggregated, dropped: Aggregated)
    requires HasCountryData(t)
    requires kept in CountryDetails(t, topN).value
    requires dropped in CountryMeans(t.rows) && dropped !in CountryDetails(t, topN).value
    ensures dropped.value.Some? ==> kept.value.Some? && dropped.value.value <= kept.value.value
  {
    var ranked := Ranked(CountryMeans(t.rows));
    assert dropped in multiset(ranked);
    PrefixOutranksRest(ranked, CountryDetails(t, topN).value, ValueRankLe, kept, dropped);
  }
}
