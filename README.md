# Vaccination-coverage dashboard: the data layer in Dafny

This project models the tabular data layer of a vaccination-coverage dashboard written in Python over pandas. It covers:

- the offline cleaning pipeline and its validator;
- the query layer: filtering, distinct-value lists and the data summary;
- the fallback loader;
- the sidebar statistics;
- the data that each chart feeds to its plotting call: indicator cards, box plot groups, time series, yearly comparison, top countries, pie slices, and the hierarchical bar chart with its top-N selection.

A table is a sequence of rows plus the set of columns it has, so "column absent" behaviour can be stated. A row is a record whose cells are `Option`s. A pandas NaN is `None`. COVERAGE is a `real`.

The pandas operations the source relies on are written out as functions, and their promises are proved as lemmas:

- `dropna`: `Seqs.Filter`.
- Boolean-mask selection: `Seqs.Filter`.
- `unique`: `Seqs.Distinct`, first-appearance order.
- `sorted`/`sort_values`: `Seqs.SortBy`, a stable insertion sort under a total preorder.
- `groupby`: `GroupBy.GroupKeys` and `GroupBy.Aggregate`. Keys with a missing part are dropped, and keys come out sorted.
- `value_counts`: `PieChart.ValueCounts`.
- `nlargest`: `TreeMap.NLargest`, with NaN entries after every number.
- `head`: `Seqs.Head`, which also covers negative `n`.
- `nunique`: `Tables.NUnique`.
- `mean`/`min`/`max`: `Stats.Mean`, `Stats.Min` and `Stats.Max`, over the present values only.

Modules follow the source files:

| module | models |
|---|---|
| `CleanData` | src/utils/clean_data.py |
| `GetData` | src/utils/get_data.py |
| `DataLoader` | src/utils/data_loader.py |
| `Sidebar` | src/components/sidebar_callbacks.py, plus the 'all' mapping in src/pages/home.py |
| `Statistics` | src/graphics/statistics.py |
| `TimedCount` | src/graphics/timed_count.py |
| `CountryDetails` | src/graphics/country_details.py |
| `PieChart` | src/graphics/pie_chart.py |
| `TreeMap` | src/graphics/tree_map.py |

Shared support lives in `Wrappers`, `Seqs`, `Stats`, `Tables` and `GroupBy`.

## Behaviour of the code worth knowing

- **No fallback between files.** `get_vaccination_data` raises FileNotFoundError when the chosen file is missing and tries no other file (`GetData.GetVaccinationData`, `GetData.NoFallbackToOtherFile`). Only `load_vaccination_data`, which reads the raw file alone, returns an empty table with the expected columns (`DataLoader.LoadVaccinationData`).
- **Data summary.** `get_data_summary` reports no coverage figure. Its `int(min)` raises when the YEAR column exists but holds no year, for example on an empty table. The model returns `Err(NoYearToConvert)` there.
- **Distinct years of the loader.** `data_loader.get_available_years` keeps a missing year, unlike the query layer's list (`DataLoader.GetAvailableYears`).
- **Stripping order.** `clean_vaccination_data` drops rows with missing critical cells before it strips text. See "## Findings".
- **Empty input to cleaning.** `clean_vaccination_data` divides by the initial row count, so an input with no rows raises ZeroDivisionError. The model returns `Err(ZeroDivision)`.
- **Missing columns during cleaning.** A missing required column makes `dropna(subset=…)` raise a KeyError. A missing COVERAGE_CATEGORY does the same in `drop_duplicates`. Both become `Err(MissingColumns(…))`.
- **Sidebar selections.** The sidebar callback indexes YEAR, NAME, ANTIGEN and COVERAGE without checking that they exist. A missing column is modelled as a `KeyError` result (`Sidebar.UpdateSidebarStats`).
- **NaN in `nlargest`.** pandas' `nlargest(n)` ranks the numbers first and then fills the selection up to n with NaN entries. A category whose every subcategory mean is NaN can therefore be a top category when fewer than `top_n` categories have a number, and its rows then reach the bar chart.

## Model

| member | source | states |
|---|---|---|
| `CleanData.DropMissingCritical` | src/utils/clean_data.py:59-60 | The kept rows are exactly the input rows with GROUP, CODE, NAME, YEAR, ANTIGEN and COVERAGE all present; never more rows than the input. |
| `CleanData.TruncateToInt` | src/utils/clean_data.py:69 | `astype(int)` truncates toward zero: the integer lies within one of the value, on the value's side of zero. |
| `CleanData.CoerceNumeric` | src/utils/clean_data.py:66-69 | The output rows are exactly the converted forms of the raw rows whose YEAR and COVERAGE are numeric; each has a year and a coverage. |
| `CleanData.KeepValidYears` | src/utils/clean_data.py:74-79 | Keeps exactly the rows with 1980 ≤ YEAR ≤ 2025. |
| `CleanData.YearKeptIffRawYearInHalfOpenRange` | src/utils/clean_data.py:69-79 | Because the range check follows the integer cast, a raw year x survives exactly when 1980 ≤ x < 2026. |
| `CleanData.Clamp` | src/utils/clean_data.py:85-86 | The clamped coverage lies in [0, 100], and a value already in range is unchanged. |
| `CleanData.ClampIsIdempotent` | src/utils/clean_data.py:85-86 | Clamping twice is clamping once. |
| `CleanData.CoverageStageClamps` | src/utils/clean_data.py:85-86 | The two `.loc` assignments change only COVERAGE. A negative value becomes 0, a value above 100 becomes 100, a missing value stays missing, and the row count is kept. |
| `CleanData.StripIsIdempotent` | src/utils/clean_data.py:95 | `str.strip` applied twice equals applying it once. |
| `CleanData.StripIsEmptyIffAllSpace` | src/utils/clean_data.py:95-96 | Stripping leaves the empty text exactly when every character is whitespace. |
| `CleanData.NormalizePresentText` | src/utils/clean_data.py:95-96 | A present text cell ends up clean. It becomes missing exactly when it was all whitespace; otherwise it is its stripped text. |
| `CleanData.NanIsClean` | src/utils/clean_data.py:95 | `astype(str)` turns a missing cell into the text "nan", which stripping keeps. |
| `CleanData.NormalizeTextIsClean` | src/utils/clean_data.py:95-96 | Every text cell is clean after stage 5: missing, or non-empty with no surrounding whitespace. |
| `CleanData.NormalizeColumnStep` | src/utils/clean_data.py:93-96 | One pass of the loop over text columns moves every row from "first i columns stripped" to "first i+1 stripped". An absent column is skipped. |
| `CleanData.StripTextColumns` | src/utils/clean_data.py:92-96 | The stage-5 loop yields, row for row, the rows with each present text column stripped. |
| `CleanData.NormalizeTextsCleans` | src/utils/clean_data.py:92-96 | With all text columns present, every output row has clean text cells, and YEAR and COVERAGE are untouched. |
| `CleanData.RowTextsAreClean` | src/utils/clean_data.py:92-96 | A single row's five text cells are clean after the stage. |
| `CleanData.DropDuplicatesKeys` | src/utils/clean_data.py:102-103 | The keys (CODE, NAME, YEAR, ANTIGEN, COVERAGE_CATEGORY) of the result are the distinct keys of the input, in first-appearance order. |
| `CleanData.DropDuplicatesKeepsFirst` | src/utils/clean_data.py:103 | Each kept row is the first input row carrying its key (`keep='first'`). |
| `CleanData.DropDuplicatesSpec` | src/utils/clean_data.py:102-103 | No two output rows share a key. |
| `CleanData.DropDuplicatesKeepsEveryKey` | src/utils/clean_data.py:102-103 | Every key of the input is still carried by some output row. |
| `CleanData.DropDuplicatesKeepsOrder` | src/utils/clean_data.py:103 | Output rows keep the order in which their keys first appear in the input. |
| `CleanData.RowLeIsTotalPreorder` | src/utils/clean_data.py:109-112 | The (NAME, YEAR, ANTIGEN) ascending order, missing values last, is total and transitive. |
| `CleanData.SortRows` | src/utils/clean_data.py:109-112 | The sorted rows are a permutation of the input, ordered by (NAME, YEAR, ANTIGEN). |
| `CleanData.PreparedRowsAreClean` | src/utils/clean_data.py:57-96 | After stages 1-5 every row has a year in 1980..2025, a coverage in 0..100 and clean text. |
| `CleanData.CleanVaccinationData` | src/utils/clean_data.py:48-118 | Stage by stage, the pipeline gives FileNotFound, a missing-column error, a division by zero on empty input, or the cleaned table. The cleaned table keeps the columns, has at most as many rows, is a sorted permutation of the de-duplicated rows, has distinct keys, and every row is clean. |
| `CleanData.CleanRowsAreClean` | src/utils/clean_data.py:57-117 | Every cleaned row is clean. |
| `CleanData.CleanRowsHaveDistinctKeys` | src/utils/clean_data.py:102-112 | Sorting after de-duplication keeps the keys distinct. |
| `CleanData.CleanRowsSpec` | src/utils/clean_data.py:57-117 | The cleaned rows are no more than the input, are a sorted permutation of the de-duplicated rows, have distinct keys and are clean. |
| `CleanData.NoIssuesIffValid` | src/utils/clean_data.py:149-178 | The validator finds no issue exactly when all six required columns exist, none has a missing value, and every COVERAGE lies in [0, 100] and every YEAR in [1980, 2025]. |
| `CleanData.ValidateCleanedData` | src/utils/clean_data.py:142-178 | The loops collect exactly the issues the table has; the verdict is true iff there are none, iff the table is valid. |
| `CleanData.Completeness` | src/utils/clean_data.py:183-184 | Completeness is NaN on an empty table. Otherwise it is a percentage in [0, 100]: 100 exactly when nothing is missing, 0 exactly when everything is. |
| `CleanData.GetDataQualityReport` | src/utils/clean_data.py:181-198 | The report gives the row count and the distinct counts (0 for an absent column). Its missing-value and completeness maps are keyed by exactly the table's columns. A column's count is 0 iff it has no missing cell, iff its completeness is 100. |
| `CleanData.CoverageMean` | src/utils/clean_data.py:191 | 0 without a COVERAGE column. Otherwise the mean of the present coverages, NaN exactly when none is present. |
| `CleanData.QualityReportCoverageBounds` | src/utils/clean_data.py:191 | The reported mean lies between the least and the greatest coverage, and within [0, 100] on a valid table. |
| `CleanData.ValidTableIsComplete` | src/utils/clean_data.py:181-195 | On a non-empty valid table, every required column is 100% complete. |
| `CleanData.BlankNameSurvivesCleaning` | src/utils/clean_data.py:57-96 | A row whose NAME is a single blank survives cleaning with NAME missing, and the validator rejects the result. |
| `CleanData.CorrectedCleanRowsAreValid` | src/utils/clean_data.py:57-117 | With blank critical text dropped after stripping, the cleaned table always passes the validator. |
| `CleanData.CorrectionAgreesWithoutBlankText` | src/utils/clean_data.py:57-117 | The correction changes nothing on input without blank critical text. |
| `GetData.GetVaccinationData` | src/utils/get_data.py:23-29 | The chosen file's table, or FileNotFound naming that file. |
| `GetData.NoFallbackToOtherFile` | src/utils/get_data.py:23-29 | The other file's presence never changes the outcome. |
| `GetData.SelectYear` | src/utils/get_data.py:124-125 | The year selection is the filter by "no year given, no YEAR column, or YEAR equal". |
| `GetData.SelectCountry` | src/utils/get_data.py:127-128 | The same for NAME. |
| `GetData.SelectAntigen` | src/utils/get_data.py:130-131 | The same for ANTIGEN. |
| `GetData.SelectCategory` | src/utils/get_data.py:133-135 | The same for COVERAGE_CATEGORY, where "Toutes" also selects everything. |
| `GetData.GetFilteredData` | src/utils/get_data.py:122-137 | The columns are kept, there are no more rows, and a row is kept iff it is an input row that passes every active filter. |
| `GetData.FilteredDataIsOneSelection` | src/utils/get_data.py:122-137 | The four successive selections are one order-preserving filter by their conjunction. |
| `GetData.NoFilterIsIdentity` | src/utils/get_data.py:122-137 | With no filter the result is the input, row for row. |
| `GetData.AbsentColumnFiltersAreNoOps` | src/utils/get_data.py:124-135 | A filter on an absent column does nothing, and neither does the category "Toutes". |
| `GetData.FilterOrderIsIrrelevant` | src/utils/get_data.py:122-137 | Applying the selections in the reverse order gives the same rows. |
| `GetData.SortedDistinctInts` | src/utils/get_data.py:51 | `sorted(dropna().unique())` over years is strictly ascending and holds exactly the present values. |
| `GetData.SortedDistinctTexts` | src/utils/get_data.py:67 | The same over text: ascending in Python's string order, no duplicates, exactly the present values. |
| `GetData.GetAvailableYears` | src/utils/get_data.py:48-51 | `[]` without YEAR. Otherwise strictly ascending, exactly the years some row has. |
| `GetData.GetAvailableCountries` | src/utils/get_data.py:64-67 | `[]` without NAME. Otherwise sorted, no duplicates, exactly the names some row has. |
| `GetData.GetAvailableAntigens` | src/utils/get_data.py:80-83 | The same for ANTIGEN. |
| `GetData.GetAvailableCoverageCategories` | src/utils/get_data.py:96-99 | The same for COVERAGE_CATEGORY. |
| `GetData.GetDataSummary` | src/utils/get_data.py:150-159 | Raises exactly when YEAR exists but holds no year. Otherwise it gives the row count and the distinct counts (0 for an absent column). The year range is absent iff YEAR is absent; when present it is the least and greatest year, both held by some row. |
| `GetData.YearsOfRows` | src/utils/get_data.py:154-157 | The distinct years are exactly the years some row holds, and there are none iff no row has a year: the case where `int(min)` raises. |
| `Tables.DistinctOrZero` | src/utils/get_data.py:152-158 | `nunique()` of a present column, 0 for an absent one; never more than the row count. |
| `DataLoader.LoadVaccinationData` | src/utils/data_loader.py:20-32 | A parsed file is returned as read. A missing or empty file gives no rows and exactly the six expected columns. Any other read error propagates. |
| `DataLoader.FallbackIsEmptyWithExpectedColumns` | src/utils/data_loader.py:23-32 | The fallback table is empty and lacks none of the expected columns. |
| `DataLoader.FilterDataByYear` | src/utils/data_loader.py:46-49 | Unchanged without YEAR. Otherwise the order-preserving selection of the rows whose year is in the list, repeated rows included, with the same columns. |
| `DataLoader.FilteredYearIsWholeYear` | src/utils/data_loader.py:49 | For a listed year, the result holds every row of that year, as often and in the same order as the table does. For any other year it holds none. |
| `DataLoader.GetAvailableYears` | src/utils/data_loader.py:62-65 | `[]` without YEAR. No duplicates, present years strictly ascending, and exactly the year cells of the rows, a missing year included. |
| `DataLoader.PresentYearsAgreeWithQueryLayer` | src/utils/data_loader.py:62-65 | Without its missing entry, the list is the query layer's list of years. |
| `Sidebar.AsFilter` | src/pages/home.py:243-246 | 'all' becomes no filter, and any other selection a filter on that value. |
| `Sidebar.SelectionKeyError` | src/components/sidebar_callbacks.py:23-30 | A KeyError arises exactly when a non-'all' selection names an absent column, and it names that column. |
| `Sidebar.SidebarRows` | src/components/sidebar_callbacks.py:21-30 | The KeyError, or the input rows that match every non-'all' selection. |
| `Sidebar.SidebarRowsAreOneSelection` | src/components/sidebar_callbacks.py:23-30 | The three successive selections are one filter by their conjunction. |
| `Sidebar.UpdateSidebarStats` | src/components/sidebar_callbacks.py:17-35 | With no row left, 0 records, average 0 and 0 countries. With rows left and both COVERAGE and NAME present, it succeeds with: the record count, the mean of the present coverages, and the number of distinct names, which is at most the record count. A missing COVERAGE or NAME column raises. |
| `Sidebar.AllSelectionsKeepEveryRow` | src/components/sidebar_callbacks.py:21-30 | All three set to 'all' keeps every row. |
| `Sidebar.SidebarRowsAreTheMatchingRows` | src/components/sidebar_callbacks.py:23-30 | A remaining row is exactly an input row matching each selection, in input order. |
| `Sidebar.SidebarAgreesWithQueryLayer` | src/components/sidebar_callbacks.py:21-30 | The sidebar's rows are those of `get_filtered_data` with the same selections mapped as the pages map them. |
| `Statistics.MinOf` | src/graphics/statistics.py:42 | The least present value, NaN when there is none. |
| `Statistics.MaxOf` | src/graphics/statistics.py:41 | The greatest present value, NaN when there is none. |
| `Statistics.StatisticsCards` | src/graphics/statistics.py:24-45 | An empty table gives all zeros. Otherwise: the row count, distinct counts (0 for an absent column), at most the row count. The coverage cards are 0 without COVERAGE, else the mean, max and min of the present coverages. |
| `Statistics.CardsCoverageIsOrdered` | src/graphics/statistics.py:38-42 | The three coverage cards are NaN together, exactly when COVERAGE holds no value; otherwise min ≤ mean ≤ max. |
| `Statistics.CardsCoverageWithinPercent` | src/graphics/statistics.py:38-42 | On coverages in [0, 100], the three cards are in [0, 100]. |
| `Statistics.HistogramValues` | src/graphics/statistics.py:66-77 | "No data" exactly when the column is absent or the table empty. Otherwise the column's cells, row for row. |
| `Statistics.BoxCategories` | src/graphics/statistics.py:119 | `unique()` of the group column: no duplicates, NaN included, exactly the cells that occur, in order of first appearance. |
| `Statistics.CategoryValues` | src/graphics/statistics.py:120 | A category's values are, position by position, the column cells of the rows whose group cell equals it, in table order. A NaN category matches no row. |
| `Statistics.StatisticsBoxplot` | src/graphics/statistics.py:109-133 | "No data" exactly when the column is absent or the table empty. With an existing group column: one box per category, in first-appearance order, holding that category's values. Otherwise one box of the whole column. |
| `Statistics.BoxesPartitionCategorisedRows` | src/graphics/statistics.py:116-125 | The grouped boxes together hold exactly the rows whose group cell is present. |
| `Stats.MeanBetweenMinAndMax` | src/graphics/statistics.py:38-42 | The mean of a non-empty list lies between its minimum and maximum. |
| `GroupBy.GroupKeys` | src/graphics/timed_count.py:46 | The group keys are sorted and distinct. They are exactly the keys of the rows with no missing key cell. |
| `GroupBy.GroupsAreNonEmpty` | src/graphics/timed_count.py:46 | Every group has a row, and every row with a full key is in its group. |
| `GroupBy.AggregateRowsAreGroups` | src/graphics/timed_count.py:45-50 | One output row per group: keys distinct and ascending, each holding its group's mean, sum or size. |
| `GroupBy.AggregateCoversEveryKey` | src/graphics/timed_count.py:45-50 | Every row with a full key is represented in the output. |
| `GroupBy.SizeCountsSumToKeyedRows` | src/graphics/timed_count.py:50 | The `size()` counts add up to the number of rows with a full key. |
| `GroupBy.Ranked` | src/graphics/country_details.py:37 | `sort_values(ascending=False)` is a permutation by non-increasing value, NaN last. |
| `GroupBy.RankedKeysAreDistinct` | src/graphics/country_details.py:37 | Ranking keeps the keys distinct. |
| `TimedCount.ReducerOf` | src/graphics/timed_count.py:45-50 | 'mean' gives the mean, 'sum' the sum, and any other string the row count. |
| `TimedCount.SeriesKeyColumns` | src/graphics/timed_count.py:43-65 | Grouping is by (time, group) when the group column exists, otherwise by time alone. |
| `TimedCount.TimedCountData` | src/graphics/timed_count.py:35-69 | "No data" exactly when a column is absent or the table empty. Otherwise one row per group. |
| `TimedCount.TimedCountRowsAreGroups` | src/graphics/timed_count.py:43-69 | Output keys are distinct and ascending. They are exactly the keys present in the data, each holding the chosen reduction of its group. |
| `TimedCount.UnknownGroupFallsBackToTime` | src/graphics/timed_count.py:43-69 | A `group_by` that is not a column gives the global series by time. |
| `TimedCount.CountsSumToKeyedRows` | src/graphics/timed_count.py:50-69 | Under count aggregation, the counts add up to the rows with a full key. |
| `TimedCount.ComparedRows` | src/graphics/timed_count.py:117-118 | An empty year list keeps every row. Otherwise exactly the rows whose year is listed. |
| `TimedCount.YearlyComparison` | src/graphics/timed_count.py:109-121 | "No data" exactly when YEAR or the metric is absent or the table empty. Otherwise one bar per year present. |
| `TimedCount.ComparedGroupIsWholeYear` | src/graphics/timed_count.py:117-121 | The year filter keeps every row of a listed year. |
| `TimedCount.YearlyComparisonBarsAreYearMeans` | src/graphics/timed_count.py:116-121 | Bars are for distinct years, ascending, listed when a list is given. Each is the mean of that year's metric over the whole table. |
| `CountryDetails.CountryDetails` | src/graphics/country_details.py:29-37 | "No data" exactly without NAME or COVERAGE or on an empty table. Otherwise a prefix of the ranked country means, of length `top_n` capped by the number of countries. |
| `CountryDetails.BarsComeFromMeans` | src/graphics/country_details.py:37 | Every bar is a country mean. |
| `CountryDetails.BarsHaveDistinctCountries` | src/graphics/country_details.py:37 | No country has two bars. |
| `CountryDetails.CountryMeanIsGroupMean` | src/graphics/country_details.py:37 | A country mean belongs to a country of the table and is the mean coverage of that country's rows. |
| `CountryDetails.BarsAreCountryMeans` | src/graphics/country_details.py:37 | The bars are distinct countries of the table, each with its mean coverage. |
| `CountryDetails.BarsAreNonIncreasing` | src/graphics/country_details.py:37 | Bars come by non-increasing mean, NaN after every number. |
| `CountryDetails.LeftOutCountriesRankLower` | src/graphics/country_details.py:37 | A country left out never has a higher mean than a kept one. |
| `PieChart.GroupOfOneColumn` | src/graphics/pie_chart.py:39 | The group of a one-column key is exactly the occurrences of its value. |
| `PieChart.ValueCounts` | src/graphics/pie_chart.py:39 | The slices are by non-increasing count and are a permutation of one slice per present value. |
| `PieChart.SliceCountsOccurrences` | src/graphics/pie_chart.py:39 | A slice's count is the number of rows holding its value, and is positive. |
| `PieChart.EveryValueHasASlice` | src/graphics/pie_chart.py:39 | Every present value of the column has a slice. NaN has none. |
| `PieChart.SliceValuesAreDistinct` | src/graphics/pie_chart.py:39 | No value has two slices. |
| `PieChart.ValueCountsAreOccurrenceCounts` | src/graphics/pie_chart.py:39 | The slices are exactly the present values, each once, with its occurrence count. |
| `PieChart.PieChartData` | src/graphics/pie_chart.py:31-41 | "No data" exactly when the column is absent or the table empty. Otherwise a prefix of the value counts of at most `max_categories` slices, and all of them when they fit. |
| `PieChart.TruncationIsHead` | src/graphics/pie_chart.py:40-41 | Truncation is `head(max_categories)`. |
| `PieChart.SlicesAreTheMostFrequent` | src/graphics/pie_chart.py:39-41 | A dropped value never occurs more often than a kept one. |
| `PieChart.CountsSumToPresentCells` | src/graphics/pie_chart.py:39-41 | When nothing is dropped, the counts add up to the number of present cells. |
| `TreeMap.ChartGuard` | src/graphics/tree_map.py:130-133 | No chart exactly when a required column is missing or the table empty. The missing list is non-empty and holds exactly the absent required columns. |
| `TreeMap.MissingColumnsKeepRequiredOrder` | src/graphics/tree_map.py:32-33 | The missing columns of `path + [values]` come in that order. |
| `TreeMap.SubcategoryMeansAreNumericMeans` | src/graphics/tree_map.py:144 | A category's scores are exactly the non-NaN means of its (category, subcategory) rows. |
| `TreeMap.CategoryScore` | src/graphics/tree_map.py:144 | A category's score is a number iff it has a non-NaN subcategory mean. |
| `TreeMap.CategoryScoreIsNumericIff` | src/graphics/tree_map.py:144 | The score is NaN exactly when every subcategory mean of that category is NaN. |
| `TreeMap.GroupedCategories` | src/graphics/tree_map.py:144 | The categories of the grouped rows, each once. |
| `TreeMap.CategoryScores` | src/graphics/tree_map.py:144 | One score per category: the mean of its subcategory means, not the overall row mean. |
| `TreeMap.CategoryScoresAreKeyedByCategory` | src/graphics/tree_map.py:144 | Each score is keyed by one category of the grouped rows, and no category twice. |
| `TreeMap.NLargest` | src/graphics/tree_map.py:144 | `nlargest(n)` is empty for n ≤ 0. Otherwise it holds exactly min(n, number of scores) entries and is a prefix of the scores ranked by decreasing value with NaN last, so NaN entries fill it once the numbers run out. |
| `TreeMap.HierarchicalBar` | src/graphics/tree_map.py:130-145 | The guard's outcome, or an order-preserving selection of the (category, subcategory) means. |
| `TreeMap.BarsAreTopCategoryGroups` | src/graphics/tree_map.py:141-145 | The surviving rows are exactly the grouped rows whose category is a top category. Each holds the mean of its (category, subcategory) group. |
| `TreeMap.NLargestIsDrawnFromScores` | src/graphics/tree_map.py:144 | `nlargest` takes each score at most as often as its input holds it. |
| `TreeMap.NLargestKeysAreDistinct` | src/graphics/tree_map.py:144 | Selecting keeps keys distinct. |
| `TreeMap.NLargestDescend` | src/graphics/tree_map.py:144 | The selected scores come largest first, with any NaN after every number. |
| `TreeMap.TopCategoriesAreRanked` | src/graphics/tree_map.py:144 | Exactly min(`top_n`, number of categories) distinct top categories, none for `top_n` ≤ 0. They come by non-increasing score with NaN-scored ones last, each scored by its own mean of subcategory means. |
| `TreeMap.NLargestOutranksRest` | src/graphics/tree_map.py:144 | A score left out of `nlargest` is NaN, or it is no greater than every selected score, all of which are numbers. |
| `TreeMap.LeftOutCategoriesScoreLower` | src/graphics/tree_map.py:144 | A category left out never outscores a kept one, and a numeric one is never left out while a NaN-scored one is kept. |

## Left out

- Reading and writing CSV files, `mkdir`, and `exists()` checks are not modelled. A file is a parameter: `Option<Table>` for present or absent, or a `CsvRead` outcome. Parsing CSV text into cells is left out too.
- Status `print` messages and their number formatting are left out, and so are the cleaning summary's printed counts and retention rate. The division by zero behind the retention rate is kept as an error.
- Plotly figures, templates, colours, titles and the "no data" annotations are left out. Each chart is modelled by the data it is given, with `None` or `Err` standing for the annotation.
- The histogram's binning (`nbinsx`) is left out, because plotly bins the values. `Statistics.HistogramValues` gives the values passed to it.
- The treemap and sunburst figures are left out; only their missing-column guard (`TreeMap.ChartGuard`) is modelled.
- `coverage_median` and `coverage_std` in the quality report are left out: a median needs an order statistic the report never relies on, and a standard deviation needs a square root over the reals.
- IEEE floating point is not modelled. COVERAGE and means are exact reals, and NaN appears only as a missing value.
- Tie order is not promised. Where `sort_values`, `nlargest` or `value_counts` meet equal values or several NaN entries, pandas chooses the order. The model sorts stably, but its contracts promise only sortedness, permutation and selection.
- `DataLoader.GetAvailableYears`: Python's `sorted` on a list holding NaN gives an order that depends on where the NaN sits. The model puts the missing year last, and its contract orders the present years only.
- `TimedCount.TimedCountData`: `mean` and `sum` are modelled over numeric value columns only. pandas raises on `mean` over text and concatenates text under `sum`. Count aggregation accepts any column.
- `TimedCount.YearlyComparison`: the metric is a numeric column for the same reason.
- `TreeMap.HierarchicalBar`: the value column is a numeric column for the same reason.
- Text comparison is Python's code-point order on `str`. No locale collation or Unicode normalisation is modelled, and whitespace is Python's `str.isspace` set of code points.
- A raw YEAR or COVERAGE cell that `to_numeric` cannot parse is modelled as opaque text. Number parsing itself is not modelled.
- UI wiring (layouts, callbacks other than the sidebar's, the navbar, header and footer), `main.py`, `config.py`, the map stub and the table view's `head(max_rows)` are outside the data layer.

## Findings

| source | as written | input that shows it | evidently intended | confidence | as-written member | corrected member |
|---|---|---|---|---|---|---|
| src/utils/clean_data.py:59-60 | Rows with a missing critical cell are dropped before text is stripped (lines 92-96). A critical text cell holding only whitespace is then turned into a missing value, and the row is kept. | One raw row: GROUP "EUR", CODE "ABW", NAME " ", YEAR 2020, ANTIGEN "MCV1", COVERAGE_CATEGORY "WUENIC", COVERAGE 95. It leaves cleaning with NAME missing, and `validate_cleaned_data` then reports a missing value in NAME. | Every cleaned row has all critical fields; a critical text that strips to nothing counts as missing and its row is dropped. | not executed | `CleanData.BlankNameSurvivesCleaning` | `CleanData.CorrectedCleanRowsAreValid` |
