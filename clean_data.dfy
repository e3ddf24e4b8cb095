/** The offline cleaning pipeline: a raw coverage table is turned into a
    de-duplicated table sorted by country, year and antigen, with years in
    1980..2025 and coverage in 0..100; a validator checks the result and a
    quality report counts what is missing. */
module CleanData {
  import opened Wrappers
  import opened Seqs
  import opened Stats
  import opened Tables

  /** A raw YEAR or COVERAGE cell: a number, or text that pandas.to_numeric
      cannot read as one. */
  datatype RawCell = Number(x: real) | Unparsable(text: string)

  /** A row as read from the raw CSV, before any conversion. */
  datatype RawRow = RawRow(
    group: Option<string>,
    code: Option<string>,
    name: Option<string>,
    year: Option<RawCell>,
    antigen: Option<string>,
    antigenDescription: Option<string>,
    coverageCategory: Option<string>,
    coverageCategoryDescription: Option<string>,
    targetNumber: Option<int>,
    doses: Option<int>,
    coverage: Option<RawCell>)

  datatype RawTable = RawTable(rows: seq<RawRow>, columns: set<Column>)

  /** The columns a row may not miss; used by both the cleaner and the validator. */
  const RequiredColumns: seq<Column> := [Group, Code, Name, Year, Antigen, Coverage]
  /** The text columns the cleaner strips. */
  const TextColumns: seq<Column> := [Group, Code, Name, Antigen, CoverageCategory]
  const MinYear: int := 1980
  const CurrentYear: int := 2025

  // ---------------------------------------------------------------------
  // Stage 1: rows missing a critical value are dropped
  // ---------------------------------------------------------------------

  predicate HasCriticalValues(r: RawRow) {
    r.group.Some? && r.code.Some? && r.name.Some? && r.year.Some? && r.antigen.Some? && r.coverage.Some?
  }

  /** dropna(subset=critical_columns). */
  function DropMissingCritical(rows: seq<RawRow>): (kept: seq<RawRow>)
    ensures |kept| <= |rows|
    ensures forall r :: r in kept <==> r in rows && HasCriticalValues(r)
  {
    Filter(rows, HasCriticalValues)
  }

  // ---------------------------------------------------------------------
  // Stage 2: YEAR and COVERAGE become numbers; YEAR an integer
  // ---------------------------------------------------------------------

  /** pandas.to_numeric(errors='coerce') on one cell. */
  function ToNumeric(c: Option<RawCell>): Option<real> {
    if c.Some? && c.value.Number? then Some(c.value.x) else None
  }

  /** astype(int) on a float: truncation toward zero. */
  function TruncateToInt(x: real): (n: int)
    ensures x >= 0.0 ==> n as real <= x < n as real + 1.0
    ensures x < 0.0 ==> n as real - 1.0 < x <= n as real
  {
    if x >= 0.0 then x.Floor else -((-x).Floor)
  }

  /** The typed row of a raw row whose YEAR and COVERAGE both convert; None otherwise. */
  function Coerce(r: RawRow): Option<Row> {
    var y, c := ToNumeric(r.year), ToNumeric(r.coverage);
    if y.Some? && c.Some? then
      Some(Row(r.group, r.code, r.name, Some(TruncateToInt(y.value)), r.antigen, r.antigenDescription,
               r.coverageCategory, r.coverageCategoryDescription, r.targetNumber, r.doses, c))
    else None
  }

  /** to_numeric on YEAR and COVERAGE, dropna on both, then YEAR.astype(int). */
  function CoerceNumeric(rows: seq<RawRow>): (out: seq<Row>)
    ensures |out| <= |rows|
    ensures forall o :: o in out <==> exists r :: r in rows && Coerce(r) == Some(o)
    ensures forall o :: o in out ==> o.year.Some? && o.coverage.Some?
  {
    var converted := seq(|rows|, i requires 0 <= i < |rows| => Coerce(rows[i]));
    assert forall o :: Some(o) in converted <==> exists r :: r in rows && Coerce(r) == Some(o) by {
      forall o | Some(o) in converted ensures exists r :: r in rows && Coerce(r) == Some(o) {
        var i :| 0 <= i < |converted| && converted[i] == Some(o);
        assert rows[i] in rows;
      }
      forall o | exists r :: r in rows && Coerce(r) == Some(o) ensures Some(o) in converted {
        var r :| r in rows && Coerce(r) == Some(o);
        var i :| 0 <= i < |rows| && rows[i] == r;
        assert converted[i] == Some(o);
      }
    }
    Present(converted)
  }

  // ---------------------------------------------------------------------
  // Stage 3: years outside 1980..2025 are dropped
  // ---------------------------------------------------------------------

  predicate InYearRange(r: Row) {
    r.year.Some? && MinYear <= r.year.value <= CurrentYear
  }

  /** data[(YEAR >= 1980) & (YEAR <= 2025)]. */
  function KeepValidYears(rows: seq<Row>): (kept: seq<Row>)
    ensures |kept| <= |rows|
    ensures forall r :: r in kept <==> r in rows && InYearRange(r)
  {
    Filter(rows, InYearRange)
  }

  /** The range check runs on the truncated year, so a raw year is kept exactly
      when it lies in [1980, 2026): 2025.9 survives as 2025, 1979.9 does not. */
  lemma YearKeptIffRawYearInHalfOpenRange(x: real)
    ensures MinYear <= TruncateToInt(x) <= CurrentYear <==> 1980.0 <= x < 2026.0
  {
  }

  // ---------------------------------------------------------------------
  // Stage 4: coverage is clamped into 0..100
  // ---------------------------------------------------------------------

  /** data.loc[COVERAGE < 0, 'COVERAGE'] = 0. */
  function RaiseNegativeCoverage(rows: seq<Row>): seq<Row> {
    seq(|rows|, i requires 0 <= i < |rows| =>
      if rows[i].coverage.Some? && rows[i].coverage.value < 0.0 then rows[i].(coverage := Some(0.0)) else rows[i])
  }

  /** data.loc[COVERAGE > 100, 'COVERAGE'] = 100. */
  function CapCoverage(rows: seq<Row>): seq<Row> {
    seq(|rows|, i requires 0 <= i < |rows| =>
      if rows[i].coverage.Some? && rows[i].coverage.value > 100.0 then rows[i].(coverage := Some(100.0)) else rows[i])
  }

  /** The value a coverage percentage is normalised to. */
  function Clamp(x: real): (y: real)
    ensures 0.0 <= y <= 100.0
    ensures 0.0 <= x <= 100.0 ==> y == x
  {
    if x < 0.0 then 0.0 else if x > 100.0 then 100.0 else x
  }

  /** Clamping twice is clamping once. */
  lemma ClampIsIdempotent(x: real)
    ensures Clamp(Clamp(x)) == Clamp(x)
  {
  }

  /** The two in-place assignments together clamp every coverage into [0, 100]:
      below 0 becomes 0, above 100 becomes 100, the rest is unchanged, and no
      other field moves. */
  lemma CoverageStageClamps(rows: seq<Row>)
    ensures var out := CapCoverage(RaiseNegativeCoverage(rows));
      && |out| == |rows|
      && forall i :: 0 <= i < |rows| ==>
           && out[i] == rows[i].(coverage := out[i].coverage)
           && (rows[i].coverage.None? ==> out[i].coverage.None?)
           && (rows[i].coverage.Some? ==> out[i].coverage == Some(Clamp(rows[i].coverage.value)))
           && (rows[i].coverage.Some? && rows[i].coverage.value < 0.0 ==> out[i].coverage == Some(0.0))
           && (rows[i].coverage.Some? && rows[i].coverage.value > 100.0 ==> out[i].coverage == Some(100.0))
  {
  }

  // ---------------------------------------------------------------------
  // Stage 5: text columns are stripped; an empty result becomes missing
  // ---------------------------------------------------------------------

  /** Python's str.isspace() on one character. */
  predicate IsSpace(c: char) {
    var n := c as int;
    || 9 <= n <= 13 || 28 <= n <= 32 || n == 0x85 || n == 0xA0 || n == 0x1680
    || 0x2000 <= n <= 0x200A || n == 0x2028 || n == 0x2029 || n == 0x202F || n == 0x205F || n == 0x3000
  }

  function TrimStart(s: string): (t: string)
    ensures |t| <= |s| && t == s[|s| - |t|..]
    ensures forall k :: 0 <= k < |s| - |t| ==> IsSpace(s[k])
    ensures t == [] || !IsSpace(t[0])
  {
    if s != [] && IsSpace(s[0]) then TrimStart(s[1..]) else s
  }

  function TrimEnd(s: string): (t: string)
    ensures |t| <= |s| && t == s[..|t|]
    ensures forall k :: |t| <= k < |s| ==> IsSpace(s[k])
    ensures t == [] || !IsSpace(t[|t| - 1])
  {
    if s != [] && IsSpace(s[|s| - 1]) then TrimEnd(s[..|s| - 1]) else s
  }

  /** Python's str.strip(): s without its leading and trailing whitespace. */
  function Strip(s: string): (t: string)
    ensures |t| <= |s|
    ensures t == [] || (!IsSpace(t[0]) && !IsSpace(t[|t| - 1]))
  {
    var u := TrimStart(s);
    var t := TrimEnd(u);
    assert t != [] ==> t[0] == u[0];
    t
  }

  lemma {:induction false} TrimStartOfNonSpace(s: string)
    requires s == [] || !IsSpace(s[0])
    ensures TrimStart(s) == s
  {
  }

  lemma {:induction false} TrimEndOfNonSpace(s: string)
    requires s == [] || !IsSpace(s[|s| - 1])
    ensures TrimEnd(s) == s
  {
  }

  /** Stripping twice is stripping once. */
  lemma StripIsIdempotent(s: string)
    ensures Strip(Strip(s)) == Strip(s)
  {
    var t := Strip(s);
    TrimStartOfNonSpace(t);
    TrimEndOfNonSpace(t);
  }

  /** strip() leaves nothing exactly when every character is whitespace. */
  lemma StripIsEmptyIffAllSpace(s: string)
    ensures Strip(s) == [] <==> forall c :: c in s ==> IsSpace(c)
  {
    var u := TrimStart(s);
    if u != [] {
      assert !IsSpace(u[0]);
      assert s[|s| - |u|] == u[0];
    } else {
      forall c | c in s ensures IsSpace(c) {
        var k :| 0 <= k < |s| && s[k] == c;
      }
    }
  }

  /** astype(str).str.strip(), then '' replaced by NaN. A missing value turns
      into the text "nan", which survives the strip. */
  function NormalizeText(o: Option<string>): Option<string> {
    var s := if o.None? then "nan" else Strip(o.value);
    if s == "" then None else Some(s)
  }

  /** A cleaned text cell: missing, or non-empty with no surrounding whitespace. */
  predicate IsCleanText(o: Option<string>) {
    o.None? || (o.value != "" && Strip(o.value) == o.value)
  }

  /** What stripping does to a present cell: the result is clean, and it is
      missing exactly when the cell was all whitespace (the row itself is
      kept); otherwise it is the stripped text. */
  lemma NormalizePresentText(s: string)
    ensures IsCleanText(NormalizeText(Some(s)))
    ensures NormalizeText(Some(s)).None? <==> forall c :: c in s ==> IsSpace(c)
    ensures NormalizeText(Some(s)).Some? ==> NormalizeText(Some(s)).value == Strip(s)
  {
    StripIsEmptyIffAllSpace(s);
    StripIsIdempotent(s);
  }

  /** Stripping leaves every text cell clean. */
  lemma NormalizeTextIsClean(o: Option<string>)
    ensures IsCleanText(NormalizeText(o))
  {
    match o
    case None => NanIsClean();
    case Some(s) => StripIsIdempotent(s);
  }

  /** The text a missing cell is turned into is itself clean. */
  lemma NanIsClean()
    ensures NormalizeText(None) == Some("nan") && IsCleanText(Some("nan"))
  {
    assert !IsSpace('n');
    TrimStartOfNonSpace("nan");
    TrimEndOfNonSpace("nan");
    assert Strip("nan") == "nan";
  }

  /** The row after the first `done` text columns (those the table has) were stripped. */
  function NormalizeTextFields(r: Row, columns: set<Column>, done: nat): Row {
    r.(group := if 0 < done && Group in columns then NormalizeText(r.group) else r.group,
       code := if 1 < done && Code in columns then NormalizeText(r.code) else r.code,
       name := if 2 < done && Name in columns then NormalizeText(r.name) else r.name,
       antigen := if 3 < done && Antigen in columns then NormalizeText(r.antigen) else r.antigen,
       coverageCategory := if 4 < done && CoverageCategory in columns then NormalizeText(r.coverageCategory) else r.coverageCategory)
  }

  /** data[col] = data[col].astype(str).str.strip().replace('', NaN) for one text column. */
  function NormalizeColumn(rows: seq<Row>, c: Column): (out: seq<Row>)
    ensures |out| == |rows|
  {
    seq(|rows|, i requires 0 <= i < |rows| =>
      match c
      case Group => rows[i].(group := NormalizeText(rows[i].group))
      case Code => rows[i].(code := NormalizeText(rows[i].code))
      case Name => rows[i].(name := NormalizeText(rows[i].name))
      case Antigen => rows[i].(antigen := NormalizeText(rows[i].antigen))
      case CoverageCategory => rows[i].(coverageCategory := NormalizeText(rows[i].coverageCategory))
      case _ => rows[i])
  }

  /** One pass of the text loop takes the rows from `done` stripped columns to `done + 1`. */
  lemma NormalizeColumnStep(rows: seq<Row>, before: seq<Row>, columns: set<Column>, done: nat)
    requires done < |TextColumns| && |rows| == |before|
    requires forall j :: 0 <= j < |rows| ==> rows[j] == NormalizeTextFields(before[j], columns, done)
    ensures TextColumns[done] in columns ==>
      forall j :: 0 <= j < |rows| ==> NormalizeColumn(rows, TextColumns[done])[j] == NormalizeTextFields(before[j], columns, done + 1)
    ensures TextColumns[done] !in columns ==>
      forall j :: 0 <= j < |rows| ==> rows[j] == NormalizeTextFields(before[j], columns, done + 1)
  {
  }

  /** The whole text stage applied to every row. */
  function NormalizeTexts(rows: seq<Row>, columns: set<Column>): (out: seq<Row>)
    ensures |out| == |rows|
  {
    seq(|rows|, i requires 0 <= i < |rows| => NormalizeTextFields(rows[i], columns, |TextColumns|))
  }

  predicate TextsAreClean(r: Row) {
    IsCleanText(r.group) && IsCleanText(r.code) && IsCleanText(r.name)
    && IsCleanText(r.antigen) && IsCleanText(r.coverageCategory)
  }

  /** With all five text columns present, the text stage leaves every text
      cell clean and touches nothing else. */
  lemma NormalizeTextsCleans(rows: seq<Row>, columns: set<Column>)
    requires forall c :: c in TextColumns ==> c in columns
    ensures forall r :: r in NormalizeTexts(rows, columns) ==> TextsAreClean(r)
    ensures forall i :: 0 <= i < |rows| ==>
      var o := NormalizeTexts(rows, columns)[i];
      o.year == rows[i].year && o.coverage == rows[i].coverage
  {
    forall r | r in NormalizeTexts(rows, columns) ensures TextsAreClean(r) {
      var i :| 0 <= i < |rows| && NormalizeTexts(rows, columns)[i] == r;
      RowTextsAreClean(rows[i], columns);
    }
  }

  lemma RowTextsAreClean(r: Row, columns: set<Column>)
    requires forall c :: c in TextColumns ==> c in columns
    ensures TextsAreClean(NormalizeTextFields(r, columns, |TextColumns|))
  {
    assert |TextColumns| == 5;
    assert TextColumns[0] == Group && TextColumns[1] == Code && TextColumns[2] == Name;
    assert TextColumns[3] == Antigen && TextColumns[4] == CoverageCategory;
    var n := NormalizeTextFields(r, columns, |TextColumns|);
    assert n.group == NormalizeText(r.group) && n.code == NormalizeText(r.code);
    assert n.name == NormalizeText(r.name) && n.antigen == NormalizeText(r.antigen);
    assert n.coverageCategory == NormalizeText(r.coverageCategory);
    NormalizeTextIsClean(r.group);
    NormalizeTextIsClean(r.code);
    NormalizeTextIsClean(r.name);
    NormalizeTextIsClean(r.antigen);
    NormalizeTextIsClean(r.coverageCategory);
  }

  // ---------------------------------------------------------------------
  // Stage 6: duplicate (CODE, NAME, YEAR, ANTIGEN, COVERAGE_CATEGORY) rows
  // ---------------------------------------------------------------------

  /** The columns drop_duplicates compares; two missing cells count as equal. */
  datatype DuplicateKey = DuplicateKey(
    code: Option<string>, name: Option<string>, year: Option<int>,
    antigen: Option<string>, coverageCategory: Option<string>)

  function DuplicateKeyOf(r: Row): DuplicateKey {
    DuplicateKey(r.code, r.name, r.year, r.antigen, r.coverageCategory)
  }

  function DuplicateKeys(rows: seq<Row>): (ks: seq<DuplicateKey>)
    ensures |ks| == |rows|
    ensures forall r :: r in rows ==> DuplicateKeyOf(r) in ks
  {
    var ks := seq(|rows|, i requires 0 <= i < |rows| => DuplicateKeyOf(rows[i]));
    assert forall i :: 0 <= i < |rows| ==> ks[i] == DuplicateKeyOf(rows[i]);
    ks
  }

  /** drop_duplicates(subset=..., keep='first'): a row is kept unless an
      earlier row has its key (see DropDuplicatesKeys). */
  function DropDuplicates(rows: seq<Row>): (kept: seq<Row>)
    ensures |kept| <= |rows|
    ensures forall r :: r in kept ==> r in rows
  {
    if rows == [] then []
    else
      var p, last := rows[..|rows| - 1], rows[|rows| - 1];
      var d := DropDuplicates(p);
      if DuplicateKeyOf(last) in DuplicateKeys(p) then d else d + [last]
  }

  lemma DuplicateKeysAppend(rows: seq<Row>, r: Row)
    ensures DuplicateKeys(rows + [r]) == DuplicateKeys(rows) + [DuplicateKeyOf(r)]
  {
  }

  /** The keys of what drop_duplicates keeps are the distinct keys in order of
      first appearance. */
  lemma {:induction false} DropDuplicatesKeys(rows: seq<Row>)
    ensures DuplicateKeys(DropDuplicates(rows)) == Distinct(DuplicateKeys(rows))
  {
    if rows != [] {
      var p, last := rows[..|rows| - 1], rows[|rows| - 1];
      assert rows == p + [last];
      DropDuplicatesKeys(p);
      DuplicateKeysAppend(p, last);
      DistinctAppend(DuplicateKeys(p), DuplicateKeyOf(last));
      DuplicateKeysAppend(DropDuplicates(p), last);
    }
  }

  /** Each row drop_duplicates keeps is the first row with its key. */
  lemma {:induction false} DropDuplicatesKeepsFirst(rows: seq<Row>)
    ensures forall i :: 0 <= i < |DropDuplicates(rows)| ==>
      DuplicateKeyOf(DropDuplicates(rows)[i]) in DuplicateKeys(rows) &&
      DropDuplicates(rows)[i] == rows[FirstIndex(DuplicateKeys(rows), DuplicateKeyOf(DropDuplicates(rows)[i]))]
  {
    if rows != [] {
      var p, last := rows[..|rows| - 1], rows[|rows| - 1];
      assert rows == p + [last];
      DropDuplicatesKeepsFirst(p);
      DuplicateKeysAppend(p, last);
      var d, kp := DropDuplicates(p), DuplicateKeys(p);
      forall i | 0 <= i < |d|
        ensures FirstIndex(kp + [DuplicateKeyOf(last)], DuplicateKeyOf(d[i])) == FirstIndex(kp, DuplicateKeyOf(d[i]))
      {
        FirstIndexAppend(kp, DuplicateKeyOf(last), DuplicateKeyOf(d[i]));
      }
      if DuplicateKeyOf(last) !in kp {
        FirstIndexOfNew(kp, DuplicateKeyOf(last));
      }
    }
  }

  /** After drop_duplicates no two rows share a key. */
  lemma DropDuplicatesSpec(rows: seq<Row>)
    ensures NoDuplicates(DuplicateKeys(DropDuplicates(rows)))
  {
    DropDuplicatesKeys(rows);
  }

  /** Every key of the input survives drop_duplicates. */
  lemma DropDuplicatesKeepsEveryKey(rows: seq<Row>)
    ensures forall r :: r in rows ==> exists k :: k in DropDuplicates(rows) && DuplicateKeyOf(k) == DuplicateKeyOf(r)
  {
    var kept := DropDuplicates(rows);
    DropDuplicatesKeys(rows);
    forall r | r in rows ensures exists k :: k in kept && DuplicateKeyOf(k) == DuplicateKeyOf(r) {
      var i :| 0 <= i < |rows| && rows[i] == r;
      assert DuplicateKeys(rows)[i] == DuplicateKeyOf(r);
      assert DuplicateKeyOf(r) in DuplicateKeys(kept);
      var j :| 0 <= j < |kept| && DuplicateKeys(kept)[j] == DuplicateKeyOf(r);
      assert kept[j] in kept;
    }
  }

  /** drop_duplicates keeps the surviving rows in their input order. */
  lemma DropDuplicatesKeepsOrder(rows: seq<Row>)
    ensures forall r :: r in DropDuplicates(rows) ==> DuplicateKeyOf(r) in DuplicateKeys(rows)
    ensures forall i, j :: 0 <= i < j < |DropDuplicates(rows)| ==>
      FirstIndex(DuplicateKeys(rows), DuplicateKeyOf(DropDuplicates(rows)[i]))
        < FirstIndex(DuplicateKeys(rows), DuplicateKeyOf(DropDuplicates(rows)[j]))
  {
    var kept := DropDuplicates(rows);
    var ks := DuplicateKeys(rows);
    DropDuplicatesKeys(rows);
    DistinctKeepsFirstAppearanceOrder(ks);
    forall i, j | 0 <= i < j < |kept|
      ensures FirstIndex(ks, DuplicateKeyOf(kept[i])) < FirstIndex(ks, DuplicateKeyOf(kept[j]))
    {
      assert DuplicateKeys(kept)[i] == DuplicateKeyOf(kept[i]);
      assert DuplicateKeys(kept)[j] == DuplicateKeyOf(kept[j]);
    }
  }

  // ---------------------------------------------------------------------
  // Stage 7: sorting by NAME, YEAR, ANTIGEN, missing values last
  // ---------------------------------------------------------------------

  /** Ascending text order with missing values placed last. */
  predicate TextLe(a: Option<string>, b: Option<string>) {
    if a.None? then b.None? else b.None? || StrLe(a.value, b.value)
  }

  /** Ascending integer order with missing values placed last. */
  predicate YearLe(a: Option<int>, b: Option<int>) {
    if a.None? then b.None? else b.None? || a.value <= b.value
  }

  lemma TextLeIsTotalAntisymmetric(a: Option<string>, b: Option<string>, c: Option<string>)
    ensures TextLe(a, b) || TextLe(b, a)
    ensures TextLe(a, b) && TextLe(b, c) ==> TextLe(a, c)
    ensures TextLe(a, b) && TextLe(b, a) ==> a == b
  {
    if a.Some? && b.Some? {
      StrLeTotal(a.value, b.value);
      if StrLe(a.value, b.value) && StrLe(b.value, a.value) {
        StrLeAntisymmetric(a.value, b.value);
      }
      if c.Some? && StrLe(a.value, b.value) && StrLe(b.value, c.value) {
        StrLeTransitive(a.value, b.value, c.value);
      }
    }
  }

  /** sort_values(['NAME', 'YEAR', 'ANTIGEN']): lexicographic over the three columns. */
  predicate RowLe(a: Row, b: Row) {
    if a.name != b.name then TextLe(a.name, b.name)
    else if a.year != b.year then YearLe(a.year, b.year)
    else TextLe(a.antigen, b.antigen)
  }

  lemma RowLeIsTotalPreorder()
    ensures TotalPreorder(RowLe)
  {
    forall a, b ensures RowLe(a, b) || RowLe(b, a) {
      TextLeIsTotalAntisymmetric(a.name, b.name, b.name);
      TextLeIsTotalAntisymmetric(a.antigen, b.antigen, b.antigen);
    }
    forall a, b, c | RowLe(a, b) && RowLe(b, c) ensures RowLe(a, c) {
      TextLeIsTotalAntisymmetric(a.name, b.name, c.name);
      TextLeIsTotalAntisymmetric(b.name, c.name, a.name);
      TextLeIsTotalAntisymmetric(c.name, a.name, b.name);
      TextLeIsTotalAntisymmetric(a.antigen, b.antigen, c.antigen);
    }
  }

  /** The sorted table: ordered by RowLe and a permutation of its input. */
  function SortRows(rows: seq<Row>): (sorted: seq<Row>)
    ensures multiset(sorted) == multiset(rows)
    ensures SortedBy(sorted, RowLe)
  {
    RowLeIsTotalPreorder();
    SortByIsSorted(rows, RowLe);
    SortBy(rows, RowLe)
  }

  // ---------------------------------------------------------------------
  // The whole pipeline
  // ---------------------------------------------------------------------

  /** The rows after stages 1 to 5. */
  function PreparedRows(rows: seq<RawRow>, columns: set<Column>): seq<Row> {
    NormalizeTexts(CapCoverage(RaiseNegativeCoverage(KeepValidYears(CoerceNumeric(DropMissingCritical(rows))))), columns)
  }

  /** The rows after stage 6, in input order. */
  function DedupedRows(rows: seq<RawRow>, columns: set<Column>): seq<Row> {
    DropDuplicates(PreparedRows(rows, columns))
  }

  /** What a cleaned row satisfies: a year in 1980..2025, a coverage in 0..100
      and clean text cells. */
  predicate IsCleanRow(r: Row) {
    InYearRange(r) && r.coverage.Some? && 0.0 <= r.coverage.value <= 100.0 && TextsAreClean(r)
  }

  /** Every row that leaves stage 5 is clean when all text columns are present. */
  lemma PreparedRowsAreClean(rows: seq<RawRow>, columns: set<Column>)
    requires forall c :: c in TextColumns ==> c in columns
    ensures forall r :: r in PreparedRows(rows, columns) ==> IsCleanRow(r)
  {
    var valid := KeepValidYears(CoerceNumeric(DropMissingCritical(rows)));
    var clamped := CapCoverage(RaiseNegativeCoverage(valid));
    CoverageStageClamps(valid);
    NormalizeTextsCleans(clamped, columns);
    forall r | r in PreparedRows(rows, columns) ensures IsCleanRow(r) {
      var i :| 0 <= i < |clamped| && PreparedRows(rows, columns)[i] == r;
      assert valid[i] in valid;
    }
  }

  /** The cleaned rows: stages 1 to 7. */
  function CleanRows(rows: seq<RawRow>, columns: set<Column>): seq<Row> {
    SortRows(DedupedRows(rows, columns))
  }

  datatype CleanError =
    | FileNotFound
    | MissingColumns(columns: seq<Column>)
    | ZeroDivision

  /** The outcome of cleaning: the error raised, or the cleaned table. */
  function CleanOutcome(input: Option<RawTable>): Result<Table, CleanError> {
    if input.None? then Err(FileNotFound)
    else
      var raw := input.value;
      var missing := MissingColumnsOf(RequiredColumns, raw.columns);
      if missing != [] then Err(MissingColumns(missing))
      else if CoverageCategory !in raw.columns then Err(MissingColumns([CoverageCategory]))
      else if |raw.rows| == 0 then Err(ZeroDivision)
      else Ok(Table(CleanRows(raw.rows, raw.columns), raw.columns))
  }

  /** The loop of stage 5: each text column the table has is stripped in turn. */
  method StripTextColumns(rows: seq<Row>, columns: set<Column>) returns (out: seq<Row>)
    ensures out == NormalizeTexts(rows, columns)
  {
    out := rows;
    for i := 0 to |TextColumns|
      invariant |out| == |rows|
      invariant forall j :: 0 <= j < |out| ==> out[j] == NormalizeTextFields(rows[j], columns, i)
    {
      NormalizeColumnStep(out, rows, columns, i);
      if TextColumns[i] in columns {
        out := NormalizeColumn(out, TextColumns[i]);
      }
    }
  }

  /** clean_vaccination_data: `input` is the raw CSV, None when the file does
      not exist. Each stage rebinds the working table as the source does. */
  method CleanVaccinationData(input: Option<RawTable>) returns (result: Result<Table, CleanError>)
    ensures result == CleanOutcome(input)
    ensures result.Ok? ==>
      var raw, out := input.value, result.value;
      && out.columns == raw.columns
      && |out.rows| <= |raw.rows|
      && multiset(out.rows) == multiset(DedupedRows(raw.rows, raw.columns))
      && SortedBy(out.rows, RowLe)
      && NoDuplicates(DuplicateKeys(out.rows))
      && forall r :: r in out.rows ==> IsCleanRow(r)
  {
    if input.None? {
      return Err(FileNotFound);
    }
    var raw := input.value;
    var initialRows := |raw.rows|;

    // Stage 1
    var missing := MissingColumnsOf(RequiredColumns, raw.columns);
    if missing != [] {
      return Err(MissingColumns(missing));
    }
    var data := DropMissingCritical(raw.rows);
    // Stage 2
    var rows := CoerceNumeric(data);
    // Stage 3
    rows := KeepValidYears(rows);
    // Stage 4
    rows := RaiseNegativeCoverage(rows);
    rows := CapCoverage(rows);
    // Stage 5
    rows := StripTextColumns(rows, raw.columns);
    // Stage 6
    if CoverageCategory !in raw.columns {
      return Err(MissingColumns([CoverageCategory]));
    }
    rows := DropDuplicates(rows);
    // Stage 7
    rows := SortRows(rows);
    if initialRows == 0 {
      return Err(ZeroDivision);
    }

    CleanRowsSpec(raw.rows, raw.columns);
    result := Ok(Table(rows, raw.columns));
  }

  /** Every row the pipeline outputs is clean when all required and text
      columns are present. */
  lemma CleanRowsAreClean(rows: seq<RawRow>, columns: set<Column>)
    requires MissingColumnsOf(RequiredColumns, columns) == [] && CoverageCategory in columns
    ensures forall r :: r in CleanRows(rows, columns) ==> IsCleanRow(r)
  {
    assert forall c :: c in TextColumns ==> c in columns by {
      assert forall c :: c in RequiredColumns ==> c in columns;
    }
    PreparedRowsAreClean(rows, columns);
    forall r | r in CleanRows(rows, columns) ensures IsCleanRow(r) {
      assert r in multiset(DedupedRows(rows, columns));
    }
  }

  lemma DuplicateKeysIsMap(rows: seq<Row>)
    ensures DuplicateKeys(rows) == Map(rows, DuplicateKeyOf)
  {
  }

  /** No two cleaned rows share a duplicate key. */
  lemma CleanRowsHaveDistinctKeys(rows: seq<RawRow>, columns: set<Column>)
    ensures NoDuplicates(DuplicateKeys(CleanRows(rows, columns)))
  {
    var deduped := DedupedRows(rows, columns);
    DropDuplicatesSpec(PreparedRows(rows, columns));
    DuplicateKeysIsMap(deduped);
    MapSortByNoDuplicates(deduped, RowLe, DuplicateKeyOf);
    DuplicateKeysIsMap(SortBy(deduped, RowLe));
  }

  /** What the cleaned rows satisfy whenever all required and text columns are
      present: no more rows than the input, a sorted permutation of the
      de-duplicated rows, no two rows with the same duplicate key, and every
      row clean. */
  lemma CleanRowsSpec(rows: seq<RawRow>, columns: set<Column>)
    requires MissingColumnsOf(RequiredColumns, columns) == [] && CoverageCategory in columns
    ensures var out := CleanRows(rows, columns);
      && |out| <= |rows|
      && multiset(out) == multiset(DedupedRows(rows, columns))
      && SortedBy(out, RowLe)
      && NoDuplicates(DuplicateKeys(out))
      && forall r :: r in out ==> IsCleanRow(r)
  {
    CleanRowsAreClean(rows, columns);
    CleanRowsHaveDistinctKeys(rows, columns);
  }

  // ---------------------------------------------------------------------
  // Validation
  // ---------------------------------------------------------------------

  /** A row the validator has nothing against: every required cell present,
      a year in 1980..2025 and a coverage in 0..100. */
  predicate IsValidRow(r: Row) {
    r.group.Some? && r.code.Some? && r.name.Some? && r.antigen.Some?
    && InYearRange(r) && r.coverage.Some? && 0.0 <= r.coverage.value <= 100.0
  }

  /** A table the validator accepts: all required columns, all rows valid. */
  predicate IsValidTable(t: Table) {
    (forall c :: c in RequiredColumns ==> c in t.columns) && forall r :: r in t.rows ==> IsValidRow(r)
  }

  /** One problem the validator reports. */
  datatype Issue =
    | MissingColumn(column: Column)
    | MissingValues(column: Column, count: nat)
    | CoverageOutOfRange
    | InvalidYears

  predicate HasCoverageOutsideRange(rows: seq<Row>) {
    exists r :: r in rows && r.coverage.Some? && (r.coverage.value < 0.0 || r.coverage.value > 100.0)
  }

  predicate HasYearOutsideRange(rows: seq<Row>) {
    exists r :: r in rows && r.year.Some? && (r.year.value < MinYear || r.year.value > CurrentYear)
  }

  /** Whether the validator reports issue x about t. */
  predicate Reports(t: Table, x: Issue) {
    match x
    case MissingColumn(c) => c in RequiredColumns && c !in t.columns
    case MissingValues(c, n) => c in RequiredColumns && c in t.columns && n == CountMissing(t.rows, c) && n > 0
    case CoverageOutOfRange => Coverage in t.columns && HasCoverageOutsideRange(t.rows)
    case InvalidYears => Year in t.columns && HasYearOutsideRange(t.rows)
  }

  /** The validator reports nothing exactly when the table is valid. */
  lemma NoIssuesIffValid(t: Table)
    ensures (forall x :: !Reports(t, x)) <==> IsValidTable(t)
  {
    if forall x :: !Reports(t, x) {
      forall c | c in RequiredColumns ensures c in t.columns && CountMissing(t.rows, c) == 0 {
        assert !Reports(t, MissingColumn(c));
        assert !Reports(t, MissingValues(c, CountMissing(t.rows, c)));
      }
      assert !Reports(t, CoverageOutOfRange) && !Reports(t, InvalidYears);
      forall r | r in t.rows ensures IsValidRow(r) {
        forall c | c in RequiredColumns ensures Cell(r, c).Some? {
          assert CountMissing(t.rows, c) == 0;
        }
        assert Group in RequiredColumns && Code in RequiredColumns && Name in RequiredColumns;
        assert Year in RequiredColumns && Antigen in RequiredColumns && Coverage in RequiredColumns;
      }
    }
    if IsValidTable(t) {
      forall c | c in RequiredColumns ensures CountMissing(t.rows, c) == 0 {
        forall r | r in t.rows ensures Cell(r, c).Some? {
          assert IsValidRow(r);
        }
      }
    }
  }

  /** validate_cleaned_data: the issues found, and whether there were none. */
  method ValidateCleanedData(t: Table) returns (valid: bool, issues: seq<Issue>)
    ensures forall x :: x in issues <==> Reports(t, x)
    ensures valid <==> issues == []
    ensures valid <==> IsValidTable(t)
  {
    issues := [];
    for i := 0 to |RequiredColumns|
      invariant forall x :: x in issues <==> x.MissingColumn? && x.column in RequiredColumns[..i] && x.column !in t.columns
    {
      assert RequiredColumns[..i + 1] == RequiredColumns[..i] + [RequiredColumns[i]];
      if RequiredColumns[i] !in t.columns {
        issues := issues + [MissingColumn(RequiredColumns[i])];
      }
    }
    assert RequiredColumns[..|RequiredColumns|] == RequiredColumns;
    for i := 0 to |RequiredColumns|
      invariant forall x :: x in issues <==>
        (x.MissingColumn? && Reports(t, x)) || (x.MissingValues? && x.column in RequiredColumns[..i] && Reports(t, x))
    {
      assert RequiredColumns[..i + 1] == RequiredColumns[..i] + [RequiredColumns[i]];
      var c := RequiredColumns[i];
      if c in t.columns {
        var missing := CountMissing(t.rows, c);
        if missing > 0 {
          issues := issues + [MissingValues(c, missing)];
        }
      }
    }
    if Coverage in t.columns && HasCoverageOutsideRange(t.rows) {
      issues := issues + [CoverageOutOfRange];
    }
    if Year in t.columns && HasYearOutsideRange(t.rows) {
      issues := issues + [InvalidYears];
    }
    valid := issues == [];
    NoIssuesIffValid(t);
    if issues != [] {
      assert issues[0] in issues;
    }
  }

  // ---------------------------------------------------------------------
  // Quality report
  // ---------------------------------------------------------------------

  /** The percentage of present cells in a column of `total` rows with
      `missing` missing ones; None (NaN) for a table without rows. */
  function Completeness(missing: nat, total: nat): (p: Option<real>)
    requires missing <= total
    ensures p.Some? <==> total > 0
    ensures p.Some? ==> 0.0 <= p.value <= 100.0
    ensures p.Some? ==> (p.value == 100.0 <==> missing == 0)
    ensures p.Some? ==> (p.value == 0.0 <==> missing == total)
  {
    if total == 0 then None
    else
      var ratio := (missing as real) / (total as real);
      RatioBounds(missing as real, total as real);
      Some((1.0 - ratio) * 100.0)
  }

  /** The share of missing cells lies in [0, 1]; it is 0 exactly when none
      is missing and 1 exactly when all are. */
  lemma RatioBounds(m: real, n: real)
    requires 0.0 <= m <= n && n > 0.0
    ensures 0.0 <= m / n <= 1.0
    ensures m / n == 0.0 <==> m == 0.0
    ensures m / n == 1.0 <==> m == n
  {
    QuotientBounds(m, n, 0.0, 1.0);
    assert (m / n) * n == m;
  }

  datatype QualityReport = QualityReport(
    totalRecords: nat,
    countries: nat,
    years: nat,
    antigens: nat,
    coverageMean: Option<real>,
    missingValues: map<Column, nat>,
    dataCompleteness: map<Column, Option<real>>)

  /** get_data_quality_report: sizes, distinct counts, the coverage mean
      (0 without a COVERAGE column, NaN with no coverage value), and
      per-column missing counts and completeness percentages. */
  function GetDataQualityReport(t: Table): (q: QualityReport)
    ensures q.totalRecords == |t.rows|
    ensures q.countries == DistinctOrZero(t, Name) && q.years == DistinctOrZero(t, Year)
    ensures q.antigens == DistinctOrZero(t, Antigen)
    ensures q.missingValues.Keys == t.columns && q.dataCompleteness.Keys == t.columns
    ensures forall c :: c in t.columns ==>
      && q.missingValues[c] <= |t.rows|
      && (q.missingValues[c] == 0 <==> forall r :: r in t.rows ==> Cell(r, c).Some?)
      && (q.dataCompleteness[c].Some? <==> |t.rows| > 0)
    ensures forall c :: c in t.columns && |t.rows| > 0 ==>
      && 0.0 <= q.dataCompleteness[c].value <= 100.0
      && (q.dataCompleteness[c].value == 100.0 <==> forall r :: r in t.rows ==> Cell(r, c).Some?)
    ensures q.coverageMean == CoverageMean(t)
  {
    var missing := map c | c in t.columns :: CountMissing(t.rows, c);
    QualityReport(
      |t.rows|,
      DistinctOrZero(t, Name),
      DistinctOrZero(t, Year),
      DistinctOrZero(t, Antigen),
      CoverageMean(t),
      missing,
      map c | c in t.columns :: Completeness(missing[c], |t.rows|))
  }

  /** The mean of the present coverage values; 0 when there is no COVERAGE
      column, None (NaN) when it holds no value. */
  function CoverageMean(t: Table): (m: Option<real>)
    ensures Coverage !in t.columns ==> m == Some(0.0)
    ensures Coverage in t.columns ==> (m.Some? <==> exists r :: r in t.rows && r.coverage.Some?)
    ensures Coverage in t.columns ==> m == Mean(NumericValues(t.rows, Coverage))
  {
    var values := NumericValues(t.rows, Coverage);
    assert values != [] ==> values[0] in values;
    assert values != [] <==> exists r :: r in t.rows && r.coverage.Some? by {
      if exists r :: r in t.rows && r.coverage.Some? {
        var r :| r in t.rows && r.coverage.Some?;
        assert r.coverage.value in values;
      }
    }
    if Coverage in t.columns then Mean(values) else Some(0.0)
  }

  /** The reported coverage mean lies within the coverage values present,
      hence within 0..100 on a valid table. */
  lemma QualityReportCoverageBounds(t: Table)
    requires Coverage in t.columns && exists r :: r in t.rows && r.coverage.Some?
    ensures var values, mean := NumericValues(t.rows, Coverage), CoverageMean(t);
      && values != [] && mean.Some?
      && Min(values) <= mean.value <= Max(values)
      && (IsValidTable(t) ==> 0.0 <= mean.value <= 100.0)
  {
    var values := NumericValues(t.rows, Coverage);
    assert values != [];
    MeanBetweenMinAndMax(values);
    if IsValidTable(t) {
      assert forall v :: v in values ==> 0.0 <= v <= 100.0;
    }
  }

  /** On a valid table with rows, every required column is 100% complete. */
  lemma ValidTableIsComplete(t: Table)
    requires IsValidTable(t) && |t.rows| > 0
    ensures forall c :: c in RequiredColumns ==> GetDataQualityReport(t).dataCompleteness[c] == Some(100.0)
  {
    forall c | c in RequiredColumns ensures GetDataQualityReport(t).dataCompleteness[c] == Some(100.0) {
      forall r | r in t.rows ensures Cell(r, c).Some? {
        assert IsValidRow(r);
      }
    }
  }

  // ---------------------------------------------------------------------
  // Blank critical text survives cleaning
  // ---------------------------------------------------------------------

  /** Every column of the coverage CSV. */
  const AllColumns: set<Column> :=
    {Group, Code, Name, Year, Antigen, AntigenDescription, CoverageCategory,
     CoverageCategoryDescription, TargetNumber, Doses, Coverage}

  /** A raw row whose NAME holds a single blank and is otherwise in order. */
  function BlankNameRow(): RawRow {
    RawRow(Some("EUR"), Some("ABW"), Some(" "), Some(Number(2020.0)), Some("MCV1"), None,
           Some("WUENIC"), None, None, None, Some(Number(95.0)))
  }

  /** The typed form of BlankNameRow: NAME still a blank. */
  function BlankNameTyped(): Row {
    Row(Some("EUR"), Some("ABW"), Some(" "), Some(2020), Some("MCV1"), None,
        Some("WUENIC"), None, None, None, Some(95.0))
  }

  lemma BlankNameStagesOneToFour()
    ensures CapCoverage(RaiseNegativeCoverage(KeepValidYears(CoerceNumeric(DropMissingCritical([BlankNameRow()])))))
         == [BlankNameTyped()]
  {
    var raw, typed := BlankNameRow(), BlankNameTyped();
    FilterKeepsAll([raw], HasCriticalValues);
    assert TruncateToInt(2020.0) == 2020;
    assert Coerce(raw) == Some(typed);
    var c := CoerceNumeric([raw]);
    assert typed in c;
    assert c == [typed];
    FilterKeepsAll([typed], InYearRange);
  }

  /** Text without surrounding whitespace passes stage 5 unchanged. */
  lemma NormalizeTrimmedText(s: string)
    requires s != [] && !IsSpace(s[0]) && !IsSpace(s[|s| - 1])
    ensures NormalizeText(Some(s)) == Some(s)
  {
    TrimStartOfNonSpace(s);
    TrimEndOfNonSpace(s);
  }

  lemma BlankNameRowStageFive()
    ensures NormalizeTextFields(BlankNameTyped(), AllColumns, |TextColumns|) == BlankNameTyped().(name := None)
  {
    var r := BlankNameTyped();
    assert |TextColumns| == 5;
    assert Group in AllColumns && Code in AllColumns && Name in AllColumns;
    assert Antigen in AllColumns && CoverageCategory in AllColumns;
    TrimmedTextsStayPut();
    BlankTextBecomesMissing();
  }

  lemma TrimmedTextsStayPut()
    ensures NormalizeText(Some("EUR")) == Some("EUR") && NormalizeText(Some("ABW")) == Some("ABW")
    ensures NormalizeText(Some("MCV1")) == Some("MCV1") && NormalizeText(Some("WUENIC")) == Some("WUENIC")
  {
    NormalizeTrimmedText("EUR");
    NormalizeTrimmedText("ABW");
    NormalizeTrimmedText("MCV1");
    NormalizeTrimmedText("WUENIC");
  }

  lemma BlankTextBecomesMissing()
    ensures NormalizeText(Some(" ")) == None
  {
    StripIsEmptyIffAllSpace(" ");
  }

  lemma BlankNameStageFive()
    ensures NormalizeTexts([BlankNameTyped()], AllColumns) == [BlankNameTyped().(name := None)]
  {
    BlankNameRowStageFive();
  }

  /** A single row passes de-duplication and sorting unchanged. */
  lemma SingleRowStagesSixSeven(r: Row)
    ensures SortRows(DropDuplicates([r])) == [r]
  {
    assert [r][..0] == [];
  }

  /** As written, the blank NAME passes stage 1 (it is not missing yet), is
      stripped to missing in stage 5, and the row is kept: the cleaner's own
      output then fails validation. */
  lemma BlankNameSurvivesCleaning()
    ensures var out := CleanRows([BlankNameRow()], AllColumns);
      |out| == 1 && out[0].name.None? && !IsValidTable(Table(out, AllColumns))
  {
    BlankNameStagesOneToFour();
    BlankNameStageFive();
    var n := BlankNameTyped().(name := None);
    SingleRowStagesSixSeven(n);
    assert CleanRows([BlankNameRow()], AllColumns) == [n];
    assert !IsValidRow(n);
  }

  /** Rows whose critical text is still present after stripping. */
  predicate HasCriticalText(r: Row) {
    r.group.Some? && r.code.Some? && r.name.Some? && r.antigen.Some?
  }

  /** The cleaning as evidently intended: a critical text cell that strips to
      nothing counts as missing, so its row is dropped before de-duplication. */
  function CorrectedCleanRows(rows: seq<RawRow>, columns: set<Column>): seq<Row> {
    SortRows(DropDuplicates(Filter(PreparedRows(rows, columns), HasCriticalText)))
  }

  /** Every row the corrected stage 5 output keeps is a valid row. */
  lemma CorrectedPreparedRowsAreValid(rows: seq<RawRow>, columns: set<Column>)
    requires MissingColumnsOf(RequiredColumns, columns) == [] && CoverageCategory in columns
    ensures forall r :: r in Filter(PreparedRows(rows, columns), HasCriticalText) ==> IsValidRow(r)
  {
    assert forall c :: c in RequiredColumns ==> c in columns;
    assert forall c :: c in TextColumns ==> c in columns;
    PreparedRowsAreClean(rows, columns);
  }

  /** The corrected cleaning always yields a table the validator accepts. */
  lemma CorrectedCleanRowsAreValid(rows: seq<RawRow>, columns: set<Column>)
    requires MissingColumnsOf(RequiredColumns, columns) == [] && CoverageCategory in columns
    ensures IsValidTable(Table(CorrectedCleanRows(rows, columns), columns))
  {
    assert forall c :: c in RequiredColumns ==> c in columns;
    CorrectedPreparedRowsAreValid(rows, columns);
    var deduped := DropDuplicates(Filter(PreparedRows(rows, columns), HasCriticalText));
    forall r | r in CorrectedCleanRows(rows, columns) ensures IsValidRow(r) {
      assert r in multiset(deduped);
    }
  }

  /** The correction changes nothing on input without blank critical text. */
  lemma CorrectionAgreesWithoutBlankText(rows: seq<RawRow>, columns: set<Column>)
    requires forall r :: r in PreparedRows(rows, columns) ==> HasCriticalText(r)
    ensures CorrectedCleanRows(rows, columns) == CleanRows(rows, columns)
  {
    FilterKeepsAll(PreparedRows(rows, columns), HasCriticalText);
  }
}
