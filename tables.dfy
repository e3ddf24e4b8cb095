/** The tabular data model: one vaccination-coverage observation per row, a
    table as its rows plus the set of columns it has, and the orders pandas
    and Python sort these values by. */
module Tables {
  import opened Wrappers
  import opened Seqs

  /** The columns of the coverage CSV, in file order: GROUP, CODE, NAME, YEAR,
      ANTIGEN, ANTIGEN_DESCRIPTION, COVERAGE_CATEGORY,
      COVERAGE_CATEGORY_DESCRIPTION, TARGET_NUMBER, DOSES, COVERAGE. */
  datatype Column =
    | Group | Code | Name | Year | Antigen | AntigenDescription
    | CoverageCategory | CoverageCategoryDescription | TargetNumber | Doses | Coverage

  /** A cell's content seen generically, for operations parameterised by a column. */
  datatype Value = IntValue(i: int) | RealValue(r: real) | TextValue(s: string)

  /** One observation; None is a missing cell (pandas NaN). */
  datatype Row = Row(
    group: Option<string>,
    code: Option<string>,
    name: Option<string>,
    year: Option<int>,
    antigen: Option<string>,
    antigenDescription: Option<string>,
    coverageCategory: Option<string>,
    coverageCategoryDescription: Option<string>,
    targetNumber: Option<int>,
    doses: Option<int>,
    coverage: Option<real>)

  /** A DataFrame: its rows in order and the columns it has. A column outside
      `columns` is absent, whatever the rows hold in that field. */
  datatype Table = Table(rows: seq<Row>, columns: set<Column>)

  function TextCell(o: Option<string>): Option<Value> {
    if o.Some? then Some(TextValue(o.value)) else None
  }

  function IntCell(o: Option<int>): Option<Value> {
    if o.Some? then Some(IntValue(o.value)) else None
  }

  /** The cell of row r in column c. */
  function Cell(r: Row, c: Column): Option<Value> {
    match c
    case Group => TextCell(r.group)
    case Code => TextCell(r.code)
    case Name => TextCell(r.name)
    case Year => IntCell(r.year)
    case Antigen => TextCell(r.antigen)
    case AntigenDescription => TextCell(r.antigenDescription)
    case CoverageCategory => TextCell(r.coverageCategory)
    case CoverageCategoryDescription => TextCell(r.coverageCategoryDescription)
    case TargetNumber => IntCell(r.targetNumber)
    case Doses => IntCell(r.doses)
    case Coverage => if r.coverage.Some? then Some(RealValue(r.coverage.value)) else None
  }

  /** The column c of rows, top to bottom (pandas data[c]). */
  function Cells(rows: seq<Row>, c: Column): seq<Option<Value>> {
    seq(|rows|, i requires 0 <= i < |rows| => Cell(rows[i], c))
  }

  predicate IsNumeric(c: Column) {
    c == Year || c == TargetNumber || c == Doses || c == Coverage
  }

  /** A numeric column of the table, as the value pandas averages or sums. */
  type NumericColumn = c: Column | IsNumeric(c) witness Coverage

  function NumericCell(r: Row, c: NumericColumn): Option<real> {
    match c
    case Year => if r.year.Some? then Some(r.year.value as real) else None
    case TargetNumber => if r.targetNumber.Some? then Some(r.targetNumber.value as real) else None
    case Doses => if r.doses.Some? then Some(r.doses.value as real) else None
    case Coverage => r.coverage
  }

  /** The present values of numeric column c, top to bottom (data[c].dropna()). */
  function NumericValues(rows: seq<Row>, c: NumericColumn): (vs: seq<real>)
    ensures |vs| <= |rows|
    ensures forall v :: v in vs <==> exists r :: r in rows && NumericCell(r, c) == Some(v)
  {
    if rows == [] then []
    else
      var rest := NumericValues(rows[1..], c);
      assert forall r :: r in rows <==> r == rows[0] || r in rows[1..];
      if NumericCell(rows[0], c).Some? then [NumericCell(rows[0], c).value] + rest else rest
  }

  /** pandas DataFrame.empty: no rows, or no columns at all. */
  predicate IsEmpty(t: Table) {
    |t.rows| == 0 || t.columns == {}
  }

  /** The columns of `required` the table lacks, in the order listed. */
  function MissingColumnsOf(required: seq<Column>, columns: set<Column>): (missing: seq<Column>)
    ensures |missing| <= |required|
    ensures forall c :: c in missing <==> c in required && c !in columns
  {
    Filter(required, c => c !in columns)
  }

  /** pandas nunique(): how many distinct present values column c holds. */
  function NUnique(rows: seq<Row>, c: Column): nat {
    |Distinct(Present(Cells(rows, c)))|
  }

  /** A column never holds more distinct values than the table has rows. */
  lemma NUniqueAtMostRows(rows: seq<Row>, c: Column)
    ensures NUnique(rows, c) <= |rows|
  {
  }

  /** nunique() of column c as the pages report it: 0 when the table lacks
      the column. */
  function DistinctOrZero(t: Table, c: Column): (n: nat)
    ensures n <= |t.rows|
    ensures c !in t.columns ==> n == 0
    ensures c in t.columns ==> n == |Distinct(Present(Cells(t.rows, c)))|
  {
    NUniqueAtMostRows(t.rows, c);
    if c in t.columns then NUnique(t.rows, c) else 0
  }

  /** The number of missing cells of column c (data[c].isna().sum()). */
  function CountMissing(rows: seq<Row>, c: Column): (n: nat)
    ensures n <= |rows|
    ensures n == 0 <==> forall r :: r in rows ==> Cell(r, c).Some?
  {
    if rows == [] then 0
    else (if Cell(rows[0], c).None? then 1 else 0) + CountMissing(rows[1..], c)
  }

  // ---------------------------------------------------------------------
  // Orders
  // ---------------------------------------------------------------------

  /** Python's order on strings: lexicographic by code point, a proper prefix first. */
  predicate StrLe(a: string, b: string) {
    if a == [] then true
    else if b == [] then false
    else if a[0] != b[0] then a[0] < b[0]
    else StrLe(a[1..], b[1..])
  }

  lemma {:induction false} StrLeTotal(a: string, b: string)
    ensures StrLe(a, b) || StrLe(b, a)
  {
    if a != [] && b != [] && a[0] == b[0] {
      StrLeTotal(a[1..], b[1..]);
    }
  }

  lemma {:induction false} StrLeTransitive(a: string, b: string, c: string)
    requires StrLe(a, b) && StrLe(b, c)
    ensures StrLe(a, c)
  {
    if a != [] && b != [] && c != [] && a[0] == b[0] && b[0] == c[0] {
      StrLeTransitive(a[1..], b[1..], c[1..]);
    }
  }

  lemma {:induction false} StrLeAntisymmetric(a: string, b: string)
    requires StrLe(a, b) && StrLe(b, a)
    ensures a == b
  {
    if a != [] && b != [] {
      StrLeAntisymmetric(a[1..], b[1..]);
      assert a == [a[0]] + a[1..] && b == [b[0]] + b[1..];
    }
  }

  lemma StrLeIsTotalPreorder()
    ensures TotalPreorder(StrLe)
  {
    forall a, b ensures StrLe(a, b) || StrLe(b, a) {
      StrLeTotal(a, b);
    }
    forall a, b, c | StrLe(a, b) && StrLe(b, c) ensures StrLe(a, c) {
      StrLeTransitive(a, b, c);
    }
  }

  predicate IntLe(a: int, b: int) {
    a <= b
  }

  function KindRank(v: Value): nat {
    match v
    case IntValue(_) => 0
    case RealValue(_) => 1
    case TextValue(_) => 2
  }

  /** The order pandas sorts group keys by: numbers numerically, text as
      Python strings. A column holds one kind of value; across kinds the
      order is fixed arbitrarily so that it stays total. */
  predicate ValueLe(a: Value, b: Value) {
    if KindRank(a) != KindRank(b) then KindRank(a) < KindRank(b)
    else match a
      case IntValue(x) => x <= b.i
      case RealValue(x) => x <= b.r
      case TextValue(x) => StrLe(x, b.s)
  }

  lemma ValueLeTotal(a: Value, b: Value)
    ensures ValueLe(a, b) || ValueLe(b, a)
  {
    if a.TextValue? && b.TextValue? {
      StrLeTotal(a.s, b.s);
    }
  }

  lemma ValueLeTransitive(a: Value, b: Value, c: Value)
    requires ValueLe(a, b) && ValueLe(b, c)
    ensures ValueLe(a, c)
  {
    if a.TextValue? && b.TextValue? && c.TextValue? {
      StrLeTransitive(a.s, b.s, c.s);
    }
  }

  lemma ValueLeAntisymmetric(a: Value, b: Value)
    requires ValueLe(a, b) && ValueLe(b, a)
    ensures a == b
  {
    if a.TextValue? && b.TextValue? {
      StrLeAntisymmetric(a.s, b.s);
    }
  }

  /** The order of multi-column group keys: lexicographic, column by column. */
  predicate KeyLe(a: seq<Value>, b: seq<Value>) {
    if a == [] then true
    else if b == [] then false
    else if a[0] != b[0] then ValueLe(a[0], b[0])
    else KeyLe(a[1..], b[1..])
  }

  lemma {:induction false} KeyLeTotal(a: seq<Value>, b: seq<Value>)
    ensures KeyLe(a, b) || KeyLe(b, a)
  {
    if a != [] && b != [] {
      if a[0] != b[0] {
        ValueLeTotal(a[0], b[0]);
      } else {
        KeyLeTotal(a[1..], b[1..]);
      }
    }
  }

  lemma {:induction false} KeyLeTransitive(a: seq<Value>, b: seq<Value>, c: seq<Value>)
    requires KeyLe(a, b) && KeyLe(b, c)
    ensures KeyLe(a, c)
  {
    if a != [] && b != [] && c != [] {
      if a[0] == b[0] && b[0] == c[0] {
        KeyLeTransitive(a[1..], b[1..], c[1..]);
      } else if a[0] != b[0] && b[0] != c[0] {
        ValueLeTransitive(a[0], b[0], c[0]);
        if a[0] == c[0] {
          ValueLeAntisymmetric(a[0], b[0]);
        }
      }
    }
  }

  lemma KeyLeIsTotalPreorder()
    ensures TotalPreorder(KeyLe)
  {
    forall a, b ensures KeyLe(a, b) || KeyLe(b, a) {
      KeyLeTotal(a, b);
    }
    forall a, b, c | KeyLe(a, b) && KeyLe(b, c) ensures KeyLe(a, c) {
      KeyLeTransitive(a, b, c);
    }
  }
}
