/** The reshaper: finds the year columns of the wide GDP table and melts the
    table into one row per (country, year), plus the small summaries taken
    from the wide and the long table. Reading the CSV file is not modelled;
    the loaded frame is the input. */
module DataLoader {
  import opened Frames
  import opened Sorting

  const YearLabel := "Year"
  const ValueLabel := "GDP_Value"
  const ContinentLabel := "Continent"
  const CountryLabel := "Country Name"

  /** A column whose label is all digits and whose value lies in 1900..2100. */
  predicate IsYearLabel(c: string)
  {
    IsDigitString(c) && 1900 <= DigitsValue(c) <= 2100
  }

  /** The year columns, sorted as strings. */
  function GetYearColumns(df: Frame): (r: seq<string>)
    ensures forall c :: c in r <==> c in df.columns && IsYearLabel(c)
    ensures |r| == Count(df.columns, IsYearLabel)
    ensures SortedBy(r, StrLe)
  {
    var f := Filter(df.columns, IsYearLabel);
    StrLeIsTotalPreorder();
    var r := SortBy(f, StrLe);
    assert |r| == |multiset(r)| == |multiset(f)| == |f|;
    assert forall c :: c in r <==> c in multiset(f);
    r
  }

  /** The columns that are not year columns, in their original order. */
  function GetMetadataColumns(df: Frame): (r: seq<string>)
    ensures forall c :: c in r <==> c in df.columns && !IsYearLabel(c)
    ensures IsSubsequence(r, df.columns)
  {
    var years := GetYearColumns(df);
    Filter(df.columns, c => c !in years)
  }

  /** Year and metadata columns split the column list: every label lands in
      exactly one of the two, as often as it occurs. */
  lemma YearAndMetadataPartitionColumns(df: Frame)
    ensures multiset(GetYearColumns(df)) + multiset(GetMetadataColumns(df)) == multiset(df.columns)
  {
    var years := GetYearColumns(df);
    StrLeIsTotalPreorder();
    FilterCongruent(df.columns, c => c !in years, c => !IsYearLabel(c));
    FilterPartition(df.columns, IsYearLabel, c => !IsYearLabel(c));
  }

  /** Taking the year columns of a table whose columns are already the year
      columns gives them back unchanged. */
  lemma YearColumnsIdempotent(df: Frame)
    ensures GetYearColumns(Frame(GetYearColumns(df), df.rows)) == GetYearColumns(df)
  {
    var years := GetYearColumns(df);
    StrLeIsTotalPreorder();
    FilterKeepsAll(years, IsYearLabel);
    SortSortedIsIdentity(years, StrLe);
  }

  /** The sort is by text; when every year label has four digits that is the
      order of the years themselves. */
  lemma YearColumnsInNumericOrder(df: Frame)
    requires forall c :: c in GetYearColumns(df) ==> |c| == 4
    ensures var r := GetYearColumns(df);
            forall i, j :: 0 <= i < j < |r| ==>
              AllDigits(r[i]) && AllDigits(r[j]) && DigitsValue(r[i]) <= DigitsValue(r[j])
  {
    var r := GetYearColumns(df);
    forall k | 0 <= k < |r| ensures AllDigits(r[k]) && |r[k]| == 4 {
      assert r[k] in r;
      assert IsYearLabel(r[k]);
    }
    SortedDigitsInNumericOrder(r);
  }

  lemma SortedDigitsInNumericOrder(r: seq<string>)
    requires SortedBy(r, StrLe)
    requires forall k :: 0 <= k < |r| ==> AllDigits(r[k]) && |r[k]| == 4
    ensures forall i, j :: 0 <= i < j < |r| ==> DigitsValue(r[i]) <= DigitsValue(r[j])
  {
    forall i, j | 0 <= i < j < |r| ensures DigitsValue(r[i]) <= DigitsValue(r[j]) {
      StrLeIsNumericOrder(r[i], r[j]);
    }
  }

  // ---- melting to long format ----------------------------------------------

  /** `astype(float)` of one cell: text must spell a number, or the cast
      raises. */
  function AsFloat(c: Cell): Option<Cell>
  {
    match c
    case Missing => Some(Missing)
    case Num(_) => Some(c)
    case Str(s) =>
      match ParseNumber(s)
      case Some(v) => Some(Num(v))
      case None => None
  }

  /** Every cell under a year column can be cast to float. */
  predicate Castable(df: Frame, years: seq<string>)
  {
    forall i, j :: 0 <= i < |df.rows| && 0 <= j < |years| ==> AsFloat(Get(df.rows[i], years[j])).Some?
  }

  /** The long row for one wide row and one year column. */
  function LongRow(row: Row, meta: seq<string>, lbl: string): Row
    requires AllDigits(lbl) && AsFloat(Get(row, lbl)).Some?
  {
    (map c | c in meta :: Get(row, c))
      [YearLabel := Num(DigitsValue(lbl) as real)]
      [ValueLabel := AsFloat(Get(row, lbl)).value]
  }

  /** The cells under the year columns all cast to float. */
  predicate BlockCastable(rows: seq<Row>, years: seq<string>)
  {
    && (forall j :: 0 <= j < |years| ==> AllDigits(years[j]))
    && forall i, j :: 0 <= i < |rows| && 0 <= j < |years| ==> AsFloat(Get(rows[i], years[j])).Some?
  }

  /** The rows `pd.melt` produces: block `j` holds every wide row paired with
      year column `j`. */
  function MeltBlocks(rows: seq<Row>, meta: seq<string>, years: seq<string>): (out: seq<Row>)
    requires BlockCastable(rows, years)
    ensures |out| == |years| * |rows|
    ensures forall r :: r in out ==> Get(r, YearLabel).Num?
  {
    if years == [] then []
    else
      var m := |years|;
      assert BlockCastable(rows, years[..m - 1]);
      var block := seq(|rows|, i requires 0 <= i < |rows| => LongRow(rows[i], meta, years[m - 1]));
      assert (m - 1) * |rows| + |rows| == m * |rows|;
      MeltBlocks(rows, meta, years[..m - 1]) + block
  }

  lemma MulMonotone(a: nat, b: nat, n: nat)
    requires a <= b
    ensures a * n <= b * n
  {
    assert b * n == a * n + (b - a) * n;
  }

  /** Row `j * len(rows) + i` of the melt pairs wide row `i` with year `j`. */
  lemma {:induction false} MeltBlocksAt(rows: seq<Row>, meta: seq<string>, years: seq<string>, i: nat, j: nat)
    requires BlockCastable(rows, years)
    requires i < |rows| && j < |years|
    ensures j * |rows| + i < |MeltBlocks(rows, meta, years)|
    ensures MeltBlocks(rows, meta, years)[j * |rows| + i] == LongRow(rows[i], meta, years[j])
  {
    var m, n := |years|, |rows|;
    var pre := years[..m - 1];
    assert BlockCastable(rows, pre);
    var front := MeltBlocks(rows, meta, pre);
    if j < m - 1 {
      MeltBlocksAt(rows, meta, pre, i, j);
      assert pre[j] == years[j];
    } else {
      assert j * n + i == |front| + i;
    }
    MulMonotone(j + 1, m, n);
    assert j * n + n == (j + 1) * n;
  }

  /** `pd.melt` with the metadata columns as identifiers and the year columns
      as values, then `Year` cast to int and `GDP_Value` to float. */
  function ReshapeToLong(df: Frame): (r: Result<Frame>)
    ensures r.Err? <==> !Castable(df, GetYearColumns(df))
    ensures r.Err? ==> r.error.ValueError?
    ensures r.Ok? ==> r.value.columns == GetMetadataColumns(df) + [YearLabel, ValueLabel]
    ensures r.Ok? ==> |r.value.rows| == |df.rows| * |GetYearColumns(df)|
  {
    var years := GetYearColumns(df);
    var meta := GetMetadataColumns(df);
    if !Castable(df, years) then Err(ValueError("could not convert string to float"))
    else
      assert forall j :: 0 <= j < |years| ==> years[j] in years;
      Ok(Frame(meta + [YearLabel, ValueLabel], MeltBlocks(df.rows, meta, years)))
  }

  /** Output row `j * len(df) + i` pairs wide row `i` with year column `j`:
      its `Year` is the label's integer value, its `GDP_Value` the cell at
      that row and column cast to float, and its metadata that of row `i`. */
  lemma ReshapeCell(df: Frame, i: nat, j: nat, k: nat)
    requires ReshapeToLong(df).Ok?
    requires i < |df.rows| && j < |GetYearColumns(df)| && k == j * |df.rows| + i
    ensures var years := GetYearColumns(df);
            var out := ReshapeToLong(df).value;
            && k < |out.rows|
            && AllDigits(years[j]) && AsFloat(Get(df.rows[i], years[j])).Some?
            && Get(out.rows[k], YearLabel) == Num(DigitsValue(years[j]) as real)
            && Get(out.rows[k], ValueLabel) == AsFloat(Get(df.rows[i], years[j])).value
            && forall c :: c in GetMetadataColumns(df) && c != YearLabel && c != ValueLabel ==>
                 Get(out.rows[k], c) == Get(df.rows[i], c)
  {
    var years := GetYearColumns(df);
    var meta := GetMetadataColumns(df);
    assert forall k :: 0 <= k < |years| ==> years[k] in years;
    assert BlockCastable(df.rows, years);
    assert ReshapeToLong(df).value.rows == MeltBlocks(df.rows, meta, years);
    MeltCell(df.rows, meta, years, i, j, k);
  }

  /** One cell of the melt, read through `Get`. */
  lemma MeltCell(rows: seq<Row>, meta: seq<string>, years: seq<string>, i: nat, j: nat, k: nat)
    requires BlockCastable(rows, years)
    requires i < |rows| && j < |years| && k == j * |rows| + i
    ensures var out := MeltBlocks(rows, meta, years);
            && k < |out|
            && AllDigits(years[j]) && AsFloat(Get(rows[i], years[j])).Some?
            && Get(out[k], YearLabel) == Num(DigitsValue(years[j]) as real)
            && Get(out[k], ValueLabel) == AsFloat(Get(rows[i], years[j])).value
            && forall c :: c in meta && c != YearLabel && c != ValueLabel ==>
                 Get(out[k], c) == Get(rows[i], c)
  {
    MeltBlocksAt(rows, meta, years, i, j);
    LongRowGet(rows[i], meta, years[j]);
  }

  lemma LongRowGet(row: Row, meta: seq<string>, lbl: string)
    requires AllDigits(lbl) && AsFloat(Get(row, lbl)).Some?
    ensures Get(LongRow(row, meta, lbl), YearLabel) == Num(DigitsValue(lbl) as real)
    ensures Get(LongRow(row, meta, lbl), ValueLabel) == AsFloat(Get(row, lbl)).value
    ensures forall c :: c in meta && c != YearLabel && c != ValueLabel ==>
              Get(LongRow(row, meta, lbl), c) == Get(row, c)
  {
  }

  // ---- value domains ---------------------------------------------------------

  /** The text values of a column (the model's `map(str, ...)` reads text
      cells only). */
  function StrValues(cells: seq<Cell>): (r: seq<string>)
    ensures forall s :: s in r <==> Str(s) in cells
  {
    if cells == [] then []
    else
      assert cells == [cells[0]] + cells[1..];
      (if cells[0].Str? then [cells[0].s] else []) + StrValues(cells[1..])
  }

  /** The distinct non-missing values of a column, sorted; `[]` when the
      column is absent. */
  function UniqueSortedValues(df: Frame, lbl: string): (r: seq<string>)
    ensures SortedBy(r, StrLe) && Distinct(r)
    ensures forall s :: s in r <==> lbl in df.columns && Str(s) in Column(df, lbl)
  {
    if lbl in df.columns then
      var u := Unique(StrValues(Column(df, lbl)));
      StrLeIsTotalPreorder();
      var r := SortBy(u, StrLe);
      DistinctPermutation(u, r);
      assert forall s :: s in r <==> s in multiset(u);
      r
    else []
  }

  /** The regions: distinct `Continent` values, sorted, no repeats. */
  function ExtractRegionsUnique(df: Frame): (r: seq<string>)
    ensures SortedBy(r, StrLe) && Distinct(r)
    ensures forall s :: s in r <==> ContinentLabel in df.columns && Str(s) in Column(df, ContinentLabel)
    ensures ContinentLabel !in df.columns ==> r == []
  {
    UniqueSortedValues(df, ContinentLabel)
  }

  /** The countries: distinct `Country Name` values, sorted, no repeats. */
  function ExtractCountriesUnique(df: Frame): (r: seq<string>)
    ensures SortedBy(r, StrLe) && Distinct(r)
    ensures forall s :: s in r <==> CountryLabel in df.columns && Str(s) in Column(df, CountryLabel)
    ensures CountryLabel !in df.columns ==> r == []
  {
    UniqueSortedValues(df, CountryLabel)
  }

  /** Python's `int()` on a float: truncation toward zero. */
  function Trunc(v: real): int
  {
    if v >= 0.0 then v.Floor else -((-v).Floor)
  }

  /** The non-missing `Year` values as integers. */
  function YearInts(df: Frame): (ys: seq<int>)
    ensures |ys| == 0 <==> NumValues(Column(df, YearLabel)) == []
  {
    var xs := NumValues(Column(df, YearLabel));
    var u := Unique(xs);
    assert xs != [] ==> xs[0] in u;
    seq(|u|, i requires 0 <= i < |u| => Trunc(u[i]))
  }

  predicate IntLe(a: int, b: int)
  {
    a <= b
  }

  /** The ends of a sorted permutation are the least and the greatest value. */
  lemma SortedEnds(ys: seq<int>, sorted: seq<int>)
    requires multiset(sorted) == multiset(ys) && SortedBy(sorted, IntLe) && |sorted| > 0
    ensures sorted[0] in ys && sorted[|sorted| - 1] in ys
    ensures forall y :: y in ys ==> sorted[0] <= y <= sorted[|sorted| - 1]
  {
    assert sorted[0] in multiset(ys) && sorted[|sorted| - 1] in multiset(ys);
    forall y | y in ys ensures sorted[0] <= y <= sorted[|sorted| - 1] {
      assert y in multiset(sorted);
      var k :| 0 <= k < |sorted| && sorted[k] == y;
      assert k == 0 || IntLe(sorted[0], sorted[k]);
      assert k == |sorted| - 1 || IntLe(sorted[k], sorted[|sorted| - 1]);
    }
  }

  /** (first, last) of the sorted distinct years, or absent when the
      `Year` column is missing or holds no value. */
  function ExtractYearsRange(df: Frame): (r: Option<(int, int)>)
    ensures r.None? <==> YearLabel !in df.columns || NumValues(Column(df, YearLabel)) == []
    ensures r.Some? ==> var ys := YearInts(df);
              && r.value.0 in ys && r.value.1 in ys
              && forall y :: y in ys ==> r.value.0 <= y <= r.value.1
  {
    if YearLabel in df.columns then
      var ys := YearInts(df);
      assert TotalPreorder(IntLe);
      var sorted := SortBy(ys, IntLe);
      if sorted == [] then None
      else
        SortedEnds(ys, sorted);
        Some((sorted[0], sorted[|sorted| - 1]))
    else None
  }

  /** What `get_data_info` reports. */
  datatype DataInfo = DataInfo(
    totalCountries: nat,
    totalRegions: nat,
    yearRange: Option<(int, int)>,
    totalYears: nat,
    totalRecordsOriginal: nat,
    totalRecordsLong: nat)

  function GetDataInfo(original: Frame, long: Frame): DataInfo
  {
    DataInfo(
      |ExtractCountriesUnique(original)|,
      |ExtractRegionsUnique(original)|,
      ExtractYearsRange(long),
      |GetYearColumns(original)|,
      |original.rows|,
      |long.rows|)
  }

  /** On a table and its own long form the report is consistent: there are
      `rows * years` long records, and a year range exactly when the table has
      rows and year columns. */
  lemma DataInfoOfReshape(df: Frame)
    requires ReshapeToLong(df).Ok?
    ensures var info := GetDataInfo(df, ReshapeToLong(df).value);
            && info.totalRecordsLong == info.totalRecordsOriginal * info.totalYears
            && (info.yearRange.Some? <==> info.totalRecordsOriginal > 0 && info.totalYears > 0)
  {
    var long := ReshapeToLong(df).value;
    var col := Column(long, YearLabel);
    assert YearLabel in long.columns;
    if |long.rows| > 0 {
      assert long.rows[0] in long.rows;
      assert col[0] in col;
    }
  }
}
