/** Row selection by equality on one column and the group-by aggregation
    that the dashboard pages are built from. */
module DataFilter {
  import opened Frames
  import DataCleaner

  const ContinentLabel := "Continent"
  const CountryLabel := "Country Name"
  const YearLabel := "Year"
  const ValueLabel := "GDP_Value"

  /** `data[data[col] == val]`: the rows whose cell under `col` equals `val`
      (a missing cell equals nothing), in input order; `data[col]` raises
      when the column is absent. */
  function Where(data: Frame, col: string, val: Cell): (r: Result<Frame>)
    ensures r.Err? <==> col !in data.columns
    ensures r.Err? ==> r.error == KeyError(col)
    ensures r.Ok? ==> r.value.columns == data.columns
    ensures r.Ok? ==> forall row :: row in r.value.rows <==> row in data.rows && CellEquals(Get(row, col), val)
    ensures r.Ok? ==> IsSubsequence(r.value.rows, data.rows)
    ensures r.Ok? ==> |r.value.rows| == Count(data.rows, row => CellEquals(Get(row, col), val))
  {
    if col !in data.columns then Err(KeyError(col))
    else Ok(Frame(data.columns, Filter(data.rows, row => CellEquals(Get(row, col), val))))
  }

  /** The rows of one continent. */
  function Region(data: Frame, val: Cell): (r: Result<Frame>)
    ensures r.Err? <==> ContinentLabel !in data.columns
    ensures r.Err? ==> r.error == KeyError(ContinentLabel)
    ensures r.Ok? ==> forall row :: row in r.value.rows <==> row in data.rows && CellEquals(Get(row, ContinentLabel), val)
    ensures r.Ok? ==> IsSubsequence(r.value.rows, data.rows)
    ensures r.Ok? ==> |r.value.rows| == Count(data.rows, row => CellEquals(Get(row, ContinentLabel), val))
  {
    Where(data, ContinentLabel, val)
  }

  /** The rows of one country. */
  function Country(data: Frame, val: Cell): (r: Result<Frame>)
    ensures r.Err? <==> CountryLabel !in data.columns
    ensures r.Err? ==> r.error == KeyError(CountryLabel)
    ensures r.Ok? ==> forall row :: row in r.value.rows <==> row in data.rows && CellEquals(Get(row, CountryLabel), val)
    ensures r.Ok? ==> IsSubsequence(r.value.rows, data.rows)
    ensures r.Ok? ==> |r.value.rows| == Count(data.rows, row => CellEquals(Get(row, CountryLabel), val))
  {
    Where(data, CountryLabel, val)
  }

  /** The rows of one year. */
  function Year(data: Frame, val: Cell): (r: Result<Frame>)
    ensures r.Err? <==> YearLabel !in data.columns
    ensures r.Err? ==> r.error == KeyError(YearLabel)
    ensures r.Ok? ==> forall row :: row in r.value.rows <==> row in data.rows && CellEquals(Get(row, YearLabel), val)
    ensures r.Ok? ==> IsSubsequence(r.value.rows, data.rows)
    ensures r.Ok? ==> |r.value.rows| == Count(data.rows, row => CellEquals(Get(row, YearLabel), val))
  {
    Where(data, YearLabel, val)
  }

  /** No match is an empty frame, not an error; and selecting twice by the
      same value selects nothing more. */
  lemma WhereNoMatchIsEmpty(data: Frame, col: string, val: Cell)
    requires col in data.columns
    requires forall row :: row in data.rows ==> !CellEquals(Get(row, col), val)
    ensures Where(data, col, val) == Ok(Frame(data.columns, []))
  {
  }

  lemma WhereIdempotent(data: Frame, col: string, val: Cell)
    requires col in data.columns
    ensures Where(Where(data, col, val).value, col, val) == Where(data, col, val)
  {
    var once := Where(data, col, val).value;
    FilterKeepsAll(once.rows, row => CellEquals(Get(row, col), val));
  }

  /** Selecting by two columns gives the same rows in either order, so the
      region-then-year selection of a page does not depend on the order of
      the two filters. */
  lemma WhereCommutes(data: Frame, col1: string, val1: Cell, col2: string, val2: Cell)
    requires col1 in data.columns && col2 in data.columns
    ensures Where(Where(data, col1, val1).value, col2, val2) == Where(Where(data, col2, val2).value, col1, val1)
  {
    FilterCommutes(data.rows, row => CellEquals(Get(row, col1), val1), row => CellEquals(Get(row, col2), val2));
  }

  // ---- group-by ------------------------------------------------------------------

  /** The group keys of `rows`: one cell per row. */
  function KeyCells(rows: seq<Row>, groupBy: string): (ks: seq<Cell>)
    ensures |ks| == |rows|
    ensures forall i :: 0 <= i < |rows| ==> ks[i] == Get(rows[i], groupBy)
  {
    seq(|rows|, i requires 0 <= i < |rows| => Get(rows[i], groupBy))
  }

  /** The distinct non-missing keys (groupby drops NaN keys), in order of
      first appearance. */
  function GroupKeys(rows: seq<Row>, groupBy: string): (ks: seq<Cell>)
    ensures Distinct(ks)
    ensures forall k :: k in ks <==> !k.Missing? && exists row :: row in rows && Get(row, groupBy) == k
  {
    var cells := KeyCells(rows, groupBy);
    var ks := Unique(Filter(cells, (c: Cell) => !c.Missing?));
    assert forall k :: k in ks <==> !k.Missing? && k in cells;
    assert forall k :: k in cells <==> exists row :: row in rows && Get(row, groupBy) == k by {
      forall k ensures k in cells <==> exists row :: row in rows && Get(row, groupBy) == k {
        if k in cells {
          var i :| 0 <= i < |cells| && cells[i] == k;
          assert rows[i] in rows;
        }
        if exists row :: row in rows && Get(row, groupBy) == k {
          var row :| row in rows && Get(row, groupBy) == k;
          var i :| 0 <= i < |rows| && rows[i] == row;
          assert cells[i] == k;
        }
      }
    }
    ks
  }

  /** The GDP value a row adds to a sum: missing and text count as nothing. */
  function RowValue(row: Row): real
  {
    if Get(row, ValueLabel).Num? then Get(row, ValueLabel).v else 0.0
  }

  function RowCount(row: Row): nat
  {
    if Get(row, ValueLabel).Num? then 1 else 0
  }

  /** `sum()` of the group `key`: the GDP values of its rows, NaN skipped. */
  function GroupSum(rows: seq<Row>, groupBy: string, key: Cell): real
  {
    if rows == [] then 0.0
    else
      var last := rows[|rows| - 1];
      GroupSum(rows[..|rows| - 1], groupBy, key) + (if Get(last, groupBy) == key then RowValue(last) else 0.0)
  }

  /** How many GDP values the group `key` holds. */
  function GroupCount(rows: seq<Row>, groupBy: string, key: Cell): (n: nat)
    ensures n <= |rows|
  {
    if rows == [] then 0
    else
      var last := rows[|rows| - 1];
      GroupCount(rows[..|rows| - 1], groupBy, key) + (if Get(last, groupBy) == key then RowCount(last) else 0)
  }

  datatype Operation = Average | Total

  /** `mean()` of the group: NaN when it holds no value. */
  function GroupValue(rows: seq<Row>, groupBy: string, key: Cell, op: Operation): Cell
  {
    match op
    case Total => Num(GroupSum(rows, groupBy, key))
    case Average =>
      var n := GroupCount(rows, groupBy, key);
      if n == 0 then Missing else Num(GroupSum(rows, groupBy, key) / n as real)
  }

  function GroupRow(rows: seq<Row>, groupBy: string, key: Cell, op: Operation): Row
  {
    map[groupBy := key][ValueLabel := GroupValue(rows, groupBy, key, op)]
  }

  /** One output row per key, in the order of `keys`. */
  function GroupRows(rows: seq<Row>, groupBy: string, keys: seq<Cell>, op: Operation): (out: seq<Row>)
    ensures |out| == |keys|
    ensures forall i :: 0 <= i < |keys| ==> out[i] == GroupRow(rows, groupBy, keys[i], op)
  {
    if keys == [] then []
    else GroupRows(rows, groupBy, keys[..|keys| - 1], op) + [GroupRow(rows, groupBy, keys[|keys| - 1], op)]
  }

  /** `accumulate`: `config['operation']` must exist; "average" and "sum"
      group by `groupBy` (which, like `GDP_Value`, must be a column); any other
      operation returns the data unchanged. */
  function Accumulate(data: Frame, config: map<string, Json>, groupBy: string): (r: Result<Frame>)
    ensures "operation" !in config ==> r == Err(KeyError("operation"))
    ensures "operation" in config && config["operation"] !in [JStr("average"), JStr("sum")] ==> r == Ok(data)
    ensures "operation" in config && config["operation"] in [JStr("average"), JStr("sum")] ==>
              && (r.Err? <==> groupBy !in data.columns || ValueLabel !in data.columns)
              && (r.Ok? ==> r.value.columns == [groupBy, ValueLabel] && |r.value.rows| == |GroupKeys(data.rows, groupBy)|)
  {
    if "operation" !in config then Err(KeyError("operation"))
    else
      var op := config["operation"];
      if op != JStr("average") && op != JStr("sum") then Ok(data)
      else if groupBy !in data.columns then Err(KeyError(groupBy))
      else if ValueLabel !in data.columns then Err(KeyError(ValueLabel))
      else
        var keys := GroupKeys(data.rows, groupBy);
        Ok(Frame([groupBy, ValueLabel], GroupRows(data.rows, groupBy, keys, if op == JStr("sum") then Total else Average)))
  }

  /** Grouping yields one row per distinct non-missing key, and row `i`
      holds key `i` with its group's sum, or its group's mean (NaN for a
      group without values). */
  lemma AccumulateGroups(data: Frame, config: map<string, Json>, groupBy: string)
    requires "operation" in config && config["operation"] in [JStr("average"), JStr("sum")]
    requires groupBy in data.columns && ValueLabel in data.columns && groupBy != ValueLabel
    ensures var out := Accumulate(data, config, groupBy).value.rows;
            var keys := GroupKeys(data.rows, groupBy);
            && KeyCells(out, groupBy) == keys
            && Distinct(KeyCells(out, groupBy))
            && (forall k :: k in KeyCells(out, groupBy) <==> !k.Missing? && exists row :: row in data.rows && Get(row, groupBy) == k)
            && (config["operation"] == JStr("sum") ==>
                  forall i :: 0 <= i < |out| ==> Get(out[i], ValueLabel) == Num(GroupSum(data.rows, groupBy, keys[i])))
            && (config["operation"] == JStr("average") ==>
                  forall i :: 0 <= i < |out| ==>
                    Get(out[i], ValueLabel) ==
                      if GroupCount(data.rows, groupBy, keys[i]) == 0 then Missing
                      else Num(GroupSum(data.rows, groupBy, keys[i]) / GroupCount(data.rows, groupBy, keys[i]) as real))
  {
    var out := Accumulate(data, config, groupBy).value.rows;
    var keys := GroupKeys(data.rows, groupBy);
    assert KeyCells(out, groupBy) == keys;
  }

  /** The GDP numbers of the group `key`, in row order. */
  function GroupNums(rows: seq<Row>, groupBy: string, key: Cell): seq<real>
  {
    if rows == [] then []
    else
      var last := rows[|rows| - 1];
      GroupNums(rows[..|rows| - 1], groupBy, key)
        + (if Get(last, groupBy) == key && Get(last, ValueLabel).Num? then [Get(last, ValueLabel).v] else [])
  }

  /** The running sum and count are the sum and number of the group's GDP
      numbers. */
  lemma {:induction false} GroupNumsSumCount(rows: seq<Row>, groupBy: string, key: Cell)
    ensures Sum(GroupNums(rows, groupBy, key)) == GroupSum(rows, groupBy, key)
    ensures |GroupNums(rows, groupBy, key)| == GroupCount(rows, groupBy, key)
  {
    if rows != [] {
      var init := rows[..|rows| - 1];
      var last := rows[|rows| - 1];
      GroupNumsSumCount(init, groupBy, key);
      var xs := GroupNums(init, groupBy, key);
      if Get(last, groupBy) == key && Get(last, ValueLabel).Num? {
        assert (xs + [Get(last, ValueLabel).v])[..|xs|] == xs;
      } else {
        assert GroupNums(rows, groupBy, key) == xs;
      }
    }
  }

  /** The GDP numbers of `rows`, in order, missing values skipped. */
  function ValueNums(rows: seq<Row>): seq<real>
  {
    if rows == [] then []
    else
      var last := rows[|rows| - 1];
      ValueNums(rows[..|rows| - 1]) + (if Get(last, ValueLabel).Num? then [Get(last, ValueLabel).v] else [])
  }

  lemma ValueNumsSnoc(rows: seq<Row>, last: Row)
    ensures ValueNums(rows + [last])
              == ValueNums(rows) + (if Get(last, ValueLabel).Num? then [Get(last, ValueLabel).v] else [])
  {
    assert (rows + [last])[..|rows|] == rows;
  }

  /** They are the numbers of the frame's `GDP_Value` column. */
  lemma {:induction false} ValueNumsOfColumn(cols: seq<string>, rows: seq<Row>)
    ensures ValueNums(rows) == NumValues(Column(Frame(cols, rows), ValueLabel))
  {
    if rows != [] {
      var init := rows[..|rows| - 1];
      ValueNumsOfColumn(cols, init);
      assert Column(Frame(cols, rows), ValueLabel)[..|init|] == Column(Frame(cols, init), ValueLabel);
    }
  }

  /** One row more at the back: both the group's numbers and the selected
      rows' numbers gain that row's number exactly when it is in the group. */
  lemma GroupStep(init: seq<Row>, last: Row, groupBy: string, key: Cell, p: Row -> bool)
    requires p(last) <==> Get(last, groupBy) == key
    ensures var extra := if p(last) && Get(last, ValueLabel).Num? then [Get(last, ValueLabel).v] else [];
            && GroupNums(init + [last], groupBy, key) == GroupNums(init, groupBy, key) + extra
            && ValueNums(Filter(init + [last], p)) == ValueNums(Filter(init, p)) + extra
  {
    assert (init + [last])[..|init|] == init;
    FilterSnoc(init, last, p);
    if p(last) {
      ValueNumsSnoc(Filter(init, p), last);
    } else {
      assert Filter(init + [last], p) == Filter(init, p);
    }
  }

  /** The group's GDP numbers are the GDP numbers of the rows a mask
      selecting exactly the group's rows keeps. */
  lemma {:induction false} GroupNumsAreSelection(rows: seq<Row>, groupBy: string, key: Cell, p: Row -> bool)
    requires forall i :: 0 <= i < |rows| ==> (p(rows[i]) <==> Get(rows[i], groupBy) == key)
    ensures GroupNums(rows, groupBy, key) == ValueNums(Filter(rows, p))
  {
    if rows != [] {
      var init := rows[..|rows| - 1];
      var last := rows[|rows| - 1];
      assert rows == init + [last];
      GroupNumsAreSelection(init, groupBy, key, p);
      GroupStep(init, last, groupBy, key, p);
    }
  }

  /** `groupby(...).mean()` of a group is `mean()` of the `GDP_Value` column
      of that group's rows as `Where` selects them, NaN when they hold no
      number; and it lies between the group's least and greatest value. */
  lemma GroupAverageIsMeanOfGroup(cols: seq<string>, rows: seq<Row>, groupBy: string, key: Cell)
    requires groupBy in cols && !key.Missing?
    ensures var sel := Where(Frame(cols, rows), groupBy, key).value;
            var mean := DataCleaner.MeanStrategy(Column(sel, ValueLabel));
            GroupValue(rows, groupBy, key, Average) == if mean.Some? then Num(mean.value) else Missing
    ensures var xs := GroupNums(rows, groupBy, key);
            xs != [] ==>
              && GroupValue(rows, groupBy, key, Average).Num?
              && DataCleaner.MinOf(xs) <= GroupValue(rows, groupBy, key, Average).v <= DataCleaner.MaxOf(xs)
  {
    GroupNumsSumCount(rows, groupBy, key);
    GroupNumsAreSelection(rows, groupBy, key, row => CellEquals(Get(row, groupBy), key));
    ValueNumsOfColumn(cols, Filter(rows, row => CellEquals(Get(row, groupBy), key)));
    var sel := Where(Frame(cols, rows), groupBy, key).value;
    var xs := GroupNums(rows, groupBy, key);
    assert NumValues(Column(sel, ValueLabel)) == xs;
    if xs != [] {
      DataCleaner.MeanWithinRange(Column(sel, ValueLabel));
    }
  }

  // ---- the group sums add up to the total -----------------------------------------

  /** Sum of the GDP values of the rows whose key is in `keys`. */
  function TotalOver(rows: seq<Row>, groupBy: string, keys: seq<Cell>): real
  {
    if rows == [] then 0.0
    else
      var last := rows[|rows| - 1];
      TotalOver(rows[..|rows| - 1], groupBy, keys) + (if Get(last, groupBy) in keys then RowValue(last) else 0.0)
  }

  /** Sum of the GDP values of the rows whose key is not missing. */
  function TotalKeyed(rows: seq<Row>, groupBy: string): real
  {
    if rows == [] then 0.0
    else
      var last := rows[|rows| - 1];
      TotalKeyed(rows[..|rows| - 1], groupBy) + (if !Get(last, groupBy).Missing? then RowValue(last) else 0.0)
  }

  /** Sum over `keys` of the group sums. */
  function SumOfGroups(rows: seq<Row>, groupBy: string, keys: seq<Cell>): real
  {
    if keys == [] then 0.0
    else SumOfGroups(rows, groupBy, keys[..|keys| - 1]) + GroupSum(rows, groupBy, keys[|keys| - 1])
  }

  /** Sum over distinct `keys` of "v if the key is `k`": v once or not at all. */
  lemma {:induction false} SumOfIndicator(keys: seq<Cell>, k: Cell, v: real, rows: seq<Row>, groupBy: string, last: Row)
    requires Distinct(keys) && Get(last, groupBy) == k && v == RowValue(last)
    ensures SumOfGroups(rows + [last], groupBy, keys) ==
              SumOfGroups(rows, groupBy, keys) + (if k in keys then v else 0.0)
  {
    if keys != [] {
      var n := |keys|;
      var init := keys[..n - 1];
      assert Distinct(init);
      SumOfIndicator(init, k, v, rows, groupBy, last);
      assert (rows + [last])[..|rows|] == rows;
      assert keys == init + [keys[n - 1]];
      assert k in keys <==> k in init || k == keys[n - 1];
      if k == keys[n - 1] {
        assert k !in init;
      }
    }
  }

  /** For distinct keys, adding up the group sums adds every row of those
      groups exactly once. */
  lemma {:induction false} SumOfGroupsIsTotal(rows: seq<Row>, groupBy: string, keys: seq<Cell>)
    requires Distinct(keys)
    ensures SumOfGroups(rows, groupBy, keys) == TotalOver(rows, groupBy, keys)
  {
    if rows == [] {
      SumOfGroupsEmpty(groupBy, keys);
    } else {
      var n := |rows|;
      var init, last := rows[..n - 1], rows[n - 1];
      SumOfGroupsIsTotal(init, groupBy, keys);
      assert rows == init + [last];
      SumOfIndicator(keys, Get(last, groupBy), RowValue(last), init, groupBy, last);
    }
  }

  lemma {:induction false} SumOfGroupsEmpty(groupBy: string, keys: seq<Cell>)
    ensures SumOfGroups([], groupBy, keys) == 0.0
  {
    if keys != [] {
      SumOfGroupsEmpty(groupBy, keys[..|keys| - 1]);
    }
  }

  /** When `keys` holds exactly the non-missing keys of the rows, the rows
      counted are those with a key. */
  lemma {:induction false} TotalOverAllKeys(rows: seq<Row>, groupBy: string, keys: seq<Cell>)
    requires forall row :: row in rows ==> (Get(row, groupBy) in keys <==> !Get(row, groupBy).Missing?)
    ensures TotalOver(rows, groupBy, keys) == TotalKeyed(rows, groupBy)
  {
    if rows != [] {
      var n := |rows|;
      assert rows[n - 1] in rows;
      assert forall row :: row in rows[..n - 1] ==> row in rows;
      TotalOverAllKeys(rows[..n - 1], groupBy, keys);
    }
  }

  /** Adding up the output rows of a grouping. */
  lemma {:induction false} GroupRowsTotal(rows: seq<Row>, groupBy: string, keys: seq<Cell>)
    requires groupBy != ValueLabel
    requires forall k :: k in keys ==> !k.Missing?
    ensures TotalKeyed(GroupRows(rows, groupBy, keys, Total), groupBy) == SumOfGroups(rows, groupBy, keys)
  {
    if keys != [] {
      var n := |keys|;
      var init := keys[..n - 1];
      assert forall k :: k in init ==> k in keys;
      GroupRowsTotal(rows, groupBy, init);
      var out := GroupRows(rows, groupBy, keys, Total);
      assert out[..n - 1] == GroupRows(rows, groupBy, init, Total);
      assert keys[n - 1] in keys;
    }
  }

  /** With "sum", the group sums add up to the total GDP of the input rows
      that have a key. */
  lemma AccumulateSumPreservesTotal(data: Frame, config: map<string, Json>, groupBy: string)
    requires "operation" in config && config["operation"] == JStr("sum")
    requires groupBy in data.columns && ValueLabel in data.columns && groupBy != ValueLabel
    ensures Accumulate(data, config, groupBy).Ok?
    ensures TotalKeyed(Accumulate(data, config, groupBy).value.rows, groupBy) == TotalKeyed(data.rows, groupBy)
  {
    var keys := GroupKeys(data.rows, groupBy);
    GroupRowsTotal(data.rows, groupBy, keys);
    SumOfGroupsIsTotal(data.rows, groupBy, keys);
    TotalOverAllKeys(data.rows, groupBy, keys);
  }
}
