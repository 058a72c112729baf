/** The cleaner: five named strategies for missing values, missing-value
    statistics, numeric conversion, duplicate removal and the cleaning
    summary. Columns are observed as sequences of cells (`Column`). */
module DataCleaner {
  import opened Frames
  import opened Sorting

  // ---- the five strategies ----------------------------------------------------

  datatype Strategy = Mean | Median | Mode | ForwardFill | BackwardFill

  /** The keys of `FILLING_STRATEGIES`, in their order. */
  const FillingStrategies: seq<string> := ["mean", "median", "mode", "forward_fill", "backward_fill"]

  function StrategyName(s: Strategy): (name: string)
    ensures name in FillingStrategies
  {
    match s
    case Mean => "mean"
    case Median => "median"
    case Mode => "mode"
    case ForwardFill => "forward_fill"
    case BackwardFill => "backward_fill"
  }

  /** `FILLING_STRATEGIES[name]`, or None for a name that is not a key. */
  function LookupStrategy(name: string): (r: Option<Strategy>)
    ensures r.Some? <==> name in FillingStrategies
    ensures r.Some? ==> StrategyName(r.value) == name
  {
    if name == "mean" then Some(Mean)
    else if name == "median" then Some(Median)
    else if name == "mode" then Some(Mode)
    else if name == "forward_fill" then Some(ForwardFill)
    else if name == "backward_fill" then Some(BackwardFill)
    else None
  }

  /** Every strategy is found under its own name, so the table has exactly
      five distinct entries. */
  lemma LookupStrategyName(s: Strategy)
    ensures LookupStrategy(StrategyName(s)) == Some(s)
  {
  }

  // ---- statistics over the non-missing values ---------------------------------

  function MinOf(xs: seq<real>): (m: real)
    requires |xs| > 0
    ensures m in xs && forall x :: x in xs ==> m <= x
  {
    if |xs| == 1 then xs[0]
    else
      var rest := MinOf(xs[1..]);
      assert forall x :: x in xs ==> x == xs[0] || x in xs[1..];
      if xs[0] <= rest then xs[0] else rest
  }

  function MaxOf(xs: seq<real>): (m: real)
    requires |xs| > 0
    ensures m in xs && forall x :: x in xs ==> x <= m
  {
    if |xs| == 1 then xs[0]
    else
      var rest := MaxOf(xs[1..]);
      assert forall x :: x in xs ==> x == xs[0] || x in xs[1..];
      if xs[0] >= rest then xs[0] else rest
  }

  /** `n * x` by repeated addition, which keeps products out of the
      induction below. */
  function Scale(n: nat, x: real): real
  {
    if n == 0 then 0.0 else Scale(n - 1, x) + x
  }

  lemma {:induction false} ScaleIsProduct(n: nat, x: real)
    ensures Scale(n, x) == n as real * x
  {
    if n > 0 {
      ScaleIsProduct(n - 1, x);
      assert n as real * x == (n - 1) as real * x + x;
    }
  }

  /** A sum of `n` values each in `[lo, hi]` lies in `[n * lo, n * hi]`. */
  lemma {:induction false} SumBounds(xs: seq<real>, lo: real, hi: real)
    requires forall i :: 0 <= i < |xs| ==> lo <= xs[i] <= hi
    ensures Scale(|xs|, lo) <= Sum(xs) <= Scale(|xs|, hi)
  {
    if xs != [] {
      SumBounds(xs[..|xs| - 1], lo, hi);
    }
  }

  lemma QuotientBounds(s: real, n: real, lo: real, hi: real)
    requires n > 0.0 && n * lo <= s <= n * hi
    ensures lo <= s / n <= hi
  {
    assert s / n * n == s;
  }

  lemma AverageBounds(s: real, n: nat, lo: real, hi: real)
    requires n > 0 && Scale(n, lo) <= s <= Scale(n, hi)
    ensures lo <= s / n as real <= hi
  {
    ScaleIsProduct(n, lo);
    ScaleIsProduct(n, hi);
    QuotientBounds(s, n as real, lo, hi);
  }

  lemma ValuesWithinMinMax(xs: seq<real>)
    requires xs != []
    ensures forall i :: 0 <= i < |xs| ==> MinOf(xs) <= xs[i] <= MaxOf(xs)
  {
    var lo, hi := MinOf(xs), MaxOf(xs);
    forall i | 0 <= i < |xs| ensures lo <= xs[i] <= hi {
      assert xs[i] in xs;
    }
  }

  /** `series.mean()`: the average of the non-missing values; NaN (None)
      when there are none. */
  function MeanStrategy(cells: seq<Cell>): (r: Option<real>)
    ensures r.Some? <==> NumValues(cells) != []
  {
    var xs := NumValues(cells);
    if xs == [] then None else Some(Sum(xs) / |xs| as real)
  }

  /** The mean lies between the least and the greatest value. */
  lemma MeanWithinRange(cells: seq<Cell>)
    requires NumValues(cells) != []
    ensures var xs := NumValues(cells);
            MinOf(xs) <= MeanStrategy(cells).value <= MaxOf(xs)
  {
    var xs := NumValues(cells);
    ValuesWithinMinMax(xs);
    SumBounds(xs, MinOf(xs), MaxOf(xs));
    AverageBounds(Sum(xs), |xs|, MinOf(xs), MaxOf(xs));
  }

  predicate RealLe(a: real, b: real)
  {
    a <= b
  }

  predicate AtMost(m: real, x: real)
  {
    x <= m
  }

  predicate AtLeast(m: real, x: real)
  {
    x >= m
  }

  /** At least `hi - lo` elements satisfy `p` when `s[lo..hi]` all do. */
  lemma {:induction false} CountAtLeast<T(!new)>(s: seq<T>, p: T -> bool, lo: nat, hi: nat)
    requires lo <= hi <= |s|
    requires forall i :: lo <= i < hi ==> p(s[i])
    ensures Count(s, p) >= hi - lo
  {
    if lo < hi {
      if lo > 0 {
        CountAtLeast(s[1..], p, lo - 1, hi - 1);
      } else {
        CountAtLeast(s[1..], p, 0, hi - 1);
      }
    }
  }

  /** The middle element of a sorted sequence, or the mean of the two
      middle ones when its length is even. */
  function MiddleOf(s: seq<real>): real
    requires |s| > 0
  {
    var k := |s| / 2;
    if |s| % 2 == 1 then s[k] else (s[k - 1] + s[k]) / 2.0
  }

  /** `series.median()`: the middle of the sorted non-missing values; NaN
      (None) when there are none. */
  function MedianStrategy(cells: seq<Cell>): (r: Option<real>)
    ensures r.Some? <==> NumValues(cells) != []
  {
    var xs := NumValues(cells);
    if xs == [] then None
    else
      assert TotalPreorder(RealLe);
      var s := SortBy(xs, RealLe);
      assert |s| == |multiset(s)| == |xs|;
      Some(MiddleOf(s))
  }

  /** In a sorted sequence the middle lies between the ends, with at least
      half of the elements on each side. */
  lemma MiddleSplitsSorted(s: seq<real>)
    requires |s| > 0 && SortedBy(s, RealLe)
    ensures var m := MiddleOf(s);
            && s[0] <= m <= s[|s| - 1]
            && 2 * Count(s, x => AtMost(m, x)) >= |s|
            && 2 * Count(s, x => AtLeast(m, x)) >= |s|
  {
    var m := MiddleOf(s);
    var n, k := |s|, |s| / 2;
    var lowEnd := if n % 2 == 1 then k + 1 else k;
    if n % 2 == 0 {
      assert RealLe(s[k - 1], s[k]);
    }
    forall i | 0 <= i < lowEnd ensures AtMost(m, s[i]) {
      if i < lowEnd - 1 { assert RealLe(s[i], s[lowEnd - 1]); }
    }
    forall i | k <= i < n ensures AtLeast(m, s[i]) {
      if i > k { assert RealLe(s[k], s[i]); }
    }
    if n > 1 {
      assert RealLe(s[0], s[lowEnd - 1]);
      assert RealLe(s[k], s[n - 1]);
    }
    CountAtLeast(s, x => AtMost(m, x), 0, lowEnd);
    CountAtLeast(s, x => AtLeast(m, x), k, n);
  }

  /** The median lies between the least and the greatest value, and at
      least half of the values lie on each side of it. */
  lemma MedianSplitsValues(cells: seq<Cell>)
    requires NumValues(cells) != []
    ensures var xs := NumValues(cells);
            var m := MedianStrategy(cells).value;
            && MinOf(xs) <= m <= MaxOf(xs)
            && 2 * Count(xs, x => AtMost(m, x)) >= |xs|
            && 2 * Count(xs, x => AtLeast(m, x)) >= |xs|
  {
    var xs := NumValues(cells);
    assert TotalPreorder(RealLe);
    var s := SortBy(xs, RealLe);
    assert MedianStrategy(cells).value == MiddleOf(s);
    SortedMiddleSplits(xs, s);
  }

  /** The middle of a sorted copy of `xs` splits `xs` itself. */
  lemma SortedMiddleSplits(xs: seq<real>, s: seq<real>)
    requires TotalPreorder(RealLe) && |xs| > 0 && s == SortBy(xs, RealLe)
    ensures var m := MiddleOf(s);
            && MinOf(xs) <= m <= MaxOf(xs)
            && 2 * Count(xs, x => AtMost(m, x)) >= |xs|
            && 2 * Count(xs, x => AtLeast(m, x)) >= |xs|
  {
    assert |s| == |multiset(s)| == |xs|;
    var m := MiddleOf(s);
    MiddleSplitsSorted(s);
    SortKeepsCount(xs, RealLe, x => AtMost(m, x));
    SortKeepsCount(xs, RealLe, x => AtLeast(m, x));
    assert s[0] in multiset(xs) && s[|s| - 1] in multiset(xs);
  }

  /** The most frequent of `cands` in `xs`; among equally frequent ones the
      smallest. */
  function MostFrequent(cands: seq<real>, xs: seq<real>): (m: real)
    requires |cands| > 0
    ensures m in cands
    ensures forall c :: c in cands ==>
              multiset(xs)[c] < multiset(xs)[m] || (multiset(xs)[c] == multiset(xs)[m] && m <= c)
  {
    if |cands| == 1 then cands[0]
    else
      var best := MostFrequent(cands[1..], xs);
      var c := cands[0];
      assert forall x :: x in cands ==> x == c || x in cands[1..];
      if multiset(xs)[c] > multiset(xs)[best] || (multiset(xs)[c] == multiset(xs)[best] && c <= best)
      then c
      else best
  }

  /** `series.mode()[0]`, falling back to the mean when the mode list is
      empty. Pandas lists modes in ascending order, so a tie goes to the
      smallest value. */
  function ModeStrategy(cells: seq<Cell>): (r: Option<real>)
    ensures r.Some? <==> NumValues(cells) != []
    ensures NumValues(cells) == [] ==> r == MeanStrategy(cells)
    ensures r.Some? ==> var xs := NumValues(cells);
              && r.value in xs
              && forall x :: x in xs ==>
                   multiset(xs)[x] < multiset(xs)[r.value]
                   || (multiset(xs)[x] == multiset(xs)[r.value] && r.value <= x)
  {
    var xs := NumValues(cells);
    if xs == [] then MeanStrategy(cells) else Some(MostFrequent(xs, xs))
  }

  // ---- filling ------------------------------------------------------------------

  /** `series.fillna(v)`: missing cells become `v`; a NaN fill value (None)
      changes nothing. */
  function FillNa(cells: seq<Cell>, v: Option<real>): (r: seq<Cell>)
    ensures |r| == |cells|
    ensures forall i :: 0 <= i < |cells| ==>
              r[i] == if cells[i].Missing? && v.Some? then Num(v.value) else cells[i]
  {
    match v
    case None => cells
    case Some(x) => seq(|cells|, i requires 0 <= i < |cells| => if cells[i].Missing? then Num(x) else cells[i])
  }

  /** The last non-missing cell of `s`, or Missing when there is none. */
  function LastNonMissing(s: seq<Cell>): Cell
  {
    if s == [] then Missing
    else if !s[|s| - 1].Missing? then s[|s| - 1]
    else LastNonMissing(s[..|s| - 1])
  }

  /** The first non-missing cell of `s`, or Missing when there is none. */
  function FirstNonMissing(s: seq<Cell>): Cell
  {
    if s == [] then Missing
    else if !s[0].Missing? then s[0]
    else FirstNonMissing(s[1..])
  }

  /** `fillna(method='ffill')`, built from the front. */
  function ForwardFillCells(cells: seq<Cell>): (r: seq<Cell>)
    ensures |r| == |cells|
  {
    if cells == [] then []
    else
      var n := |cells|;
      var init := ForwardFillCells(cells[..n - 1]);
      var last := if !cells[n - 1].Missing? then cells[n - 1]
                  else if n == 1 then Missing else init[n - 2];
      init + [last]
  }

  /** `fillna(method='bfill')`, built from the back. */
  function BackwardFillCells(cells: seq<Cell>): (r: seq<Cell>)
    ensures |r| == |cells|
  {
    if cells == [] then []
    else
      var rest := BackwardFillCells(cells[1..]);
      var first := if !cells[0].Missing? then cells[0]
                   else if |cells| == 1 then Missing else rest[0];
      [first] + rest
  }

  /** Forward fill puts at each position the nearest non-missing cell at or
      before it: non-missing cells stay, leading missing cells stay missing. */
  lemma {:induction false} ForwardFillIsLastNonMissing(cells: seq<Cell>, i: nat)
    requires i < |cells|
    ensures ForwardFillCells(cells)[i] == LastNonMissing(cells[..i + 1])
  {
    var n := |cells|;
    var init := cells[..n - 1];
    if i < n - 1 {
      ForwardFillIsLastNonMissing(init, i);
      assert init[..i + 1] == cells[..i + 1];
    } else {
      assert cells[..i + 1] == cells;
      if cells[n - 1].Missing? && n > 1 {
        ForwardFillIsLastNonMissing(init, n - 2);
        assert init[..n - 1] == init;
        assert cells[..n][..n - 1] == init;
      }
    }
  }

  /** Backward fill, the mirror image: the nearest non-missing cell at or
      after each position; trailing missing cells stay missing. */
  lemma {:induction false} BackwardFillIsFirstNonMissing(cells: seq<Cell>, i: nat)
    requires i < |cells|
    ensures BackwardFillCells(cells)[i] == FirstNonMissing(cells[i..])
  {
    var filled := BackwardFillCells(cells);
    var rest := BackwardFillCells(cells[1..]);
    assert filled[1..] == rest;
    if i > 0 {
      BackwardFillIsFirstNonMissing(cells[1..], i - 1);
      assert cells[1..][i - 1..] == cells[i..];
      assert filled[i] == rest[i - 1];
    } else {
      assert cells[i..] == cells;
      if cells[0].Missing? && |cells| > 1 {
        BackwardFillIsFirstNonMissing(cells[1..], 0);
        assert cells[1..][0..] == cells[1..];
      }
    }
  }

  /** The fill value of a statistical strategy. */
  function FillValue(cells: seq<Cell>, s: Strategy): (r: Option<real>)
    requires s.Mean? || s.Median? || s.Mode?
    ensures r.Some? <==> NumValues(cells) != []
  {
    match s
    case Mean => MeanStrategy(cells)
    case Median => MedianStrategy(cells)
    case Mode => ModeStrategy(cells)
  }

  /** What a strategy makes of one column. */
  function ApplyStrategy(cells: seq<Cell>, s: Strategy): (r: seq<Cell>)
    ensures |r| == |cells|
  {
    match s
    case ForwardFill => ForwardFillCells(cells)
    case BackwardFill => BackwardFillCells(cells)
    case _ => FillNa(cells, FillValue(cells, s))
  }

  /** The text of the `ValueError` an unknown strategy name raises: the name,
      then the list of the table's keys as Python prints a list of strings. */
  function UnknownStrategyMessage(strategy: string): string
  {
    "Unknown strategy: " + strategy
      + ". Available: ['mean', 'median', 'mode', 'forward_fill', 'backward_fill']"
  }

  /** `handle_missing_values_in_column`: an unknown name raises. */
  function HandleMissingValuesInColumn(cells: seq<Cell>, strategy: string): (r: Result<seq<Cell>>)
    ensures r.Err? <==> strategy !in FillingStrategies
    ensures r.Err? ==> r.error == ValueError(UnknownStrategyMessage(strategy))
    ensures r.Ok? ==> |r.value| == |cells|
    ensures r.Ok? ==> r.value == ApplyStrategy(cells, LookupStrategy(strategy).value)
  {
    match LookupStrategy(strategy)
    case None => Err(ValueError(UnknownStrategyMessage(strategy)))
    case Some(s) => Ok(ApplyStrategy(cells, s))
  }

  /** Whatever the strategy, a non-missing cell is left as it was. */
  lemma {:induction false} StrategyKeepsPresentCells(cells: seq<Cell>, s: Strategy, i: nat)
    requires i < |cells| && !cells[i].Missing?
    ensures ApplyStrategy(cells, s)[i] == cells[i]
  {
    match s
    case ForwardFill =>
      ForwardFillIsLastNonMissing(cells, i);
    case BackwardFill =>
      BackwardFillIsFirstNonMissing(cells, i);
    case _ =>
  }

  /** With mean, median or mode every missing cell takes the one fill value
      computed from the column's own values, and none is left missing as
      soon as the column holds a number. */
  lemma StatisticFillsEveryGap(cells: seq<Cell>, s: Strategy)
    requires s.Mean? || s.Median? || s.Mode?
    requires NumValues(cells) != []
    ensures FillValue(cells, s).Some?
    ensures forall i :: 0 <= i < |cells| && cells[i].Missing? ==>
              ApplyStrategy(cells, s)[i] == Num(FillValue(cells, s).value)
    ensures forall c :: c in ApplyStrategy(cells, s) ==> !c.Missing?
  {
    var v := FillValue(cells, s);
    var r := FillNa(cells, v);
    assert ApplyStrategy(cells, s) == r;
    forall c | c in r ensures !c.Missing? {
      var i :| 0 <= i < |r| && r[i] == c;
    }
  }

  /** Forward fill leaves a leading gap, even when the column holds a
      number: `[NaN, 1.0]` stays `[NaN, 1.0]`. */
  lemma ForwardFillKeepsLeadingGap()
    ensures ApplyStrategy([Missing, Num(1.0)], ForwardFill) == [Missing, Num(1.0)]
  {
    var cells := [Missing, Num(1.0)];
    assert cells[..1] == [Missing];
  }

  /** `[100, NaN, 300]` filled by the mean gives `[100, 200, 300]`. */
  lemma MeanFillExample()
    ensures HandleMissingValuesInColumn([Num(100.0), Missing, Num(300.0)], "mean")
            == Ok([Num(100.0), Num(200.0), Num(300.0)])
  {
    var cells := [Num(100.0), Missing, Num(300.0)];
    ExampleMean();
    var r := FillNa(cells, Some(200.0));
    assert r[0] == Num(100.0) && r[1] == Num(200.0) && r[2] == Num(300.0);
    assert r == [Num(100.0), Num(200.0), Num(300.0)];
  }

  lemma ExampleMean()
    ensures MeanStrategy([Num(100.0), Missing, Num(300.0)]) == Some(200.0)
  {
    var cells := [Num(100.0), Missing, Num(300.0)];
    assert cells[..2][..1] == [Num(100.0)];
    assert cells[..2] == [Num(100.0), Missing];
    assert NumValues(cells[..1]) == [100.0];
    assert NumValues(cells[..2]) == [100.0];
    assert NumValues(cells) == [100.0, 300.0];
    assert Sum([100.0, 300.0]) == 400.0 by {
      assert [100.0, 300.0][..1] == [100.0];
      assert [100.0][..0] == [];
    }
  }

  // ---- missing-value statistics and numeric columns ------------------------------

  /** `isna().sum() / len * 100`; NaN (None) on an empty column. */
  function MissingPercentage(cells: seq<Cell>): (r: Option<real>)
    ensures r.None? <==> |cells| == 0
    ensures r.Some? ==> 0.0 <= r.value <= 100.0
    ensures r.Some? ==> (r.value == 0.0 <==> forall c :: c in cells ==> !c.Missing?)
    ensures r.Some? ==> (r.value == 100.0 <==> forall c :: c in cells ==> c.Missing?)
  {
    if |cells| == 0 then None
    else
      var k := Count(cells, (c: Cell) => c.Missing?);
      var n := |cells|;
      PercentBounds(k, n);
      Some(k as real / n as real * 100.0)
  }

  lemma PercentBounds(k: nat, n: nat)
    requires 0 < n && k <= n
    ensures 0.0 <= k as real / n as real * 100.0 <= 100.0
    ensures k as real / n as real * 100.0 == 0.0 <==> k == 0
    ensures k as real / n as real * 100.0 == 100.0 <==> k == n
  {
    var q := k as real / n as real;
    QuotientBounds(k as real, n as real, 0.0, 1.0);
    assert q * n as real == k as real;
  }

  /** `detect_missing_values`: one entry per column label. */
  function DetectMissingValues(df: Frame): (m: map<string, Option<real>>)
    ensures m.Keys == set c | c in df.columns
    ensures forall c :: c in m ==> m[c] == MissingPercentage(Column(df, c))
  {
    map c | c in df.columns :: MissingPercentage(Column(df, c))
  }

  /** A numeric dtype: no text cell (an all-missing column is float). */
  predicate IsNumericColumn(cells: seq<Cell>)
  {
    forall c :: c in cells ==> !c.Str?
  }

  function IdentifyNumericColumns(df: Frame): (r: seq<string>)
    ensures forall c :: c in r <==> c in df.columns && IsNumericColumn(Column(df, c))
    ensures IsSubsequence(r, df.columns)
  {
    Filter(df.columns, c => IsNumericColumn(Column(df, c)))
  }

  // ---- conversion ------------------------------------------------------------------

  /** `pd.to_numeric(errors='coerce')` on one cell. */
  function ToNumericCell(c: Cell): (r: Cell)
    ensures !r.Str?
    ensures c.Num? ==> r == c
  {
    match c
    case Missing => Missing
    case Num(_) => c
    case Str(s) => match ParseNumber(s) case Some(v) => Num(v) case None => Missing
  }

  function ToNumeric(cells: seq<Cell>): (r: seq<Cell>)
    ensures |r| == |cells| && IsNumericColumn(r)
  {
    var r := seq(|cells|, i requires 0 <= i < |cells| => ToNumericCell(cells[i]));
    assert forall c :: c in r ==> !c.Str?;
    r
  }

  /** Unconvertible text becomes missing; numbers and text that spells a
      number keep their value. */
  lemma ToNumericCoerces(cells: seq<Cell>, i: nat)
    requires i < |cells|
    ensures ToNumeric(cells)[i].Missing? <==>
              cells[i].Missing? || (cells[i].Str? && ParseNumber(cells[i].s).None?)
    ensures cells[i].Num? ==> ToNumeric(cells)[i] == cells[i]
    ensures cells[i].Str? && ParseNumber(cells[i].s).Some? ==> ToNumeric(cells)[i] == Num(ParseNumber(cells[i].s).value)
  {
  }

  /** Converting twice is converting once. */
  lemma ToNumericIdempotent(cells: seq<Cell>)
    ensures ToNumeric(ToNumeric(cells)) == ToNumeric(cells)
  {
  }

  function Last<T>(s: seq<T>): T
    requires |s| > 0
  {
    s[|s| - 1]
  }

  /** One write of the conversion loop: the frame keeps the input's columns
      as a prefix, gains at most the written label, and changes no column
      outside the labels written so far. */
  lemma WriteColumnStep(df: Frame, cur: Frame, done: seq<string>, key: string, vals: seq<Cell>)
    requires |cur.rows| == |df.rows| && |vals| == |cur.rows|
    requires |df.columns| <= |cur.columns| && cur.columns[..|df.columns|] == df.columns
    requires forall c :: c in cur.columns <==> c in df.columns || c in done
    requires forall c :: c !in done ==> Column(cur, c) == Column(df, c)
    ensures var next := SetColumn(cur, key, vals);
            && |next.rows| == |df.rows|
            && |df.columns| <= |next.columns| && next.columns[..|df.columns|] == df.columns
            && (forall c :: c in next.columns <==> c in df.columns || c in done + [key])
            && (forall c :: c !in done + [key] ==> Column(next, c) == Column(df, c))
  {
    var next := SetColumn(cur, key, vals);
    if key !in cur.columns {
      assert next.columns[..|df.columns|] == cur.columns[..|df.columns|];
    }
  }

  /** Once every distinct label is written, the frame has the listed labels'
      columns set to the written cells and every other column as before. */
  lemma WroteEveryLabel(df: Frame, cur: Frame, columns: seq<string>, keys: seq<string>, vals: seq<Cell>)
    requires forall x :: x in keys <==> x in columns
    requires forall c :: c in cur.columns <==> c in df.columns || c in keys
    requires forall k :: 0 <= k < |keys| ==> Column(cur, keys[k]) == vals
    requires forall c :: c !in keys ==> Column(cur, c) == Column(df, c)
    ensures forall c :: c in cur.columns <==> c in df.columns || c in columns
    ensures forall c :: c in columns ==> Column(cur, c) == vals
    ensures forall c :: c !in columns ==> Column(cur, c) == Column(df, c)
  {
    forall c | c in columns ensures Column(cur, c) == vals {
      var k :| 0 <= k < |keys| && keys[k] == c;
    }
  }

  /** `convert_to_numeric` as written: each lambda reads `result[col]` when
      it is called, after the comprehension has left `col` bound to the last
      listed label, so every listed column receives the conversion of that
      last column. Columns run in dict order (first occurrence). */
  method ConvertToNumeric(df: Frame, columns: seq<string>) returns (r: Result<Frame>)
    ensures columns == [] ==> r == Ok(df)
    ensures columns != [] ==> (r.Err? <==> Last(columns) !in df.columns)
    ensures r.Err? ==> r.error == KeyError(Last(columns))
    ensures r.Ok? ==> |r.value.rows| == |df.rows|
    ensures r.Ok? ==> |df.columns| <= |r.value.columns| && r.value.columns[..|df.columns|] == df.columns
    ensures r.Ok? ==> forall c :: c in r.value.columns <==> c in df.columns || c in columns
    ensures r.Ok? ==> forall c :: c in columns ==> Column(r.value, c) == ToNumeric(Column(df, Last(columns)))
    ensures r.Ok? ==> forall c :: c !in columns ==> Column(r.value, c) == Column(df, c)
  {
    if columns == [] {
      return Ok(df);
    }
    var src := Last(columns);
    if src !in df.columns {
      return Err(KeyError(src));
    }
    var keys := Unique(columns);
    var converted := ToNumeric(Column(df, src));
    ToNumericIdempotent(Column(df, src));
    var cur := df;
    var i := 0;
    while i < |keys|
      invariant 0 <= i <= |keys|
      invariant |cur.rows| == |df.rows|
      invariant |df.columns| <= |cur.columns| && cur.columns[..|df.columns|] == df.columns
      invariant forall c :: c in cur.columns <==> c in df.columns || c in keys[..i]
      invariant Column(cur, src) == Column(df, src) || Column(cur, src) == converted
      invariant forall k :: 0 <= k < i ==> Column(cur, keys[k]) == converted
      invariant forall c :: c !in keys[..i] ==> Column(cur, c) == Column(df, c)
    {
      var vals := ToNumeric(Column(cur, src));
      assert vals == converted;
      assert keys[..i + 1] == keys[..i] + [keys[i]];
      WriteColumnStep(df, cur, keys[..i], keys[i], vals);
      cur := SetColumn(cur, keys[i], vals);
      i := i + 1;
    }
    assert keys[..i] == keys;
    WroteEveryLabel(df, cur, columns, keys, converted);
    return Ok(cur);
  }

  /** `convert_to_numeric` as evidently intended: every listed column is
      converted from its own cells. The first listed label the frame lacks
      is the `KeyError`. */
  method ConvertEachToNumeric(df: Frame, columns: seq<string>) returns (r: Result<Frame>)
    ensures r.Err? <==> exists c :: c in columns && c !in df.columns
    ensures r.Err? ==> r.error.KeyError? && r.error.key in columns && r.error.key !in df.columns
    ensures r.Ok? ==> r.value.columns == df.columns && |r.value.rows| == |df.rows|
    ensures r.Ok? ==> forall c :: c in columns ==> Column(r.value, c) == ToNumeric(Column(df, c))
    ensures r.Ok? ==> forall c :: c !in columns ==> Column(r.value, c) == Column(df, c)
  {
    var keys := Unique(columns);
    var cur := df;
    var i := 0;
    while i < |keys|
      invariant 0 <= i <= |keys|
      invariant cur.columns == df.columns && |cur.rows| == |df.rows|
      invariant forall k :: 0 <= k < i ==> keys[k] in df.columns
      invariant forall k :: 0 <= k < i ==> Column(cur, keys[k]) == ToNumeric(Column(df, keys[k]))
      invariant forall c :: c !in keys[..i] ==> Column(cur, c) == Column(df, c)
    {
      var c := keys[i];
      if c !in df.columns {
        return Err(KeyError(c));
      }
      assert c !in keys[..i] by {
        forall k | 0 <= k < i ensures keys[k] != c { }
      }
      assert keys[..i + 1] == keys[..i] + [c];
      cur := SetColumn(cur, c, ToNumeric(Column(cur, c)));
      i := i + 1;
    }
    assert keys[..i] == keys;
    forall c | c in columns ensures c in df.columns && Column(cur, c) == ToNumeric(Column(df, c)) {
      var k :| 0 <= k < |keys| && keys[k] == c;
    }
    return Ok(cur);
  }

  /** One row `{a: 1.0, b: NaN}` and the columns `[a, b]`: as written,
      column `a` receives `b`'s conversion and its value is lost; as
      intended it keeps `1.0`. */
  method LateBindingLosesColumn() returns (asWritten: seq<Cell>, intended: seq<Cell>)
    ensures asWritten == [Missing]
    ensures intended == [Num(1.0)]
  {
    var row: Row := map["a" := Num(1.0), "b" := Missing];
    var df := Frame(["a", "b"], [row]);
    assert Column(df, "b") == [Missing];
    assert Column(df, "a") == [Num(1.0)];
    var written := ConvertToNumeric(df, ["a", "b"]);
    var fixed := ConvertEachToNumeric(df, ["a", "b"]);
    assert Last(["a", "b"]) == "b";
    assert written.Ok?;
    assert "a" in ["a", "b"];
    asWritten := Column(written.value, "a");
    intended := Column(fixed.value, "a");
  }

  // ---- dropping all-missing rows and columns -----------------------------------------

  predicate AllMissing(row: Row, cols: seq<string>)
  {
    forall c :: c in cols ==> Get(row, c).Missing?
  }

  predicate HasValue(cells: seq<Cell>)
  {
    exists c :: c in cells && !c.Missing?
  }

  /** `dropna(how='all')`: the rows with at least one value, in order. */
  function DropAllMissingRows(f: Frame): (r: Frame)
    ensures r.columns == f.columns
    ensures forall row :: row in r.rows <==> row in f.rows && !AllMissing(row, f.columns)
    ensures IsSubsequence(r.rows, f.rows)
    ensures |r.rows| == Count(f.rows, row => !AllMissing(row, f.columns))
  {
    Frame(f.columns, Filter(f.rows, row => !AllMissing(row, f.columns)))
  }

  /** `dropna(axis=1, how='all')`: the columns with at least one value, in
      order. A dropped column reads as missing in every row anyway, so the
      rows stay as they are. */
  function DropAllMissingColumns(f: Frame): (r: Frame)
    ensures r.rows == f.rows
    ensures forall c :: c in r.columns <==> c in f.columns && HasValue(Column(f, c))
    ensures IsSubsequence(r.columns, f.columns)
  {
    Frame(Filter(f.columns, c => HasValue(Column(f, c))), f.rows)
  }

  /** The frame the strategies work on. */
  function PrepareFrame(df: Frame, dropAllMissing: bool): Frame
  {
    if dropAllMissing then DropAllMissingColumns(DropAllMissingRows(df)) else df
  }

  /** What `handle_missing_values_in_dataframe` returns: an unknown name
      raises as soon as there is a numeric column to process; otherwise
      every numeric column is replaced by its strategy's result and every
      other column is left alone. */
  ghost predicate HandlesMissing(df: Frame, strategy: string, dropAllMissing: bool, r: Result<Frame>)
  {
    var base := PrepareFrame(df, dropAllMissing);
    var numeric := IdentifyNumericColumns(base);
    match LookupStrategy(strategy)
    case None =>
      if numeric == [] then r == Ok(base) else r == Err(ValueError(UnknownStrategyMessage(strategy)))
    case Some(s) =>
      && r.Ok?
      && r.value.columns == base.columns
      && |r.value.rows| == |base.rows|
      && (forall c :: c in numeric ==> Column(r.value, c) == ApplyStrategy(Column(base, c), s))
      && (forall c :: c !in numeric ==> Column(r.value, c) == Column(base, c))
  }

  method HandleMissingValuesInDataframe(df: Frame, strategy: string, dropAllMissing: bool)
    returns (r: Result<Frame>)
    ensures HandlesMissing(df, strategy, dropAllMissing, r)
  {
    var base := PrepareFrame(df, dropAllMissing);
    var numeric := IdentifyNumericColumns(base);
    var found := LookupStrategy(strategy);
    if found.None? {
      if numeric == [] {
        return Ok(base);
      }
      return Err(ValueError(UnknownStrategyMessage(strategy)));
    }
    var s := found.value;
    var out := ProcessColumns(base, numeric, cells => ApplyStrategy(cells, s));
    return Ok(out);
  }

  /** The loop that writes each processed column back into the frame. */
  method ProcessColumns(base: Frame, numeric: seq<string>, fill: seq<Cell> -> seq<Cell>) returns (out: Frame)
    requires forall c :: c in numeric ==> c in base.columns
    requires forall cells :: |fill(cells)| == |cells|
    ensures out.columns == base.columns
    ensures |out.rows| == |base.rows|
    ensures forall c :: c in numeric ==> Column(out, c) == fill(Column(base, c))
    ensures forall c :: c !in numeric ==> Column(out, c) == Column(base, c)
  {
    out := base;
    var i := 0;
    while i < |numeric|
      invariant 0 <= i <= |numeric|
      invariant out.columns == base.columns
      invariant |out.rows| == |base.rows|
      invariant forall k :: 0 <= k < i ==> Column(out, numeric[k]) == fill(Column(base, numeric[k]))
      invariant forall c :: c !in numeric[..i] ==> Column(out, c) == Column(base, c)
    {
      var c := numeric[i];
      assert c in base.columns;
      assert numeric[..i + 1] == numeric[..i] + [c];
      out := SetColumn(out, c, fill(Column(base, c)));
      i := i + 1;
    }
    assert numeric[..i] == numeric;
    forall c | c in numeric ensures Column(out, c) == fill(Column(base, c)) {
      var k :| 0 <= k < |numeric| && numeric[k] == c;
    }
  }

  /** With dropping on and mean, median or mode, no numeric column keeps a
      missing cell: every column that survives the drop holds a number. */
  lemma StatisticLeavesNoGap(df: Frame, strategy: string, r: Result<Frame>)
    requires strategy in ["mean", "median", "mode"]
    requires HandlesMissing(df, strategy, true, r)
    ensures r.Ok?
    ensures forall c :: c in IdentifyNumericColumns(PrepareFrame(df, true)) ==>
              forall x :: x in Column(r.value, c) ==> !x.Missing?
  {
    var base := PrepareFrame(df, true);
    var s := LookupStrategy(strategy).value;
    assert s.Mean? || s.Median? || s.Mode?;
    forall c | c in IdentifyNumericColumns(base)
      ensures forall x :: x in Column(r.value, c) ==> !x.Missing?
    {
      assert Column(r.value, c) == ApplyStrategy(Column(base, c), s);
      SurvivingNumericColumnHasNumber(df, c);
      StatisticFillsEveryGap(Column(base, c), s);
    }
  }

  /** A numeric column that survives the drop holds at least one number. */
  lemma SurvivingNumericColumnHasNumber(df: Frame, c: string)
    requires c in IdentifyNumericColumns(PrepareFrame(df, true))
    ensures NumValues(Column(PrepareFrame(df, true), c)) != []
  {
    var rowsKept := DropAllMissingRows(df);
    var base := PrepareFrame(df, true);
    var cells := Column(base, c);
    assert cells == Column(rowsKept, c);
    assert HasValue(cells);
    var x :| x in cells && !x.Missing?;
    assert IsNumericColumn(cells);
    assert Num(x.v) in cells;
  }

  // ---- duplicates ---------------------------------------------------------------------

  /** The cells of `row` under `cols`: what `drop_duplicates` compares
      (NaN equals NaN there). */
  function Key(row: Row, cols: seq<string>): seq<Cell>
  {
    seq(|cols|, i requires 0 <= i < |cols| => Get(row, cols[i]))
  }

  function Keys(rows: seq<Row>, cols: seq<string>): (ks: seq<seq<Cell>>)
    ensures |ks| == |rows|
    ensures forall i :: 0 <= i < |rows| ==> ks[i] == Key(rows[i], cols)
  {
    seq(|rows|, i requires 0 <= i < |rows| => Key(rows[i], cols))
  }

  /** The first row whose key is `k`. */
  function FirstWithKey(rows: seq<Row>, cols: seq<string>, k: seq<Cell>): (r: Option<Row>)
    ensures r.Some? <==> k in Keys(rows, cols)
    ensures r.Some? ==> r.value in rows && Key(r.value, cols) == k
  {
    if rows == [] then None
    else if Key(rows[0], cols) == k then Some(rows[0])
    else
      assert forall x :: x in Keys(rows, cols) <==> x == Key(rows[0], cols) || x in Keys(rows[1..], cols) by {
        assert Keys(rows, cols) == [Key(rows[0], cols)] + Keys(rows[1..], cols);
      }
      FirstWithKey(rows[1..], cols, k)
  }

  /** Keep-first de-duplication by key, built from the back: the last row is
      kept when no earlier row has its key. */
  function DedupRows(rows: seq<Row>, cols: seq<string>): (r: seq<Row>)
  {
    if rows == [] then []
    else
      var n := |rows|;
      var init := DedupRows(rows[..n - 1], cols);
      if Key(rows[n - 1], cols) in Keys(rows[..n - 1], cols) then init else init + [rows[n - 1]]
  }

  lemma KeysAppend(rows: seq<Row>, cols: seq<string>, row: Row)
    ensures Keys(rows + [row], cols) == Keys(rows, cols) + [Key(row, cols)]
  {
  }

  lemma FirstWithKeyAppend(rows: seq<Row>, cols: seq<string>, row: Row, k: seq<Cell>)
    ensures FirstWithKey(rows + [row], cols, k) ==
              if k in Keys(rows, cols) then FirstWithKey(rows, cols, k)
              else if k == Key(row, cols) then Some(row) else None
    decreases |rows|
  {
    if rows != [] {
      assert (rows + [row])[1..] == rows[1..] + [row];
      if Key(rows[0], cols) != k {
        FirstWithKeyAppend(rows[1..], cols, row, k);
        assert Keys(rows, cols) == [Key(rows[0], cols)] + Keys(rows[1..], cols);
      }
    }
  }

  lemma IsSubsequenceAppend<T>(a: seq<T>, b: seq<T>, x: T)
    requires IsSubsequence(a, b)
    ensures IsSubsequence(a, b + [x])
    ensures IsSubsequence(a + [x], b + [x])
    decreases |b|
  {
    if a != [] && b != [] {
      assert (b + [x])[1..] == b[1..] + [x];
      assert (a + [x])[1..] == a[1..] + [x];
      if a[0] == b[0] && IsSubsequence(a[1..], b[1..]) {
        IsSubsequenceAppend(a[1..], b[1..], x);
      }
      if IsSubsequence(a, b[1..]) {
        IsSubsequenceAppend(a, b[1..], x);
      }
    } else if a == [] {
      if b != [] {
        assert (b + [x])[1..] == b[1..] + [x];
        IsSubsequenceAppend(a, b[1..], x);
      }
    }
  }

  lemma IsSubsequenceEmpty<T>(b: seq<T>)
    ensures IsSubsequence([], b)
  {
  }

  /** The kept rows are in input order, have distinct keys, cover every key
      of the input, and each is the first row with its key. */
  lemma DedupRowsKeepsFirst(rows: seq<Row>, cols: seq<string>)
    ensures var r := DedupRows(rows, cols);
            && IsSubsequence(r, rows)
            && Distinct(Keys(r, cols))
            && (forall k :: k in Keys(r, cols) <==> k in Keys(rows, cols))
            && (forall x :: x in r ==> FirstWithKey(rows, cols, Key(x, cols)) == Some(x))
            && Keys(r, cols) == Unique(Keys(rows, cols))
  {
    DedupRowsKeyOrder(rows, cols);
    DedupRowsInOrder(rows, cols);
    DedupRowsKeys(rows, cols);
    DedupRowsFirst(rows, cols);
  }

  /** The kept keys are the distinct keys in order of first appearance, so
      the first occurrence of every key is the one kept, in input order. */
  lemma {:induction false} DedupRowsKeyOrder(rows: seq<Row>, cols: seq<string>)
    ensures Keys(DedupRows(rows, cols), cols) == Unique(Keys(rows, cols))
  {
    if rows != [] {
      var n := |rows|;
      var pre := rows[..n - 1];
      var ks := Keys(rows, cols);
      DedupRowsKeyOrder(pre, cols);
      assert ks[..n - 1] == Keys(pre, cols);
      assert ks[n - 1] == Key(rows[n - 1], cols);
      if Key(rows[n - 1], cols) !in Keys(pre, cols) {
        KeysAppend(DedupRows(pre, cols), cols, rows[n - 1]);
      }
    }
  }

  lemma {:induction false} DedupRowsInOrder(rows: seq<Row>, cols: seq<string>)
    ensures IsSubsequence(DedupRows(rows, cols), rows)
  {
    if rows != [] {
      var n := |rows|;
      var pre, last := rows[..n - 1], rows[n - 1];
      DedupRowsInOrder(pre, cols);
      assert rows == pre + [last];
      IsSubsequenceAppend(DedupRows(pre, cols), pre, last);
    }
  }

  lemma {:induction false} DedupRowsKeys(rows: seq<Row>, cols: seq<string>)
    ensures Distinct(Keys(DedupRows(rows, cols), cols))
    ensures forall k :: k in Keys(DedupRows(rows, cols), cols) <==> k in Keys(rows, cols)
  {
    if rows != [] {
      var n := |rows|;
      var pre, last := rows[..n - 1], rows[n - 1];
      DedupRowsKeys(pre, cols);
      assert rows == pre + [last];
      KeysAppend(pre, cols, last);
      if Key(last, cols) !in Keys(pre, cols) {
        KeysAppend(DedupRows(pre, cols), cols, last);
      }
    }
  }

  lemma {:induction false} DedupRowsFirst(rows: seq<Row>, cols: seq<string>)
    ensures forall x :: x in DedupRows(rows, cols) ==> FirstWithKey(rows, cols, Key(x, cols)) == Some(x)
  {
    if rows != [] {
      var n := |rows|;
      var pre, last := rows[..n - 1], rows[n - 1];
      DedupRowsFirst(pre, cols);
      var init := DedupRows(pre, cols);
      assert rows == pre + [last];
      forall x | x in DedupRows(rows, cols) ensures FirstWithKey(rows, cols, Key(x, cols)) == Some(x) {
        FirstWithKeyAppend(pre, cols, last, Key(x, cols));
        if x in init {
          assert FirstWithKey(pre, cols, Key(x, cols)) == Some(x);
        }
      }
    }
  }

  /** Rows whose keys are already distinct come through unchanged. */
  lemma {:induction false} DedupRowsDistinct(rows: seq<Row>, cols: seq<string>)
    requires Distinct(Keys(rows, cols))
    ensures DedupRows(rows, cols) == rows
  {
    if rows != [] {
      var n := |rows|;
      var pre := rows[..n - 1];
      assert Keys(pre, cols) == Keys(rows, cols)[..n - 1];
      DedupRowsDistinct(pre, cols);
      assert rows == pre + [rows[n - 1]];
    }
  }

  /** `drop_duplicates(subset=subset, keep='first')`: the key is the whole
      row, or the `subset` columns, each of which must exist. */
  function RemoveDuplicateRows(f: Frame, subset: Option<seq<string>>): (r: Result<Frame>)
    ensures r.Err? <==> subset.Some? && exists c :: c in subset.value && c !in f.columns
    ensures r.Err? ==> r.error.KeyError? && r.error.key in subset.value && r.error.key !in f.columns
    ensures r.Ok? ==> r.value.columns == f.columns
  {
    match subset
    case None => Ok(Frame(f.columns, DedupRows(f.rows, f.columns)))
    case Some(cols) =>
      var bad := Filter(cols, c => c !in f.columns);
      if bad != [] then
        assert bad[0] in bad;
        Err(KeyError(bad[0]))
      else
        assert forall c :: c in cols ==> c in f.columns;
        Ok(Frame(f.columns, DedupRows(f.rows, cols)))
  }

  function KeyColumns(f: Frame, subset: Option<seq<string>>): seq<string>
  {
    match subset
    case None => f.columns
    case Some(cols) => cols
  }

  /** Duplicate removal keeps the first row of every key, in order, and
      removing duplicates twice is removing them once. */
  lemma RemoveDuplicateRowsKeepsFirst(f: Frame, subset: Option<seq<string>>)
    requires RemoveDuplicateRows(f, subset).Ok?
    ensures var r := RemoveDuplicateRows(f, subset).value;
            var cols := KeyColumns(f, subset);
            && r.rows == DedupRows(f.rows, cols)
            && IsSubsequence(r.rows, f.rows)
            && Distinct(Keys(r.rows, cols))
            && (forall k :: k in Keys(r.rows, cols) <==> k in Keys(f.rows, cols))
            && (forall x :: x in r.rows ==> FirstWithKey(f.rows, cols, Key(x, cols)) == Some(x))
            && Keys(r.rows, cols) == Unique(Keys(f.rows, cols))
            && RemoveDuplicateRows(r, subset) == Ok(r)
  {
    var cols := KeyColumns(f, subset);
    var r := RemoveDuplicateRows(f, subset).value;
    DedupRowsKeepsFirst(f.rows, cols);
    DedupRowsDistinct(r.rows, cols);
  }

  // ---- the whole cleaner --------------------------------------------------------------

  /** `clean_dataframe`: duplicates first (when asked), then missing values
      with dropping on (when asked). Frames are values, so the input is
      never changed. */
  method CleanDataframe(df: Frame, handleMissing: bool, missingStrategy: string,
                        removeDuplicates: bool, duplicateSubset: Option<seq<string>>)
    returns (r: Result<Frame>)
    ensures var deduped := if removeDuplicates then RemoveDuplicateRows(df, duplicateSubset) else Ok(df);
            if deduped.Err? then r == deduped
            else if handleMissing then HandlesMissing(deduped.value, missingStrategy, true, r)
            else r == deduped
  {
    var result := Ok(df);
    if removeDuplicates {
      result := RemoveDuplicateRows(df, duplicateSubset);
      if result.Err? {
        return result;
      }
    }
    if handleMissing {
      result := HandleMissingValuesInDataframe(result.value, missingStrategy, true);
    }
    return result;
  }

  // ---- summary ---------------------------------------------------------------------

  datatype CleaningSummary = CleaningSummary(
    rowsBefore: nat,
    rowsAfter: nat,
    rowsRemoved: int,
    columnsTotal: nat,
    columnsWithMissingBefore: nat,
    columnsWithMissingAfter: nat,
    improvedColumns: seq<string>)

  /** NaN compares false, so an empty frame's columns count nowhere. */
  predicate Positive(p: Option<real>)
  {
    p.Some? && p.value > 0.0
  }

  predicate Decreased(after: Option<real>, before: Option<real>)
  {
    after.Some? && before.Some? && after.value < before.value
  }

  /** The columns with some missing cell, each label once (the keys of the
      dict `detect_missing_values` returns). */
  function ColumnsWithMissing(df: Frame): (n: nat)
    ensures n <= |Unique(df.columns)|
    ensures n == 0 <==> forall c :: c in df.columns ==> !Positive(MissingPercentage(Column(df, c)))
  {
    Count(Unique(df.columns), c => Positive(MissingPercentage(Column(df, c))))
  }

  function ImprovedColumns(before: Frame, after: Frame): (r: seq<string>)
    ensures forall c :: c in r <==>
              && c in before.columns && c in after.columns
              && Decreased(MissingPercentage(Column(after, c)), MissingPercentage(Column(before, c)))
    ensures IsSubsequence(r, before.columns)
  {
    Filter(before.columns, c =>
      c in after.columns
      && Decreased(MissingPercentage(Column(after, c)), MissingPercentage(Column(before, c))))
  }

  function GetCleaningSummary(before: Frame, after: Frame): (s: CleaningSummary)
    ensures s.rowsRemoved == s.rowsBefore - s.rowsAfter
    ensures s.rowsBefore == |before.rows| && s.rowsAfter == |after.rows|
    ensures s.columnsTotal == |before.columns|
  {
    CleaningSummary(
      |before.rows|, |after.rows|, |before.rows| - |after.rows|, |before.columns|,
      ColumnsWithMissing(before), ColumnsWithMissing(after),
      ImprovedColumns(before, after))
  }

  /** A column is reported as improved exactly when it is in both frames
      and its missing share strictly fell; a column that went from 0% to 0%,
      or that was dropped, is not. */
  lemma ImprovedMeansStrictlyFewerMissing(before: Frame, after: Frame, c: string)
    ensures c in GetCleaningSummary(before, after).improvedColumns <==>
              && c in before.columns && c in after.columns
              && |before.rows| > 0 && |after.rows| > 0
              && MissingPercentage(Column(after, c)).value < MissingPercentage(Column(before, c)).value
  {
  }
}
