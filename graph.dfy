/** The part of the chart code that computes data: choosing a unit so that
    GDP values read as trillions, billions or millions, and the copy of the
    table that the bar chart sorts by the scaled value. */
module Graph {
  import opened Frames
  import opened Sorting
  import DataCleaner

  const DisplayLabel := "Display_Val"
  const Trillion: real := 1000000000000.0
  const Billion: real := 1000000000.0
  const Million: real := 1000000.0

  datatype Unit = Trillions | Billions | Millions | Value

  /** What every value is divided by for a unit: 1e12, 1e9, 1e6, or nothing
      for plain values. */
  function Divisor(u: Unit): (d: real)
    ensures d >= 1.0
    ensures u == Trillions ==> d == 1000000000000.0
    ensures u == Billions ==> d == 1000000000.0
    ensures u == Millions ==> d == 1000000.0
    ensures u == Value ==> d == 1.0
  {
    match u
    case Trillions => Trillion
    case Billions => Billion
    case Millions => Million
    case Value => 1.0
  }

  /** `Series.max()`: the largest number, missing cells skipped; nothing when
      the column holds no number (pandas gives NaN). */
  function MaxValue(cells: seq<Cell>): (m: Option<real>)
    ensures m.None? <==> forall c :: c in cells ==> !c.Num?
    ensures m.Some? ==> Num(m.value) in cells && forall x :: Num(x) in cells ==> x <= m.value
  {
    var xs := NumValues(cells);
    if xs == [] then None else Some(DataCleaner.MaxOf(xs))
  }

  /** The tier of a maximum. The tiers do not overlap, and a NaN maximum
      fails every `>=` test, so it lands in the last one. */
  function UnitFor(max: Option<real>): (u: Unit)
    ensures u == Trillions <==> max.Some? && max.value >= Trillion
    ensures u == Billions <==> max.Some? && Billion <= max.value < Trillion
    ensures u == Millions <==> max.Some? && Million <= max.value < Billion
    ensures u == Value <==> max.None? || max.value < Million
  {
    if max.Some? && max.value >= Trillion then Trillions
    else if max.Some? && max.value >= Billion then Billions
    else if max.Some? && max.value >= Million then Millions
    else Value
  }

  /** True when pandas would refuse to compare or divide the column. */
  predicate HasText(cells: seq<Cell>)
  {
    exists i :: 0 <= i < |cells| && cells[i].Str?
  }

  /** `column / d` on a column of numbers and NaN. */
  function Scaled(cells: seq<Cell>, d: real): (r: seq<Cell>)
    requires d > 0.0
    ensures |r| == |cells|
    ensures forall i :: 0 <= i < |cells| ==> r[i] == if cells[i].Num? then Num(cells[i].v / d) else cells[i]
  {
    seq(|cells|, i requires 0 <= i < |cells| => if cells[i].Num? then Num(cells[i].v / d) else cells[i])
  }

  /** `humanize_numbers(df, value_col)` as a value: the unit, and the frame
      with `Display_Val` written. A missing column is pandas' `KeyError`,
      text in the column the `TypeError` that `max()` raises. */
  function Humanize(f: Frame, valueCol: string): (r: Result<(Unit, Frame)>)
    ensures r.Ok? <==> valueCol in f.columns && !HasText(Column(f, valueCol))
    ensures valueCol !in f.columns ==> r == Err(KeyError(valueCol))
    ensures valueCol in f.columns && HasText(Column(f, valueCol)) ==> r == Err(TypeError)
    ensures r.Ok? ==> r.value.0 == UnitFor(MaxValue(Column(f, valueCol)))
    ensures r.Ok? ==> r.value.1.columns == if DisplayLabel in f.columns then f.columns else f.columns + [DisplayLabel]
    ensures r.Ok? ==> |r.value.1.rows| == |f.rows|
    ensures r.Ok? ==> forall c :: c != DisplayLabel ==> Column(r.value.1, c) == Column(f, c)
    ensures r.Ok? ==>
              var col := Column(f, valueCol);
              var disp := Column(r.value.1, DisplayLabel);
              && |disp| == |col|
              && forall i :: 0 <= i < |col| ==>
                   disp[i] == (if col[i].Num? then Num(col[i].v / Divisor(r.value.0)) else col[i])
  {
    if valueCol !in f.columns then Err(KeyError(valueCol))
    else
      var col := Column(f, valueCol);
      if HasText(col) then Err(TypeError)
      else
        var u := UnitFor(MaxValue(col));
        var disp := Scaled(col, Divisor(u));
        var g := SetColumn(f, DisplayLabel, disp);
        assert Column(g, DisplayLabel) == disp;
        Ok((u, g))
  }

  lemma DivMonotone(a: real, b: real, d: real)
    requires d > 0.0
    ensures a <= b <==> a / d <= b / d
  {
  }

  lemma TierRange(m: real, d: real)
    requires d > 0.0 && d <= m
    ensures 1.0 <= m / d
  {
  }

  lemma TierBound(x: real, d: real)
    requires d > 0.0 && x < 1000.0 * d
    ensures x / d < 1000.0
  {
  }

  /** What the scaled column promises: it is missing exactly where the value
      is, every row is divided by the same factor so the order of the rows
      by `Display_Val` is their order by value, and the largest value reads
      at least 1 in every unit but "Value" and below 1000 in billions and
      millions; trillions have no upper bound. */
  lemma HumanizeScale(f: Frame, valueCol: string)
    requires Humanize(f, valueCol).Ok?
    ensures var u := Humanize(f, valueCol).value.0;
            var col := Column(f, valueCol);
            var disp := Column(Humanize(f, valueCol).value.1, DisplayLabel);
            && |disp| == |col|
            && (forall i :: 0 <= i < |col| ==> (disp[i].Num? <==> col[i].Num?))
            && (u == Value ==> disp == col)
            && (forall i, j :: 0 <= i < |col| && 0 <= j < |col| && col[i].Num? && col[j].Num? ==>
                  (col[i].v <= col[j].v <==> disp[i].v <= disp[j].v))
            && (u != Value ==> exists i :: 0 <= i < |disp| && disp[i].Num? && disp[i].v >= 1.0)
            && (u == Billions || u == Millions ==> forall i :: 0 <= i < |disp| && disp[i].Num? ==> disp[i].v < 1000.0)
  {
    var u := Humanize(f, valueCol).value.0;
    var col := Column(f, valueCol);
    var d := Divisor(u);
    var disp := Column(Humanize(f, valueCol).value.1, DisplayLabel);
    assert disp == Scaled(col, d);
    forall i, j | 0 <= i < |col| && 0 <= j < |col| && col[i].Num? && col[j].Num?
      ensures col[i].v <= col[j].v <==> disp[i].v <= disp[j].v
    {
      DivMonotone(col[i].v, col[j].v, d);
    }
    var m := MaxValue(col);
    if u != Value {
      var k :| 0 <= k < |col| && col[k] == Num(m.value);
      TierRange(m.value, d);
      assert disp[k].Num? && disp[k].v >= 1.0;
    }
    if u == Billions || u == Millions {
      forall i | 0 <= i < |disp| && disp[i].Num? ensures disp[i].v < 1000.0 {
        assert col[i] in col;
        TierBound(col[i].v, d);
      }
    }
  }

  /** A frame the chart code holds by reference. */
  class FrameRef {
    var frame: Frame

    constructor (f: Frame)
      ensures frame == f
    {
      frame := f;
    }
  }

  /** `humanize_numbers`: writes `Display_Val` into the caller's frame in
      place and returns the unit; on an error the frame is left alone. */
  method HumanizeNumbers(df: FrameRef, valueCol: string) returns (r: Result<Unit>)
    modifies df
    ensures Humanize(old(df.frame), valueCol).Err? ==>
              r == Err(Humanize(old(df.frame), valueCol).error) && df.frame == old(df.frame)
    ensures Humanize(old(df.frame), valueCol).Ok? ==>
              r == Ok(Humanize(old(df.frame), valueCol).value.0) && df.frame == Humanize(old(df.frame), valueCol).value.1
  {
    var h := Humanize(df.frame, valueCol);
    if h.Err? {
      return Err(h.error);
    }
    df.frame := h.value.1;
    r := Ok(h.value.0);
  }

  /** Order of `sort_values` on one column: numbers by value, NaN last. */
  function Rank(c: Cell): nat
  {
    match c
    case Num(_) => 0
    case Str(_) => 1
    case Missing => 2
  }

  predicate CellLe(a: Cell, b: Cell)
  {
    Rank(a) < Rank(b) || (Rank(a) == Rank(b) && (a.Num? ==> a.v <= b.v))
  }

  predicate DisplayLe(a: Row, b: Row)
  {
    CellLe(Get(a, DisplayLabel), Get(b, DisplayLabel))
  }

  lemma DisplayLeIsTotalPreorder()
    ensures TotalPreorder(DisplayLe)
  {
  }

  /** The frame the bar chart draws: a humanized copy with its rows sorted
      ascending by `Display_Val`. */
  function Barplot(f: Frame, valueCol: string): (r: Result<(Unit, Frame)>)
    ensures r.Ok? <==> Humanize(f, valueCol).Ok?
    ensures r.Ok? ==> r.value.0 == Humanize(f, valueCol).value.0
    ensures r.Ok? ==> r.value.1.columns == Humanize(f, valueCol).value.1.columns
    ensures r.Ok? ==> SortedBy(r.value.1.rows, DisplayLe)
    ensures r.Ok? ==> multiset(r.value.1.rows) == multiset(Humanize(f, valueCol).value.1.rows)
  {
    var h := Humanize(f, valueCol);
    if h.Err? then Err(h.error)
    else
      DisplayLeIsTotalPreorder();
      Ok((h.value.0, Frame(h.value.1.columns, SortBy(h.value.1.rows, DisplayLe))))
  }

  /** The chart's rows run from the smallest value to the largest, with the
      rows without a value at the end. */
  lemma BarplotAscending(f: Frame, valueCol: string, i: nat, j: nat)
    requires Barplot(f, valueCol).Ok?
    requires i < j < |Barplot(f, valueCol).value.1.rows|
    ensures var rows := Barplot(f, valueCol).value.1.rows;
            var a := Get(rows[i], DisplayLabel);
            var b := Get(rows[j], DisplayLabel);
            (a.Missing? ==> b.Missing?) && (a.Num? && b.Num? ==> a.v <= b.v)
  {
  }

  /** `barplot`'s data step: copies the caller's frame, humanizes the copy
      and sorts it; the caller's frame is never touched. */
  method BarplotData(df: FrameRef, valueCol: string) returns (r: Result<(Unit, Frame)>)
    ensures df.frame == old(df.frame)
    ensures r == Barplot(df.frame, valueCol)
  {
    var copy := new FrameRef(df.frame);
    var unit := HumanizeNumbers(copy, valueCol);
    if unit.Err? {
      return Err(unit.error);
    }
    DisplayLeIsTotalPreorder();
    var sorted := SortBy(copy.frame.rows, DisplayLe);
    r := Ok((unit.value, Frame(copy.frame.columns, sorted)));
  }
}
