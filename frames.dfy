/** Values shared by every stage of the GDP pipeline.

    A data frame is a list of column labels plus a list of rows; each row maps
    a label to a cell. A frame is always observed through its column list and
    `Get`, so a label a row does not hold reads as a missing cell, as pandas
    reads NaN. */
module Frames {

  datatype Option<T> = None | Some(value: T)

  /** One cell of a data frame. `Missing` stands for pandas' NaN and None. */
  datatype Cell = Missing | Num(v: real) | Str(s: string)

  type Row = map<string, Cell>

  datatype Frame = Frame(columns: seq<string>, rows: seq<Row>)

  /** The Python exceptions the core raises, one constructor per kind. */
  datatype Error =
    | KeyError(key: string)
    | ValueError(text: string)
    | TypeError
    | ZeroDivisionError
    | IndexError
    | FileNotFoundError

  datatype Result<T> = Ok(value: T) | Err(error: Error)

  /** A parsed JSON value, as `json.load` returns it. */
  datatype Json =
    | JNull
    | JBool(b: bool)
    | JNum(n: real)
    | JStr(str: string)
    | JArray(items: seq<Json>)
    | JObject(fields: map<string, Json>)

  /** What reading `config.json` yields: the file is absent, it is not JSON,
      or it holds a JSON object. */
  datatype Parsed = NoFile | BadJson | Document(data: map<string, Json>)

  function Get(row: Row, c: string): Cell
  {
    if c in row then row[c] else Missing
  }

  /** The column labelled `c`, one cell per row (`df[c]`). */
  function Column(f: Frame, c: string): seq<Cell>
  {
    seq(|f.rows|, i requires 0 <= i < |f.rows| => Get(f.rows[i], c))
  }

  /** `df[c] = vals`: overwrites the column, or appends it when absent. */
  function SetColumn(f: Frame, c: string, vals: seq<Cell>): (r: Frame)
    requires |vals| == |f.rows|
    ensures r.columns == if c in f.columns then f.columns else f.columns + [c]
    ensures |r.rows| == |f.rows|
    ensures Column(r, c) == vals
    ensures forall d :: d != c ==> Column(r, d) == Column(f, d)
  {
    var r := Frame(if c in f.columns then f.columns else f.columns + [c],
                   seq(|f.rows|, i requires 0 <= i < |f.rows| => f.rows[i][c := vals[i]]));
    assert forall d :: d != c ==> Column(r, d) == Column(f, d) by {
      forall d | d != c ensures Column(r, d) == Column(f, d) {
        assert forall i :: 0 <= i < |f.rows| ==> Get(r.rows[i], d) == Get(f.rows[i], d);
      }
    }
    r
  }

  /** Pandas' `==` on cells: NaN equals nothing, not even NaN. */
  predicate CellEquals(a: Cell, b: Cell)
  {
    !a.Missing? && a == b
  }

  predicate Distinct<T(==)>(s: seq<T>)
  {
    forall i, j :: 0 <= i < j < |s| ==> s[i] != s[j]
  }

  /** `a` is `b` with some elements left out, order kept. */
  ghost predicate IsSubsequence<T>(a: seq<T>, b: seq<T>)
    decreases |b|
  {
    if a == [] then true
    else if b == [] then false
    else (a[0] == b[0] && IsSubsequence(a[1..], b[1..])) || IsSubsequence(a, b[1..])
  }

  /** How many elements of `s` satisfy `p`. */
  function Count<T(!new)>(s: seq<T>, p: T -> bool): (n: nat)
    ensures n <= |s|
    ensures n == 0 <==> forall x :: x in s ==> !p(x)
    ensures n == |s| <==> forall x :: x in s ==> p(x)
  {
    if s == [] then 0
    else (if p(s[0]) then 1 else 0) + Count(s[1..], p)
  }

  /** The elements of `s` that satisfy `p`, in order (a boolean mask, or
      Python's `filter`). */
  function Filter<T(!new)>(s: seq<T>, p: T -> bool): (r: seq<T>)
    ensures |r| == Count(s, p)
    ensures forall x :: x in r <==> x in s && p(x)
    ensures IsSubsequence(r, s)
  {
    if s == [] then []
    else
      var t := Filter(s[1..], p);
      assert s == [s[0]] + s[1..];
      if p(s[0]) then
        assert ([s[0]] + t)[1..] == t;
        [s[0]] + t
      else t
  }

  /** Filtering with two predicates that agree on the elements of `s`. */
  lemma {:induction false} FilterCongruent<T(!new)>(s: seq<T>, p: T -> bool, q: T -> bool)
    requires forall x :: x in s ==> p(x) == q(x)
    ensures Filter(s, p) == Filter(s, q)
  {
    if s != [] {
      FilterCongruent(s[1..], p, q);
    }
  }

  /** Filtering a sequence extended at the back extends the result at the
      back when the new element passes. */
  lemma {:induction false} FilterSnoc<T(!new)>(s: seq<T>, x: T, p: T -> bool)
    ensures Filter(s + [x], p) == Filter(s, p) + (if p(x) then [x] else [])
  {
    if s != [] {
      assert (s + [x])[1..] == s[1..] + [x];
      FilterSnoc(s[1..], x, p);
    } else {
      assert (s + [x])[1..] == [];
    }
  }

  /** Filtering keeps everything when every element passes. */
  lemma {:induction false} FilterKeepsAll<T(!new)>(s: seq<T>, p: T -> bool)
    requires forall x :: x in s ==> p(x)
    ensures Filter(s, p) == s
  {
    if s != [] {
      FilterKeepsAll(s[1..], p);
      assert s == [s[0]] + s[1..];
    }
  }

  /** Two filters applied one after the other keep the same elements in the
      same order whichever runs first. */
  lemma {:induction false} FilterCommutes<T(!new)>(s: seq<T>, p: T -> bool, q: T -> bool)
    ensures Filter(Filter(s, p), q) == Filter(Filter(s, q), p)
  {
    if s != [] {
      FilterCommutes(s[1..], p, q);
      FilterFront(s, p);
      FilterFront(s, q);
      var fp := Filter(s[1..], p);
      var fq := Filter(s[1..], q);
      if p(s[0]) {
        FilterFront([s[0]] + fp, q);
        assert ([s[0]] + fp)[1..] == fp;
      }
      if q(s[0]) {
        FilterFront([s[0]] + fq, p);
        assert ([s[0]] + fq)[1..] == fq;
      }
    }
  }

  /** One step of `Filter`, stated for a non-empty sequence. */
  lemma FilterFront<T(!new)>(s: seq<T>, p: T -> bool)
    requires s != []
    ensures Filter(s, p) == if p(s[0]) then [s[0]] + Filter(s[1..], p) else Filter(s[1..], p)
  {
  }

  /** A filter and its complement split `s` without losing or adding elements. */
  lemma {:induction false} FilterPartition<T(!new)>(s: seq<T>, p: T -> bool, q: T -> bool)
    requires forall x :: q(x) == !p(x)
    ensures multiset(Filter(s, p)) + multiset(Filter(s, q)) == multiset(s)
  {
    if s != [] {
      FilterPartition(s[1..], p, q);
      assert s == [s[0]] + s[1..];
      assert multiset(s) == multiset{s[0]} + multiset(s[1..]);
    }
  }

  /** The distinct elements of `s` in order of first appearance (`unique()`). */
  function Unique<T(==,!new)>(s: seq<T>): (r: seq<T>)
    ensures Distinct(r)
    ensures forall x :: x in r <==> x in s
  {
    if s == [] then []
    else
      var t := Unique(s[..|s| - 1]);
      assert forall x :: x in s <==> x in s[..|s| - 1] || x == s[|s| - 1];
      if s[|s| - 1] in t then t else t + [s[|s| - 1]]
  }

  /** A sequence that is a permutation of a sequence without repeats has no
      repeats either. */
  lemma DistinctPermutation<T>(a: seq<T>, b: seq<T>)
    requires Distinct(a) && multiset(a) == multiset(b)
    ensures Distinct(b)
  {
    forall i, j | 0 <= i < j < |b| ensures b[i] != b[j] {
      if b[i] == b[j] {
        var x := b[i];
        assert b == b[..j] + [b[j]] + b[j + 1..];
        assert x in multiset(b[..j]);
        assert multiset(b)[x] >= 2;
        AtMostOnce(a, x);
      }
    }
  }

  lemma {:induction false} AtMostOnce<T>(a: seq<T>, x: T)
    requires Distinct(a)
    ensures multiset(a)[x] <= 1
  {
    if a != [] {
      assert a == [a[0]] + a[1..];
      AtMostOnce(a[1..], x);
      if a[0] == x {
        assert x !in a[1..];
      }
    }
  }

  // ---- numbers written as text -------------------------------------------

  predicate AllDigits(s: string)
  {
    forall i :: 0 <= i < |s| ==> '0' <= s[i] <= '9'
  }

  /** Python's `str.isdigit()`, on ASCII digits. */
  predicate IsDigitString(s: string)
  {
    |s| > 0 && AllDigits(s)
  }

  function Pow10(n: nat): (p: nat)
    ensures p >= 1
  {
    if n == 0 then 1 else 10 * Pow10(n - 1)
  }

  function DigitValue(ch: char): (d: nat)
    requires '0' <= ch <= '9'
    ensures d <= 9
  {
    ch as int - '0' as int
  }

  /** `int(s)` for a string of decimal digits (leading zeros allowed). */
  function DigitsValue(s: string): (n: nat)
    requires AllDigits(s)
    ensures n < Pow10(|s|)
  {
    if s == [] then 0
    else DigitsValue(s[..|s| - 1]) * 10 + DigitValue(s[|s| - 1])
  }

  /** Read from the front: the leading digit weighs `10^(len - 1)`. */
  lemma {:induction false} DigitsValueFront(s: string)
    requires AllDigits(s) && |s| > 0
    ensures DigitsValue(s) == DigitValue(s[0]) * Pow10(|s| - 1) + DigitsValue(s[1..])
  {
    if |s| > 1 {
      var init := s[..|s| - 1];
      DigitsValueFront(init);
      assert init[1..] == s[1..][..|s| - 2];
      var d, p, m := DigitValue(s[0]), Pow10(|s| - 2), DigitsValue(init[1..]);
      var last := DigitValue(s[|s| - 1]);
      assert DigitsValue(s) == DigitsValue(init) * 10 + last;
      assert DigitsValue(s[1..]) == m * 10 + last;
      assert Pow10(|s| - 1) == p * 10;
      Regroup(d, p, m, last);
    }
  }

  lemma Regroup(d: nat, p: nat, m: nat, last: nat)
    ensures (d * p + m) * 10 + last == d * (p * 10) + (m * 10 + last)
  {
  }

  function DotIndex(s: string): (i: nat)
    requires '.' in s
    ensures i < |s| && s[i] == '.'
    ensures '.' !in s[..i]
  {
    if s[0] == '.' then 0 else 1 + DotIndex(s[1..])
  }

  /** An unsigned decimal `ddd`, `ddd.ddd`, `ddd.` or `.ddd`. */
  function ParseDecimal(s: string): Option<real>
  {
    if IsDigitString(s) then Some(DigitsValue(s) as real)
    else if '.' in s then
      var i := DotIndex(s);
      var whole, frac := s[..i], s[i + 1..];
      if AllDigits(whole) && AllDigits(frac) && |whole| + |frac| > 0
      then Some(DigitsValue(whole) as real + DigitsValue(frac) as real / Pow10(|frac|) as real)
      else None
    else None
  }

  /** The number a string spells, with an optional sign, or None. */
  function ParseNumber(s: string): (r: Option<real>)
    ensures IsDigitString(s) ==> r == Some(DigitsValue(s) as real)
  {
    if |s| > 0 && s[0] == '-' then
      match ParseDecimal(s[1..])
      case Some(v) => Some(-v)
      case None => None
    else if |s| > 0 && s[0] == '+' then ParseDecimal(s[1..])
    else ParseDecimal(s)
  }

  // ---- sums of reals ------------------------------------------------------

  function Sum(xs: seq<real>): real
  {
    if xs == [] then 0.0 else Sum(xs[..|xs| - 1]) + xs[|xs| - 1]
  }

  /** The numbers held by a column, missing and text cells skipped (what
      pandas' reductions see). */
  function NumValues(cells: seq<Cell>): (xs: seq<real>)
    ensures |xs| <= |cells|
    ensures |xs| == 0 <==> forall c :: c in cells ==> !c.Num?
    ensures forall x :: x in xs <==> Num(x) in cells
  {
    if cells == [] then []
    else
      var init := cells[..|cells| - 1];
      assert forall c :: c in cells <==> c in init || c == cells[|cells| - 1];
      NumValues(init) + (if cells[|cells| - 1].Num? then [cells[|cells| - 1].v] else [])
  }
}
