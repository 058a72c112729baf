/** Sorting as Python's `sorted` and pandas' `sort_values` do it, over any
    total preorder, and Python's ordering of strings. */
module Sorting {
  import opened Frames

  /** `le` compares any two values and is transitive. */
  ghost predicate TotalPreorder<T(!new)>(le: (T, T) -> bool)
  {
    && (forall a, b :: le(a, b) || le(b, a))
    && (forall a, b, c :: le(a, b) && le(b, c) ==> le(a, c))
  }

  predicate SortedBy<T>(s: seq<T>, le: (T, T) -> bool)
  {
    forall i, j :: 0 <= i < j < |s| ==> le(s[i], s[j])
  }

  /** Places `x` before the first element it is not above. */
  function Insert<T(!new)>(x: T, s: seq<T>, le: (T, T) -> bool): (r: seq<T>)
    requires TotalPreorder(le)
    ensures multiset(r) == multiset(s) + multiset{x}
    ensures SortedBy(s, le) ==> SortedBy(r, le)
  {
    if s == [] then [x]
    else if le(x, s[0]) then
      assert SortedBy(s, le) ==> SortedBy([x] + s, le) by {
        if SortedBy(s, le) {
          forall k | 0 <= k < |s| ensures le(x, s[k]) {
            if k > 0 { assert le(s[0], s[k]); }
          }
        }
      }
      assert s == [s[0]] + s[1..];
      [x] + s
    else
      var t := Insert(x, s[1..], le);
      assert s == [s[0]] + s[1..];
      assert SortedBy(s, le) ==> SortedBy([s[0]] + t, le) by {
        if SortedBy(s, le) {
          assert SortedBy(s[1..], le);
          forall y | y in t ensures le(s[0], y) {
            assert y in multiset(t);
            if y != x {
              assert y in multiset(s[1..]);
            }
          }
        }
      }
      [s[0]] + t
  }

  /** Insertion sort: a sorted permutation of `s`; equal elements keep
      their input order. */
  function SortBy<T(!new)>(s: seq<T>, le: (T, T) -> bool): (r: seq<T>)
    requires TotalPreorder(le)
    ensures multiset(r) == multiset(s)
    ensures SortedBy(r, le)
  {
    if s == [] then []
    else
      assert s == [s[0]] + s[1..];
      Insert(s[0], SortBy(s[1..], le), le)
  }

  /** Sorting what is already sorted changes nothing, so `sorted` is
      idempotent. */
  lemma {:induction false} SortSortedIsIdentity<T(!new)>(s: seq<T>, le: (T, T) -> bool)
    requires TotalPreorder(le) && SortedBy(s, le)
    ensures SortBy(s, le) == s
  {
    if s != [] {
      assert SortedBy(s[1..], le);
      SortSortedIsIdentity(s[1..], le);
      if |s| > 1 {
        assert le(s[0], s[1]);
      }
    }
  }

  /** How many elements of a sorted sequence satisfy a predicate does not
      depend on the order: sorting keeps every count. */
  lemma {:induction false} SortKeepsCount<T(!new)>(s: seq<T>, le: (T, T) -> bool, p: T -> bool)
    requires TotalPreorder(le)
    ensures Count(SortBy(s, le), p) == Count(s, p)
  {
    if s != [] {
      SortKeepsCount(s[1..], le, p);
      InsertKeepsCount(s[0], SortBy(s[1..], le), le, p);
    }
  }

  lemma {:induction false} InsertKeepsCount<T(!new)>(x: T, s: seq<T>, le: (T, T) -> bool, p: T -> bool)
    requires TotalPreorder(le)
    ensures Count(Insert(x, s, le), p) == Count(s, p) + (if p(x) then 1 else 0)
  {
    if s != [] && !le(x, s[0]) {
      InsertKeepsCount(x, s[1..], le, p);
      assert ([s[0]] + Insert(x, s[1..], le))[1..] == Insert(x, s[1..], le);
    }
  }

  // ---- Python's ordering of str --------------------------------------------

  /** `a <= b` on Python strings: code point by code point, a proper prefix
      first. */
  predicate StrLe(a: string, b: string)
  {
    |a| == 0 || (|b| > 0 && (a[0] < b[0] || (a[0] == b[0] && StrLe(a[1..], b[1..]))))
  }

  lemma {:induction false} StrLeTotal(a: string, b: string)
    ensures StrLe(a, b) || StrLe(b, a)
  {
    if |a| > 0 && |b| > 0 && a[0] == b[0] {
      StrLeTotal(a[1..], b[1..]);
    }
  }

  lemma {:induction false} StrLeTransitive(a: string, b: string, c: string)
    requires StrLe(a, b) && StrLe(b, c)
    ensures StrLe(a, c)
  {
    if |a| > 0 && a[0] == b[0] && b[0] == c[0] {
      StrLeTransitive(a[1..], b[1..], c[1..]);
    }
  }

  lemma {:induction false} StrLeAntisymmetric(a: string, b: string)
    requires StrLe(a, b) && StrLe(b, a)
    ensures a == b
  {
    if |a| > 0 && |b| > 0 {
      StrLeAntisymmetric(a[1..], b[1..]);
      assert a == [a[0]] + a[1..] && b == [b[0]] + b[1..];
    }
  }

  lemma StrLeIsTotalPreorder()
    ensures TotalPreorder(StrLe)
  {
    forall a, b ensures StrLe(a, b) || StrLe(b, a) { StrLeTotal(a, b); }
    forall a, b, c | StrLe(a, b) && StrLe(b, c) ensures StrLe(a, c) {
      StrLeTransitive(a, b, c);
    }
  }

  /** For digit strings of one length, string order is numeric order, so
      sorting four-digit year labels as text sorts them by year. */
  lemma {:induction false} StrLeIsNumericOrder(a: string, b: string)
    requires AllDigits(a) && AllDigits(b) && |a| == |b|
    ensures StrLe(a, b) <==> DigitsValue(a) <= DigitsValue(b)
  {
    if |a| > 0 {
      StrLeIsNumericOrder(a[1..], b[1..]);
      var p := Pow10(|a| - 1);
      var da, db := DigitValue(a[0]), DigitValue(b[0]);
      var ra, rb := DigitsValue(a[1..]), DigitsValue(b[1..]);
      DigitsValueFront(a);
      DigitsValueFront(b);
      if da < db {
        LeadingDigitDecides(da, db, ra, rb, p);
      } else if db < da {
        LeadingDigitDecides(db, da, rb, ra, p);
      }
    }
  }

  lemma LeadingDigitDecides(da: nat, db: nat, ra: nat, rb: nat, p: nat)
    requires da < db && ra < p
    ensures da * p + ra < db * p + rb
  {
    var k := db - da;
    assert db * p == da * p + k * p;
    assert k * p == p + (k - 1) * p;
    assert (k - 1) * p >= 0;
  }
}
