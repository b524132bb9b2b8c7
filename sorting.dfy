/**
 * Python's `sorted` applied to a set whose sort key orders its elements
 * strictly: the result holds every element once, in ascending order, and
 * is the only sequence that does.
 */
module Sorting {

  function Elems<T>(s: seq<T>): set<T> {
    set x | x in s
  }

  predicate NoDup<T(==)>(s: seq<T>) {
    forall i, j :: 0 <= i < j < |s| ==> s[i] != s[j]
  }

  /** `less` is a strict total order on the elements of `s`. */
  ghost predicate StrictTotalOn<T>(s: set<T>, less: (T, T) -> bool) {
    && (forall a :: a in s ==> !less(a, a))
    && (forall a, b, c :: a in s && b in s && c in s && less(a, b) && less(b, c) ==> less(a, c))
    && (forall a, b :: a in s && b in s && a != b ==> less(a, b) || less(b, a))
  }

  ghost predicate Ascending<T>(r: seq<T>, less: (T, T) -> bool) {
    forall i, j :: 0 <= i < j < |r| ==> less(r[i], r[j])
  }

  predicate IsLeast<T>(m: T, s: set<T>, less: (T, T) -> bool) {
    m in s && forall y :: y in s && y != m ==> less(m, y)
  }

  lemma {:induction false} LeastExists<T>(s: set<T>, less: (T, T) -> bool)
    requires s != {} && StrictTotalOn(s, less)
    ensures exists m :: IsLeast(m, s, less)
  {
    var x :| x in s;
    var rest := s - {x};
    if rest == {} {
      forall y | y in s ensures y == x {
        assert y !in rest;
      }
      assert IsLeast(x, s, less);
    } else {
      LeastExists(rest, less);
      var m :| IsLeast(m, rest, less);
      if less(x, m) {
        assert IsLeast(x, s, less);
      } else {
        assert IsLeast(m, s, less);
      }
    }
  }

  /** The selection loop so far: `r` holds some elements of `s` once each,
      and `rest` the others. */
  ghost predicate Parted<T>(s: set<T>, r: seq<T>, rest: set<T>) {
    && Elems(r) + rest == s
    && Elems(r) !! rest
    && |r| + |rest| == |s|
  }

  /** `r` is ascending and below everything in `rest`. */
  ghost predicate Below<T>(less: (T, T) -> bool, r: seq<T>, rest: set<T>) {
    && Ascending(r, less)
    && (forall i, y :: 0 <= i < |r| && y in rest ==> less(r[i], y))
  }

  /** Moving an element of `rest` to the end of `r` keeps the partition. */
  lemma PartedStep<T>(s: set<T>, r: seq<T>, rest: set<T>, m: T)
    requires Parted(s, r, rest) && m in rest
    ensures Parted(s, r + [m], rest - {m})
  {
    assert Elems(r + [m]) == Elems(r) + {m};
    assert |rest - {m}| == |rest| - 1;
  }

  /** Moving the least element of `rest` to the end of `r` keeps the order. */
  lemma BelowStep<T>(less: (T, T) -> bool, r: seq<T>, rest: set<T>, m: T)
    requires Below(less, r, rest) && IsLeast(m, rest, less)
    ensures Below(less, r + [m], rest - {m})
  {
    var r' := r + [m];
    forall i, j | 0 <= i < j < |r'| ensures less(r'[i], r'[j]) {
      if j < |r| {
        assert r'[i] == r[i] && r'[j] == r[j];
      } else {
        assert r'[i] == r[i] && r'[j] == m;
      }
    }
    forall i, y | 0 <= i < |r'| && y in rest - {m} ensures less(r'[i], y) {
      if i < |r| {
        assert r'[i] == r[i];
      }
    }
  }

  /** `sorted(s, key=...)` where the key order is `less`. */
  method SortSet<T(==)>(s: set<T>, less: (T, T) -> bool) returns (r: seq<T>)
    requires StrictTotalOn(s, less)
    ensures Elems(r) == s && |r| == |s| && NoDup(r)
    ensures Ascending(r, less)
  {
    r := [];
    var rest := s;
    assert Elems(r) == {};
    while rest != {}
      invariant rest <= s
      invariant Parted(s, r, rest) && Below(less, r, rest)
      decreases rest
    {
      LeastExists(rest, less);
      var m :| IsLeast(m, rest, less);
      PartedStep(s, r, rest, m);
      BelowStep(less, r, rest, m);
      r := r + [m];
      rest := rest - {m};
    }
    assert NoDup(r) by {
      forall i, j | 0 <= i < j < |r| ensures r[i] != r[j] {
        assert less(r[i], r[j]);
        assert r[i] in s;
      }
    }
  }

  /** The order on `s` determines its sorted sequence. */
  lemma {:induction false} SortedUnique<T>(s: set<T>, less: (T, T) -> bool, r1: seq<T>, r2: seq<T>)
    requires StrictTotalOn(s, less)
    requires Elems(r1) == s && Ascending(r1, less)
    requires Elems(r2) == s && Ascending(r2, less)
    ensures r1 == r2
    decreases |r1|
  {
    assert r2 != [] ==> r2[0] in Elems(r2);
    if r1 != [] {
      assert r1[0] in Elems(r2);
      var a, b := r1[0], r2[0];
      assert a == b by {
        assert b in Elems(r1);
        var j :| 0 <= j < |r2| && r2[j] == a;
        var i :| 0 <= i < |r1| && r1[i] == b;
        assert j == 0 || less(b, a);
        assert i == 0 || less(a, b);
      }
      var s' := s - {a};
      forall x | x in s' ensures x in Elems(r1[1..]) && x in Elems(r2[1..]) {
        var i :| 0 <= i < |r1| && r1[i] == x;
        var j :| 0 <= j < |r2| && r2[j] == x;
        assert i != 0 && j != 0;
        assert r1[1..][i - 1] == x && r2[1..][j - 1] == x;
      }
      forall x | x in Elems(r1[1..]) ensures x in s' {
        var i :| 0 <= i < |r1[1..]| && r1[1..][i] == x;
        assert less(r1[0], r1[i + 1]);
      }
      forall x | x in Elems(r2[1..]) ensures x in s' {
        var i :| 0 <= i < |r2[1..]| && r2[1..][i] == x;
        assert less(r2[0], r2[i + 1]);
      }
      SortedUnique(s', less, r1[1..], r2[1..]);
      assert r1 == [a] + r1[1..] && r2 == [b] + r2[1..];
    }
  }
}
