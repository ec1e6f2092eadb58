/**
 * Orders used by Python's `sorted` on the values the two scripts sort:
 * strings compare code point by code point, and `pathlib` paths compare
 * by their lists of parts (each part a string). Both are lexicographic
 * orders, defined once here over an arbitrary element order.
 */
module Ordering {

  /** `lt` is irreflexive, transitive and total on distinct values. */
  ghost predicate StrictTotalOrder<T(!new)>(lt: (T, T) -> bool)
  {
    && (forall a :: !lt(a, a))
    && (forall a, b, c :: lt(a, b) && lt(b, c) ==> lt(a, c))
    && (forall a, b :: a != b ==> lt(a, b) || lt(b, a))
  }

  /**
   * Python's sequence comparison: the first position where the two differ
   * decides, and a proper prefix is smaller than the longer sequence.
   */
  function LexLess<T(==)>(a: seq<T>, b: seq<T>, lt: (T, T) -> bool): bool
  {
    if |a| == 0 then |b| > 0
    else if |b| == 0 then false
    else if a[0] == b[0] then LexLess(a[1..], b[1..], lt)
    else lt(a[0], b[0])
  }

  lemma {:induction false} LexIrreflexive<T>(a: seq<T>, lt: (T, T) -> bool)
    ensures !LexLess(a, a, lt)
  {
    if |a| > 0 {
      LexIrreflexive(a[1..], lt);
    }
  }

  lemma {:induction false} LexTransitive<T(!new)>(a: seq<T>, b: seq<T>, c: seq<T>, lt: (T, T) -> bool)
    requires StrictTotalOrder(lt)
    requires LexLess(a, b, lt) && LexLess(b, c, lt)
    ensures LexLess(a, c, lt)
  {
    if |a| > 0 && a[0] == b[0] && b[0] == c[0] {
      LexTransitive(a[1..], b[1..], c[1..], lt);
    }
  }

  lemma {:induction false} LexTrichotomous<T(!new)>(a: seq<T>, b: seq<T>, lt: (T, T) -> bool)
    requires StrictTotalOrder(lt)
    requires a != b
    ensures LexLess(a, b, lt) || LexLess(b, a, lt)
  {
    if |a| > 0 && |b| > 0 && a[0] == b[0] {
      assert a == [a[0]] + a[1..] && b == [b[0]] + b[1..];
      LexTrichotomous(a[1..], b[1..], lt);
    }
  }

  /** Lexicographic comparison of a strict total order is a strict total order. */
  lemma LexStrictTotal<T(!new)>(lt: (T, T) -> bool)
    requires StrictTotalOrder(lt)
    ensures forall a :: !LexLess(a, a, lt)
    ensures forall a, b, c :: LexLess(a, b, lt) && LexLess(b, c, lt) ==> LexLess(a, c, lt)
    ensures forall a, b :: a != b ==> LexLess(a, b, lt) || LexLess(b, a, lt)
  {
    forall a: seq<T> ensures !LexLess(a, a, lt) {
      LexIrreflexive(a, lt);
    }
    forall a: seq<T>, b: seq<T>, c: seq<T> | LexLess(a, b, lt) && LexLess(b, c, lt)
      ensures LexLess(a, c, lt)
    {
      LexTransitive(a, b, c, lt);
    }
    forall a: seq<T>, b: seq<T> | a != b ensures LexLess(a, b, lt) || LexLess(b, a, lt) {
      LexTrichotomous(a, b, lt);
    }
  }

  function CharLess(x: char, y: char): bool
  {
    x < y
  }

  /** Python's `<` on `str`: by code points. */
  function StrLess(a: string, b: string): bool
  {
    LexLess(a, b, CharLess)
  }

  /** Python's `<` on paths below one root: by the list of their parts. */
  function PathLess(p: seq<string>, q: seq<string>): bool
  {
    LexLess(p, q, StrLess)
  }

  lemma StrLessIsStrictTotal()
    ensures StrictTotalOrder(StrLess)
  {
    LexStrictTotal(CharLess);
    assert forall a, b :: StrLess(a, b) == LexLess(a, b, CharLess);
  }

  lemma PathLessIsStrictTotal()
    ensures StrictTotalOrder(PathLess)
  {
    StrLessIsStrictTotal();
    LexStrictTotal(StrLess);
    assert forall p, q :: PathLess(p, q) == LexLess(p, q, StrLess);
  }

  /** Strictly increasing, hence also free of duplicates. */
  ghost predicate StrictlySorted<T>(s: seq<T>, lt: (T, T) -> bool)
  {
    forall i, j :: 0 <= i < j < |s| ==> lt(s[i], s[j])
  }

  /** `Minimum` as an existence fact, the form the `:|` in `SortSet` needs. */
  lemma MinimumExists<T(!new)>(s: set<T>, lt: (T, T) -> bool)
    requires StrictTotalOrder(lt) && s != {}
    ensures exists m :: m in s && forall y :: y in s ==> !lt(y, m)
  {
    var m := Minimum(s, lt);
  }

  lemma {:induction false} Minimum<T(!new)>(s: set<T>, lt: (T, T) -> bool) returns (m: T)
    requires StrictTotalOrder(lt) && s != {}
    ensures m in s && forall y :: y in s ==> !lt(y, m)
    decreases |s|
  {
    var x :| x in s;
    if s == {x} {
      m := x;
    } else {
      var m' := Minimum(s - {x}, lt);
      m := if lt(x, m') then x else m';
    }
  }

  /**
   * Python's `sorted` applied to a collection of distinct items: the unique
   * strictly increasing sequence holding exactly the items.
   */
  function SortSet<T(!new)>(s: set<T>, lt: (T, T) -> bool): (r: seq<T>)
    requires StrictTotalOrder(lt)
    ensures |r| == |s|
    ensures forall x :: x in r <==> x in s
    ensures StrictlySorted(r, lt)
    decreases |s|
  {
    if s == {} then []
    else
      MinimumExists(s, lt);
      var m :| m in s && forall y :: y in s ==> !lt(y, m);
      [m] + SortSet(s - {m}, lt)
  }

  /** A strictly sorted sequence is determined by its set of elements. */
  lemma {:induction false} SortedUnique<T(!new)>(r1: seq<T>, r2: seq<T>, lt: (T, T) -> bool)
    requires StrictTotalOrder(lt)
    requires StrictlySorted(r1, lt) && StrictlySorted(r2, lt)
    requires forall x :: x in r1 <==> x in r2
    ensures r1 == r2
  {
    assert r1 == [] <==> r2 == [] by {
      if r1 != [] { assert r1[0] in r2; }
      if r2 != [] { assert r2[0] in r1; }
    }
    if r1 != [] {
      assert r2[0] in r1 && r1[0] in r2;
      var i :| 0 <= i < |r1| && r1[i] == r2[0];
      var j :| 0 <= j < |r2| && r2[j] == r1[0];
      assert r1[0] == r2[0];
      forall x ensures x in r1[1..] <==> x in r2[1..] {
        if x in r1[1..] {
          var k :| 1 <= k < |r1| && r1[k] == x;
          assert lt(r1[0], r1[k]);
          assert x in r2;
          var m :| 0 <= m < |r2| && r2[m] == x;
          assert r2[1..][m - 1] == x;
        }
        if x in r2[1..] {
          var k :| 1 <= k < |r2| && r2[k] == x;
          assert lt(r2[0], r2[k]);
          assert x in r1;
          var m :| 0 <= m < |r1| && r1[m] == x;
          assert r1[1..][m - 1] == x;
        }
      }
      SortedUnique(r1[1..], r2[1..], lt);
      assert r1 == [r1[0]] + r1[1..] && r2 == [r2[0]] + r2[1..];
    }
  }

  /** The items of `s` that satisfy `p`, in their original order. */
  function Filter<T(!new)>(s: seq<T>, p: T -> bool): (r: seq<T>)
    ensures |r| <= |s|
    ensures forall x :: x in r <==> x in s && p(x)
  {
    if s == [] then []
    else
      var last := s[|s| - 1];
      Filter(s[..|s| - 1], p) + (if p(last) then [last] else [])
  }

  lemma {:induction false} FilterKeepsSorted<T(!new)>(s: seq<T>, p: T -> bool, lt: (T, T) -> bool)
    requires StrictlySorted(s, lt)
    ensures StrictlySorted(Filter(s, p), lt)
  {
    if s != [] {
      var init, last := s[..|s| - 1], s[|s| - 1];
      FilterKeepsSorted(init, p, lt);
      if p(last) {
        var r := Filter(s, p);
        forall i, j | 0 <= i < j < |r| ensures lt(r[i], r[j]) {
          if j == |r| - 1 {
            assert r[i] in Filter(init, p);
            var k :| 0 <= k < |init| && init[k] == r[i];
          }
        }
      }
    }
  }

  /** `r` is `s` with some items left out, the rest kept in order. */
  predicate IsSubsequence<T(==)>(r: seq<T>, s: seq<T>)
  {
    if r == [] then true
    else if s == [] then false
    else if r[|r| - 1] == s[|s| - 1] then IsSubsequence(r[..|r| - 1], s[..|s| - 1])
    else IsSubsequence(r, s[..|s| - 1])
  }

  lemma {:induction false} FilterIsSubsequence<T(!new)>(s: seq<T>, p: T -> bool)
    ensures IsSubsequence(Filter(s, p), s)
  {
    if s != [] {
      var init := s[..|s| - 1];
      FilterIsSubsequence(init, p);
      if p(s[|s| - 1]) {
        assert Filter(s, p)[..|Filter(s, p)| - 1] == Filter(init, p);
      } else {
        assert Filter(s, p) == Filter(init, p);
        SubsequenceAppend(Filter(init, p), init, s[|s| - 1]);
      }
    }
  }

  lemma {:induction false} SubsequenceAppend<T>(r: seq<T>, s: seq<T>, x: T)
    requires IsSubsequence(r, s)
    ensures IsSubsequence(r, s + [x])
    decreases |s|, 1
  {
    if r != [] {
      assert (s + [x])[..|s|] == s;
      if r[|r| - 1] == x {
        SubsequenceDropLast(r, s);
      }
    }
  }

  lemma {:induction false} SubsequenceDropLast<T>(r: seq<T>, s: seq<T>)
    requires r != [] && IsSubsequence(r, s)
    ensures IsSubsequence(r[..|r| - 1], s)
    decreases |s|, 0
  {
    if s != [] {
      var r', s' := r[..|r| - 1], s[..|s| - 1];
      if r[|r| - 1] == s[|s| - 1] {
        if r' != [] {
          SubsequenceDropLast(r', s');
          assert r'[..|r'| - 1] == r[..|r| - 2];
        }
        SubsequenceAppend(r', s', s[|s| - 1]);
        assert s' + [s[|s| - 1]] == s;
      } else {
        SubsequenceDropLast(r, s');
        SubsequenceAppend(r', s', s[|s| - 1]);
        assert s' + [s[|s| - 1]] == s;
      }
    }
  }
}
