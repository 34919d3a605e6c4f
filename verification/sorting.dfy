/**
 A stable sort into descending order of a real-valued key: what Python's
 `sorted(items, key=key, reverse=True)` returns, and what `Counter.most_common()`
 does with a counter's items. Python's `reverse=True` keeps items with equal keys
 in their original order, and so does this insertion sort: an element is placed
 in front of the first element whose key is not larger than its own, which puts it
 ahead of the elements with an equal key that come after it in the input.
 */
module Sorting {

  /** Keys never increase from left to right. */
  ghost predicate Descending<T>(s: seq<T>, key: T -> real)
  {
    forall i, j :: 0 <= i < j < |s| ==> key(s[i]) >= key(s[j])
  }

  /** Every two elements with equal keys stand in relation `before`, the earlier one first. */
  ghost predicate TiesOrdered<T>(s: seq<T>, key: T -> real, before: (T, T) -> bool)
  {
    forall i, j :: 0 <= i < j < |s| && key(s[i]) == key(s[j]) ==> before(s[i], s[j])
  }

  /** Every two elements at different positions stand in relation `apart`. */
  ghost predicate Apart<T>(s: seq<T>, apart: (T, T) -> bool)
  {
    forall i, j :: 0 <= i < |s| && 0 <= j < |s| && i != j ==> apart(s[i], s[j])
  }

  function Insert<T>(x: T, s: seq<T>, key: T -> real): (r: seq<T>)
    ensures multiset(r) == multiset(s) + multiset{x}
    ensures |r| == |s| + 1
  {
    if s == [] || key(s[0]) <= key(x) then [x] + s
    else
      assert s == [s[0]] + s[1..];
      [s[0]] + Insert(x, s[1..], key)
  }

  function Sort<T>(s: seq<T>, key: T -> real): (r: seq<T>)
    ensures multiset(r) == multiset(s)
    ensures |r| == |s|
  {
    if s == [] then [] else
      assert s == [s[0]] + s[1..];
      Insert(s[0], Sort(s[1..], key), key)
  }

  lemma {:induction false} InsertDescending<T>(x: T, s: seq<T>, key: T -> real)
    requires Descending(s, key)
    ensures Descending(Insert(x, s, key), key)
  {
    if s != [] && key(s[0]) > key(x) {
      var rest := Insert(x, s[1..], key);
      InsertDescending(x, s[1..], key);
      forall j | 0 <= j < |rest|
        ensures key(s[0]) >= key(rest[j])
      {
        assert rest[j] in multiset(rest);
        if rest[j] != x {
          assert rest[j] in multiset(s[1..]);
          var m :| 0 <= m < |s[1..]| && s[1..][m] == rest[j];
          assert s[m + 1] == rest[j];
        }
      }
    }
  }

  /** The result of `Sort` is in descending order of the key. */
  lemma {:induction false} SortDescending<T>(s: seq<T>, key: T -> real)
    ensures Descending(Sort(s, key), key)
  {
    if s != [] {
      SortDescending(s[1..], key);
      InsertDescending(s[0], Sort(s[1..], key), key);
    }
  }

  lemma {:induction false} InsertTiesOrdered<T>(x: T, s: seq<T>, key: T -> real, before: (T, T) -> bool)
    requires TiesOrdered(s, key, before)
    requires forall y :: y in s && key(y) == key(x) ==> before(x, y)
    ensures TiesOrdered(Insert(x, s, key), key, before)
  {
    if s != [] && key(s[0]) > key(x) {
      var rest := Insert(x, s[1..], key);
      InsertTiesOrdered(x, s[1..], key, before);
      forall j | 0 <= j < |rest| && key(s[0]) == key(rest[j])
        ensures before(s[0], rest[j])
      {
        assert rest[j] in multiset(rest);
        assert rest[j] in multiset(s[1..]);
        var m :| 0 <= m < |s[1..]| && s[1..][m] == rest[j];
        assert s[m + 1] == rest[j];
      }
    }
  }

  /**
   Stability: if the input lists every two elements with equal keys in `before`
   order, so does the sorted output.
   */
  lemma {:induction false} SortIsStable<T>(s: seq<T>, key: T -> real, before: (T, T) -> bool)
    requires TiesOrdered(s, key, before)
    ensures TiesOrdered(Sort(s, key), key, before)
  {
    if s != [] {
      var sorted := Sort(s[1..], key);
      SortIsStable(s[1..], key, before);
      forall y | y in sorted && key(y) == key(s[0])
        ensures before(s[0], y)
      {
        assert y in multiset(sorted);
        var m :| 0 <= m < |s[1..]| && s[1..][m] == y;
        assert s[m + 1] == y;
      }
      InsertTiesOrdered(s[0], sorted, key, before);
    }
  }

  lemma {:induction false} InsertApart<T>(x: T, s: seq<T>, key: T -> real, apart: (T, T) -> bool)
    requires Apart(s, apart)
    requires forall y :: y in s ==> apart(x, y) && apart(y, x)
    ensures Apart(Insert(x, s, key), apart)
  {
    var r := Insert(x, s, key);
    if s == [] || key(s[0]) <= key(x) {
      forall i, j | 0 <= i < |r| && 0 <= j < |r| && i != j
        ensures apart(r[i], r[j])
      {
        if i > 0 && j > 0 {
          assert r[i] == s[i - 1] && r[j] == s[j - 1];
        } else if i == 0 {
          assert r[j] == s[j - 1];
        } else {
          assert r[i] == s[i - 1];
        }
      }
    } else {
      var rest := Insert(x, s[1..], key);
      assert Apart(s[1..], apart) by {
        forall i, j | 0 <= i < |s[1..]| && 0 <= j < |s[1..]| && i != j
          ensures apart(s[1..][i], s[1..][j])
        {
          assert s[1..][i] == s[i + 1] && s[1..][j] == s[j + 1];
        }
      }
      InsertApart(x, s[1..], key, apart);
      forall m | 0 <= m < |rest|
        ensures apart(s[0], rest[m]) && apart(rest[m], s[0])
      {
        assert rest[m] in multiset(rest);
        if rest[m] != x {
          assert rest[m] in multiset(s[1..]);
          var n :| 0 <= n < |s[1..]| && s[1..][n] == rest[m];
          assert s[n + 1] == rest[m];
        }
      }
      forall i, j | 0 <= i < |r| && 0 <= j < |r| && i != j
        ensures apart(r[i], r[j])
      {
        if i > 0 && j > 0 {
          assert r[i] == rest[i - 1] && r[j] == rest[j - 1];
        } else if i == 0 {
          assert r[j] == rest[j - 1];
        } else {
          assert r[i] == rest[i - 1];
        }
      }
    }
  }

  /** Sorting keeps every pair of elements in relation `apart` (for instance: distinct keys). */
  lemma {:induction false} SortApart<T>(s: seq<T>, key: T -> real, apart: (T, T) -> bool)
    requires Apart(s, apart)
    ensures Apart(Sort(s, key), apart)
  {
    if s != [] {
      assert Apart(s[1..], apart) by {
        forall i, j | 0 <= i < |s[1..]| && 0 <= j < |s[1..]| && i != j
          ensures apart(s[1..][i], s[1..][j])
        {
          assert s[1..][i] == s[i + 1] && s[1..][j] == s[j + 1];
        }
      }
      var sorted := Sort(s[1..], key);
      SortApart(s[1..], key, apart);
      forall y | y in sorted
        ensures apart(s[0], y) && apart(y, s[0])
      {
        assert y in multiset(sorted);
        var m :| 0 <= m < |s[1..]| && s[1..][m] == y;
        assert s[m + 1] == y;
      }
      InsertApart(s[0], sorted, key, apart);
    }
  }
}
