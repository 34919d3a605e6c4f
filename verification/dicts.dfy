/**
 This module models the part of Python's `dict` that the scoring pipeline relies on:
 a dict is the sequence of its items in insertion order, `d[k] = v` keeps an existing
 key where it is and appends a new one, and `d.get(k, default)` reads the value of a key.
 */
module Dicts {

  datatype Option<+T> = None | Some(value: T)

  /** The items of a dict, `list(d.items())`, in insertion order. */
  type Dict<K, V> = seq<(K, V)>

  /** The keys in insertion order, `list(d)`. */
  function Keys<K, V>(d: Dict<K, V>): seq<K>
  {
    seq(|d|, i requires 0 <= i < |d| => d[i].0)
  }

  /** The keys as a set, `d.keys()`. */
  ghost function KeySet<K, V>(d: Dict<K, V>): set<K>
  {
    set i | 0 <= i < |d| :: d[i].0
  }

  /** No key occurs twice: true of every dict Python builds. */
  ghost predicate Distinct<K, V>(d: Dict<K, V>)
  {
    forall i, j :: 0 <= i < j < |d| ==> d[i].0 != d[j].0
  }

  /** Position of the first occurrence of `x` in `s`, or `|s|` when there is none. */
  function IndexOf<T(==)>(s: seq<T>, x: T): (n: nat)
    ensures n <= |s|
    ensures n < |s| <==> x in s
    ensures n < |s| ==> s[n] == x
    ensures forall j :: 0 <= j < n ==> s[j] != x
  {
    if s == [] then 0
    else if s[0] == x then 0
    else 1 + IndexOf(s[1..], x)
  }

  lemma KeySetCons<K, V>(d: Dict<K, V>)
    requires d != []
    ensures KeySet(d) == {d[0].0} + KeySet(d[1..])
  {
    forall k | k in KeySet(d)
      ensures k in {d[0].0} + KeySet(d[1..])
    {
      var i :| 0 <= i < |d| && d[i].0 == k;
      if i > 0 {
        assert d[1..][i - 1].0 == k;
      }
    }
    forall k | k in KeySet(d[1..])
      ensures k in KeySet(d)
    {
      var i :| 0 <= i < |d[1..]| && d[1..][i].0 == k;
      assert d[i + 1].0 == k;
    }
  }

  lemma KeySetAppend<K, V>(a: Dict<K, V>, b: Dict<K, V>)
    ensures KeySet(a + b) == KeySet(a) + KeySet(b)
  {
    forall k | k in KeySet(a + b)
      ensures k in KeySet(a) + KeySet(b)
    {
      var i :| 0 <= i < |a + b| && (a + b)[i].0 == k;
      if i >= |a| {
        assert b[i - |a|].0 == k;
      }
    }
    forall k | k in KeySet(b)
      ensures k in KeySet(a + b)
    {
      var i :| 0 <= i < |b| && b[i].0 == k;
      assert (a + b)[|a| + i].0 == k;
    }
    forall k | k in KeySet(a)
      ensures k in KeySet(a + b)
    {
      var i :| 0 <= i < |a| && a[i].0 == k;
      assert (a + b)[i].0 == k;
    }
  }

  lemma KeySetOfPermutation<K, V>(a: Dict<K, V>, b: Dict<K, V>)
    requires multiset(a) == multiset(b)
    ensures KeySet(a) == KeySet(b)
  {
    forall k | k in KeySet(a)
      ensures k in KeySet(b)
    {
      var i :| 0 <= i < |a| && a[i].0 == k;
      assert a[i] in multiset(b);
      var j :| 0 <= j < |b| && b[j] == a[i];
    }
    forall k | k in KeySet(b)
      ensures k in KeySet(a)
    {
      var j :| 0 <= j < |b| && b[j].0 == k;
      assert b[j] in multiset(a);
      var i :| 0 <= i < |a| && a[i] == b[j];
    }
  }

  /** `d.get(k)`: the value of the first item whose key is `k`. */
  function Lookup<K(==), V>(d: Dict<K, V>, k: K): (r: Option<V>)
    ensures r.None? <==> k !in KeySet(d)
    ensures r.Some? ==> (k, r.value) in d
  {
    if d == [] then None
    else
      KeySetCons(d);
      if d[0].0 == k then Some(d[0].1) else Lookup(d[1..], k)
  }

  /** `d.get(k, default)`. */
  function Get<K(==), V>(d: Dict<K, V>, k: K, default: V): V
  {
    match Lookup(d, k)
    case Some(v) => v
    case None => default
  }

  /** In a dict without repeated keys, every item is what a lookup of its key finds. */
  lemma {:induction false} LookupAt<K, V>(d: Dict<K, V>, i: nat)
    requires Distinct(d)
    requires i < |d|
    ensures Lookup(d, d[i].0) == Some(d[i].1)
  {
    if i > 0 {
      assert d[1..][i - 1] == d[i];
      LookupAt(d[1..], i - 1);
    }
  }

  /** A lookup in `a + b` finds the key in `a` if it is there, and otherwise in `b`. */
  lemma {:induction false} LookupAppend<K, V>(a: Dict<K, V>, b: Dict<K, V>, k: K)
    ensures Lookup(a + b, k) == if k in KeySet(a) then Lookup(a, k) else Lookup(b, k)
  {
    if a == [] {
      assert a + b == b;
    } else {
      KeySetCons(a);
      assert (a + b)[1..] == a[1..] + b;
      LookupAppend(a[1..], b, k);
    }
  }

  lemma KeysAppend<K, V>(a: Dict<K, V>, b: Dict<K, V>)
    ensures Keys(a + b) == Keys(a) + Keys(b)
  {
  }

  /**
   `d[k] = v`: an existing key keeps its position and takes the new value,
   and a new key goes after all others.
   */
  function Set<K(==), V>(d: Dict<K, V>, k: K, v: V): (r: Dict<K, V>)
    ensures KeySet(r) == KeySet(d) + {k}
    ensures k in KeySet(d) ==> Keys(r) == Keys(d)
    ensures k !in KeySet(d) ==> r == d + [(k, v)]
  {
    if d == [] then
      KeySetCons([(k, v)]);
      [(k, v)]
    else
      KeySetCons(d);
      if d[0].0 == k then
        KeySetCons([(k, v)] + d[1..]);
        assert ([(k, v)] + d[1..])[1..] == d[1..];
        [(k, v)] + d[1..]
      else
        var rest := Set(d[1..], k, v);
        KeySetCons([d[0]] + rest);
        assert ([d[0]] + rest)[1..] == rest;
        assert k in KeySet(d) ==> Keys([d[0]] + rest) == Keys(d) by {
          if k in KeySet(d) {
            assert |Keys(rest)| == |Keys(d[1..])|;
            forall i | 0 <= i < |d|
              ensures Keys([d[0]] + rest)[i] == Keys(d)[i]
            {
              if i > 0 {
                assert Keys(rest)[i - 1] == Keys(d[1..])[i - 1];
              }
            }
          }
        }
        [d[0]] + rest
  }

  /** After `d[k] = v`, `k` holds `v` and every other key holds what it held before. */
  lemma {:induction false} SetLookup<K, V>(d: Dict<K, V>, k: K, v: V, a: K)
    ensures Lookup(Set(d, k, v), a) == if a == k then Some(v) else Lookup(d, a)
  {
    if d != [] && d[0].0 != k {
      SetLookup(d[1..], k, v, a);
    }
  }

  /** `d[k] = v` never repeats a key. */
  lemma {:induction false} SetDistinct<K, V>(d: Dict<K, V>, k: K, v: V)
    requires Distinct(d)
    ensures Distinct(Set(d, k, v))
  {
    if d != [] && d[0].0 != k {
      SetDistinct(d[1..], k, v);
      KeySetCons(d);
      var r := Set(d, k, v);
      assert r[1..] == Set(d[1..], k, v);
      forall j | 0 < j < |r|
        ensures r[0].0 != r[j].0
      {
        assert r[j].0 in KeySet(r[1..]);
      }
    }
  }

  /** The sum of a dict's values, `sum(d.values())`. */
  function Sum<K>(d: Dict<K, real>): real
  {
    if d == [] then 0.0 else d[0].1 + Sum(d[1..])
  }

  /** Assigning `v` to key `k` replaces that key's old value (0 if absent) in the sum. */
  lemma {:induction false} SumSet<K>(d: Dict<K, real>, k: K, v: real)
    ensures Sum(Set(d, k, v)) == Sum(d) - Get(d, k, 0.0) + v
  {
    if d != [] && d[0].0 != k {
      SumSet(d[1..], k, v);
    }
  }

  /**
   Two dicts without repeated keys, with the same keys in the same order and the
   same value under every key, are the same dict.
   */
  lemma DictExtensionality<K, V>(a: Dict<K, V>, b: Dict<K, V>, default: V)
    requires Distinct(a) && Distinct(b)
    requires Keys(a) == Keys(b)
    requires forall k :: Get(a, k, default) == Get(b, k, default)
    ensures a == b
  {
    assert |a| == |Keys(a)| == |b|;
    forall i | 0 <= i < |a|
      ensures a[i] == b[i]
    {
      assert Keys(a)[i] == a[i].0 && Keys(b)[i] == b[i].0;
      LookupAt(a, i);
      LookupAt(b, i);
      assert Get(a, a[i].0, default) == Get(b, a[i].0, default);
    }
  }
}
