/**
 `combine_shares(log, blame)`: the equal-weight average of the two share dicts. The
 first loop gives every log author half its log share; the second adds half of each
 blame share to what the author already has, 0 for an author the log did not name.
 */
module Combine {
  import opened Dicts

  /** The first loop: `combined[author] = fraction / 2` for every log author. */
  function HalveLog(log: Dict<string, real>): Dict<string, real>
  {
    if log == [] then []
    else
      var n := |log| - 1;
      Set(HalveLog(log[..n]), log[n].0, log[n].1 / 2.0)
  }

  /**
   The second loop: `combined[author] = combined.get(author, 0) + fraction / 2`
   for every blame author in turn, starting from `acc`.
   */
  function AddBlame(acc: Dict<string, real>, blame: Dict<string, real>): Dict<string, real>
    decreases |blame|
  {
    if blame == [] then acc
    else
      var k := blame[0].0;
      AddBlame(Set(acc, k, Get(acc, k, 0.0) + blame[0].1 / 2.0), blame[1..])
  }

  /** `combine_shares(log, blame)`. */
  function CombineShares(log: Dict<string, real>, blame: Dict<string, real>): Dict<string, real>
  {
    AddBlame(HalveLog(log), blame)
  }

  /** A dict with every value halved and the keys unchanged. */
  function Halved(d: Dict<string, real>): (h: Dict<string, real>)
  {
    seq(|d|, i requires 0 <= i < |d| => (d[i].0, d[i].1 / 2.0))
  }

  /** The keys of `ks` not in `seen`, in the order of `ks`. */
  function NewKeys(ks: seq<string>, seen: set<string>): seq<string>
  {
    if ks == [] then []
    else (if ks[0] in seen then [] else [ks[0]]) + NewKeys(ks[1..], seen)
  }

  lemma {:induction false} NewKeysAllSeen(ks: seq<string>, seen: set<string>)
    requires forall k :: k in ks ==> k in seen
    ensures NewKeys(ks, seen) == []
  {
    if ks != [] {
      NewKeysAllSeen(ks[1..], seen);
    }
  }

  lemma {:induction false} NewKeysNoneSeen(ks: seq<string>, seen: set<string>)
    requires forall k :: k in ks ==> k !in seen
    ensures NewKeys(ks, seen) == ks
  {
    if ks != [] {
      NewKeysNoneSeen(ks[1..], seen);
    }
  }

  lemma {:induction false} NewKeysIgnoresAbsent(ks: seq<string>, seen: set<string>, k: string)
    requires k !in ks
    ensures NewKeys(ks, seen + {k}) == NewKeys(ks, seen)
  {
    if ks != [] {
      NewKeysIgnoresAbsent(ks[1..], seen, k);
    }
  }

  lemma DistinctPrefix(d: Dict<string, real>)
    requires Distinct(d) && d != []
    ensures Distinct(d[..|d| - 1])
    ensures d[|d| - 1].0 !in KeySet(d[..|d| - 1])
  {
    var n := |d| - 1;
    forall i | 0 <= i < n
      ensures d[..n][i].0 != d[n].0
    {
      assert d[..n][i] == d[i];
    }
  }

  lemma HalvedSnoc(d: Dict<string, real>)
    requires d != []
    ensures Halved(d) == Halved(d[..|d| - 1]) + [(d[|d| - 1].0, d[|d| - 1].1 / 2.0)]
  {
  }

  /** Over a dict without repeated keys, the first loop halves every value in place. */
  lemma {:induction false} HalveLogIsHalved(log: Dict<string, real>)
    requires Distinct(log)
    ensures HalveLog(log) == Halved(log)
  {
    if log != [] {
      var n := |log| - 1;
      DistinctPrefix(log);
      HalveLogIsHalved(log[..n]);
      HalvedKeys(log[..n]);
      HalvedSnoc(log);
    }
  }

  lemma HalvedKeys(d: Dict<string, real>)
    ensures Keys(Halved(d)) == Keys(d)
    ensures KeySet(Halved(d)) == KeySet(d)
    ensures Distinct(d) ==> Distinct(Halved(d))
  {
    assert forall i :: 0 <= i < |d| ==> Halved(d)[i].0 == d[i].0;
  }

  lemma {:induction false} HalvedLookup(d: Dict<string, real>, a: string)
    ensures Get(Halved(d), a, 0.0) == Get(d, a, 0.0) / 2.0
  {
    if d != [] {
      assert Halved(d)[1..] == Halved(d[1..]);
      HalvedLookup(d[1..], a);
    }
  }

  lemma {:induction false} HalvedSum(d: Dict<string, real>)
    ensures Sum(Halved(d)) == Sum(d) / 2.0
  {
    if d != [] {
      assert Halved(d)[1..] == Halved(d[1..]);
      HalvedSum(d[1..]);
    }
  }

  lemma DistinctTail(d: Dict<string, real>)
    requires Distinct(d) && d != []
    ensures Distinct(d[1..])
    ensures d[0].0 !in Keys(d[1..])
    ensures Lookup(d[1..], d[0].0) == None
  {
    KeySetCons(d);
    assert d[0].0 !in KeySet(d[1..]) by {
      forall i | 0 <= i < |d[1..]|
        ensures d[1..][i].0 != d[0].0
      {
        assert d[1..][i] == d[i + 1];
      }
    }
  }

  /** The second loop keeps the keys of `acc` in place and appends the new blame authors in blame order. */
  lemma {:induction false} AddBlameKeys(acc: Dict<string, real>, blame: Dict<string, real>)
    requires Distinct(acc) && Distinct(blame)
    decreases |blame|
    ensures Distinct(AddBlame(acc, blame))
    ensures Keys(AddBlame(acc, blame)) == Keys(acc) + NewKeys(Keys(blame), KeySet(acc))
  {
    if blame != [] {
      var k := blame[0].0;
      var v := Get(acc, k, 0.0) + blame[0].1 / 2.0;
      var next := Set(acc, k, v);
      assert AddBlame(acc, blame) == AddBlame(next, blame[1..]);
      DistinctTail(blame);
      SetDistinct(acc, k, v);
      AddBlameKeys(next, blame[1..]);
      assert Keys(blame) == [k] + Keys(blame[1..]);
      NewKeysIgnoresAbsent(Keys(blame[1..]), KeySet(acc), k);
      if k !in KeySet(acc) {
        KeysAppend(acc, [(k, v)]);
        assert Keys(next) == Keys(acc) + [k];
      }
    }
  }

  /** After the second loop, each author holds its `acc` value plus half its blame share. */
  lemma {:induction false} AddBlameValues(acc: Dict<string, real>, blame: Dict<string, real>, a: string)
    requires Distinct(blame)
    decreases |blame|
    ensures Get(AddBlame(acc, blame), a, 0.0) == Get(acc, a, 0.0) + Get(blame, a, 0.0) / 2.0
  {
    if blame != [] {
      var k := blame[0].0;
      var v := Get(acc, k, 0.0) + blame[0].1 / 2.0;
      var next := Set(acc, k, v);
      assert AddBlame(acc, blame) == AddBlame(next, blame[1..]);
      DistinctTail(blame);
      AddBlameValues(next, blame[1..], a);
      SetLookup(acc, k, v, a);
      if a == k {
        assert Get(blame, a, 0.0) == blame[0].1;
        assert Get(blame[1..], a, 0.0) == 0.0;
      } else {
        assert Get(blame, a, 0.0) == Get(blame[1..], a, 0.0);
        assert Get(next, a, 0.0) == Get(acc, a, 0.0);
      }
    }
  }

  lemma {:induction false} AddBlameSum(acc: Dict<string, real>, blame: Dict<string, real>)
    decreases |blame|
    ensures Sum(AddBlame(acc, blame)) == Sum(acc) + Sum(blame) / 2.0
  {
    if blame != [] {
      var k := blame[0].0;
      var v := Get(acc, k, 0.0) + blame[0].1 / 2.0;
      var next := Set(acc, k, v);
      assert AddBlame(acc, blame) == AddBlame(next, blame[1..]);
      AddBlameSum(next, blame[1..]);
      SumSet(acc, k, v);
      assert Sum(next) == Sum(acc) + blame[0].1 / 2.0;
    }
  }

  lemma {:induction false} HalveLogKeySet(log: Dict<string, real>)
    ensures KeySet(HalveLog(log)) == KeySet(log)
  {
    if log != [] {
      var n := |log| - 1;
      HalveLogKeySet(log[..n]);
      assert log == log[..n] + [log[n]];
      KeySetAppend(log[..n], [log[n]]);
      KeySetCons([log[n]]);
    }
  }

  lemma {:induction false} AddBlameKeySet(acc: Dict<string, real>, blame: Dict<string, real>)
    decreases |blame|
    ensures KeySet(AddBlame(acc, blame)) == KeySet(acc) + KeySet(blame)
  {
    if blame != [] {
      var k := blame[0].0;
      var v := Get(acc, k, 0.0) + blame[0].1 / 2.0;
      var next := Set(acc, k, v);
      assert AddBlame(acc, blame) == AddBlame(next, blame[1..]);
      AddBlameKeySet(next, blame[1..]);
      KeySetCons(blame);
    }
  }

  /** The blend holds exactly the authors of either dict. */
  lemma CombineKeySet(log: Dict<string, real>, blame: Dict<string, real>)
    ensures KeySet(CombineShares(log, blame)) == KeySet(log) + KeySet(blame)
  {
    HalveLogKeySet(log);
    AddBlameKeySet(HalveLog(log), blame);
  }

  /**
   The blend's keys: the log authors in log order, then the authors found only in
   blame, in blame order; no author twice.
   */
  lemma CombineKeys(log: Dict<string, real>, blame: Dict<string, real>)
    requires Distinct(log) && Distinct(blame)
    ensures Distinct(CombineShares(log, blame))
    ensures Keys(CombineShares(log, blame)) == Keys(log) + NewKeys(Keys(blame), KeySet(log))
  {
    HalveLogIsHalved(log);
    HalvedKeys(log);
    AddBlameKeys(HalveLog(log), blame);
  }

  /** Each author's blended share is `log.get(a, 0) / 2 + blame.get(a, 0) / 2`. */
  lemma CombineValues(log: Dict<string, real>, blame: Dict<string, real>, a: string)
    requires Distinct(log) && Distinct(blame)
    ensures Get(CombineShares(log, blame), a, 0.0) == Get(log, a, 0.0) / 2.0 + Get(blame, a, 0.0) / 2.0
  {
    HalveLogIsHalved(log);
    HalvedLookup(log, a);
    AddBlameValues(HalveLog(log), blame, a);
  }

  /** The blend's values add up to the average of the two sums, so to 1 when both do. */
  lemma CombineSum(log: Dict<string, real>, blame: Dict<string, real>)
    requires Distinct(log)
    ensures Sum(CombineShares(log, blame)) == Sum(log) / 2.0 + Sum(blame) / 2.0
    ensures Sum(log) == 1.0 && Sum(blame) == 1.0 ==> Sum(CombineShares(log, blame)) == 1.0
  {
    HalveLogIsHalved(log);
    HalvedSum(log);
    AddBlameSum(HalveLog(log), blame);
  }

  /** Blending is commutative: swapping the two dicts gives the same authors with the same values. */
  lemma CombineCommutes(x: Dict<string, real>, y: Dict<string, real>)
    requires Distinct(x) && Distinct(y)
    ensures KeySet(CombineShares(x, y)) == KeySet(CombineShares(y, x))
    ensures forall a :: Get(CombineShares(x, y), a, 0.0) == Get(CombineShares(y, x), a, 0.0)
  {
    CombineKeySet(x, y);
    CombineKeySet(y, x);
    forall a
      ensures Get(CombineShares(x, y), a, 0.0) == Get(CombineShares(y, x), a, 0.0)
    {
      CombineValues(x, y, a);
      CombineValues(y, x, a);
    }
  }

  /** Blending a dict with itself gives back the same dict, order included. */
  lemma CombineWithItself(x: Dict<string, real>)
    requires Distinct(x)
    ensures CombineShares(x, x) == x
  {
    CombineKeys(x, x);
    forall k | k in Keys(x)
      ensures k in KeySet(x)
    {
      var i :| 0 <= i < |Keys(x)| && Keys(x)[i] == k;
      assert x[i].0 == k;
    }
    NewKeysAllSeen(Keys(x), KeySet(x));
    assert Keys(x) + [] == Keys(x);
    forall a
      ensures Get(CombineShares(x, x), a, 0.0) == Get(x, a, 0.0)
    {
      CombineValues(x, x, a);
    }
    DictExtensionality(CombineShares(x, x), x, 0.0);
  }

  /** Blending two dicts with no author in common halves every value and keeps log before blame. */
  lemma CombineDisjoint(x: Dict<string, real>, y: Dict<string, real>)
    requires Distinct(x) && Distinct(y)
    requires KeySet(x) !! KeySet(y)
    ensures CombineShares(x, y) == Halved(x) + Halved(y)
  {
    var combined := CombineShares(x, y);
    var halves := Halved(x) + Halved(y);
    CombineKeys(x, y);
    HalvedKeys(x);
    HalvedKeys(y);
    forall k | k in Keys(y)
      ensures k !in KeySet(x)
    {
      var i :| 0 <= i < |Keys(y)| && Keys(y)[i] == k;
      assert y[i].0 == k && k in KeySet(y);
    }
    NewKeysNoneSeen(Keys(y), KeySet(x));
    KeysAppend(Halved(x), Halved(y));
    assert Distinct(halves) by {
      forall i, j | 0 <= i < j < |halves|
        ensures halves[i].0 != halves[j].0
      {
        if i < |x| && j >= |x| {
          assert halves[i].0 in KeySet(Halved(x));
          assert halves[j] == Halved(y)[j - |x|];
          assert halves[j].0 in KeySet(Halved(y));
        } else if j < |x| {
          assert halves[i] == Halved(x)[i] && halves[j] == Halved(x)[j];
        } else {
          assert halves[i] == Halved(y)[i - |x|] && halves[j] == Halved(y)[j - |x|];
        }
      }
    }
    forall a
      ensures Get(combined, a, 0.0) == Get(halves, a, 0.0)
    {
      CombineValues(x, y, a);
      LookupAppend(Halved(x), Halved(y), a);
      HalvedLookup(x, a);
      HalvedLookup(y, a);
    }
    DictExtensionality(combined, halves, 0.0);
  }
}
