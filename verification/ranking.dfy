/**
 `sort_shares` and `likely_owner`: the share dict's items ranked by share, largest
 first, and the author at the head of that ranking.
 */
module Ranking {
  import opened Dicts
  import opened Sorting

  /** The sort key of `sort_shares`: `item[1]`, the fraction. */
  function Fraction(item: (string, real)): real
  {
    item.1
  }

  /**
   `sorted(shares.items(), key=lambda item: item[1], reverse=True)`: a permutation of
   the items with fractions that never increase, and equal fractions in the dict's order.
   */
  function SortShares(shares: Dict<string, real>): (ranked: Dict<string, real>)
    ensures multiset(ranked) == multiset(shares)
    ensures forall i, j :: 0 <= i < j < |ranked| ==> ranked[i].1 >= ranked[j].1
    ensures Distinct(shares) ==> Distinct(ranked)
    ensures Distinct(shares) ==> forall i, j :: 0 <= i < j < |ranked| && ranked[i].1 == ranked[j].1 ==>
      IndexOf(Keys(shares), ranked[i].0) < IndexOf(Keys(shares), ranked[j].0)
  {
    SortDescending(shares, Fraction);
    var ranked := Sort(shares, Fraction);
    assert Distinct(shares) ==> Distinct(ranked) && TiesOrdered(ranked, Fraction, (x: (string, real), y: (string, real)) => IndexOf(Keys(shares), x.0) < IndexOf(Keys(shares), y.0)) by {
      if Distinct(shares) {
        var apart := (x: (string, real), y: (string, real)) => x.0 != y.0;
        SortApart(shares, Fraction, apart);
        var before := (x: (string, real), y: (string, real)) => IndexOf(Keys(shares), x.0) < IndexOf(Keys(shares), y.0);
        InsertionOrder(shares);
        SortIsStable(shares, Fraction, before);
      }
    }
    ranked
  }

  /** In a dict without repeated keys, the items stand in the order of their keys' positions. */
  lemma InsertionOrder(shares: Dict<string, real>)
    requires Distinct(shares)
    ensures forall i, j :: 0 <= i < j < |shares| ==>
      IndexOf(Keys(shares), shares[i].0) < IndexOf(Keys(shares), shares[j].0)
  {
    forall i | 0 <= i < |shares|
      ensures IndexOf(Keys(shares), shares[i].0) == i
    {
      var ks := Keys(shares);
      assert ks[i] == shares[i].0;
      var n := IndexOf(ks, shares[i].0);
      assert ks[n] == shares[n].0;
    }
  }

  /** `likely_owner`: the first author of the ranking; an empty ranking raises `IndexError`. */
  function LikelyOwner(ranked: Dict<string, real>): (owner: Option<string>)
    ensures owner.None? <==> ranked == []
    ensures owner.Some? ==> owner.value in KeySet(ranked)
  {
    if ranked == [] then None else Some(ranked[0].0)
  }

  /**
   The likely owner exists exactly when there is some share, is one of the dict's
   authors, and holds a share at least as large as every other author's.
   */
  lemma OwnerHasLargestShare(shares: Dict<string, real>)
    requires Distinct(shares)
    ensures LikelyOwner(SortShares(shares)).None? <==> shares == []
    ensures LikelyOwner(SortShares(shares)).Some? ==>
      var owner := LikelyOwner(SortShares(shares)).value;
      && owner in KeySet(shares)
      && forall i :: 0 <= i < |shares| ==> shares[i].1 <= Get(shares, owner, 0.0)
  {
    var ranked := SortShares(shares);
    if shares != [] {
      assert |ranked| == |shares|;
      var top := ranked[0];
      assert top in multiset(shares);
      var t :| 0 <= t < |shares| && shares[t] == top;
      LookupAt(shares, t);
      forall i | 0 <= i < |shares|
        ensures shares[i].1 <= top.1
      {
        assert shares[i] in multiset(ranked);
        var r :| 0 <= r < |ranked| && ranked[r] == shares[i];
        if r > 0 {
          assert ranked[0].1 >= ranked[r].1;
        }
      }
    } else {
      assert |ranked| == 0;
    }
  }

  /** Ranking moves items but keeps each author's share: every ranked item is what the dict holds for its author. */
  lemma SortSharesLookup(shares: Dict<string, real>)
    requires Distinct(shares)
    ensures KeySet(SortShares(shares)) == KeySet(shares)
    ensures var ranked := SortShares(shares);
      forall i :: 0 <= i < |ranked| ==> ranked[i].1 == Get(shares, ranked[i].0, 0.0)
  {
    var ranked := SortShares(shares);
    KeySetOfPermutation(ranked, shares);
    forall i | 0 <= i < |ranked|
      ensures ranked[i].1 == Get(shares, ranked[i].0, 0.0)
    {
      assert ranked[i] in multiset(shares);
      var t :| 0 <= t < |shares| && shares[t] == ranked[i];
      LookupAt(shares, t);
    }
  }

  lemma {:induction false} SumInsert(x: (string, real), s: Dict<string, real>)
    ensures Sum(Insert(x, s, Fraction)) == x.1 + Sum(s)
  {
    if s == [] || Fraction(s[0]) <= Fraction(x) {
      assert ([x] + s)[1..] == s;
    } else {
      var rest := Insert(x, s[1..], Fraction);
      assert ([s[0]] + rest)[1..] == rest;
      SumInsert(x, s[1..]);
    }
  }

  /** Ranking keeps the total of the shares. */
  lemma SumSort(shares: Dict<string, real>)
    ensures Sum(SortShares(shares)) == Sum(shares)
  {
    SumOfSorted(shares);
  }

  lemma {:induction false} SumOfSorted(shares: Dict<string, real>)
    ensures Sum(Sort(shares, Fraction)) == Sum(shares)
  {
    if shares != [] {
      SumOfSorted(shares[1..]);
      SumInsert(shares[0], Sort(shares[1..], Fraction));
    }
  }
}
