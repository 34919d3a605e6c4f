/**
 `contributor_shares`: from a list of authors (one per commit or one per line) to a
 dict from author to that author's fraction of the list, in `Counter.most_common()`
 order. Fractions are exact reals: `count / total` without floating-point rounding.
 */
module Shares {
  import opened Dicts
  import opened Sorting

  /** The set of authors occurring in a list. */
  ghost function Authors(authors: seq<string>): set<string>
  {
    set a | a in authors
  }

  /**
   `collections.Counter(authors)`, built as Counter builds it: for each author in turn,
   `counter[a] = counter.get(a, 0) + 1`. Each author's count is its number of
   occurrences and the authors stand in order of first appearance.
   */
  function Tally(authors: seq<string>): (counter: Dict<string, nat>)
    decreases |authors|, 1
    ensures Distinct(counter)
    ensures KeySet(counter) == Authors(authors)
    ensures forall a :: Get(counter, a, 0) == multiset(authors)[a]
    ensures forall i, j :: 0 <= i < j < |counter| ==>
      IndexOf(authors, counter[i].0) < IndexOf(authors, counter[j].0)
  {
    if authors == [] then
      assert Authors(authors) == {};
      assert KeySet<string, nat>([]) == {};
      []
    else
      var n := |authors| - 1;
      var s := authors[..n];
      var a := authors[n];
      assert authors == s + [a];
      TallyOfSnoc(s, a)
  }

  function TallyOfSnoc(s: seq<string>, a: string): (counter: Dict<string, nat>)
    decreases |s| + 1, 0
    ensures Distinct(counter)
    ensures KeySet(counter) == Authors(s + [a])
    ensures forall b :: Get(counter, b, 0) == multiset(s + [a])[b]
    ensures forall i, j :: 0 <= i < j < |counter| ==>
      IndexOf(s + [a], counter[i].0) < IndexOf(s + [a], counter[j].0)
  {
    var earlier := Tally(s);
    TallyStep(s, a, earlier);
    Set(earlier, a, Get(earlier, a, 0) + 1)
  }

  /** One step of Counter's loop keeps the facts `Tally` promises. */
  lemma TallyStep(s: seq<string>, a: string, earlier: Dict<string, nat>)
    requires Distinct(earlier)
    requires KeySet(earlier) == Authors(s)
    requires forall b :: Get(earlier, b, 0) == multiset(s)[b]
    requires forall i, j :: 0 <= i < j < |earlier| ==> IndexOf(s, earlier[i].0) < IndexOf(s, earlier[j].0)
    ensures var counter := Set(earlier, a, Get(earlier, a, 0) + 1);
      && Distinct(counter)
      && KeySet(counter) == Authors(s + [a])
      && (forall b :: Get(counter, b, 0) == multiset(s + [a])[b])
      && (forall i, j :: 0 <= i < j < |counter| ==> IndexOf(s + [a], counter[i].0) < IndexOf(s + [a], counter[j].0))
  {
    var v := Get(earlier, a, 0) + 1;
    var counter := Set(earlier, a, v);
    SetDistinct(earlier, a, v);
    KeysStep(s, a, earlier, v);
    CountsStep(s, a, earlier);
    FirstSeenOrder(s, a, earlier, counter);
  }

  lemma KeysStep(s: seq<string>, a: string, earlier: Dict<string, nat>, v: nat)
    requires KeySet(earlier) == Authors(s)
    ensures KeySet(Set(earlier, a, v)) == Authors(s + [a])
  {
    assert Authors(s + [a]) == Authors(s) + {a};
  }

  lemma CountsStep(s: seq<string>, a: string, earlier: Dict<string, nat>)
    requires forall b :: Get(earlier, b, 0) == multiset(s)[b]
    ensures forall b :: Get(Set(earlier, a, Get(earlier, a, 0) + 1), b, 0) == multiset(s + [a])[b]
  {
    forall b
      ensures Get(Set(earlier, a, Get(earlier, a, 0) + 1), b, 0) == multiset(s + [a])[b]
    {
      CountStep(s, a, earlier, b);
    }
  }

  lemma CountStep(s: seq<string>, a: string, earlier: Dict<string, nat>, b: string)
    requires Get(earlier, a, 0) == multiset(s)[a] && Get(earlier, b, 0) == multiset(s)[b]
    ensures Get(Set(earlier, a, Get(earlier, a, 0) + 1), b, 0) == multiset(s + [a])[b]
  {
    SetLookup(earlier, a, Get(earlier, a, 0) + 1, b);
    assert multiset(s + [a]) == multiset(s) + multiset{a};
  }

  /** Appending `a` to a list changes the first position of no author already in it. */
  lemma IndexOfSnoc(s: seq<string>, a: string, b: string)
    requires b in s
    ensures IndexOf(s + [a], b) == IndexOf(s, b)
  {
    var n := IndexOf(s, b);
    assert (s + [a])[n] == b;
    var m := IndexOf(s + [a], b);
    assert s[m] == b;
  }

  lemma FirstSeenOrder(s: seq<string>, a: string, earlier: Dict<string, nat>, counter: Dict<string, nat>)
    requires KeySet(earlier) == Authors(s)
    requires forall i, j :: 0 <= i < j < |earlier| ==> IndexOf(s, earlier[i].0) < IndexOf(s, earlier[j].0)
    requires KeySet(earlier) + {a} == KeySet(counter)
    requires a in KeySet(earlier) ==> Keys(counter) == Keys(earlier)
    requires a !in KeySet(earlier) ==> counter == earlier + [(a, Get(earlier, a, 0) + 1)]
    ensures forall i, j :: 0 <= i < j < |counter| ==>
      IndexOf(s + [a], counter[i].0) < IndexOf(s + [a], counter[j].0)
  {
    forall i | 0 <= i < |earlier|
      ensures earlier[i].0 in s && IndexOf(s + [a], earlier[i].0) == IndexOf(s, earlier[i].0)
    {
      assert earlier[i].0 in KeySet(earlier);
      IndexOfSnoc(s, a, earlier[i].0);
    }
    if a in KeySet(earlier) {
      assert |counter| == |Keys(counter)| == |Keys(earlier)| == |earlier|;
      forall i | 0 <= i < |counter|
        ensures counter[i].0 == earlier[i].0
      {
        assert Keys(counter)[i] == Keys(earlier)[i];
      }
    } else {
      assert a !in s;
      forall i | 0 <= i < |earlier|
        ensures IndexOf(s + [a], earlier[i].0) < |s|
      {
      }
      assert IndexOf(s + [a], a) == |s| by {
        assert (s + [a])[|s|] == a;
      }
    }
  }

  /** `Counter.total()`: the sum of all counts. */
  function Total(counter: Dict<string, nat>): nat
  {
    if counter == [] then 0 else counter[0].1 + Total(counter[1..])
  }

  lemma {:induction false} TotalSet(d: Dict<string, nat>, k: string, v: nat)
    ensures Total(Set(d, k, v)) + Get(d, k, 0) == Total(d) + v
  {
    if d != [] && d[0].0 != k {
      TotalSet(d[1..], k, v);
    }
  }

  /** The counts of a counter built from a list add up to the list's length. */
  lemma {:induction false} TallyTotal(authors: seq<string>)
    ensures Total(Tally(authors)) == |authors|
  {
    if authors != [] {
      var n := |authors| - 1;
      var earlier := Tally(authors[..n]);
      TallyTotal(authors[..n]);
      TotalSet(earlier, authors[n], Get(earlier, authors[n], 0) + 1);
    }
  }

  /** The sort key of `most_common()`: an item's count. */
  function Count(item: (string, nat)): real
  {
    item.1 as real
  }

  /**
   `Counter.most_common()`: the items sorted by count, largest first; `sorted` is
   stable, so equal counts keep the counter's order.
   */
  function MostCommon(counter: Dict<string, nat>): (common: Dict<string, nat>)
    ensures multiset(common) == multiset(counter)
    ensures forall i, j :: 0 <= i < j < |common| ==> common[i].1 >= common[j].1
    ensures Distinct(counter) ==> Distinct(common)
  {
    SortDescending(counter, Count);
    var common := Sort(counter, Count);
    assert Distinct(counter) ==> Distinct(common) by {
      if Distinct(counter) {
        var apart := (x: (string, nat), y: (string, nat)) => x.0 != y.0;
        SortApart(counter, Count, apart);
      }
    }
    common
  }

  /**
   The loop `for author, count in items: shares[author] = count / total`. Over items
   without repeated authors every assignment adds a new key, so each item becomes its
   fraction at the same position.
   */
  function Fractions(items: Dict<string, nat>, total: nat): (shares: Dict<string, real>)
    requires items != [] ==> total > 0
    ensures KeySet(shares) == KeySet(items)
    ensures Distinct(items) ==> |shares| == |items| && forall i :: 0 <= i < |items| ==>
      shares[i] == (items[i].0, items[i].1 as real / total as real)
  {
    if items == [] then []
    else
      var n := |items| - 1;
      var earlier := Fractions(items[..n], total);
      assert items == items[..n] + [items[n]];
      KeySetAppend(items[..n], [items[n]]);
      KeySetCons([items[n]]);
      assert Distinct(items) ==> items[n].0 !in KeySet(items[..n]) by {
        if Distinct(items) {
          forall i | 0 <= i < n
            ensures items[..n][i].0 != items[n].0
          {
            assert items[..n][i] == items[i];
          }
        }
      }
      Set(earlier, items[n].0, items[n].1 as real / total as real)
  }

  /**
   `contributor_shares(authors)`: each distinct author with its number of occurrences
   divided by the length of the list. An empty list gives an empty dict and no division.
   */
  function ContributorShares(authors: seq<string>): (shares: Dict<string, real>)
    ensures Distinct(shares)
    ensures KeySet(shares) == Authors(authors)
    ensures |authors| == 0 ==> shares == []
    ensures |authors| > 0 ==> forall i :: 0 <= i < |shares| ==>
      shares[i].1 == multiset(authors)[shares[i].0] as real / |authors| as real
    ensures forall i :: 0 <= i < |shares| ==> 0.0 < shares[i].1 <= 1.0
  {
    var counter := Tally(authors);
    var total := Total(counter);
    TallyTotal(authors);
    var common := MostCommon(counter);
    KeySetOfPermutation(common, counter);
    assert common != [] ==> total > 0 by {
      if common != [] {
        assert common[0].0 in KeySet(common);
      }
    }
    var shares := Fractions(common, total);
    ShareValues(authors, common, total, shares);
    shares
  }

  /** Each share is its author's count over the list's length, and lies in (0, 1]. */
  lemma ShareValues(authors: seq<string>, common: Dict<string, nat>, total: nat, shares: Dict<string, real>)
    requires multiset(common) == multiset(Tally(authors)) && Distinct(common)
    requires total == |authors|
    requires common != [] ==> total > 0
    requires |shares| == |common|
    requires forall i :: 0 <= i < |common| ==> shares[i] == (common[i].0, common[i].1 as real / total as real)
    ensures Distinct(shares)
    ensures |authors| > 0 ==> forall i :: 0 <= i < |shares| ==>
      shares[i].1 == multiset(authors)[shares[i].0] as real / |authors| as real
    ensures forall i :: 0 <= i < |shares| ==> 0.0 < shares[i].1 <= 1.0
  {
    forall i | 0 <= i < |common|
      ensures common[i].1 == multiset(authors)[common[i].0]
      ensures 0.0 < shares[i].1 <= 1.0
    {
      CountOfItem(authors, common[i]);
      CountAtMostLength(authors, common[i].0);
      FractionBounds(common[i].1, total);
    }
  }

  lemma FractionBounds(count: nat, total: nat)
    requires 0 < count <= total
    ensures 0.0 < count as real / total as real <= 1.0
  {
    var f := count as real / total as real;
    assert f * total as real == count as real;
  }

  /** Every item of the counter carries its author's number of occurrences. */
  lemma CountOfItem(authors: seq<string>, item: (string, nat))
    requires item in multiset(Tally(authors))
    ensures item.1 == multiset(authors)[item.0] > 0
  {
    var counter := Tally(authors);
    var i :| 0 <= i < |counter| && counter[i] == item;
    LookupAt(counter, i);
    assert item.0 in KeySet(counter);
  }

  lemma {:induction false} CountAtMostLength(authors: seq<string>, a: string)
    ensures multiset(authors)[a] <= |authors|
  {
    if authors != [] {
      CountAtMostLength(authors[1..], a);
      assert authors == [authors[0]] + authors[1..];
    }
  }

  lemma {:induction false} TotalInsert(x: (string, nat), s: Dict<string, nat>)
    ensures Total(Insert(x, s, Count)) == x.1 + Total(s)
  {
    if s != [] && Count(s[0]) > Count(x) {
      TotalInsert(x, s[1..]);
    }
  }

  /** Sorting a counter's items keeps the total of the counts. */
  lemma {:induction false} TotalMostCommon(counter: Dict<string, nat>)
    ensures Total(MostCommon(counter)) == Total(counter)
  {
    if counter != [] {
      TotalMostCommon(counter[1..]);
      TotalInsert(counter[0], Sort(counter[1..], Count));
    }
  }

  lemma AddFractions(a: real, b: real, t: real)
    requires t != 0.0
    ensures a / t + b / t == (a + b) / t
  {
  }

  lemma {:induction false} SumOfFractions(shares: Dict<string, real>, items: Dict<string, nat>, total: nat)
    requires total > 0
    requires |shares| == |items|
    requires forall i :: 0 <= i < |items| ==> shares[i].1 == items[i].1 as real / total as real
    ensures Sum(shares) == Total(items) as real / total as real
  {
    if items != [] {
      SumOfFractions(shares[1..], items[1..], total);
      AddFractions(items[0].1 as real, Total(items[1..]) as real, total as real);
    }
  }

  /** `contributor_shares` divides the `most_common()` counts by the length of the list. */
  lemma SharesAreFractions(authors: seq<string>)
    ensures MostCommon(Tally(authors)) != [] ==> |authors| > 0
    ensures ContributorShares(authors) == Fractions(MostCommon(Tally(authors)), |authors|)
  {
    TallyTotal(authors);
    KeySetOfPermutation(MostCommon(Tally(authors)), Tally(authors));
    if MostCommon(Tally(authors)) != [] {
      assert MostCommon(Tally(authors))[0].0 in KeySet(MostCommon(Tally(authors)));
    }
  }

  /** The shares of a non-empty list add up to exactly 1. */
  lemma SharesSumToOne(authors: seq<string>)
    requires |authors| > 0
    ensures Sum(ContributorShares(authors)) == 1.0
  {
    var counter := Tally(authors);
    var common := MostCommon(counter);
    TallyTotal(authors);
    TotalMostCommon(counter);
    SharesAreFractions(authors);
    var shares := Fractions(common, |authors|);
    SumOfFractions(shares, common, |authors|);
    assert Sum(shares) == Total(common) as real / |authors| as real;
    assert Total(common) == |authors|;
    DivSelf(|authors| as real);
  }

  lemma DivSelf(t: real)
    requires t > 0.0
    ensures t / t == 1.0
  {
  }

  /** `most_common()` lists counts that never increase, ties in order of first appearance. */
  lemma MostCommonOrder(authors: seq<string>)
    ensures var common := MostCommon(Tally(authors));
      forall i, j :: 0 <= i < j < |common| ==>
        || common[i].1 > common[j].1
        || (common[i].1 == common[j].1 && IndexOf(authors, common[i].0) < IndexOf(authors, common[j].0))
  {
    var counter := Tally(authors);
    var before := (x: (string, nat), y: (string, nat)) => IndexOf(authors, x.0) < IndexOf(authors, y.0);
    assert TiesOrdered(counter, Count, before);
    SortIsStable(counter, Count, before);
    var common := MostCommon(counter);
    assert TiesOrdered(common, Count, before);
    forall i, j | 0 <= i < j < |common| && common[i].1 == common[j].1
      ensures IndexOf(authors, common[i].0) < IndexOf(authors, common[j].0)
    {
      assert Count(common[i]) == Count(common[j]);
      assert before(common[i], common[j]);
    }
  }

  /**
   The shares come in `most_common()` order: occurrence counts never increase, and
   authors with equal counts stand in the order in which each first appears in the list.
   */
  lemma SharesOrder(authors: seq<string>)
    ensures var shares := ContributorShares(authors);
      forall i, j :: 0 <= i < j < |shares| ==>
        || multiset(authors)[shares[i].0] > multiset(authors)[shares[j].0]
        || (multiset(authors)[shares[i].0] == multiset(authors)[shares[j].0]
            && IndexOf(authors, shares[i].0) < IndexOf(authors, shares[j].0))
  {
    var counter := Tally(authors);
    var common := MostCommon(counter);
    var total := Total(counter);
    TallyTotal(authors);
    var shares := ContributorShares(authors);
    assert shares == Fractions(common, total);
    MostCommonOrder(authors);
    forall i | 0 <= i < |common|
      ensures shares[i].0 == common[i].0
      ensures common[i].1 == multiset(authors)[common[i].0]
    {
      CountOfItem(authors, common[i]);
    }
  }

  /** An author's fraction of a list, with no fraction at all (0) for an author not in it. */
  ghost function Share(authors: seq<string>, a: string): real
  {
    if |authors| == 0 then 0.0 else multiset(authors)[a] as real / |authors| as real
  }

  /** `shares.get(a, 0)` is the author's fraction of the list: 0 for one who is not in it. */
  lemma ShareLookup(authors: seq<string>, a: string)
    ensures Get(ContributorShares(authors), a, 0.0) == Share(authors, a)
  {
    var shares := ContributorShares(authors);
    if a in KeySet(shares) {
      var i :| 0 <= i < |shares| && shares[i].0 == a;
      LookupAt(shares, i);
      assert Get(shares, a, 0.0) == shares[i].1;
      assert |authors| > 0;
    } else {
      assert Lookup(shares, a) == None;
      assert a !in authors;
      assert multiset(authors)[a] == 0;
      if |authors| > 0 {
        ZeroOver(|authors| as real);
      }
    }
  }

  lemma ZeroOver(t: real)
    requires t > 0.0
    ensures 0.0 / t == 0.0
  {
  }
}
