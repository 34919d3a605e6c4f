/**
 `estimate_file`: the ranked shares of one file, from the log alone (`--only-log`),
 from blame alone (`--only-blame`), or from both blended half and half. The two
 `git` commands are not run here: their output is the `History` of the file.
 */
module Estimate {
  import opened Dicts
  import opened Blame
  import opened Shares
  import opened Combine
  import opened Ranking

  /** The parsed command line. */
  datatype Options = Options(
    files: seq<string>,
    mostLikely: bool,
    names: bool,
    onlyLog: bool,
    onlyBlame: bool)

  /**
   What `git` prints for one file, split into lines: `log` holds one author per commit
   (`git log --follow` with format `%an` or `%ae`), `blame` the `--line-porcelain` text.
   */
  datatype History = History(log: seq<string>, blame: seq<string>)

  function IdentityOf(args: Options): Identity
  {
    if args.names then ByName else ByEmail
  }

  /**
   The authors that blame names for the file as it is now: one per `author` header
   line of the porcelain text, which is one per content line as long as no content line
   holds a character at which `splitlines()` also breaks.
   */
  function FromBlame(h: History, args: Options): seq<string>
  {
    BlameContributors(h.blame, IdentityOf(args))
  }

  /** The authors that the estimate for the chosen mode can rank. */
  ghost function Candidates(h: History, args: Options): set<string>
  {
    if args.onlyLog then Authors(h.log)
    else if args.onlyBlame then Authors(FromBlame(h, args))
    else Authors(h.log) + Authors(FromBlame(h, args))
  }

  /**
   An author's estimated share in the chosen mode, from occurrence counts alone: the
   fraction of commits, the fraction of lines, or the mean of the two, where a signal
   without any author counts as 0.
   */
  ghost function Weight(h: History, args: Options, a: string): real
  {
    if args.onlyLog then Share(h.log, a)
    else if args.onlyBlame then Share(FromBlame(h, args), a)
    else Share(h.log, a) / 2.0 + Share(FromBlame(h, args), a) / 2.0
  }

  /**
   `estimate_file`: every candidate author exactly once, with its weight, ranked from
   the largest weight down. `--only-log` is looked at first, so it wins if both are given.
   */
  function EstimateFile(h: History, args: Options): (ranked: Dict<string, real>)
    ensures Distinct(ranked)
    ensures KeySet(ranked) == Candidates(h, args)
    ensures forall i :: 0 <= i < |ranked| ==> ranked[i].1 == Weight(h, args, ranked[i].0)
    ensures forall i, j :: 0 <= i < j < |ranked| ==> ranked[i].1 >= ranked[j].1
  {
    var shares := ModeShares(h, args);
    ModeSharesWeights(h, args);
    RankedWeights(shares, h, args);
    SortShares(shares)
  }

  /** The unranked shares of the chosen mode: one signal alone, or both blended. */
  function ModeShares(h: History, args: Options): Dict<string, real>
  {
    if args.onlyLog then ContributorShares(h.log)
    else if args.onlyBlame then ContributorShares(FromBlame(h, args))
    else CombineShares(ContributorShares(h.log), ContributorShares(FromBlame(h, args)))
  }

  /** The shares of the chosen mode hold each candidate once, with its weight. */
  lemma ModeSharesWeights(h: History, args: Options)
    ensures Distinct(ModeShares(h, args))
    ensures KeySet(ModeShares(h, args)) == Candidates(h, args)
    ensures forall a :: Get(ModeShares(h, args), a, 0.0) == Weight(h, args, a)
  {
    var logShares := ContributorShares(h.log);
    var blameShares := ContributorShares(FromBlame(h, args));
    if args.onlyLog {
      forall a ensures Get(logShares, a, 0.0) == Weight(h, args, a) {
        ShareLookup(h.log, a);
      }
    } else if args.onlyBlame {
      forall a ensures Get(blameShares, a, 0.0) == Weight(h, args, a) {
        ShareLookup(FromBlame(h, args), a);
      }
    } else {
      CombineKeys(logShares, blameShares);
      CombineKeySet(logShares, blameShares);
      forall a ensures Get(CombineShares(logShares, blameShares), a, 0.0) == Weight(h, args, a) {
        CombineValues(logShares, blameShares, a);
        ShareLookup(h.log, a);
        ShareLookup(FromBlame(h, args), a);
      }
    }
  }

  lemma RankedWeights(shares: Dict<string, real>, h: History, args: Options)
    requires Distinct(shares)
    requires KeySet(shares) == Candidates(h, args)
    requires forall a :: Get(shares, a, 0.0) == Weight(h, args, a)
    ensures KeySet(SortShares(shares)) == Candidates(h, args)
    ensures forall i :: 0 <= i < |SortShares(shares)| ==> SortShares(shares)[i].1 == Weight(h, args, SortShares(shares)[i].0)
  {
    SortSharesLookup(shares);
  }

  /** 1 for a signal with some author in it, 0 for an empty one. */
  function Present(authors: seq<string>): real
  {
    if |authors| > 0 then 1.0 else 0.0
  }

  /**
   The ranked shares add up to 1 when every signal used has some author. When the log
   or the blame is empty in the blended mode, the empty one counts as 0 and the shares
   add up to 1/2; when both are empty there are no shares.
   */
  lemma EstimateSum(h: History, args: Options)
    ensures Sum(EstimateFile(h, args)) ==
      if args.onlyLog then Present(h.log)
      else if args.onlyBlame then Present(FromBlame(h, args))
      else Present(h.log) / 2.0 + Present(FromBlame(h, args)) / 2.0
  {
    var logShares := ContributorShares(h.log);
    var blameShares := ContributorShares(FromBlame(h, args));
    SignalSum(h.log);
    SignalSum(FromBlame(h, args));
    SumSort(ModeShares(h, args));
    if !args.onlyLog && !args.onlyBlame {
      CombineSum(logShares, blameShares);
    }
  }

  lemma SignalSum(authors: seq<string>)
    ensures Sum(ContributorShares(authors)) == Present(authors)
  {
    if |authors| > 0 {
      SharesSumToOne(authors);
    }
  }

  /** With `--only-log` the blame output plays no part: two histories with the same log rank alike. */
  lemma LogOnlyIgnoresBlame(h: History, blame: seq<string>, args: Options)
    requires args.onlyLog
    ensures EstimateFile(h, args) == EstimateFile(History(h.log, blame), args)
  {
  }

  /** With `--only-blame` (and not `--only-log`) the log plays no part. */
  lemma BlameOnlyIgnoresLog(h: History, log: seq<string>, args: Options)
    requires args.onlyBlame && !args.onlyLog
    ensures EstimateFile(h, args) == EstimateFile(History(log, h.blame), args)
  {
  }

  /**
   The top of the ranking is a candidate with the largest weight; the ranking is
   empty exactly when there is no candidate.
   */
  lemma TopHasLargestWeight(h: History, args: Options)
    ensures EstimateFile(h, args) == [] <==> Candidates(h, args) == {}
    ensures EstimateFile(h, args) != [] ==>
      var top := EstimateFile(h, args)[0].0;
      && top in Candidates(h, args)
      && forall a :: a in Candidates(h, args) ==> Weight(h, args, a) <= Weight(h, args, top)
  {
    var ranked := EstimateFile(h, args);
    if ranked != [] {
      TopOfRanking(ranked, h, args);
    } else {
      assert KeySet(ranked) == {};
    }
  }

  lemma TopOfRanking(ranked: Dict<string, real>, h: History, args: Options)
    requires ranked != []
    requires KeySet(ranked) == Candidates(h, args)
    requires forall i :: 0 <= i < |ranked| ==> ranked[i].1 == Weight(h, args, ranked[i].0)
    requires forall i, j :: 0 <= i < j < |ranked| ==> ranked[i].1 >= ranked[j].1
    ensures ranked[0].0 in Candidates(h, args)
    ensures forall a :: a in Candidates(h, args) ==> Weight(h, args, a) <= Weight(h, args, ranked[0].0)
  {
    assert ranked[0].0 in KeySet(ranked);
    forall a | a in Candidates(h, args)
      ensures Weight(h, args, a) <= Weight(h, args, ranked[0].0)
    {
      assert a in KeySet(ranked);
      var i :| 0 <= i < |ranked| && ranked[i].0 == a;
      if i > 0 {
        assert ranked[0].1 >= ranked[i].1;
      }
    }
  }
}
