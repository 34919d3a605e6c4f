/**
 `print_report`, `report_shares` and the loop over the files on the command line, with
 each printed report as a value instead of text on standard output.
 */
module Report {
  import opened Dicts
  import opened Ranking
  import opened Estimate

  /** One line of the table: `#<rank>  <author>  (<fraction as a percentage>)`. */
  datatype Row = Row(rank: nat, author: string, fraction: real)

  /** What is printed for one file. */
  datatype Output =
    | Owner(author: string)
    | Table(header: Option<string>, rows: seq<Row>)
    | IndexError

  /** The rows of `report_shares`: the `index`-th ranked item gets rank `index + 1`. */
  function Rows(ranked: Dict<string, real>): seq<Row>
  {
    if ranked == [] then []
    else
      var n := |ranked| - 1;
      Rows(ranked[..n]) + [Row(n + 1, ranked[n].0, ranked[n].1)]
  }

  /** The ranking a table was printed from: its rows without their ranks. */
  function Unrank(rows: seq<Row>): Dict<string, real>
  {
    seq(|rows|, i requires 0 <= i < |rows| => (rows[i].author, rows[i].fraction))
  }

  /**
   A table lists the whole ranking in order and nothing else, and numbers its rows
   1, 2, 3, and so on.
   */
  lemma {:induction false} RowsRoundTrip(ranked: Dict<string, real>)
    ensures Unrank(Rows(ranked)) == ranked
    ensures |Rows(ranked)| == |ranked|
    ensures forall i :: 0 <= i < |ranked| ==> Rows(ranked)[i].rank == i + 1
  {
    if ranked != [] {
      var n := |ranked| - 1;
      RowsRoundTrip(ranked[..n]);
      assert ranked == ranked[..n] + [ranked[n]];
    }
  }

  /**
   `report_shares`: a table that lists the whole ranking in order, numbered from 1, under
   the header if `if header:` finds one, that is, one that is present and not empty.
   */
  function ReportShares(ranked: Dict<string, real>, header: Option<string>): (out: Output)
    ensures out.Table?
    ensures Unrank(out.rows) == ranked && |out.rows| == |ranked|
    ensures forall i :: 0 <= i < |out.rows| ==> out.rows[i].rank == i + 1
    ensures out.header.Some? <==> header.Some? && header.value != ""
    ensures out.header.Some? ==> out.header == header
  {
    RowsRoundTrip(ranked);
    var shown := if header.Some? && header.value != "" then header else None;
    Table(shown, Rows(ranked))
  }

  /**
   `print_report`: the likely owner alone with `--most-likely`, where an empty ranking
   makes `likely_owner` raise `IndexError`; otherwise the table, headed by the file name
   when more than one file was given.
   */
  function PrintReport(ranked: Dict<string, real>, file: string, args: Options): Output
  {
    if args.mostLikely then
      match LikelyOwner(ranked)
      case None => IndexError
      case Some(owner) => Owner(owner)
    else
      ReportShares(ranked, if |args.files| > 1 then Some(file) else None)
  }

  /**
   The header is the file name, shown exactly when several files were given and the
   name is not empty; the owner printed by `--most-likely` is the author of the first row.
   */
  lemma PrintReportShape(ranked: Dict<string, real>, file: string, args: Options)
    ensures !args.mostLikely ==>
      && PrintReport(ranked, file, args) == Table(PrintReport(ranked, file, args).header, Rows(ranked))
      && (PrintReport(ranked, file, args).header.Some? <==> |args.files| > 1 && file != "")
      && (PrintReport(ranked, file, args).header.Some? ==> PrintReport(ranked, file, args).header.value == file)
    ensures args.mostLikely ==>
      && (PrintReport(ranked, file, args).IndexError? <==> ranked == [])
      && (ranked != [] ==> PrintReport(ranked, file, args) == Owner(Rows(ranked)[0].author))
  {
    RowsRoundTrip(ranked);
    if ranked != [] {
      assert Unrank(Rows(ranked))[0] == ranked[0];
    }
  }

  /**
   With `--most-likely` the printed owner is a candidate author with the largest
   estimated share, and `IndexError` is raised exactly when the file has no candidate.
   */
  lemma MostLikelyOwner(h: History, file: string, args: Options)
    requires args.mostLikely
    ensures var out := PrintReport(EstimateFile(h, args), file, args);
      && (out.IndexError? <==> Candidates(h, args) == {})
      && (out.Owner? ==>
        && out.author in Candidates(h, args)
        && forall a :: a in Candidates(h, args) ==> Weight(h, args, a) <= Weight(h, args, out.author))
  {
    TopHasLargestWeight(h, args);
  }

  /** The report printed for one file of the repository. */
  function FileReport(file: string, args: Options, repo: string -> History): Output
  {
    PrintReport(EstimateFile(repo(file), args), file, args)
  }

  /**
   The main loop over `args.files`: a report per file in command-line order, ending
   early with the first `IndexError`, which is not caught and stops the program.
   */
  function RunProgram(args: Options, repo: string -> History): seq<Output>
  {
    Run(args.files, file => FileReport(file, args, repo))
  }

  /** The loop with the per-file report as a parameter. */
  function Run(files: seq<string>, report: string -> Output): (out: seq<Output>)
    ensures |out| <= |files|
  {
    if files == [] then []
    else
      var first := report(files[0]);
      if first.IndexError? then [first]
      else [first] + Run(files[1..], report)
  }

  /**
   Each report is the one for the file at the same position, every report before the
   last is not an `IndexError`, and a run that stops short ends with one.
   */
  lemma {:induction false} RunOrder(files: seq<string>, report: string -> Output)
    ensures var out := Run(files, report);
      && (forall i :: 0 <= i < |out| ==> out[i] == report(files[i]))
      && (forall i :: 0 <= i < |out| - 1 ==> !out[i].IndexError?)
      && (|out| < |files| ==> out != [] && out[|out| - 1].IndexError?)
  {
    if files != [] {
      var first := report(files[0]);
      if !first.IndexError? {
        var rest := Run(files[1..], report);
        RunOrder(files[1..], report);
        var out := [first] + rest;
        assert Run(files, report) == out;
        forall i | 0 < i < |out|
          ensures out[i] == rest[i - 1] && files[i] == files[1..][i - 1]
        {
        }
      }
    }
  }

  /**
   The program's output: one report per file, each the report for that file, until
   and including the first `IndexError`; without `--most-likely` every file is reported.
   */
  lemma RunProgramReports(args: Options, repo: string -> History)
    ensures var out := RunProgram(args, repo);
      && |out| <= |args.files|
      && (forall i :: 0 <= i < |out| ==> out[i] == FileReport(args.files[i], args, repo))
      && (forall i :: 0 <= i < |out| - 1 ==> !out[i].IndexError?)
      && (|out| < |args.files| ==> out != [] && out[|out| - 1].IndexError?)
      && (!args.mostLikely ==> |out| == |args.files|)
  {
    var report := file => FileReport(file, args, repo);
    assert RunProgram(args, repo) == Run(args.files, report);
    RunOrder(args.files, report);
    if !args.mostLikely {
      TablesNeverRaise(args, repo);
      RunReportsEveryFile(args.files, report);
    }
  }

  lemma TablesNeverRaise(args: Options, repo: string -> History)
    requires !args.mostLikely
    ensures forall file :: FileReport(file, args, repo).Table?
  {
  }

  /** When no report is an `IndexError` (no `--most-likely`), every file gets its report. */
  lemma {:induction false} RunReportsEveryFile(files: seq<string>, report: string -> Output)
    requires forall f :: !report(f).IndexError?
    ensures |Run(files, report)| == |files|
  {
    if files != [] {
      RunReportsEveryFile(files[1..], report);
    }
  }
}
