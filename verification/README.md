# git-owner, modelled in Dafny

`git-owner` estimates who owns a file in a Git repository. It uses two signals.

- **Log:** one author per commit, from `git log --follow`.
- **Blame:** one author per `author` header line of `git blame --line-porcelain`. That is normally one per line of the current content.

Each signal becomes a share per author: that author's number of occurrences divided by the signal's length. By default the two share dicts are blended half and half. The result is ranked from the largest share down. The program then prints either the whole ranking or, with `--most-likely`, only the top author.

This project models the pure part of that pipeline. `cli` and `log_contributors` have no counterpart, and only the line filter of `blame_contributors` is modelled (see "## Left out"). The scoring functions have these Dafny counterparts:

| module (file) | Python |
|---|---|
| `Blame` (`blame.dfy`) | the author-line filter of `blame_contributors` |
| `Shares` (`shares.dfy`) | `contributor_shares` |
| `Combine` (`combine.dfy`) | `combine_shares` |
| `Ranking` (`ranking.dfy`) | `sort_shares` and `likely_owner` |
| `Estimate` (`estimate.dfy`) | `estimate_file` |
| `Report` (`report.dfy`) | `report_shares`, `print_report` and the loop over the files |

Two supporting modules model the Python built-ins:

- `Dicts` (`dicts.dfy`) models an insertion-ordered `dict` as a sequence of pairs. `Set` is `d[k] = v`: an existing key keeps its place and a new key is appended. `Lookup` and `Get` are `d.get`.
- `Sorting` (`sorting.dfy`) models the stable descending sort behind `sorted(..., reverse=True)` and `Counter.most_common()`.

Other modelling choices:

- `Counter(authors)` is built the way CPython builds it: `counter[a] = counter.get(a, 0) + 1` for each author in turn. So its keys appear in order of first occurrence.
- Fractions are exact reals.
- The output of the two `git` commands is an input, `Estimate.History`. It is already split into lines.
- The printed output is a value, `Report.Output`.

A few behaviours of the code are worth stating. The model follows the code in each of them.

- **An empty signal is not an error.** `contributor_shares([])` is `{}`, and `combine_shares` reads a missing author as 0. So if exactly one of the two signals has no author, the blended shares add up to 1/2 (`Estimate.EstimateSum`). If both are empty, the ranking is empty. Then `--most-likely` raises `IndexError` and the run stops (`Report.MostLikelyOwner`, `Report.RunProgramReports`). The code does not check for an empty signal.
- **git's exit status is never checked.** A failing `git` command simply yields an empty or partial `History`.
- **An empty file name gets no header.** The header is set to the file name when several files are given. It is printed only if that name is truthy, so an empty name `""` prints no header (`Report.ReportShares`).
- **`--only-log` wins.** The code checks it before `--only-blame`, so it takes effect even if both flags are set. `argparse` forbids setting both.
- **The patterns follow Python's rules.** `^author (.+)$` and `^author-mail <(.+)>$` are modelled with Python's `re.search` semantics: `.` matches no newline, and `$` matches at the end or just before a final newline.

## Model

| member | source | states |
|---|---|---|
| Blame.MatchAuthor | git_owner/__init__.py:72-81 | `re.search` of the author pattern on one line; its contract is stated by `Blame.MatchAuthorSound`, `Blame.MatchAuthorComplete` and `Blame.MatchAuthorExact` |
| Blame.MatchAuthorSound | git_owner/__init__.py:78-81 | a captured author is non-empty and newline-free, and the line is that author's header line, possibly followed by one newline |
| Blame.MatchAuthorComplete | git_owner/__init__.py:72-81 | the header line of a non-empty, newline-free author, with or without a final newline, captures that author |
| Blame.MatchAuthorExact | git_owner/__init__.py:72-81 | a porcelain line yields capture `who` exactly when it is `author <who>` (or `author-mail <<who>>`), possibly followed by one newline, and `who` is non-empty and newline-free |
| Blame.BlameContributors | git_owner/__init__.py:77-84 | there are at most as many captured authors as lines, and each is non-empty with no newline |
| Blame.BlameContributorsAppend | git_owner/__init__.py:77-84 | extraction goes line by line: the authors of `a + b` are those of `a` followed by those of `b` |
| Blame.BlameContributorsOfLine | git_owner/__init__.py:78-82 | one line contributes its capture when it matches and nothing when it does not |
| Blame.BlameContributorsIgnores | git_owner/__init__.py:77-84 | lines none of which match give no authors |
| Blame.BlameContributorsRoundTrip | git_owner/__init__.py:72-84 | header lines for a list of authors, with any non-matching lines around them, yield exactly that list in order |
| Dicts.Set | git_owner/__init__.py:98 | `d[k] = v`: the keys become the old keys plus `k`; an existing key keeps its position, and a new key is appended with its value (`Dicts.SetLookup` and `Dicts.SetDistinct` give the values and distinctness) |
| Dicts.SetDistinct | git_owner/__init__.py:107 | assigning to a dict without repeated keys leaves it without repeated keys |
| Dicts.SetLookup | git_owner/__init__.py:110-112 | after `d[k] = v`, looking up `k` gives `v` and every other key keeps its old value |
| Dicts.Lookup | git_owner/__init__.py:110 | the dict lookup behind `.get`: it finds nothing exactly when the key is absent, and what it finds is an item of the dict |
| Dicts.Get | git_owner/__init__.py:110 | `combined_shares.get(author, 0)`: the value stored for the key, or the default; its contract is stated by `Dicts.LookupAt`, `Dicts.SetLookup` and `Dicts.LookupAppend` |
| Dicts.LookupAt | git_owner/__init__.py:110 | in a dict without repeated keys, looking up an item's key finds that item's value |
| Dicts.LookupAppend | git_owner/__init__.py:110 | looking up a key in `a + b` finds it in `a` first, and in `b` only if `a` lacks it |
| Shares.Tally | git_owner/__init__.py:91 | `Counter(authors)` has each distinct author once, with its number of occurrences, in order of first occurrence |
| Shares.Total | git_owner/__init__.py:92 | `counter.total()`: the sum of the counts; its contract is stated by `Shares.TallyTotal` and `Shares.TotalSet` |
| Shares.TotalSet | git_owner/__init__.py:91-92 | a counter update replaces the key's old count (0 if absent) in the total |
| Shares.TallyTotal | git_owner/__init__.py:92 | `counter.total()` is the length of the author list |
| Shares.MostCommon | git_owner/__init__.py:96 | `most_common()` permutes the counter's items, keeps the keys distinct, and lists counts that never increase |
| Shares.MostCommonOrder | git_owner/__init__.py:96 | equal counts in `most_common()` appear in order of the authors' first occurrence |
| Shares.Fractions | git_owner/__init__.py:96-98 | the loop writes each author with its count divided by the total, in `most_common()` order, under the same keys |
| Shares.ContributorShares | git_owner/__init__.py:90-100 | the keys are exactly the distinct authors; each value is occurrences / length and lies in (0, 1]; an empty list gives `{}` |
| Shares.SharesSumToOne | git_owner/__init__.py:90-100 | the shares of a non-empty list add up to exactly 1 |
| Shares.SharesOrder | git_owner/__init__.py:96-100 | the shares dict lists occurrence counts from largest to smallest, and equal counts in order of first occurrence |
| Shares.ShareLookup | git_owner/__init__.py:90-100 | `shares.get(a, 0)` is `a`'s fraction of the list, and 0 for an author not in it |
| Combine.HalveLog | git_owner/__init__.py:104-107 | the first loop of `combine_shares`; its contract is stated by `Combine.HalveLogIsHalved` and `Combine.HalveLogKeySet` |
| Combine.HalveLogKeySet | git_owner/__init__.py:106-107 | the first loop writes exactly the log's keys |
| Combine.AddBlame | git_owner/__init__.py:109-112 | the second loop of `combine_shares`; its contract is stated by `Combine.AddBlameValues`, `Combine.AddBlameKeys`, `Combine.AddBlameKeySet` and `Combine.AddBlameSum` |
| Combine.AddBlameKeys | git_owner/__init__.py:109-112 | the second loop keeps keys distinct and appends the blame keys it has not seen, in blame order |
| Combine.AddBlameKeySet | git_owner/__init__.py:109-112 | the second loop adds exactly the blame keys to the keys already there |
| Combine.AddBlameSum | git_owner/__init__.py:109-112 | the second loop adds half of the blame total to the running total |
| Combine.CombineShares | git_owner/__init__.py:103-114 | `combine_shares` as the two loops in sequence; its contract is stated by `Combine.CombineKeySet`, `Combine.CombineKeys`, `Combine.CombineValues`, `Combine.CombineSum`, `Combine.CombineCommutes`, `Combine.CombineWithItself` and `Combine.CombineDisjoint` |
| Combine.HalveLogIsHalved | git_owner/__init__.py:104-107 | the first loop copies the log dict in its own order with every value halved |
| Combine.AddBlameValues | git_owner/__init__.py:109-112 | the second loop adds half of each blame share to whatever the author already has, or to 0 |
| Combine.CombineKeySet | git_owner/__init__.py:103-114 | the blended keys are the union of the two dicts' keys |
| Combine.CombineKeys | git_owner/__init__.py:103-114 | the blended dict has no repeated key; its keys are the log's keys, then the blame-only keys in blame order |
| Combine.CombineValues | git_owner/__init__.py:103-114 | every author's blended value is `log.get(a, 0) / 2 + blame.get(a, 0) / 2` |
| Combine.CombineSum | git_owner/__init__.py:103-114 | the blended total is half of each input's total, so two distributions summing to 1 blend into one that sums to 1 |
| Combine.CombineCommutes | git_owner/__init__.py:103-114 | swapping the two inputs changes only the key order: same authors, same values |
| Combine.CombineWithItself | git_owner/__init__.py:103-114 | blending a dict with itself gives back that dict, order included |
| Combine.CombineDisjoint | git_owner/__init__.py:103-114 | with no common author, the result is the log halved followed by the blame halved |
| Sorting.Sort | git_owner/__init__.py:122 | `sorted(..., reverse=True)` returns a permutation of its input (multiset and length kept); order and stability are stated by `Sorting.SortDescending` and `Sorting.SortIsStable` |
| Sorting.SortDescending | git_owner/__init__.py:122 | the sorted list has keys that never increase |
| Sorting.SortIsStable | git_owner/__init__.py:122 | items with equal keys keep their input order |
| Ranking.SortShares | git_owner/__init__.py:120-124 | the ranking is a permutation of the dict's items, has fractions that never increase, keeps keys distinct, and keeps equal fractions in dict order |
| Ranking.SortSharesLookup | git_owner/__init__.py:120-124 | ranking keeps the set of authors and each author's share |
| Ranking.SumSort | git_owner/__init__.py:122 | ranking keeps the total of the shares |
| Ranking.LikelyOwner | git_owner/__init__.py:127-131 | `shares[0]` raises IndexError exactly on an empty list, and otherwise gives one of the listed authors; `Ranking.OwnerHasLargestShare` states that it holds the largest share |
| Ranking.OwnerHasLargestShare | git_owner/__init__.py:127-131 | `likely_owner(sort_shares(d))` fails (IndexError) exactly when `d` is empty; otherwise it is an author of `d` whose share is at least every other share |
| Estimate.FromBlame | git_owner/__init__.py:141 | the `blame_contributors(file, args.names)` call (also at line 150): the blame pattern is chosen by `--names`; its contract is stated by `Blame.BlameContributors` and the `Blame` lemmas |
| Estimate.ModeShares | git_owner/__init__.py:135-155 | the shares that `estimate_file` hands to `sort_shares` in each mode; its contract is stated by `Estimate.ModeSharesWeights` |
| Estimate.EstimateFile | git_owner/__init__.py:134-157 | each candidate author of the chosen mode appears once, with its weight (commit fraction, line fraction, or their mean), ranked from the largest weight down |
| Estimate.ModeSharesWeights | git_owner/__init__.py:135-155 | before ranking, each mode's dict holds exactly that mode's candidates, and `get` returns each author's weight |
| Estimate.EstimateSum | git_owner/__init__.py:134-157 | the ranked shares add up to 1 in a single-signal mode with some author, and to 1/2 + 1/2, 1/2 or 0 in the blended mode depending on which signals are empty |
| Estimate.LogOnlyIgnoresBlame | git_owner/__init__.py:135-139 | with `--only-log` the blame output does not affect the result |
| Estimate.BlameOnlyIgnoresLog | git_owner/__init__.py:140-144 | with `--only-blame` alone the log does not affect the result |
| Estimate.TopHasLargestWeight | git_owner/__init__.py:134-157 | the ranking is empty exactly when there is no candidate; otherwise its head is a candidate with the largest weight |
| Report.Rows | git_owner/__init__.py:163-165 | the `enumerate` loop of `report_shares`; its contract is stated by `Report.RowsRoundTrip` |
| Report.RowsRoundTrip | git_owner/__init__.py:163-165 | the table lists the whole ranking in order, and the row at index `i` has rank `i + 1` |
| Report.ReportShares | git_owner/__init__.py:160-165 | the table lists the whole ranking in order, and row `i` has rank `i + 1`; a header is shown exactly when one is given and it is non-empty |
| Report.PrintReport | git_owner/__init__.py:168-176 | `print_report`; its contract is stated by `Report.PrintReportShape` and `Report.MostLikelyOwner` |
| Report.PrintReportShape | git_owner/__init__.py:168-176 | without `--most-likely` a table is printed, headed by the file name exactly when several files are given and the name is non-empty; with it, the first row's author is printed, or IndexError when there are no rows |
| Report.MostLikelyOwner | git_owner/__init__.py:168-170 | the printed owner is a candidate with the largest estimated share, and IndexError happens exactly when there is no candidate |
| Report.Run | git_owner/__init__.py:189-191 | the loop produces at most one report per file |
| Report.RunOrder | git_owner/__init__.py:189-191 | report `i` belongs to file `i`; no report before the last is an IndexError; a run that stops early ends with one |
| Report.RunReportsEveryFile | git_owner/__init__.py:189-191 | when no report raises, every file is reported |
| Report.RunProgram | git_owner/__init__.py:189-191 | the loop over `args.files`, each file estimated and reported; its contract is stated by `Report.RunProgramReports` |
| Report.FileReport | git_owner/__init__.py:190-191 | the body of the loop: `estimate_file` and then `print_report` for one file; its contract is stated by `Report.RunProgramReports`, `Report.PrintReportShape` and `Report.MostLikelyOwner` |
| Report.RunProgramReports | git_owner/__init__.py:179-191 | for git output that has been decoded and split into lines, the program prints each file's report in order until the first IndexError; without `--most-likely` it reports every file |

## Left out

- `log_contributors` (git_owner/__init__.py:54-63) runs `git log`. What it returns, `splitlines()` of git's output, is the input `History.log`. The choice between `%an` and `%ae` is made inside git, so `--names` in this model affects only the blame pattern.
- The `git blame` process, byte decoding and `splitlines()` (git_owner/__init__.py:69-70) are outside the model: `History.blame` is the list of lines that `splitlines()` returns.
- Decoding errors: `stdout.decode()` (git_owner/__init__.py:61, 70) is strict UTF-8. `--line-porcelain` prints every content line raw, so a file that is not valid UTF-8 raises `UnicodeDecodeError` in the blame-only and default modes, and the run ends even without `--most-likely`. The model starts after a successful decode.
- Report.RunProgramReports: "every file is reported without `--most-likely`" holds only for git output that decodes. The decoding error above is not modelled.
- Line splitting: `splitlines()` also breaks at `\r`, `\v`, `\f`, `\x1c`-`\x1e`, `\x85`, `\u2028` and `\u2029`. A content line such as `x\x0cauthor y` therefore yields a separate line `author y`, which adds an author. The model takes the split lines as given, so the blame signal counts one author per matching header line, not strictly one per content line.
- `cli` and argparse (git_owner/__init__.py:11-51) are replaced by the `Options` record. Parsing, the help text, the rule that at least one file is given and the mutual exclusion of `--only-log` and `--only-blame` are argparse's work and are not modelled.
- Logging and `--verbose` (git_owner/__init__.py:138, 143, 148, 152, 183-187) only write diagnostics, so they are left out.
- Floating point: shares are exact reals, so `count / total` and `fraction / 2` carry no rounding. The sums of 1 are exact here, whereas floats may miss by rounding. Rounding also changes the comparisons in `sorted` (git_owner/__init__.py:122), so authors whose exact shares tie can be split apart in the program. For example, in the default mode take the log `[a,a,a,b,c,c,c,c,c,c]` and blame lines for `b` twice and `c` eight times. Both `a` and `b` get exactly 3/20, but in doubles `0.3 / 2` is below `0.1 / 2 + 0.2 / 2`. The tie order that `Ranking.SortShares` states, and the owner that `Report.PrintReportShape` derives from it, are what exact arithmetic gives; the program's order and owner may differ on such ties.
- Text formatting: the `-- <file> --` header line, `#{:>2}` and `{:.1%}` are left out. An `Output` value carries the header, the ranks, the authors and the exact fractions instead.
- The traceback and exit status after an uncaught `IndexError` are left out. The run's output simply ends with the `IndexError` report.
- Estimate.LogOnlyIgnoresBlame: with the git processes outside the model, it states only that the blame text does not affect the result. It does not state that `git blame` is never run.
