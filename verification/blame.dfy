/**
 Extraction of one author per line of `git blame --line-porcelain` output
 (`blame_contributors`, without the `git` process itself). With `--names` an author
 is announced by the header line `author <name>`, otherwise by `author-mail <<address>>`.
 The two patterns are anchored by `^` and `$` and searched with `re.search` without
 MULTILINE, so `^` is the start of the line, `.` is any character but a newline and
 `$` is the end of the line or the position just before a final newline.
 */
module Blame {
  import opened Dicts

  /** How an author is identified: by display name (`--names`) or by e-mail address. */
  datatype Identity = ByName | ByEmail

  const NamePrefix: string := "author "
  const MailPrefix: string := "author-mail <"

  function Prefix(id: Identity): string
  {
    match id
    case ByName => NamePrefix
    case ByEmail => MailPrefix
  }

  function Suffix(id: Identity): string
  {
    match id
    case ByName => ""
    case ByEmail => ">"
  }

  /** The porcelain header line that names `who` as the author of a line. */
  function AuthorLine(id: Identity, who: string): string
  {
    Prefix(id) + who + Suffix(id)
  }

  /** What precedes the point where `$` matches: the text without one final newline. */
  function BeforeEnd(s: string): (b: string)
    ensures s == b || s == b + "\n"
  {
    if |s| > 0 && s[|s| - 1] == '\n' then s[..|s| - 1] else s
  }

  /**
   `re.search` of `^author (.+)$` (by name) or `^author-mail <(.+)>$` (by e-mail)
   on one line, and the captured group when it matches.
   */
  function MatchAuthor(line: string, id: Identity): Option<string>
  {
    var p := Prefix(id);
    if |line| < |p| || line[..|p|] != p then None
    else
      var body := BeforeEnd(line[|p|..]);
      match id
      case ByName =>
        if |body| > 0 && '\n' !in body then Some(body) else None
      case ByEmail =>
        if |body| >= 2 && body[|body| - 1] == '>' && '\n' !in body then Some(body[..|body| - 1]) else None
  }

  /** A match captures a non-empty, newline-free author and the line is that author's header line. */
  lemma MatchAuthorSound(line: string, id: Identity)
    requires MatchAuthor(line, id).Some?
    ensures var who := MatchAuthor(line, id).value;
      && |who| > 0 && '\n' !in who
      && (line == AuthorLine(id, who) || line == AuthorLine(id, who) + "\n")
  {
    var p := Prefix(id);
    var rest := line[|p|..];
    var body := BeforeEnd(rest);
    assert line == p + rest;
    var who := MatchAuthor(line, id).value;
    if id == ByEmail {
      assert body == who + ">";
    } else {
      assert body == who;
    }
    assert AuthorLine(id, who) == p + body;
  }

  lemma HeaderParts(line: string, p: string, w: string)
    requires w != [] && '\n' !in w
    requires line == p + w || line == p + w + "\n"
    ensures |line| >= |p| && line[..|p|] == p && BeforeEnd(line[|p|..]) == w
  {
    if line == p + w {
      assert line[|p|..] == w;
    } else {
      assert line[|p|..] == w + "\n";
      assert (w + "\n")[..|w|] == w;
    }
  }

  /** The header line for a non-empty, newline-free author, with or without a final newline, captures that author. */
  lemma MatchAuthorComplete(line: string, id: Identity, who: string)
    requires |who| > 0 && '\n' !in who
    requires line == AuthorLine(id, who) || line == AuthorLine(id, who) + "\n"
    ensures MatchAuthor(line, id) == Some(who)
  {
    var w := who + Suffix(id);
    assert AuthorLine(id, who) == Prefix(id) + w;
    HeaderParts(line, Prefix(id), w);
    var body := BeforeEnd(line[|Prefix(id)|..]);
    assert body == w;
    match id
    case ByName =>
      assert w == who;
      assert MatchAuthor(line, ByName) == Some(body);
    case ByEmail =>
      assert w[..|w| - 1] == who;
      assert |body| >= 2 && body[|body| - 1] == '>';
      assert '\n' !in body;
      assert MatchAuthor(line, ByEmail) == Some(body[..|body| - 1]);
  }

  /**
   A line matches with capture `who` exactly when it is the header line for `who`,
   possibly followed by one newline, and `who` is non-empty and holds no newline.
   */
  lemma MatchAuthorExact(line: string, id: Identity, who: string)
    ensures MatchAuthor(line, id) == Some(who) <==>
      && |who| > 0 && '\n' !in who
      && (line == AuthorLine(id, who) || line == AuthorLine(id, who) + "\n")
  {
    if MatchAuthor(line, id) == Some(who) {
      MatchAuthorSound(line, id);
    }
    if |who| > 0 && '\n' !in who && (line == AuthorLine(id, who) || line == AuthorLine(id, who) + "\n") {
      MatchAuthorComplete(line, id, who);
    }
  }

  /** The loop over the porcelain lines: one captured author per matching line, in order. */
  function BlameContributors(lines: seq<string>, id: Identity): (authors: seq<string>)
    ensures |authors| <= |lines|
    ensures forall a :: a in authors ==> |a| > 0 && '\n' !in a
  {
    if lines == [] then []
    else
      var earlier := BlameContributors(lines[..|lines| - 1], id);
      match MatchAuthor(lines[|lines| - 1], id)
      case Some(who) =>
        MatchAuthorSound(lines[|lines| - 1], id);
        earlier + [who]
      case None => earlier
  }

  /** Extraction works line by line: the result for `a + b` is the result for `a`, then for `b`. */
  lemma {:induction false} BlameContributorsAppend(a: seq<string>, b: seq<string>, id: Identity)
    ensures BlameContributors(a + b, id) == BlameContributors(a, id) + BlameContributors(b, id)
  {
    if b == [] {
      assert a + b == a;
    } else {
      assert (a + b)[..|a + b| - 1] == a + b[..|b| - 1];
      assert (a + b)[|a + b| - 1] == b[|b| - 1];
      BlameContributorsAppend(a, b[..|b| - 1], id);
    }
  }

  /** One line contributes its capture if it matches and nothing otherwise. */
  lemma BlameContributorsOfLine(line: string, id: Identity)
    ensures BlameContributors([line], id) ==
      match MatchAuthor(line, id)
      case Some(who) => [who]
      case None => []
  {
    assert [line][..0] == [];
  }

  /** Lines none of which match contribute nothing. */
  lemma {:induction false} BlameContributorsIgnores(lines: seq<string>, id: Identity)
    requires forall l :: l in lines ==> MatchAuthor(l, id).None?
    ensures BlameContributors(lines, id) == []
  {
    if lines != [] {
      BlameContributorsIgnores(lines[..|lines| - 1], id);
    }
  }

  /**
   Round trip: the header lines announcing a list of authors, whatever non-matching
   lines surround each of them, yield exactly that list.
   */
  lemma {:induction false} BlameContributorsRoundTrip(who: seq<string>, noise: seq<seq<string>>, id: Identity)
    requires |noise| == |who|
    requires forall i :: 0 <= i < |who| ==> |who[i]| > 0 && '\n' !in who[i]
    requires forall i, l :: 0 <= i < |noise| && l in noise[i] ==> MatchAuthor(l, id).None?
    ensures BlameContributors(Annotate(who, noise, id), id) == who
  {
    if who != [] {
      var n := |who| - 1;
      var front := Annotate(who[..n], noise[..n], id);
      BlameContributorsRoundTrip(who[..n], noise[..n], id);
      BlameContributorsAppend(front, noise[n] + [AuthorLine(id, who[n])], id);
      BlameContributorsAppend(noise[n], [AuthorLine(id, who[n])], id);
      BlameContributorsIgnores(noise[n], id);
      MatchAuthorComplete(AuthorLine(id, who[n]), id, who[n]);
      BlameContributorsOfLine(AuthorLine(id, who[n]), id);
      assert who == who[..n] + [who[n]];
    }
  }

  /** Porcelain text in which `noise[i]` comes before the header line naming `who[i]`. */
  function Annotate(who: seq<string>, noise: seq<seq<string>>, id: Identity): seq<string>
    requires |noise| == |who|
  {
    if who == [] then []
    else
      var n := |who| - 1;
      Annotate(who[..n], noise[..n], id) + (noise[n] + [AuthorLine(id, who[n])])
  }
}
