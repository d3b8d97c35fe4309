/** The portfolio "beefiness" scanner: for each repository it counts files and
    lines, notes whether a README is present, lists every line that matches a
    placeholder pattern, and turns the counts into a size score. */
module ScanPortfolio {
  import opened Wrappers
  import opened Seqs
  import opened Text
  import opened Fs

  // ---------------------------------------------------------------------------
  // Lines
  // ---------------------------------------------------------------------------

  function Concat(parts: seq<string>): string {
    if parts == [] then "" else parts[0] + Concat(parts[1..])
  }

  /** The pieces between newlines, each given back its newline; the piece
      after the last newline is a line only when it is not empty. */
  function Terminated(pieces: seq<string>): seq<string>
    requires |pieces| >= 1
  {
    if |pieces| == 1 then (if pieces[0] == [] then [] else [pieces[0]])
    else [pieces[0] + "\n"] + Terminated(pieces[1..])
  }

  /** `readlines()`: the text cut after every newline; the empty text has no lines. */
  function ReadLines(s: string): seq<string> {
    Terminated(Split(s, '\n'))
  }

  lemma {:induction false} ConcatTerminated(pieces: seq<string>)
    requires |pieces| >= 1
    ensures Concat(Terminated(pieces)) == Join("\n", pieces)
  {
    if |pieces| > 1 {
      var rest := Terminated(pieces[1..]);
      ConcatTerminated(pieces[1..]);
      assert ([pieces[0] + "\n"] + rest)[1..] == rest;
    }
  }

  lemma {:induction false} TerminatedShape(pieces: seq<string>)
    requires |pieces| >= 1
    requires forall k :: 0 <= k < |pieces| ==> '\n' !in pieces[k]
    ensures forall k :: 0 <= k < |Terminated(pieces)| ==>
      Terminated(pieces)[k] != [] && '\n' !in Terminated(pieces)[k][..|Terminated(pieces)[k]| - 1]
    ensures forall k :: 0 <= k < |Terminated(pieces)| - 1 ==>
      Terminated(pieces)[k][|Terminated(pieces)[k]| - 1] == '\n'
  {
    if |pieces| > 1 {
      var rest := Terminated(pieces[1..]);
      TerminatedShape(pieces[1..]);
      var r := [pieces[0] + "\n"] + rest;
      assert r[0][..|r[0]| - 1] == pieces[0];
      assert forall k :: 1 <= k < |r| ==> r[k] == rest[k - 1];
    }
  }

  /** Joining the lines gives the text back. */
  lemma ReadLinesConcat(s: string)
    ensures Concat(ReadLines(s)) == s
  {
    ConcatTerminated(Split(s, '\n'));
    JoinSplit(s, '\n');
  }

  /** Each line is non-empty and holds a newline only as its last character,
      and every line but the last ends with one. */
  lemma ReadLinesShape(s: string)
    ensures forall k :: 0 <= k < |ReadLines(s)| ==>
      ReadLines(s)[k] != [] && '\n' !in ReadLines(s)[k][..|ReadLines(s)[k]| - 1]
    ensures forall k :: 0 <= k < |ReadLines(s)| - 1 ==> ReadLines(s)[k][|ReadLines(s)[k]| - 1] == '\n'
  {
    SplitPiecesFree(s, '\n');
    TerminatedShape(Split(s, '\n'));
  }

  // ---------------------------------------------------------------------------
  // Placeholder entries
  // ---------------------------------------------------------------------------

  /** One reported match: the file, the 1-based line number and the stripped line. */
  datatype Match = Match(file: string, line: nat, text: string)

  function Reported(path: string, n: nat, line: string): (m: Match)
    ensures m.file == path && m.line == n
  {
    Match(path, n, Strip(line))
  }

  /** The entries of one line: one copy of `m` per pattern that matches it, in pattern order. */
  function LineMatches(m: Match, line: string, patterns: seq<string -> bool>): (r: seq<Match>)
    ensures |r| <= |patterns|
  {
    if patterns == [] then []
    else LineMatches(m, line, patterns[..|patterns| - 1]) + (if patterns[|patterns| - 1](line) then [m] else [])
  }

  /** The test of a pattern on one line. */
  function MatchesLine(line: string): (string -> bool) -> bool {
    (p: string -> bool) => p(line)
  }

  /** A line gives one entry per pattern that matches it, and every entry is
      that line's match. */
  lemma {:induction false} LineMatchesCopies(m: Match, line: string, patterns: seq<string -> bool>)
    ensures |LineMatches(m, line, patterns)| == CountIf(patterns, MatchesLine(line))
    ensures forall k :: 0 <= k < |LineMatches(m, line, patterns)| ==> LineMatches(m, line, patterns)[k] == m
  {
    if patterns != [] {
      var init := patterns[..|patterns| - 1];
      LineMatchesCopies(m, line, init);
      FilterSnoc(init, patterns[|patterns| - 1], MatchesLine(line));
      assert init + [patterns[|patterns| - 1]] == patterns;
    }
  }

  /** The entries of a file's lines, numbered from 1. */
  function FileMatches(path: string, lines: seq<string>, patterns: seq<string -> bool>): (r: seq<Match>)
  {
    if lines == [] then []
    else
      FileMatches(path, lines[..|lines| - 1], patterns)
      + LineMatches(Reported(path, |lines|, lines[|lines| - 1]), lines[|lines| - 1], patterns)
  }

  /** Every entry names the file and a line number between 1 and the number of lines. */
  lemma {:induction false} FileMatchesLines(path: string, lines: seq<string>, patterns: seq<string -> bool>)
    ensures forall m :: m in FileMatches(path, lines, patterns) ==> m.file == path && 1 <= m.line <= |lines|
  {
    if lines != [] {
      FileMatchesLines(path, lines[..|lines| - 1], patterns);
      LineMatchesCopies(Reported(path, |lines|, lines[|lines| - 1]), lines[|lines| - 1], patterns);
    }
  }

  /** At most one entry per line and pattern. */
  lemma {:induction false} FileMatchesBound(path: string, lines: seq<string>, patterns: seq<string -> bool>)
    ensures |FileMatches(path, lines, patterns)| <= |lines| * |patterns|
  {
    if lines != [] {
      FileMatchesBound(path, lines[..|lines| - 1], patterns);
      assert |lines| * |patterns| == (|lines| - 1) * |patterns| + |patterns|;
    }
  }

  /** A line matching no pattern contributes nothing. */
  lemma {:induction false} NoPatternNoMatch(m: Match, line: string, patterns: seq<string -> bool>)
    requires forall k :: 0 <= k < |patterns| ==> !patterns[k](line)
    ensures LineMatches(m, line, patterns) == []
  {
    if patterns != [] {
      NoPatternNoMatch(m, line, patterns[..|patterns| - 1]);
    }
  }

  method MatchLine(m: Match, line: string, patterns: seq<string -> bool>) returns (found: seq<Match>)
    ensures found == LineMatches(m, line, patterns)
  {
    found := [];
    var j := 0;
    while j < |patterns|
      invariant 0 <= j <= |patterns|
      invariant found == LineMatches(m, line, patterns[..j])
    {
      assert patterns[..j + 1][..j] == patterns[..j];
      if patterns[j](line) {
        found := found + [m];
      }
      j := j + 1;
    }
    assert patterns[..j] == patterns;
  }

  lemma FileMatchesStep(path: string, lines: seq<string>, i: nat, patterns: seq<string -> bool>)
    requires i < |lines|
    ensures FileMatches(path, lines[..i + 1], patterns) ==
      FileMatches(path, lines[..i], patterns) + LineMatches(Reported(path, i + 1, lines[i]), lines[i], patterns)
  {
    assert lines[..i + 1][..i] == lines[..i];
  }

  /** The inner loop over `enumerate(lines, 1)`. */
  method MatchFile(path: string, lines: seq<string>, patterns: seq<string -> bool>) returns (found: seq<Match>)
    ensures found == FileMatches(path, lines, patterns)
  {
    found := [];
    var i := 0;
    while i < |lines|
      invariant 0 <= i <= |lines|
      invariant found == FileMatches(path, lines[..i], patterns)
    {
      FileMatchesStep(path, lines, i, patterns);
      var more := MatchLine(Reported(path, i + 1, lines[i]), lines[i], patterns);
      found := found + more;
      i := i + 1;
    }
    assert lines[..i] == lines;
  }

  // ---------------------------------------------------------------------------
  // A repository
  // ---------------------------------------------------------------------------

  predicate IsReadme(f: File) {
    "readme" <= Lower(f.name)
  }

  /** Whether some file of the walk is a README. */
  function AnyReadme(files: seq<File>): bool {
    files != [] && (AnyReadme(files[..|files| - 1]) || IsReadme(files[|files| - 1]))
  }

  lemma {:induction false} AnyReadmeIff(files: seq<File>)
    ensures AnyReadme(files) <==> exists k | 0 <= k < |files| :: IsReadme(files[k])
  {
    if files != [] {
      var init := files[..|files| - 1];
      AnyReadmeIff(init);
      if exists k | 0 <= k < |files| :: IsReadme(files[k]) {
        var k :| 0 <= k < |files| && IsReadme(files[k]);
        if k < |init| {
          assert init[k] == files[k];
        }
      }
    }
  }

  /** The lines of a file, none when it cannot be read. */
  function FileLines(f: File): seq<string> {
    if f.content.Some? then ReadLines(f.content.value) else []
  }

  function LineCount(files: seq<File>): nat {
    if files == [] then 0 else LineCount(files[..|files| - 1]) + |FileLines(files[|files| - 1])|
  }

  /** The entries of the walk. A file is named by its path relative to the
      folder that holds the repositories, that is under the repository's name. */
  function Matches(repo: string, files: seq<File>, patterns: seq<string -> bool>): seq<Match> {
    if files == [] then []
    else
      var f := files[|files| - 1];
      Matches(repo, files[..|files| - 1], patterns) + FileMatches(Under(repo, f), FileLines(f), patterns)
  }

  /** `min(100, int(files / 5 + lines / 100))` on exact numbers. */
  function Beefiness(files: nat, lines: nat): (score: int)
    ensures 0 <= score <= 100
    ensures score == 100 <==> 20 * files + lines >= 10000
  {
    var s := (20 * files + lines) / 100;
    if s < 100 then s else 100
  }

  /** The integer form agrees with the sum of the two quotients, truncated. */
  lemma BeefinessExact(files: nat, lines: nat)
    ensures Beefiness(files, lines) == Min100(((files as real) / 5.0 + (lines as real) / 100.0).Floor)
  {
    var x := 20 * files + lines;
    assert (files as real) / 5.0 + (lines as real) / 100.0 == (x as real) / 100.0;
    var q := x / 100;
    assert x == 100 * q + x % 100;
    assert (q as real) <= (x as real) / 100.0 < (q as real) + 1.0;
  }

  function Min100(n: int): int {
    if n < 100 then n else 100
  }

  /** More files or more lines never lower the score. */
  lemma BeefinessMonotone(f: nat, l: nat, f': nat, l': nat)
    requires f <= f' && l <= l'
    ensures Beefiness(f, l) <= Beefiness(f', l')
  {
    assert 20 * f + l <= 20 * f' + l';
  }

  datatype Metrics = Metrics(files: nat, lines: nat, readmePresent: bool, beefiness: int)
  datatype Info = Info(repo: string, placeholders: seq<Match>, metrics: Metrics)

  function InfoOf(repo: Repo, patterns: seq<string -> bool>): (r: Info)
    ensures r.metrics.files == |repo.files|
    ensures r.metrics.readmePresent <==> exists k | 0 <= k < |repo.files| :: IsReadme(repo.files[k])
  {
    var lines := LineCount(repo.files);
    var readme := AnyReadme(repo.files);
    AnyReadmeIff(repo.files);
    Info(repo.name, Matches(repo.name, repo.files, patterns),
         Metrics(|repo.files|, lines, readme, Beefiness(|repo.files|, lines)))
  }

  /** The body of the walk for a readable file: its lines and their entries. */
  method ScanFile(repo: string, f: File, patterns: seq<string -> bool>) returns (lines: nat, found: seq<Match>)
    ensures lines == |FileLines(f)|
    ensures found == FileMatches(Under(repo, f), FileLines(f), patterns)
  {
    lines, found := 0, [];
    if f.content.Some? {
      var text := ReadLines(f.content.value);
      lines := |text|;
      found := MatchFile(Under(repo, f), text, patterns);
    }
  }

  /** `scan_repo`: every file counts and can reveal the README; only readable
      files add lines and entries. */
  method ScanRepo(repo: Repo, patterns: seq<string -> bool>) returns (info: Info)
    ensures info == InfoOf(repo, patterns)
  {
    var files := repo.files;
    var fileCount: nat := 0;
    var lineCount: nat := 0;
    var readme := false;
    var found: seq<Match> := [];
    var i := 0;
    while i < |files|
      invariant 0 <= i <= |files|
      invariant fileCount == i
      invariant lineCount == LineCount(files[..i])
      invariant readme == AnyReadme(files[..i])
      invariant found == Matches(repo.name, files[..i], patterns)
    {
      assert files[..i + 1][..i] == files[..i];
      fileCount := fileCount + 1;
      if IsReadme(files[i]) {
        readme := true;
      }
      var lines, more := ScanFile(repo.name, files[i], patterns);
      lineCount := lineCount + lines;
      found := found + more;
      i := i + 1;
    }
    assert files[..i] == files;
    info := Info(repo.name, found, Metrics(fileCount, lineCount, readme, Beefiness(fileCount, lineCount)));
  }

  /** The walk over the repositories folder, one report per directory. */
  function Infos(entries: seq<Entry>, patterns: seq<string -> bool>): seq<Info> {
    if entries == [] then []
    else
      var e := entries[|entries| - 1];
      Infos(entries[..|entries| - 1], patterns) + (if e.Directory? then [InfoOf(e.repo, patterns)] else [])
  }

  method ScanAll(entries: seq<Entry>, patterns: seq<string -> bool>) returns (report: seq<Info>)
    ensures report == Infos(entries, patterns)
  {
    report := [];
    var i := 0;
    while i < |entries|
      invariant 0 <= i <= |entries|
      invariant report == Infos(entries[..i], patterns)
    {
      assert entries[..i + 1][..i] == entries[..i];
      if entries[i].Directory? {
        var info := ScanRepo(entries[i].repo, patterns);
        report := report + [info];
      }
      i := i + 1;
    }
    assert entries[..i] == entries;
  }
}
