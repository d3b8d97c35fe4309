/** The service entry scanner: sums per-file cloud keyword hits and comment
    markers over the readable text files of each repository, counts four
    README sections, and turns the three counts into capped scores, a
    weighted total and threshold suggestions. */
module CloudServiceEntryScan {
  import opened Wrappers
  import opened Seqs
  import opened Text
  import opened Fs
  import opened Ratios

  const CloudKeywords: seq<string> :=
    ["aws", "ec2", "s3", "lambda", "terraform", "cloudwatch",
     "vpc", "iam", "rds", "cloudformation", "sns", "sqs"]

  const TextExtensions: seq<string> := [".py", ".sh", ".md", ".yaml", ".json"]

  const ReadmeSections: seq<string> := ["tl;dr", "setup instructions", "usage examples", "contact"]

  const CloudTip := "Add more AWS/cloud keywords and examples."
  const ReadmeTip := "Enhance README sections: TL;DR, Setup, Usage, Contact."
  const DocsTip := "Add more comments and docstrings to scripts."

  // ---------------------------------------------------------------------------
  // Per-file counts
  // ---------------------------------------------------------------------------

  function InText(text: string): string -> bool {
    keyword => Contains(text, keyword)
  }

  /** A file takes part when its name ends with one of `exts` and it can be read. */
  predicate Counted(exts: seq<string>, f: File) {
    EndsWithAny(f.name, exts) && f.content.Some?
  }

  /** The listed keywords found in one file's lower-cased text; each counts once however often it occurs. */
  function FileHits(keywords: seq<string>, exts: seq<string>, f: File): (n: nat)
    ensures n <= |keywords|
    ensures !Counted(exts, f) ==> n == 0
  {
    if Counted(exts, f) then CountIf(keywords, InText(Lower(f.content.value))) else 0
  }

  /** `#`, `'''` and `"""` markers in one file, each counted without overlaps. */
  function FileMarkers(exts: seq<string>, f: File): (n: nat)
    ensures !Counted(exts, f) ==> n == 0
  {
    if Counted(exts, f) then
      var text := Lower(f.content.value);
      CountOf(text, "#") + CountOf(text, "'''") + CountOf(text, "\"\"\"")
    else 0
  }

  function TotalHits(keywords: seq<string>, exts: seq<string>, files: seq<File>): nat {
    if files == [] then 0
    else TotalHits(keywords, exts, files[..|files| - 1]) + FileHits(keywords, exts, files[|files| - 1])
  }

  function TotalMarkers(exts: seq<string>, files: seq<File>): nat {
    if files == [] then 0
    else TotalMarkers(exts, files[..|files| - 1]) + FileMarkers(exts, files[|files| - 1])
  }

  /** The walk of `scan_repo`: every readable file with a listed extension adds
      its keyword hits and its comment markers; any other file adds nothing. */
  method CountFiles(keywords: seq<string>, exts: seq<string>, files: seq<File>) returns (hits: nat, markers: nat)
    ensures hits == TotalHits(keywords, exts, files)
    ensures markers == TotalMarkers(exts, files)
  {
    hits, markers := 0, 0;
    var i := 0;
    while i < |files|
      invariant 0 <= i <= |files|
      invariant hits == TotalHits(keywords, exts, files[..i])
      invariant markers == TotalMarkers(exts, files[..i])
    {
      assert files[..i + 1][..i] == files[..i];
      var f := files[i];
      if EndsWithAny(f.name, exts) && f.content.Some? {
        var content := Lower(f.content.value);
        hits := hits + CountIf(keywords, InText(content));
        markers := markers + CountOf(content, "#") + CountOf(content, "'''") + CountOf(content, "\"\"\"");
      }
      i := i + 1;
    }
    assert files[..i] == files;
  }

  /** Hits and markers add up across files. */
  lemma {:induction false} TotalsAdd(keywords: seq<string>, exts: seq<string>, a: seq<File>, b: seq<File>)
    ensures TotalHits(keywords, exts, a + b) == TotalHits(keywords, exts, a) + TotalHits(keywords, exts, b)
    ensures TotalMarkers(exts, a + b) == TotalMarkers(exts, a) + TotalMarkers(exts, b)
  {
    if b == [] {
      assert a + b == a;
    } else {
      var init := b[..|b| - 1];
      assert (a + b)[..|a + b| - 1] == a + init;
      assert (a + b)[|a + b| - 1] == b[|b| - 1];
      TotalsAdd(keywords, exts, a, init);
    }
  }

  /** Each file adds at most one hit per keyword. */
  lemma {:induction false} TotalHitsBound(keywords: seq<string>, exts: seq<string>, files: seq<File>)
    ensures TotalHits(keywords, exts, files) <= |keywords| * |files|
  {
    if files != [] {
      TotalHitsBound(keywords, exts, files[..|files| - 1]);
      MulStep(|keywords|, |files| - 1);
    }
  }

  /** Repeating a keyword inside one file does not add hits: the file counts
      the same whether its text appears once or twice (space-separated). */
  lemma RepeatInFileSameHits(keywords: seq<string>, exts: seq<string>, f: File)
    requires Counted(exts, f)
    requires forall k :: 0 <= k < |keywords| ==> ' ' !in keywords[k]
    ensures FileHits(keywords, exts, f.(content := Some(f.content.value + " " + f.content.value))) ==
      FileHits(keywords, exts, f)
  {
    var c := f.content.value;
    var l := Lower(c);
    LowerAppend(c + " ", c);
    LowerAppend(c, " ");
    assert Lower(" ") == " ";
    assert Lower(c + " " + c) == l + [' '] + l;
    forall k | 0 <= k < |keywords|
      ensures InText(l + [' '] + l)(keywords[k]) == InText(l)(keywords[k])
    {
      var kw := keywords[k];
      if Contains(l + [' '] + l, kw) {
        ContainsAcrossSeparator(l, ' ', l, kw);
      }
      if Contains(l, kw) {
        ContainsAppendLeft(l, [' '] + l, kw);
        assert l + [' '] + l == l + ([' '] + l);
      }
    }
    FilterSame(keywords, InText(l + [' '] + l), InText(l));
  }

  // ---------------------------------------------------------------------------
  // README sections
  // ---------------------------------------------------------------------------

  /** The listed sections present in the lower-cased README; none without a README. */
  function SectionsFound(sections: seq<string>, readme: Option<string>): (n: nat)
    ensures n <= |sections|
    ensures readme.None? ==> n == 0
  {
    if readme.None? then 0 else CountIf(sections, InText(Lower(readme.value)))
  }

  /** The README part of `scan_repo`. */
  method CountSections(sections: seq<string>, readme: Option<string>) returns (found: nat)
    ensures found == SectionsFound(sections, readme)
  {
    found := 0;
    if readme.Some? {
      var content := Lower(readme.value);
      var i := 0;
      while i < |sections|
        invariant 0 <= i <= |sections|
        invariant found == CountIf(sections[..i], InText(content))
      {
        assert sections[..i + 1][..i] == sections[..i];
        if Contains(content, sections[i]) {
          found := found + 1;
        }
        i := i + 1;
      }
      assert sections[..i] == sections;
    }
  }

  // ---------------------------------------------------------------------------
  // Scores
  // ---------------------------------------------------------------------------

  /** Five points per hit, capped at 100. */
  function CloudScore(hits: nat): (s: int)
    ensures 0 <= s <= 100
    ensures s == 100 <==> hits >= 20
  {
    if 100 < hits * 5 then 100 else hits * 5
  }

  /** The share of the four sections found, as a percentage. */
  function ReadmeScore(found: nat): (s: real)
    requires found <= 4
    ensures s == 0.0 || s == 25.0 || s == 50.0 || s == 75.0 || s == 100.0
    ensures s == 100.0 <==> found == 4
  {
    (found as real / 4.0) * 100.0
  }

  /** A tenth of a point per marker, capped at 100. */
  function DocScore(markers: nat): (s: real)
    ensures 0.0 <= s <= 100.0
    ensures s == 100.0 <==> markers >= 1000
  {
    if 100.0 < markers as real / 10.0 then 100.0 else markers as real / 10.0
  }

  /** The 0.4 / 0.3 / 0.3 weighting. */
  function Total(cloud: int, readme: real, docs: real): (t: real)
    requires 0 <= cloud <= 100 && 0.0 <= readme <= 100.0 && 0.0 <= docs <= 100.0
    ensures 0.0 <= t <= 100.0
    ensures t == 100.0 <==> cloud == 100 && readme == 100.0 && docs == 100.0
  {
    cloud as real * 0.4 + readme * 0.3 + docs * 0.3
  }

  function Suggestions(cloud: int, readme: real, docs: real): (r: seq<string>)
    ensures CloudTip in r <==> cloud < 70
    ensures ReadmeTip in r <==> readme < 75.0
    ensures DocsTip in r <==> docs < 50.0
  {
    (if cloud < 70 then [CloudTip] else [])
    + (if readme < 75.0 then [ReadmeTip] else [])
    + (if docs < 50.0 then [DocsTip] else [])
  }

  /** The suggestion part of `scan_repo`: the cloud, README and documentation
      hints, each under its own threshold, in that order. */
  method BuildSuggestions(cloud: int, readme: real, docs: real) returns (suggestions: seq<string>)
    ensures suggestions == Suggestions(cloud, readme, docs)
  {
    suggestions := [];
    if cloud < 70 {
      suggestions := suggestions + [CloudTip];
    }
    if readme < 75.0 {
      suggestions := suggestions + [ReadmeTip];
    }
    if docs < 50.0 {
      suggestions := suggestions + [DocsTip];
    }
  }

  datatype Scan = Scan(repo: string, cloud: int, readme: real, docs: real, total: real, suggestions: seq<string>)

  /** What `scan_repo` returns for one repository. */
  function ScanOf(repo: Repo): (s: Scan)
    ensures 0 <= s.cloud <= 100 && 0.0 <= s.docs <= 100.0 && 0.0 <= s.total <= 100.0
    ensures s.readme == 0.0 || s.readme == 25.0 || s.readme == 50.0 || s.readme == 75.0 || s.readme == 100.0
    ensures repo.readme.None? ==> s.readme == 0.0
  {
    var cloud := CloudScore(TotalHits(CloudKeywords, TextExtensions, repo.files));
    var readme := ReadmeScore(SectionsFound(ReadmeSections, repo.readme));
    var docs := DocScore(TotalMarkers(TextExtensions, repo.files));
    Scan(repo.name, cloud, readme, docs, Total(cloud, readme, docs), Suggestions(cloud, readme, docs))
  }

  /** `scan_repo`: the walk, the README check, the scores, the total and the suggestions. */
  method ScanRepo(repo: Repo) returns (scan: Scan)
    ensures scan == ScanOf(repo)
  {
    var hits, markers := CountFiles(CloudKeywords, TextExtensions, repo.files);
    var found := CountSections(ReadmeSections, repo.readme);
    var cloud := CloudScore(hits);
    var readme := ReadmeScore(found);
    var docs := DocScore(markers);
    var total := Total(cloud, readme, docs);
    var suggestions := BuildSuggestions(cloud, readme, docs);
    scan := Scan(repo.name, cloud, readme, docs, total, suggestions);
  }

  /** More files never lower the cloud or documentation score. */
  lemma ScoresMonotone(repo: Repo, more: seq<File>)
    ensures ScanOf(repo).cloud <= ScanOf(repo.(files := repo.files + more)).cloud
    ensures ScanOf(repo).docs <= ScanOf(repo.(files := repo.files + more)).docs
  {
    TotalsAdd(CloudKeywords, TextExtensions, repo.files, more);
  }

  // ---------------------------------------------------------------------------
  // The folder
  // ---------------------------------------------------------------------------

  function Scans(entries: seq<Entry>): (r: seq<Scan>)
    ensures |r| <= |entries|
  {
    if entries == [] then []
    else
      var e := entries[|entries| - 1];
      Scans(entries[..|entries| - 1]) + (if e.Directory? then [ScanOf(e.repo)] else [])
  }

  predicate IsDirectory(e: Entry) {
    e.Directory?
  }

  /** One scan per directory. */
  lemma {:induction false} ScansCounted(entries: seq<Entry>)
    ensures |Scans(entries)| == CountIf(entries, IsDirectory)
  {
    if entries != [] {
      var init := entries[..|entries| - 1];
      ScansCounted(init);
      FilterSnoc(init, entries[|entries| - 1], IsDirectory);
      assert init + [entries[|entries| - 1]] == entries;
    }
  }

  lemma ScansStep(entries: seq<Entry>, i: nat)
    requires i < |entries|
    ensures Scans(entries[..i + 1]) ==
      Scans(entries[..i]) + (if IsDirectory(entries[i]) then [ScanOf(entries[i].repo)] else [])
  {
    assert entries[..i + 1][..i] == entries[..i];
  }

  /** `scan_all_repos`: one scan per directory of the folder, in listing order. */
  method ScanAllRepos(entries: seq<Entry>) returns (results: seq<Scan>)
    ensures results == Scans(entries)
    ensures |results| == CountIf(entries, IsDirectory)
  {
    results := [];
    var i := 0;
    while i < |entries|
      invariant 0 <= i <= |entries|
      invariant results == Scans(entries[..i])
    {
      ScansStep(entries, i);
      if IsDirectory(entries[i]) {
        var scan := ScanRepo(entries[i].repo);
        results := results + [scan];
      }
      i := i + 1;
    }
    assert entries[..i] == entries;
    ScansCounted(entries);
  }
}
