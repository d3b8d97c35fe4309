/** The cloud portfolio scanner: scores each repository of a folder on README
    headings, cloud keywords in the README and commented scripts, fills empty
    scripts with a placeholder line, and gathers one result per repository. */
module CloudPortfolioScanner {
  import opened Wrappers
  import opened Seqs
  import opened Text
  import opened Fs

  const IgnoreNames: set<string> :=
    {"AWS Cloud Scripts", "CloudSnippets", "cloud_portfolio_report.json", "cloud_portfolio_report"}

  const AwsKeywords: set<string> :=
    {"aws", "ec2", "s3", "lambda", "iam", "cloudwatch", "terraform", "cdk", "boto3",
     "vpc", "rds", "autoscaling", "cloudformation"}

  const RequiredSections: seq<string> :=
    ["Overview", "Architecture", "Features", "Setup", "Usage", "Skills Demonstrated", "License"]

  const CodeSuffixes: seq<string> := [".py", ".sh", ".ps1"]

  const PlaceholderLine := "# Auto-filled placeholder\n"
  const CloudHint := "Increase AWS/cloud keywords and examples"
  const DocsHint := "Add docstrings and inline comments"

  datatype RepoType = PortfolioSite | ProfileRepo | CloudProject

  /** The kind of repository, told from its name alone. */
  function DetectRepoType(name: string): (t: RepoType)
    ensures t == PortfolioSite <==> EndsWith(name, ".github.io")
    ensures t == ProfileRepo <==> !EndsWith(name, ".github.io") && Lower(name) == "charles-bucher"
  {
    if EndsWith(name, ".github.io") then PortfolioSite
    else if Lower(name) == "charles-bucher" then ProfileRepo
    else CloudProject
  }

  // ---------------------------------------------------------------------------
  // README headings
  // ---------------------------------------------------------------------------

  /** `\s*` then `section`, ignoring ASCII case, starting at position `k` of `text`. */
  predicate SpacesThenSection(text: string, k: nat, section: string)
    decreases |text| - k
  {
    k <= |text| &&
    (Lower(section) <= Lower(text[k..]) ||
     (k < |text| && IsSpace(text[k]) && SpacesThenSection(text, k + 1, section)))
  }

  /** The search for `#+\s*<section>` with re.I succeeds: some `#` is followed by
      optional whitespace and the section name. (The last `#` of a run of `#`
      characters is the one the whitespace follows, so one `#` suffices.) */
  predicate HasHeading(text: string, section: string) {
    exists j | 0 <= j < |text| :: text[j] == '#' && SpacesThenSection(text, j + 1, section)
  }

  function HeadingIn(text: string): string -> bool {
    section => HasHeading(text, section)
  }

  function HeadingNotIn(text: string): string -> bool {
    section => !HasHeading(text, section)
  }

  /** The sections of `sections` the README has a heading for, in list order. */
  function FoundIn(sections: seq<string>, text: string): seq<string> {
    Filter(sections, HeadingIn(text))
  }

  /** The sections of `sections` the README lacks, in list order; an empty README lacks all. */
  function MissingIn(sections: seq<string>, text: string): seq<string> {
    if text == "" then sections else Filter(sections, HeadingNotIn(text))
  }

  /** `n` out of `d`, as a percentage. */
  function Percent(n: nat, d: nat): (p: real)
    requires 0 < d
    ensures n <= d ==> 0.0 <= p <= 100.0
    ensures p == 100.0 <==> n == d
    ensures p == 0.0 <==> n == 0
  {
    (n as real) / (d as real) * 100.0
  }

  function ScoreIn(sections: seq<string>, text: string): real
    requires sections != []
  {
    if text == "" then 0.0 else Percent(|FoundIn(sections, text)|, |sections|)
  }

  function MissingSections(text: string): seq<string> {
    MissingIn(RequiredSections, text)
  }

  function ReadmeScore(text: string): real {
    ScoreIn(RequiredSections, text)
  }

  /** The loop of `score_readme` that collects the sections with a heading. */
  method CollectFound(sections: seq<string>, text: string) returns (found: seq<string>)
    ensures found == FoundIn(sections, text)
  {
    found := [];
    var i := 0;
    while i < |sections|
      invariant 0 <= i <= |sections|
      invariant found == Filter(sections[..i], HeadingIn(text))
    {
      assert sections[..i + 1][..i] == sections[..i];
      if HasHeading(text, sections[i]) {
        found := found + [sections[i]];
      }
      i := i + 1;
    }
    assert sections[..i] == sections;
  }

  /** The comprehension of `score_readme`: the sections that are not in `found`. */
  method CollectMissing(sections: seq<string>, text: string, found: seq<string>) returns (missing: seq<string>)
    requires found == FoundIn(sections, text)
    ensures missing == Filter(sections, HeadingNotIn(text))
  {
    FilterMembers(sections, HeadingIn(text));
    missing := [];
    var i := 0;
    while i < |sections|
      invariant 0 <= i <= |sections|
      invariant missing == Filter(sections[..i], HeadingNotIn(text))
    {
      assert sections[..i + 1][..i] == sections[..i];
      var s := sections[i];
      assert s in found <==> HasHeading(text, s);
      if s !in found {
        missing := missing + [s];
      }
      i := i + 1;
    }
    assert sections[..i] == sections;
  }

  /** `score_readme`: the README score and the missing sections, in configured
      order; an empty README scores 0 with every section missing. */
  method ScoreReadme(text: string) returns (score: real, missing: seq<string>)
    ensures score == ReadmeScore(text)
    ensures missing == MissingSections(text)
    ensures text == "" ==> score == 0.0 && missing == RequiredSections
  {
    var sections := RequiredSections;
    if text == "" {
      return 0.0, sections;
    }
    var found := CollectFound(sections, text);
    score := Percent(|found|, |sections|);
    missing := CollectMissing(sections, text, found);
  }

  /** Found and missing sections split the required list between them. */
  lemma FoundMissingPartition(sections: seq<string>, text: string)
    requires text != ""
    ensures |FoundIn(sections, text)| + |MissingIn(sections, text)| == |sections|
    ensures forall s :: s in sections ==> (s in FoundIn(sections, text) <==> s !in MissingIn(sections, text))
  {
    FilterPartition(sections, HeadingIn(text), HeadingNotIn(text));
    FilterMembers(sections, HeadingIn(text));
    FilterMembers(sections, HeadingNotIn(text));
    forall s | s in sections ensures s in FoundIn(sections, text) <==> s !in MissingIn(sections, text) {
      var i :| 0 <= i < |sections| && sections[i] == s;
    }
  }

  /** The README score is 100 exactly when nothing is missing, and 0 exactly when
      every section is missing; it lies in [0, 100]. */
  lemma ScoreExtremes(sections: seq<string>, text: string)
    requires sections != []
    ensures ScoreIn(sections, text) == 100.0 <==> MissingIn(sections, text) == []
    ensures ScoreIn(sections, text) == 0.0 <==> MissingIn(sections, text) == sections
    ensures 0.0 <= ScoreIn(sections, text) <= 100.0
  {
    if text != "" {
      FilterPartition(sections, HeadingIn(text), HeadingNotIn(text));
      FilterAll(sections, HeadingNotIn(text));
      FilterMembers(sections, HeadingIn(text));
      if MissingIn(sections, text) == sections {
        FilterNone(sections, HeadingIn(text));
      }
    }
  }

  lemma ReadmeScoreExtremes(text: string)
    ensures ReadmeScore(text) == 100.0 <==> MissingSections(text) == []
    ensures ReadmeScore(text) == 0.0 <==> MissingSections(text) == RequiredSections
    ensures 0.0 <= ReadmeScore(text) <= 100.0
  {
    ScoreExtremes(RequiredSections, text);
  }

  /** With no text there is no heading, so the general rule agrees with the early return. */
  lemma EmptyReadmeMissesAll(sections: seq<string>)
    ensures Filter(sections, HeadingNotIn("")) == sections
  {
    FilterAll(sections, HeadingNotIn(""));
  }

  /** A `#` heading of any level and any letter case is found. */
  lemma HeadingFound(before: string, hashes: nat, spaces: string, title: string, after: string, section: string)
    requires forall i :: 0 <= i < |spaces| ==> IsSpace(spaces[i])
    requires Lower(title) == Lower(section)
    ensures HasHeading(before + seq(hashes + 1, _ => '#') + spaces + title + after, section)
  {
    var text := before + seq(hashes + 1, _ => '#') + spaces + title + after;
    var j := |before| + hashes;
    assert text[j] == '#';
    assert text[j + 1 + |spaces|..] == title + after;
    LowerAppend(title, after);
    assert SpacesThenSection(text, j + 1 + |spaces|, section);
    forall i | j + 1 <= i < j + 1 + |spaces| ensures IsSpace(text[i]) {
      assert text[i] == spaces[i - j - 1];
    }
    SkipSpaces(text, j + 1, |spaces|, section);
  }

  /** A run of whitespace in front of a match can be skipped. */
  lemma {:induction false} SkipSpaces(text: string, k: nat, n: nat, section: string)
    requires k + n <= |text|
    requires forall i :: k <= i < k + n ==> IsSpace(text[i])
    requires SpacesThenSection(text, k + n, section)
    ensures SpacesThenSection(text, k, section)
    decreases n
  {
    if n > 0 {
      SkipSpaces(text, k + 1, n - 1, section);
    }
  }

  // ---------------------------------------------------------------------------
  // Cloud relevance
  // ---------------------------------------------------------------------------

  /** Distinct keywords present in the lower-cased text. */
  function KeywordsIn(text: string): (ks: set<string>)
    ensures ks <= AwsKeywords
  {
    set kw | kw in AwsKeywords && Contains(Lower(text), kw)
  }

  /** `score_cloud_relevance`. */
  function CloudRelevance(text: string): (score: real)
    ensures 0.0 <= score <= 100.0
    ensures text == "" ==> score == 0.0
  {
    assert "aws" in AwsKeywords;
    SubsetCard(KeywordsIn(text), AwsKeywords);
    if text == "" then 0.0 else Percent(|KeywordsIn(text)|, |AwsKeywords|)
  }

  lemma SubsetCard(a: set<string>, b: set<string>)
    requires a <= b
    ensures |a| <= |b|
  {
    assert b == a + (b - a);
  }

  /** Appending text never lowers the cloud relevance. */
  lemma CloudRelevanceMonotone(text: string, more: string)
    ensures CloudRelevance(text) <= CloudRelevance(text + more)
  {
    if text != "" {
      KeywordsGrow(text, more);
      SubsetCard(KeywordsIn(text), KeywordsIn(text + more));
      PercentMonotone(|KeywordsIn(text)|, |KeywordsIn(text + more)|, |AwsKeywords|);
    }
  }

  /** Every keyword of a text is still there once more text follows it. */
  lemma KeywordsGrow(text: string, more: string)
    ensures KeywordsIn(text) <= KeywordsIn(text + more)
  {
    LowerAppend(text, more);
    forall kw | kw in KeywordsIn(text) ensures kw in KeywordsIn(text + more) {
      ContainsAppendLeft(Lower(text), Lower(more), kw);
    }
  }

  lemma PercentMonotone(a: nat, b: nat, d: nat)
    requires 0 < d && a <= b
    ensures Percent(a, d) <= Percent(b, d)
  {
    assert (a as real) / (d as real) <= (b as real) / (d as real);
  }

  lemma KeywordsSpaceFree()
    ensures forall kw :: kw in AwsKeywords ==> ' ' !in kw
  {
  }

  /** A word without spaces occurs in `l + " " + l` exactly when it occurs in `l`. */
  lemma ContainsDoubled(l: string, kw: string)
    requires ' ' !in kw
    ensures Contains(l + [' '] + l, kw) <==> Contains(l, kw)
  {
    if Contains(l + [' '] + l, kw) {
      ContainsAcrossSeparator(l, ' ', l, kw);
    }
    if Contains(l, kw) {
      ContainsAppendLeft(l, [' '] + l, kw);
      assert l + [' '] + l == l + ([' '] + l);
    }
  }

  /** Only distinct keywords count: repeating the text after a space leaves the score unchanged. */
  lemma CloudRelevanceRepetition(text: string)
    ensures CloudRelevance(text + " " + text) == CloudRelevance(text)
  {
    if text != "" {
      var l := Lower(text);
      LowerAppend(text + " ", text);
      LowerAppend(text, " ");
      assert Lower(" ") == " ";
      assert Lower(text + " " + text) == l + [' '] + l;
      KeywordsSpaceFree();
      forall kw | kw in AwsKeywords
        ensures Contains(l + [' '] + l, kw) <==> Contains(l, kw)
      {
        ContainsDoubled(l, kw);
      }
      assert KeywordsIn(text + " " + text) == KeywordsIn(text);
    }
  }

  // ---------------------------------------------------------------------------
  // Documentation and empty scripts
  // ---------------------------------------------------------------------------

  predicate IsCode(f: File) {
    EndsWithAny(f.name, CodeSuffixes)
  }

  /** A script counts as documented when its text holds `"""` or `#`. */
  predicate IsDocumentedCode(f: File) {
    IsCode(f) && (Contains(SafeRead(f), "\"\"\"") || Contains(SafeRead(f), "#"))
  }

  function DocScore(files: seq<File>): real {
    var total := CountIf(files, IsCode);
    if total == 0 then 0.0 else Percent(CountIf(files, IsDocumentedCode), total)
  }

  /** `score_documentation`: the share of scripts that are documented, 0 without scripts. */
  method ScoreDocumentation(files: seq<File>) returns (score: real)
    ensures score == DocScore(files)
    ensures 0.0 <= score <= 100.0
    ensures CountIf(files, IsCode) == 0 ==> score == 0.0
  {
    var total := 0;
    var documented := 0;
    var i := 0;
    while i < |files|
      invariant 0 <= i <= |files|
      invariant total == CountIf(files[..i], IsCode)
      invariant documented == CountIf(files[..i], IsDocumentedCode)
    {
      assert files[..i + 1][..i] == files[..i];
      var f := files[i];
      if EndsWithAny(f.name, CodeSuffixes) {
        total := total + 1;
        var content := SafeRead(f);
        if Contains(content, "\"\"\"") || Contains(content, "#") {
          documented := documented + 1;
        }
      }
      i := i + 1;
    }
    assert files[..i] == files;
    FilterWeaker(files, IsDocumentedCode, IsCode);
    if total == 0 {
      return 0.0;
    }
    score := Percent(documented, total);
  }

  lemma DocScoreInRange(files: seq<File>)
    ensures 0.0 <= DocScore(files) <= 100.0
  {
    FilterWeaker(files, IsDocumentedCode, IsCode);
  }

  predicate IsEmptyCode(f: File) {
    IsCode(f) && f.content == Some("")
  }

  function FillEmpty(f: File): File {
    if IsEmptyCode(f) then f.(content := Some(PlaceholderLine)) else f
  }

  /** `auto_fix_empty_files`: every empty script gets the placeholder line, and
      the names of the filled scripts are returned in walk order. */
  method AutoFixEmptyFiles(files: seq<File>) returns (after: seq<File>, fixes: seq<string>)
    ensures after == Map(files, FillEmpty)
    ensures fixes == Names(Filter(files, IsEmptyCode))
  {
    after := [];
    fixes := [];
    var i := 0;
    while i < |files|
      invariant 0 <= i <= |files|
      invariant after == Map(files[..i], FillEmpty)
      invariant fixes == Names(Filter(files[..i], IsEmptyCode))
    {
      assert files[..i + 1][..i] == files[..i];
      var f := files[i];
      if EndsWithAny(f.name, CodeSuffixes) && f.content == Some("") {
        after := after + [f.(content := Some(PlaceholderLine))];
        fixes := fixes + [f.name];
      } else {
        after := after + [f];
      }
      i := i + 1;
    }
    assert files[..i] == files;
  }

  /** After the fix no empty script is left, so a second run fills nothing. */
  lemma AutoFixIdempotent(files: seq<File>)
    ensures Filter(Map(files, FillEmpty), IsEmptyCode) == []
    ensures Map(Map(files, FillEmpty), FillEmpty) == Map(files, FillEmpty)
  {
    var after := Map(files, FillEmpty);
    forall i | 0 <= i < |after| ensures !IsEmptyCode(after[i]) {
      assert PlaceholderLine != "";
    }
    FilterNone(after, IsEmptyCode);
  }

  // ---------------------------------------------------------------------------
  // Per-repository result and the scan of the folder
  // ---------------------------------------------------------------------------

  function Total(readme: real, cloud: real, docs: real): (t: real)
    requires 0.0 <= readme <= 100.0 && 0.0 <= cloud <= 100.0 && 0.0 <= docs <= 100.0
    ensures 0.0 <= t <= 100.0
    ensures t == 100.0 <==> readme == 100.0 && cloud == 100.0 && docs == 100.0
  {
    readme * 0.4 + cloud * 0.3 + docs * 0.3
  }

  function AddSection(section: string): string {
    "Add README section: " + section
  }

  function AutoFilled(name: string): string {
    "Auto-filled empty file: " + name
  }

  function Suggestions(missing: seq<string>, cloud: real, docs: real, fixes: seq<string>): seq<string> {
    Map(missing, AddSection)
    + (if cloud < 50.0 then [CloudHint] else [])
    + (if docs < 50.0 then [DocsHint] else [])
    + Map(fixes, AutoFilled)
  }

  /** The suggestion list: one entry per missing section, in order, the cloud
      hint when the cloud score is under 50, the documentation hint when the
      documentation score is under 50, then one entry per filled file. */
  method BuildSuggestions(missing: seq<string>, cloud: real, docs: real, fixes: seq<string>)
    returns (suggestions: seq<string>)
    ensures suggestions == Suggestions(missing, cloud, docs, fixes)
    ensures |suggestions| == |missing| + |fixes| + (if cloud < 50.0 then 1 else 0) + (if docs < 50.0 then 1 else 0)
    ensures forall i :: 0 <= i < |missing| ==> suggestions[i] == "Add README section: " + missing[i]
  {
    suggestions := [];
    var i := 0;
    while i < |missing|
      invariant 0 <= i <= |missing|
      invariant suggestions == Map(missing[..i], AddSection)
    {
      assert missing[..i + 1][..i] == missing[..i];
      suggestions := suggestions + ["Add README section: " + missing[i]];
      i := i + 1;
    }
    assert missing[..i] == missing;
    if cloud < 50.0 {
      suggestions := suggestions + [CloudHint];
    }
    if docs < 50.0 {
      suggestions := suggestions + [DocsHint];
    }
    ghost var head := suggestions;
    i := 0;
    while i < |fixes|
      invariant 0 <= i <= |fixes|
      invariant suggestions == head + Map(fixes[..i], AutoFilled)
    {
      assert fixes[..i + 1][..i] == fixes[..i];
      suggestions := suggestions + ["Auto-filled empty file: " + fixes[i]];
      i := i + 1;
    }
    assert fixes[..i] == fixes;
  }

  /** The cloud hint is present exactly when the cloud score is under 50. */
  lemma CloudHintIff(missing: seq<string>, cloud: real, docs: real, fixes: seq<string>)
    ensures CloudHint in Suggestions(missing, cloud, docs, fixes) <==> cloud < 50.0
  {
    var s := Suggestions(missing, cloud, docs, fixes);
    var n := |missing| + (if cloud < 50.0 then 1 else 0) + (if docs < 50.0 then 1 else 0);
    assert CloudHint[0] == 'I' && DocsHint[0] == 'A';
    assert forall k :: 0 <= k < |missing| ==> s[k][0] == 'A';
    assert forall k :: n <= k < |s| ==> s[k][0] == 'A';
    if cloud < 50.0 {
      assert s[|missing|] == CloudHint;
    }
  }

  datatype ScanResult = ScanResult(
    repoType: RepoType,
    readmeScore: real,
    cloudScore: real,
    docScore: real,
    totalScore: real,
    suggestions: seq<string>)

  /** The result the scan of one repository records. */
  function RepoResult(repo: Repo): ScanResult {
    var text := repo.readme.GetOr("");
    var readme := ReadmeScore(text);
    var cloud := CloudRelevance(text);
    var docs := DocScore(repo.files);
    ReadmeScoreExtremes(text);
    DocScoreInRange(repo.files);
    ScanResult(
      DetectRepoType(repo.name), readme, cloud, docs, Total(readme, cloud, docs),
      Suggestions(MissingSections(text), cloud, docs, Names(Filter(repo.files, IsEmptyCode))))
  }

  /** The repository after its empty scripts were filled. */
  function RepoFixed(repo: Repo): Repo {
    repo.(files := Map(repo.files, FillEmpty))
  }

  /** One repository: read the README (absent reads as empty), score it, score
      the scripts, fill the empty ones, and assemble the result. */
  method ScanRepo(repo: Repo) returns (result: ScanResult, fixed: Repo)
    ensures result == RepoResult(repo)
    ensures fixed == RepoFixed(repo)
    ensures 0.0 <= result.totalScore <= 100.0
  {
    var text := repo.readme.GetOr("");
    var readmeScore, missing := ScoreReadme(text);
    var cloudScore := CloudRelevance(text);
    var docScore := ScoreDocumentation(repo.files);
    var files, fixes := AutoFixEmptyFiles(repo.files);
    ReadmeScoreExtremes(text);
    var total := Total(readmeScore, cloudScore, docScore);
    var suggestions := BuildSuggestions(missing, cloudScore, docScore, fixes);
    result := ScanResult(DetectRepoType(repo.name), readmeScore, cloudScore, docScore, total, suggestions);
    fixed := repo.(files := files);
  }

  /** Names in the ignore set and hidden names are skipped (and counted as skipped). */
  predicate IsIgnored(e: Entry) {
    e.Name() in IgnoreNames || "." <= e.Name()
  }

  /** Entries that are scanned: not ignored, and directories. */
  predicate IsScanned(e: Entry) {
    !IsIgnored(e) && e.Directory?
  }

  /** The report, entry by entry; a later entry with the same name replaces an earlier one. */
  function Results(entries: seq<Entry>): map<string, ScanResult> {
    if entries == [] then map[]
    else
      var e := entries[|entries| - 1];
      var earlier := Results(entries[..|entries| - 1]);
      if IsScanned(e) then earlier[e.Name() := RepoResult(e.repo)] else earlier
  }

  function EntryAfter(e: Entry): Entry {
    if IsScanned(e) then Directory(RepoFixed(e.repo)) else e
  }

  /** The top-level scan: skipped and scanned counts, the report keyed by
      repository name, and the folder after the empty-script fixes. */
  method ScanRoot(entries: seq<Entry>)
    returns (results: map<string, ScanResult>, scanned: nat, skipped: nat, after: seq<Entry>)
    ensures results == Results(entries)
    ensures skipped == CountIf(entries, IsIgnored)
    ensures scanned == CountIf(entries, IsScanned)
    ensures scanned + skipped <= |entries|
    ensures after == Map(entries, EntryAfter)
  {
    results := map[];
    scanned, skipped := 0, 0;
    after := [];
    var i := 0;
    while i < |entries|
      invariant 0 <= i <= |entries|
      invariant results == Results(entries[..i])
      invariant skipped == CountIf(entries[..i], IsIgnored)
      invariant scanned == CountIf(entries[..i], IsScanned)
      invariant after == Map(entries[..i], EntryAfter)
    {
      assert entries[..i + 1][..i] == entries[..i];
      var e := entries[i];
      if IsIgnored(e) {
        skipped := skipped + 1;
        after := after + [e];
      } else if e.Plain? {
        after := after + [e];
      } else {
        scanned := scanned + 1;
        var result, fixed := ScanRepo(e.repo);
        results := results[e.Name() := result];
        after := after + [Directory(fixed)];
      }
      i := i + 1;
    }
    assert entries[..i] == entries;
    ScannedSkippedDisjoint(entries);
  }

  /** Every scanned result has its total score in [0, 100]. */
  lemma {:induction false} ResultsTotalsInRange(entries: seq<Entry>)
    ensures forall n :: n in Results(entries) ==> 0.0 <= Results(entries)[n].totalScore <= 100.0
  {
    if entries != [] {
      ResultsTotalsInRange(entries[..|entries| - 1]);
    }
  }

  /** The report has exactly one key per scanned name. */
  lemma {:induction false} ResultsKeys(entries: seq<Entry>)
    ensures Results(entries).Keys == set i | 0 <= i < |entries| && IsScanned(entries[i]) :: entries[i].Name()
  {
    if entries != [] {
      var init := entries[..|entries| - 1];
      ResultsKeys(init);
      var e := entries[|entries| - 1];
      var lhs := Results(entries).Keys;
      var rhs := set i | 0 <= i < |entries| && IsScanned(entries[i]) :: entries[i].Name();
      forall n | n in rhs ensures n in lhs {
        var i :| 0 <= i < |entries| && IsScanned(entries[i]) && entries[i].Name() == n;
        if i < |init| {
          assert init[i] == entries[i];
        }
      }
      forall n | n in lhs ensures n in rhs {
        if !(IsScanned(e) && n == e.Name()) {
          var i :| 0 <= i < |init| && IsScanned(init[i]) && init[i].Name() == n;
          assert entries[i] == init[i];
        }
      }
    }
  }

  lemma ScannedSkippedDisjoint(entries: seq<Entry>)
    ensures CountIf(entries, IsScanned) + CountIf(entries, IsIgnored) <= |entries|
  {
    FilterWeaker(entries, IsScanned, (e: Entry) => !IsIgnored(e));
    FilterPartition(entries, IsIgnored, (e: Entry) => !IsIgnored(e));
  }
}
