/** The repository scanner and auto-fixer: creates the missing required files
    and folders, appends stub sections to the README, flags files whose names
    look sensitive, and turns the issue counts into a quality score and band. */
module RepoAutofixer {
  import opened Wrappers
  import opened Seqs
  import opened Text
  import opened Fs

  const RequiredFiles: seq<string> := ["LICENSE"]
  const RequiredFolders: seq<string> := ["scripts", "docs", "tests"]
  const RequiredSections: seq<string> := ["Overview", "Deployment", "Tech Stack", "Architecture"]
  const SensitivePatterns: seq<string> :=
    [".env", "conftest_safe.py", "credentials", "secrets", "api_key", "private_key", ".pem", ".key"]
  const SkipDirs: set<string> := {".git", "node_modules", "venv", "__pycache__", ".vscode", ".idea"}
  const ScanLimit := 10

  // ---------------------------------------------------------------------------
  // Required files and folders
  // ---------------------------------------------------------------------------

  /** The names of `names` that do not exist yet when the loop reaches them:
      one created earlier in the same loop exists by then. */
  function Created(names: seq<string>, present: set<string>): (r: seq<string>)
    ensures |r| <= |names|
    ensures forall k :: 0 <= k < |r| ==> r[k] in names && r[k] !in present
  {
    if names == [] then []
    else
      var init := names[..|names| - 1];
      var name := names[|names| - 1];
      Created(init, present) + (if name !in present && name !in init then [name] else [])
  }

  /** Everything that exists once the loop has created what was missing. */
  function Ensured(names: seq<string>, present: set<string>): (r: set<string>)
    ensures present <= r
  {
    if names == [] then present else Ensured(names[..|names| - 1], present) + {names[|names| - 1]}
  }

  lemma {:induction false} EnsuredHas(names: seq<string>, present: set<string>, k: nat)
    requires k < |names|
    ensures names[k] in Ensured(names, present)
  {
    if k < |names| - 1 {
      EnsuredHas(names[..|names| - 1], present, k);
    }
  }

  /** A name exists after the loop exactly when it existed before or is in the list. */
  lemma {:induction false} EnsuredIff(names: seq<string>, present: set<string>, n: string)
    ensures n in Ensured(names, present) <==> n in present || n in names
  {
    if names != [] {
      var init := names[..|names| - 1];
      EnsuredIff(init, present, n);
      assert names == init + [names[|names| - 1]];
    }
  }

  lemma {:induction false} CreatedNone(names: seq<string>, present: set<string>)
    requires forall k :: 0 <= k < |names| ==> names[k] in present
    ensures Created(names, present) == []
  {
    if names != [] {
      CreatedNone(names[..|names| - 1], present);
    }
  }

  function MissingMessage(kind: string, name: string): string {
    "Missing required " + kind + ": " + name
  }

  function Report(kind: string, names: seq<string>): (r: seq<string>)
    ensures |r| == |names|
    ensures forall k :: 0 <= k < |names| ==> r[k] == MissingMessage(kind, names[k])
  {
    if names == [] then [] else Report(kind, names[..|names| - 1]) + [MissingMessage(kind, names[|names| - 1])]
  }

  lemma ReportSnoc(kind: string, names: seq<string>, n: string)
    ensures Report(kind, names + [n]) == Report(kind, names) + [MissingMessage(kind, n)]
  {
    assert (names + [n])[..|names|] == names;
  }

  /** One loop of `check_structure`: report and create every name of `names`
      that does not exist, in list order. */
  method EnsureAll(kind: string, names: seq<string>, present: set<string>)
    returns (issues: seq<string>, after: set<string>)
    ensures issues == Report(kind, Created(names, present))
    ensures after == Ensured(names, present)
  {
    issues := [];
    after := present;
    var i := 0;
    while i < |names|
      invariant 0 <= i <= |names|
      invariant issues == Report(kind, Created(names[..i], present))
      invariant after == Ensured(names[..i], present)
    {
      assert names[..i + 1][..i] == names[..i];
      EnsuredIff(names[..i], present, names[i]);
      if names[i] !in after {
        ReportSnoc(kind, Created(names[..i], present), names[i]);
        issues := issues + [MissingMessage(kind, names[i])];
      }
      after := after + {names[i]};
      i := i + 1;
    }
    assert names[..i] == names;
  }

  /** Once the loop ran, every name exists, so a second run creates nothing. */
  lemma {:induction false} EnsureSettles(names: seq<string>, present: set<string>)
    ensures forall k :: 0 <= k < |names| ==> names[k] in Ensured(names, present)
    ensures Created(names, Ensured(names, present)) == []
  {
    forall k | 0 <= k < |names| ensures names[k] in Ensured(names, present) {
      EnsuredHas(names, present, k);
    }
    CreatedNone(names, Ensured(names, present));
  }

  /** A name is created exactly when it did not exist and is not a repeat. */
  lemma {:induction false} CreatedIff(names: seq<string>, present: set<string>, k: nat)
    requires k < |names|
    ensures names[k] in Created(names, present) <==> names[k] !in present
  {
    var init := names[..|names| - 1];
    if k < |names| - 1 {
      CreatedIff(init, present, k);
      assert names[k] == init[k];
    } else if names[k] !in present && names[k] in init {
      var j :| 0 <= j < |init| && init[j] == names[k];
      CreatedIff(init, present, j);
    }
  }

  datatype Layout = Layout(files: set<string>, dirs: set<string>)

  /** The issues of `check_structure`: missing files first, then missing folders. */
  function StructureIssues(layout: Layout): seq<string> {
    var present := layout.files + layout.dirs;
    Report("file", Created(RequiredFiles, present))
    + Report("folder", Created(RequiredFolders, Ensured(RequiredFiles, present)))
  }

  /** The layout once the missing files were touched and the missing folders made. */
  function FixedLayout(layout: Layout): Layout {
    var present := layout.files + layout.dirs;
    Layout(layout.files + (set n | n in Created(RequiredFiles, present)),
           layout.dirs + (set n | n in Created(RequiredFolders, Ensured(RequiredFiles, present))))
  }

  /** `check_structure`. */
  method CheckStructure(layout: Layout) returns (issues: seq<string>, fixed: Layout)
    ensures issues == StructureIssues(layout)
    ensures fixed == FixedLayout(layout)
  {
    var present := layout.files + layout.dirs;
    var fileIssues, afterFiles := EnsureAll("file", RequiredFiles, present);
    var folderIssues, afterFolders := EnsureAll("folder", RequiredFolders, afterFiles);
    issues := fileIssues + folderIssues;
    fixed := Layout(layout.files + (set n | n in Created(RequiredFiles, present)),
                    layout.dirs + (set n | n in Created(RequiredFolders, afterFiles)));
  }

  // ---------------------------------------------------------------------------
  // README sections
  // ---------------------------------------------------------------------------

  function Stub(section: string): string {
    "\n## " + section + "\n\nContent to be added.\n"
  }

  function SectionName(section: string): string {
    section
  }

  /** The README text after the loop over `sections`: each section that is not
      (case-sensitively) in the text so far gets its stub appended. */
  function Patched(start: string, sections: seq<string>): (r: string)
    ensures start <= r
  {
    AppendMissing(start, sections, SectionName, Stub)
  }

  /** The sections reported missing, in list order. */
  function MissingSections(start: string, sections: seq<string>): (r: seq<string>)
    ensures |r| <= |sections|
  {
    if sections == [] then []
    else
      var init := sections[..|sections| - 1];
      var section := sections[|sections| - 1];
      MissingSections(start, init) + (if Contains(Patched(start, init), section) then [] else [section])
  }

  /** The text the loop starts from: the README, or a title line when there is none. */
  function StartText(name: string, readme: Option<string>): string {
    if readme.Some? then readme.value else "# " + name + "\n\n"
  }

  /** The README afterwards: rewritten when a section was missing; a README
      that did not exist is at least created empty. */
  function ReadmeAfter(name: string, readme: Option<string>, sections: seq<string>): Option<string> {
    var start := StartText(name, readme);
    if MissingSections(start, sections) != [] then Some(Patched(start, sections))
    else if readme.None? then Some("")
    else readme
  }

  /** `check_readme`: the missing sections in order, and the README afterwards. */
  method CheckReadme(name: string, readme: Option<string>, sections: seq<string>)
    returns (missing: seq<string>, after: Option<string>)
    ensures missing == MissingSections(StartText(name, readme), sections)
    ensures after == ReadmeAfter(name, readme, sections)
  {
    var content: string;
    if readme.None? {
      content := "# " + name + "\n\n";
    } else {
      content := readme.value;
    }
    ghost var start := content;
    missing := [];
    var i := 0;
    while i < |sections|
      invariant 0 <= i <= |sections|
      invariant content == Patched(start, sections[..i])
      invariant missing == MissingSections(start, sections[..i])
    {
      assert sections[..i + 1][..i] == sections[..i];
      if !Contains(content, sections[i]) {
        missing := missing + [sections[i]];
        content := content + Stub(sections[i]);
      }
      i := i + 1;
    }
    assert sections[..i] == sections;
    if missing != [] {
      after := Some(content);
    } else if readme.None? {
      after := Some("");
    } else {
      after := readme;
    }
  }

  /** Every section is in the patched README. */
  lemma PatchedHasAll(start: string, sections: seq<string>)
    ensures forall k :: 0 <= k < |sections| ==> Contains(Patched(start, sections), sections[k])
  {
    forall k | 0 <= k < |sections| ensures Contains(Stub(sections[k]), SectionName(sections[k])) {
      ContainsAt(Stub(sections[k]), sections[k], 4);
    }
    AppendMissingHasAll(start, sections, SectionName, Stub);
  }

  /** Nothing is missing exactly when the text is left as it was. */
  lemma {:induction false} MissingIffChanged(start: string, sections: seq<string>)
    ensures MissingSections(start, sections) == [] <==> Patched(start, sections) == start
  {
    if sections != [] {
      var init := sections[..|sections| - 1];
      MissingIffChanged(start, init);
      var before := Patched(start, init);
      if !Contains(before, sections[|sections| - 1]) {
        assert |Patched(start, sections)| > |before| >= |start|;
      }
    }
  }

  /** With every section present nothing is missing and nothing is appended. */
  lemma {:induction false} NothingToPatch(text: string, sections: seq<string>)
    requires forall k :: 0 <= k < |sections| ==> Contains(text, sections[k])
    ensures Patched(text, sections) == text
    ensures MissingSections(text, sections) == []
  {
    if sections != [] {
      NothingToPatch(text, sections[..|sections| - 1]);
    }
  }

  /** A second run on the patched README reports nothing and writes nothing. */
  lemma ReadmeSettles(name: string, readme: Option<string>, sections: seq<string>)
    requires ReadmeAfter(name, readme, sections) != Some("")
    ensures MissingSections(StartText(name, ReadmeAfter(name, readme, sections)), sections) == []
    ensures ReadmeAfter(name, ReadmeAfter(name, readme, sections), sections) == ReadmeAfter(name, readme, sections)
  {
    var start := StartText(name, readme);
    var after := ReadmeAfter(name, readme, sections);
    if MissingSections(start, sections) != [] {
      PatchedHasAll(start, sections);
      NothingToPatch(Patched(start, sections), sections);
    } else {
      MissingIffChanged(start, sections);
      PatchedHasAll(start, sections);
      NothingToPatch(start, sections);
    }
  }

  // ---------------------------------------------------------------------------
  // Sensitive file names
  // ---------------------------------------------------------------------------

  /** A file is flagged when its lower-cased name contains one of the patterns. */
  predicate Sensitive(patterns: seq<string>, f: File) {
    exists k | 0 <= k < |patterns| :: Contains(Lower(f.name), patterns[k])
  }

  /** The paths of the flagged files, one entry per file, in walk order. */
  function SensitivePaths(patterns: seq<string>, files: seq<File>): (r: seq<string>)
    ensures |r| <= |files|
  {
    if files == [] then []
    else
      var f := files[|files| - 1];
      SensitivePaths(patterns, files[..|files| - 1]) + (if Sensitive(patterns, f) then [f.path] else [])
  }

  /** The inner loop of `scan_secrets`: the first pattern the name contains, or `|patterns|`. */
  method FirstMatch(patterns: seq<string>, name: string) returns (j: nat)
    ensures j <= |patterns|
    ensures forall k :: 0 <= k < j ==> !Contains(name, patterns[k])
    ensures j < |patterns| ==> Contains(name, patterns[j])
  {
    j := 0;
    while j < |patterns| && !Contains(name, patterns[j])
      invariant j <= |patterns|
      invariant forall k :: 0 <= k < j ==> !Contains(name, patterns[k])
    {
      j := j + 1;
    }
  }

  /** `scan_secrets`: the walk, stopping at the first pattern that matches each name. */
  method ScanSecrets(patterns: seq<string>, files: seq<File>) returns (secrets: seq<string>)
    ensures secrets == SensitivePaths(patterns, files)
  {
    secrets := [];
    var i := 0;
    while i < |files|
      invariant 0 <= i <= |files|
      invariant secrets == SensitivePaths(patterns, files[..i])
    {
      assert files[..i + 1][..i] == files[..i];
      var j := FirstMatch(patterns, Lower(files[i].name));
      if j < |patterns| {
        secrets := secrets + [files[i].path];
      }
      i := i + 1;
    }
    assert files[..i] == files;
  }

  /** The files the fixer itself creates are never flagged. */
  lemma LicenseNotSensitive()
    ensures !Sensitive(SensitivePatterns, File("LICENSE", "LICENSE", Some("")))
  {
    assert Lower("LICENSE") == "license";
    LicensePatternsAbsent();
  }

  lemma LicensePatternsAbsent()
    ensures forall k :: 0 <= k < |SensitivePatterns| ==> !Contains("license", SensitivePatterns[k])
  {
    var license := "license";
    forall k | 0 <= k < |SensitivePatterns| ensures !Contains(license, SensitivePatterns[k]) {
      if k == 0 {
        NotContainsChar(license, ".env", 0);
      } else if k == 1 {
        NotContainsChar(license, "conftest_safe.py", 8);
      } else if k == 2 {
        NotContainsChar(license, "credentials", 1);
      } else if k == 3 {
        NotContainsChar(license, "secrets", 3);
      } else if k == 4 {
        NotContainsChar(license, "api_key", 3);
      } else if k == 5 {
        NotContainsChar(license, "private_key", 7);
      } else if k == 6 {
        NotContainsChar(license, ".pem", 0);
      } else {
        NotContainsChar(license, ".key", 0);
      }
    }
  }

  lemma ReadmeNotSensitive()
    ensures !Sensitive(SensitivePatterns, File("README.md", "README.md", Some("")))
  {
    assert Lower("README.md") == "readme.md";
    ReadmePatternsAbsent();
  }

  lemma ReadmePatternsAbsent()
    ensures forall k :: 0 <= k < |SensitivePatterns| ==> !Contains("readme.md", SensitivePatterns[k])
  {
    var readme := "readme.md";
    forall k | 0 <= k < |SensitivePatterns| ensures !Contains(readme, SensitivePatterns[k]) {
      if k == 0 {
        NotContainsChar(readme, ".env", 2);
      } else if k == 1 {
        NotContainsChar(readme, "conftest_safe.py", 0);
      } else if k == 2 {
        NotContainsChar(readme, "credentials", 0);
      } else if k == 3 {
        NotContainsChar(readme, "secrets", 0);
      } else if k == 4 {
        NotContainsChar(readme, "api_key", 1);
      } else if k == 5 {
        NotContainsChar(readme, "private_key", 0);
      } else if k == 6 {
        NotContainsChar(readme, ".pem", 1);
      } else {
        NotContainsChar(readme, ".key", 1);
      }
    }
  }

  // ---------------------------------------------------------------------------
  // Score
  // ---------------------------------------------------------------------------

  /** The score rule: 2 points per lint line up to 30 when there is lint
      output, 5 points per structure issue, README issue and flagged file,
      never below 0. */
  function Hireability(lintLines: nat, structure: nat, readme: nat, secrets: nat): (score: int)
    ensures 0 <= score <= 100
    ensures score == 100 <==> lintLines == 0 && structure == 0 && readme == 0 && secrets == 0
  {
    var lint := if 2 * lintLines < 30 then 2 * lintLines else 30;
    var s := 100 - lint - 5 * structure - 5 * readme - 5 * secrets;
    if s > 0 then s else 0
  }

  /** `calculate_hireability`, step by step; `lintLines` is the number of lines
      of the lint output, 0 when it is empty. */
  method CalculateHireability(lintLines: nat, structure: nat, readme: nat, secrets: nat) returns (score: int)
    ensures score == Hireability(lintLines, structure, readme, secrets)
  {
    score := 100;
    if lintLines > 0 {
      score := score - (if lintLines * 2 < 30 then lintLines * 2 else 30);
    }
    score := score - structure * 5;
    score := score - readme * 5;
    score := score - secrets * 5;
    score := if score > 0 then score else 0;
  }

  /** More issues of any kind never raise the score. */
  lemma HireabilityMonotone(l: nat, s: nat, r: nat, k: nat, l': nat, s': nat, r': nat, k': nat)
    requires l <= l' && s <= s' && r <= r' && k <= k'
    ensures Hireability(l', s', r', k') <= Hireability(l, s, r, k)
  {
  }

  /** Lint alone can never take more than 30 points. */
  lemma LintCapped(l: nat)
    ensures Hireability(l, 0, 0, 0) >= 70
  {
  }

  datatype Band = Excellent | Good | Fair | NeedsWork

  function BandOf(score: int): (b: Band)
    ensures b == Excellent <==> score >= 90
    ensures b == Good <==> 70 <= score < 90
    ensures b == Fair <==> 50 <= score < 70
    ensures b == NeedsWork <==> score < 50
  {
    if score >= 90 then Excellent else if score >= 70 then Good else if score >= 50 then Fair else NeedsWork
  }

  // ---------------------------------------------------------------------------
  // One repository and the folder
  // ---------------------------------------------------------------------------

  predicate IsSkipped(name: string) {
    "." <= name || name in SkipDirs
  }

  datatype Outcome = Outcome(
    structureIssues: seq<string>,
    readmeIssues: seq<string>,
    secrets: seq<string>,
    score: int,
    band: Band)

  /** What `process_repo` finds in a repository that is not skipped. */
  function OutcomeOf(repo: Repo, lintLines: nat): Outcome {
    var layout := Layout(repo.topFiles, repo.topDirs);
    var structure := StructureIssues(layout);
    var missing := MissingSections(StartText(repo.name, repo.readme), RequiredSections);
    var secrets := SensitivePaths(SensitivePatterns, repo.files);
    var score := Hireability(lintLines, |structure|, |missing|, |secrets|);
    Outcome(structure, missing, secrets, score, BandOf(score))
  }

  /** The repository once `process_repo` created the missing entries and patched the README. */
  function FixedRepo(repo: Repo): Repo {
    var layout := FixedLayout(Layout(repo.topFiles, repo.topDirs));
    repo.(readme := ReadmeAfter(repo.name, repo.readme, RequiredSections),
          topFiles := layout.files + {"README.md"}, topDirs := layout.dirs)
  }

  /** `process_repo`: skip hidden and tool folders; otherwise fix the layout,
      patch the README, scan for sensitive names and score. The formatter and
      the linter are outside the model; `lintLines` is what the linter printed. */
  method ProcessRepo(repo: Repo, lintLines: nat) returns (outcome: Option<Outcome>, after: Repo)
    ensures IsSkipped(repo.name) ==> outcome == None && after == repo
    ensures !IsSkipped(repo.name) ==> outcome == Some(OutcomeOf(repo, lintLines)) && after == FixedRepo(repo)
  {
    if "." <= repo.name || repo.name in SkipDirs {
      return None, repo;
    }
    var structure, layout := CheckStructure(Layout(repo.topFiles, repo.topDirs));
    var missing, readme := CheckReadme(repo.name, repo.readme, RequiredSections);
    var secrets := ScanSecrets(SensitivePatterns, repo.files);
    var score := CalculateHireability(lintLines, |structure|, |missing|, |secrets|);
    outcome := Some(Outcome(structure, missing, secrets, score, BandOf(score)));
    after := repo.(readme := readme, topFiles := layout.files + {"README.md"}, topDirs := layout.dirs);
  }

  /** A directory is scanned when it holds `.git` or is among the first ten directories met. */
  predicate HasGit(repo: Repo) {
    ".git" in repo.topFiles || ".git" in repo.topDirs
  }

  predicate IsDirectoryEntry(x: Entry) {
    x.Directory?
  }

  /** The rule of `main` for the entry at `j`: a directory that holds `.git`,
      or one of the first `limit` directories, itself counted. */
  predicate Chosen(entries: seq<Entry>, limit: nat, j: nat)
    requires j < |entries|
  {
    entries[j].Directory? && (HasGit(entries[j].repo) || CountIf(entries[..j + 1], IsDirectoryEntry) <= limit)
  }

  /** The repositories `main` hands to `process_repo`, in listing order. */
  function ScanSelection(entries: seq<Entry>, limit: nat): (r: seq<Repo>)
    ensures |r| <= |entries|
  {
    if entries == [] then []
    else
      var e := entries[|entries| - 1];
      var found := CountIf(entries, IsDirectoryEntry);
      ScanSelection(entries[..|entries| - 1], limit)
      + (if e.Directory? && (HasGit(e.repo) || found <= limit) then [e.repo] else [])
  }

  /** The counting loop of `main`. */
  method SelectRepos(entries: seq<Entry>, limit: nat) returns (found: nat, selected: seq<Repo>)
    ensures found == CountIf(entries, IsDirectoryEntry)
    ensures selected == ScanSelection(entries, limit)
  {
    found := 0;
    selected := [];
    var i := 0;
    while i < |entries|
      invariant 0 <= i <= |entries|
      invariant found == CountIf(entries[..i], IsDirectoryEntry)
      invariant selected == ScanSelection(entries[..i], limit)
    {
      assert entries[..i + 1][..i] == entries[..i];
      var e := entries[i];
      if e.Directory? {
        found := found + 1;
        if HasGit(e.repo) || found <= limit {
          selected := selected + [e.repo];
        }
      }
      i := i + 1;
    }
    assert entries[..i] == entries;
  }

  /** Up to the limit every directory is scanned, with or without `.git`. */
  lemma {:induction false} FirstDirectoriesScanned(entries: seq<Entry>, limit: nat)
    ensures |ScanSelection(entries, limit)| >= Min(CountIf(entries, IsDirectoryEntry), limit)
  {
    if entries != [] {
      var init := entries[..|entries| - 1];
      FirstDirectoriesScanned(init, limit);
      FilterSnoc(init, entries[|entries| - 1], IsDirectoryEntry);
      assert init + [entries[|entries| - 1]] == entries;
    }
  }

  /** A directory is handed over exactly when it holds `.git` or is among the
      first `limit` directories of the listing. */
  lemma {:induction false} ScanSelectionIff(entries: seq<Entry>, limit: nat)
    ensures forall j :: 0 <= j < |entries| && Chosen(entries, limit, j) ==> entries[j].repo in ScanSelection(entries, limit)
    ensures forall r :: r in ScanSelection(entries, limit) ==>
      exists j :: 0 <= j < |entries| && entries[j] == Directory(r) && Chosen(entries, limit, j)
  {
    if entries != [] {
      var n := |entries| - 1;
      var init := entries[..n];
      ScanSelectionIff(init, limit);
      assert entries[..n + 1] == entries;
      forall j | 0 <= j < n ensures entries[..j + 1] == init[..j + 1] && Chosen(entries, limit, j) == Chosen(init, limit, j) {
        assert entries[..j + 1] == init[..j + 1];
      }
    }
  }

  function Min(a: nat, b: nat): nat {
    if a < b then a else b
  }
}
