/** The read-only repository validator: lists the README sections that are
    missing, the placeholder words left in files, and empty or tab-indented
    code files, without changing anything. */
module UltimateRepoValidator {
  import opened Wrappers
  import opened Seqs
  import opened Text
  import opened Fs

  const RequiredSections: seq<string> :=
    ["TL;DR", "Quick Start", "Incident Scenarios", "Installation", "Skills", "License", "Contact"]
  /** The words of the patterns `\bTODO\b`, `\bPLACEHOLDER\b` and `\bFIXME\b`. */
  const PlaceholderWords: seq<string> := ["TODO", "PLACEHOLDER", "FIXME"]
  const CodeExtensions: seq<string> := [".py", ".tf", ".ps1", ".sh", ".js"]

  // ---------------------------------------------------------------------------
  // Per-file checks
  // ---------------------------------------------------------------------------

  /** The issue text names the pattern as written in the source, `\b` included. */
  function PlaceholderIssue(path: string, word: string): string {
    path + " contains placeholder: \\b" + word + "\\b"
  }

  /** `check_placeholders`: one issue per pattern that matches, in pattern order. */
  function PlaceholderIssues(path: string, words: seq<string>, content: string): (r: seq<string>)
    ensures |r| <= |words|
  {
    if words == [] then []
    else
      var w := words[|words| - 1];
      PlaceholderIssues(path, words[..|words| - 1], content)
      + (if HasWord(content, w) then [PlaceholderIssue(path, w)] else [])
  }

  method CheckPlaceholders(path: string, words: seq<string>, content: string) returns (issues: seq<string>)
    ensures issues == PlaceholderIssues(path, words, content)
  {
    issues := [];
    var i := 0;
    while i < |words|
      invariant 0 <= i <= |words|
      invariant issues == PlaceholderIssues(path, words[..i], content)
    {
      assert words[..i + 1][..i] == words[..i];
      if HasWord(content, words[i]) {
        issues := issues + [PlaceholderIssue(path, words[i])];
      }
      i := i + 1;
    }
    assert words[..i] == words;
  }

  /** An issue is listed for a pattern exactly when its word occurs as a whole word. */
  lemma {:induction false} PlaceholderIff(path: string, words: seq<string>, content: string, k: nat)
    requires k < |words|
    ensures PlaceholderIssue(path, words[k]) in PlaceholderIssues(path, words, content) <==> HasWord(content, words[k])
  {
    var init := words[..|words| - 1];
    var last := words[|words| - 1];
    var msg := PlaceholderIssue(path, words[k]);
    if k < |words| - 1 {
      PlaceholderIff(path, init, content, k);
      assert words[k] == init[k];
      if msg == PlaceholderIssue(path, last) {
        IssueNamesWord(path, words[k], last);
      }
    } else if msg in PlaceholderIssues(path, init, content) {
      var j := IssueSource(path, init, content, msg);
      IssueNamesWord(path, init[j], last);
      PlaceholderIff(path, init, content, j);
    }
  }

  /** Different words give different issue texts. */
  lemma IssueNamesWord(path: string, a: string, b: string)
    requires PlaceholderIssue(path, a) == PlaceholderIssue(path, b)
    ensures a == b
  {
    var prefix := path + " contains placeholder: \\b";
    var ma := PlaceholderIssue(path, a);
    assert |a| == |b|;
    assert ma[|prefix|..|prefix| + |a|] == a;
    assert PlaceholderIssue(path, b)[|prefix|..|prefix| + |b|] == b;
  }

  /** Every listed issue comes from one of the words. */
  lemma {:induction false} IssueSource(path: string, words: seq<string>, content: string, msg: string) returns (j: nat)
    requires msg in PlaceholderIssues(path, words, content)
    ensures j < |words| && msg == PlaceholderIssue(path, words[j])
  {
    var init := words[..|words| - 1];
    if msg in PlaceholderIssues(path, init, content) {
      j := IssueSource(path, init, content, msg);
    } else {
      j := |words| - 1;
    }
  }

  function EmptyIssue(path: string): string {
    path + " is empty"
  }

  function TabsIssue(path: string): string {
    path + " contains tabs instead of spaces"
  }

  /** `check_code_quality`: empty once whitespace is stripped, then tabs anywhere. */
  function CodeIssues(path: string, content: string): (r: seq<string>)
    ensures EmptyIssue(path) in r <==> Strip(content) == []
    ensures TabsIssue(path) in r <==> '\t' in content
    ensures |r| <= 2
  {
    assert EmptyIssue(path) != TabsIssue(path) by {
      assert |EmptyIssue(path)| != |TabsIssue(path)|;
    }
    (if Strip(content) == [] then [EmptyIssue(path)] else [])
    + (if '\t' in content then [TabsIssue(path)] else [])
  }

  /** Both issues can be reported for one file: whitespace that includes a tab. */
  lemma BothCodeIssues(path: string)
    ensures CodeIssues(path, "\t") == [EmptyIssue(path), TabsIssue(path)]
  {
    var tab := "\t";
    assert IsSpace(tab[0]) && tab[..0] == [];
    assert RStrip(tab) == [];
    assert '\t' in tab;
  }

  /** A code file that cannot be read is reported as empty, and only as empty. */
  lemma UnreadableIsEmpty(path: string, name: string)
    ensures CodeIssues(path, SafeRead(File(path, name, None))) == [EmptyIssue(path)]
  {
  }

  // ---------------------------------------------------------------------------
  // A repository
  // ---------------------------------------------------------------------------

  datatype Report = Report(
    missingSections: seq<string>,
    placeholders: seq<string>,
    codeIssues: seq<string>,
    missingFiles: seq<string>)

  predicate IsHidden(f: File) {
    "." <= f.name
  }

  /** The placeholder and code issues of the walk, in walk order. Each file
      is named by its path under `repoPath`. */
  function WalkIssues(repoPath: string, words: seq<string>, exts: seq<string>, files: seq<File>): (r: (seq<string>, seq<string>))
  {
    if files == [] then ([], [])
    else
      var f := files[|files| - 1];
      var (placeholders, code) := WalkIssues(repoPath, words, exts, files[..|files| - 1]);
      if IsHidden(f) then (placeholders, code)
      else
        var content := SafeRead(f);
        (placeholders + PlaceholderIssues(Under(repoPath, f), words, content),
         code + (if Suffix(f.name) in exts then CodeIssues(Under(repoPath, f), content) else []))
  }

  /** `validate_repo`: the README check when README.md exists (its path under
      missing files otherwise), then the walk over every file that is not hidden. */
  function ReportOf(repoPath: string, repo: Repo, words: seq<string>, exts: seq<string>): (r: Report)
    ensures repo.readme.None? <==> r.missingFiles == [repoPath + "/README.md"]
    ensures repo.readme.Some? ==> r.missingSections == Absent(RequiredSections, repo.readme.value)
    ensures repo.readme.None? ==> r.missingSections == []
  {
    var walk := WalkIssues(repoPath, words, exts, repo.files);
    match repo.readme
    case None => Report([], walk.0, walk.1, [repoPath + "/README.md"])
    case Some(content) => Report(Absent(RequiredSections, content), walk.0, walk.1, [])
  }

  method CheckReadme(sections: seq<string>, content: string) returns (missing: seq<string>)
    ensures missing == Absent(sections, content)
  {
    missing := [];
    var i := 0;
    while i < |sections|
      invariant 0 <= i <= |sections|
      invariant missing == Absent(sections[..i], content)
    {
      assert sections[..i + 1][..i] == sections[..i];
      if !Contains(content, sections[i]) {
        missing := missing + [sections[i]];
      }
      i := i + 1;
    }
    assert sections[..i] == sections;
  }

  method WalkRepo(repoPath: string, words: seq<string>, exts: seq<string>, files: seq<File>)
    returns (placeholders: seq<string>, code: seq<string>)
    ensures (placeholders, code) == WalkIssues(repoPath, words, exts, files)
  {
    placeholders, code := [], [];
    var i := 0;
    while i < |files|
      invariant 0 <= i <= |files|
      invariant placeholders == WalkIssues(repoPath, words, exts, files[..i]).0
      invariant code == WalkIssues(repoPath, words, exts, files[..i]).1
    {
      assert files[..i + 1][..i] == files[..i];
      var f := files[i];
      if !("." <= f.name) {
        var content := SafeRead(f);
        var path := repoPath + "/" + f.path;
        var found := CheckPlaceholders(path, words, content);
        placeholders := placeholders + found;
        if Suffix(f.name) in exts {
          code := code + CodeIssues(path, content);
        }
      }
      i := i + 1;
    }
    assert files[..i] == files;
  }

  method ValidateRepo(repoPath: string, repo: Repo) returns (report: Report)
    ensures report == ReportOf(repoPath, repo, PlaceholderWords, CodeExtensions)
  {
    var missingSections: seq<string> := [];
    var missingFiles: seq<string> := [];
    if repo.readme.Some? {
      missingSections := CheckReadme(RequiredSections, repo.readme.value);
    } else {
      missingFiles := [repoPath + "/README.md"];
    }
    var placeholders, code := WalkRepo(repoPath, PlaceholderWords, CodeExtensions, repo.files);
    report := Report(missingSections, placeholders, code, missingFiles);
  }

  /** At most one placeholder issue per pattern and file. */
  lemma {:induction false} PlaceholderBound(repoPath: string, words: seq<string>, exts: seq<string>, files: seq<File>)
    ensures |WalkIssues(repoPath, words, exts, files).0| <= |words| * |files|
  {
    if files != [] {
      PlaceholderBound(repoPath, words, exts, files[..|files| - 1]);
      assert |words| * |files| == |words| * (|files| - 1) + |words|;
    }
  }

  /** Hidden files add no issue wherever they are in the walk. */
  lemma {:induction false} HiddenIgnored(repoPath: string, words: seq<string>, exts: seq<string>, files: seq<File>, f: File)
    requires IsHidden(f)
    ensures WalkIssues(repoPath, words, exts, files + [f]) == WalkIssues(repoPath, words, exts, files)
  {
    assert (files + [f])[..|files|] == files;
  }

  /** A report with no issue at all needs a README holding every section. */
  lemma CleanNeedsReadme(repoPath: string, repo: Repo)
    requires ReportOf(repoPath, repo, PlaceholderWords, CodeExtensions) == Report([], [], [], [])
    ensures repo.readme.Some?
    ensures forall k :: 0 <= k < |RequiredSections| ==> Contains(repo.readme.value, RequiredSections[k])
  {
    FilterMembers(RequiredSections, NotIn(repo.readme.value));
  }
}
