/** The pre-commit repository fixer: reports missing required files and
    folders, appends placeholder sections to the README, flags files whose text
    mentions secrets, and scores the repository by which kinds of problem it has. */
module CommitAutofixer {
  import opened Wrappers
  import opened Seqs
  import opened Text
  import opened Fs

  const RequiredFiles: seq<string> := ["LICENSE"]
  const RequiredFolders: seq<string> := ["scripts", "docs", "tests"]
  const RequiredSections: seq<string> := ["Overview", "Deployment", "Tech Stack", "Architecture"]
  const SecretExtensions: seq<string> := [".py", ".yml", ".yaml", ".sh", ".env", ".gitignore"]
  const SecretMarkers: seq<string> := ["SECRET", "KEY", "TOKEN"]
  const NewReadme := "# Project README\n\n"

  // ---------------------------------------------------------------------------
  // Structure
  // ---------------------------------------------------------------------------

  function NotInSet(present: set<string>): string -> bool {
    n => n !in present
  }

  /** Missing required files first, then missing folders, each in list order. */
  function MissingStructure(files: seq<string>, folders: seq<string>, layout: set<string>, dirs: set<string>): seq<string> {
    Filter(files, NotInSet(layout)) + Filter(folders, NotInSet(dirs))
  }

  /** One loop of `check_structure`. */
  method CollectAbsent(names: seq<string>, present: set<string>) returns (missing: seq<string>)
    ensures missing == Filter(names, NotInSet(present))
  {
    missing := [];
    var i := 0;
    while i < |names|
      invariant 0 <= i <= |names|
      invariant missing == Filter(names[..i], NotInSet(present))
    {
      assert names[..i + 1][..i] == names[..i];
      if names[i] !in present {
        missing := missing + [names[i]];
      }
      i := i + 1;
    }
    assert names[..i] == names;
  }

  /** `check_structure`: a required file counts only as a regular file, a
      required folder only as a directory. */
  method CheckStructure(files: seq<string>, folders: seq<string>, topFiles: set<string>, topDirs: set<string>)
    returns (missing: seq<string>)
    ensures missing == MissingStructure(files, folders, topFiles, topDirs)
  {
    var missingFiles := CollectAbsent(files, topFiles);
    var missingFolders := CollectAbsent(folders, topDirs);
    missing := missingFiles + missingFolders;
  }

  /** A name is reported exactly when it is required and absent. */
  lemma StructureIff(files: seq<string>, folders: seq<string>, topFiles: set<string>, topDirs: set<string>, n: string)
    ensures n in MissingStructure(files, folders, topFiles, topDirs) <==>
      (n in files && n !in topFiles) || (n in folders && n !in topDirs)
  {
    FilterMembers(files, NotInSet(topFiles));
    FilterMembers(folders, NotInSet(topDirs));
  }

  // ---------------------------------------------------------------------------
  // README
  // ---------------------------------------------------------------------------

  /** `check_readme`: without a README every section is missing; otherwise the
      sections that do not occur in it, in list order. */
  function ReadmeCheck(sections: seq<string>, readme: Option<string>): (r: (bool, seq<string>))
    ensures r.0 <==> readme.Some?
    ensures readme.None? ==> r.1 == sections
    ensures |r.1| <= |sections|
  {
    match readme
    case None => (false, sections)
    case Some(content) => (true, Absent(sections, content))
  }

  method CheckReadme(sections: seq<string>, readme: Option<string>) returns (present: bool, missing: seq<string>)
    ensures (present, missing) == ReadmeCheck(sections, readme)
  {
    if readme.None? {
      return false, sections;
    }
    var content := readme.value;
    missing := [];
    var i := 0;
    while i < |sections|
      invariant 0 <= i <= |sections|
      invariant missing == Absent(sections[..i], content)
    {
      assert sections[..i + 1][..i] == sections[..i];
      if !Contains(content, sections[i]) {
        missing := missing + [sections[i]];
      }
      i := i + 1;
    }
    assert sections[..i] == sections;
    present := true;
  }

  const PlaceholderBody := "\n\nPlaceholder content.\n"

  function Placeholder(section: string): string {
    "\n## " + section + PlaceholderBody
  }

  function Placeholders(sections: seq<string>): string {
    if sections == [] then "" else Placeholders(sections[..|sections| - 1]) + Placeholder(sections[|sections| - 1])
  }

  lemma PlaceholdersStep(sections: seq<string>, i: nat)
    requires i < |sections|
    ensures Placeholders(sections[..i + 1]) == Placeholders(sections[..i]) + Placeholder(sections[i])
  {
    assert sections[..i + 1][..i] == sections[..i];
  }

  /** The README after `update_readme`: created with a title when absent, then
      one placeholder block per missing section appended in order. */
  function UpdatedReadme(readme: Option<string>, missing: seq<string>): (r: string)
    ensures readme.Some? ==> readme.value <= r
    ensures readme.None? ==> NewReadme <= r
  {
    (if readme.Some? then readme.value else NewReadme) + Placeholders(missing)
  }

  method UpdateReadme(readme: Option<string>, missing: seq<string>) returns (text: string)
    ensures text == UpdatedReadme(readme, missing)
  {
    if readme.None? {
      text := NewReadme;
    } else {
      text := readme.value;
    }
    ghost var start := text;
    var i := 0;
    while i < |missing|
      invariant 0 <= i <= |missing|
      invariant text == start + Placeholders(missing[..i])
    {
      PlaceholdersStep(missing, i);
      AppendAssoc(start, Placeholders(missing[..i]), Placeholder(missing[i]));
      text := text + Placeholder(missing[i]);
      i := i + 1;
    }
    assert missing[..i] == missing;
  }

  /** Every section given to the update occurs in what it appends. */
  lemma {:induction false} PlaceholdersContain(sections: seq<string>, k: nat)
    requires k < |sections|
    ensures Contains(Placeholders(sections), sections[k])
  {
    var init := sections[..|sections| - 1];
    if k < |sections| - 1 {
      PlaceholdersContain(init, k);
      assert sections[k] == init[k];
      ContainsAppendLeft(Placeholders(init), Placeholder(sections[k + |sections| - 1 - k]), sections[k]);
    } else {
      ContainsAt(Placeholder(sections[k]), sections[k], 4);
      ContainsAppendRight(Placeholders(init), Placeholder(sections[k]), sections[k]);
    }
  }

  /** After the update a second check finds a README with every section. */
  lemma UpdateSettles(sections: seq<string>, readme: Option<string>)
    ensures ReadmeCheck(sections, Some(UpdatedReadme(readme, ReadmeCheck(sections, readme).1))) == (true, [])
  {
    var missing := ReadmeCheck(sections, readme).1;
    var start := if readme.Some? then readme.value else NewReadme;
    var text := UpdatedReadme(readme, missing);
    if readme.Some? {
      FilterMembers(sections, NotIn(readme.value));
    }
    forall i | 0 <= i < |sections| ensures !NotIn(text)(sections[i]) {
      if sections[i] in missing {
        var k :| 0 <= k < |missing| && missing[k] == sections[i];
        PlaceholdersContain(missing, k);
        ContainsAppendRight(start, Placeholders(missing), sections[i]);
      } else {
        ContainsAppendLeft(start, Placeholders(missing), sections[i]);
      }
    }
    FilterNone(sections, NotIn(text));
  }

  // ---------------------------------------------------------------------------
  // Secrets
  // ---------------------------------------------------------------------------

  /** A file is flagged when its name has one of the listed endings and its
      text contains one of the markers (case-sensitively). */
  predicate MentionsSecret(exts: seq<string>, markers: seq<string>, f: File) {
    EndsWithAny(f.name, exts) && f.content.Some? && exists k | 0 <= k < |markers| :: Contains(f.content.value, markers[k])
  }

  /** A file with a listed ending that `open` fails on. The scan catches no
      error, so `process_repo` ends there. */
  predicate Unopenable(exts: seq<string>, f: File) {
    EndsWithAny(f.name, exts) && f.content.None?
  }

  function FlaggedPaths(exts: seq<string>, markers: seq<string>, files: seq<File>): (r: seq<string>)
    ensures |r| <= |files|
  {
    if files == [] then []
    else
      var f := files[|files| - 1];
      FlaggedPaths(exts, markers, files[..|files| - 1]) + (if MentionsSecret(exts, markers, f) then [f.path] else [])
  }

  /** Whether any of `subs` satisfies the test; the `or` chains of the source. */
  method AnyOf(subs: seq<string>, test: string -> bool) returns (found: bool)
    ensures found <==> exists k | 0 <= k < |subs| :: test(subs[k])
  {
    found := false;
    var i := 0;
    while i < |subs| && !found
      invariant 0 <= i <= |subs|
      invariant found <==> exists k | 0 <= k < i :: test(subs[k])
    {
      found := test(subs[i]);
      i := i + 1;
    }
  }

  /** `scan_secrets`: the flagged paths in walk order, or nothing when a
      listed file cannot be opened. */
  method ScanSecrets(exts: seq<string>, markers: seq<string>, files: seq<File>) returns (flagged: Option<seq<string>>)
    ensures flagged.None? <==> exists k | 0 <= k < |files| :: Unopenable(exts, files[k])
    ensures flagged.Some? ==> flagged.value == FlaggedPaths(exts, markers, files)
  {
    var found := [];
    var i := 0;
    while i < |files|
      invariant 0 <= i <= |files|
      invariant forall j :: 0 <= j < i ==> !Unopenable(exts, files[j])
      invariant found == FlaggedPaths(exts, markers, files[..i])
    {
      assert files[..i + 1][..i] == files[..i];
      var f := files[i];
      var listed := AnyOf(exts, s => EndsWith(f.name, s));
      if listed {
        if f.content.None? {
          return None;
        }
        var content := f.content.value;
        var hit := AnyOf(markers, m => Contains(content, m));
        if hit {
          found := found + [f.path];
        }
      }
      i := i + 1;
    }
    assert files[..i] == files;
    flagged := Some(found);
  }

  /** The README itself is never scanned for secrets, so it cannot stop the scan either. */
  lemma ReadmeNotScanned(readme: Option<string>)
    ensures !MentionsSecret(SecretExtensions, SecretMarkers, File("README.md", "README.md", readme))
    ensures !Unopenable(SecretExtensions, File("README.md", "README.md", readme))
  {
    forall k | 0 <= k < |SecretExtensions| ensures !EndsWith("README.md", SecretExtensions[k]) {
    }
  }

  // ---------------------------------------------------------------------------
  // Score
  // ---------------------------------------------------------------------------

  /** The score rule of `process_repo`: fixed deductions for having any
      structure, README, lint or secret problem, whatever their number. */
  function Score(structure: bool, readme: bool, lint: bool, secrets: bool): (score: int)
    ensures 35 <= score <= 100
    ensures score == 100 <==> !structure && !readme && !lint && !secrets
    ensures score == 35 <==> structure && readme && lint && secrets
  {
    100 - (if structure then 20 else 0) - (if readme then 10 else 0)
        - (if lint then 10 else 0) - (if secrets then 25 else 0)
  }

  /** A problem of one more kind never raises the score. */
  lemma ScoreMonotone(s: bool, r: bool, l: bool, k: bool, s': bool, r': bool, l': bool, k': bool)
    requires (s ==> s') && (r ==> r') && (l ==> l') && (k ==> k')
    ensures Score(s', r', l', k') <= Score(s, r, l, k)
  {
  }

  datatype Outcome = Outcome(lint: bool, structure: seq<string>, readmePresent: bool,
                             readmeMissing: seq<string>, secrets: seq<string>, score: int)

  /** What `process_repo` finds; `lint` says whether the linter printed anything.
      Nothing, when a listed file cannot be opened: the scan raises before the score. */
  function OutcomeOf(repo: Repo, lint: bool): Option<Outcome> {
    if exists k | 0 <= k < |repo.files| :: Unopenable(SecretExtensions, repo.files[k]) then None
    else
      var structure := MissingStructure(RequiredFiles, RequiredFolders, repo.topFiles, repo.topDirs);
      var (present, missing) := ReadmeCheck(RequiredSections, repo.readme);
      var secrets := FlaggedPaths(SecretExtensions, SecretMarkers, repo.files);
      Some(Outcome(lint, structure, present, missing, secrets, Score(structure != [], missing != [], lint, secrets != [])))
  }

  /** The README afterwards: updated only when some section was missing. */
  function ReadmeAfter(repo: Repo): Option<string> {
    var missing := ReadmeCheck(RequiredSections, repo.readme).1;
    if missing != [] then Some(UpdatedReadme(repo.readme, missing)) else repo.readme
  }

  /** The README half of `process_repo`: check, then update when something is missing. */
  method FixReadme(readme: Option<string>) returns (present: bool, missing: seq<string>, after: Option<string>)
    ensures (present, missing) == ReadmeCheck(RequiredSections, readme)
    ensures after == (if missing != [] then Some(UpdatedReadme(readme, missing)) else readme)
    ensures after.Some? ==> ReadmeCheck(RequiredSections, after) == (true, [])
  {
    present, missing := CheckReadme(RequiredSections, readme);
    after := readme;
    if missing != [] {
      var text := UpdateReadme(readme, missing);
      after := Some(text);
      UpdateSettles(RequiredSections, readme);
    } else if readme.Some? {
      FilterMembers(RequiredSections, NotIn(readme.value));
      FilterNone(RequiredSections, NotIn(readme.value));
    }
  }

  /** The deductions of `process_repo`, one after the other. */
  method ComputeScore(structure: bool, readme: bool, lint: bool, secrets: bool) returns (score: int)
    ensures score == Score(structure, readme, lint, secrets)
  {
    score := 100;
    if structure {
      score := score - 20;
    }
    if readme {
      score := score - 10;
    }
    if lint {
      score := score - 10;
    }
    if secrets {
      score := score - 25;
    }
  }

  /** `process_repo` after the formatter ran. The README is patched before the
      secret scan, which is unaffected because README.md has none of the
      listed endings; a listed file that cannot be opened ends the run after
      the patch and before the score. */
  method ProcessRepo(repo: Repo, lint: bool) returns (outcome: Option<Outcome>, readme: Option<string>)
    ensures outcome == OutcomeOf(repo, lint)
    ensures outcome.None? <==> exists k | 0 <= k < |repo.files| :: Unopenable(SecretExtensions, repo.files[k])
    ensures readme == ReadmeAfter(repo)
    ensures readme.Some? ==> ReadmeCheck(RequiredSections, readme) == (true, [])
  {
    var structure := CheckStructure(RequiredFiles, RequiredFolders, repo.topFiles, repo.topDirs);
    var present, missing;
    present, missing, readme := FixReadme(repo.readme);
    var secrets := ScanSecrets(SecretExtensions, SecretMarkers, repo.files);
    if secrets.None? {
      return None, readme;
    }
    var score := ComputeScore(structure != [], missing != [], lint, secrets.value != []);
    outcome := Some(Outcome(lint, structure, present, missing, secrets.value, score));
  }
}
