/** The git-repository scanner: for each folder holding `.git` it counts the
    scripts, looks for Terraform files, lists what is missing and grades the
    repository from fixed bonuses. */
module RepoScanner {
  import opened Wrappers
  import opened Seqs
  import opened Text
  import opened Fs

  /** Which repositories are expected to carry Terraform; any other name is. */
  const TerraformExpected: map<string, bool> := map[
    "AWS_Cloud_Support_Sim" := true,
    "AWS_Cloudops_Suite" := true,
    "AWS_Error_Driven_Troubleshooting_Lab" := true,
    "CloudOpsLab" := false,
    "charles-bucher" := false,
    "charles-bucher.github.io" := true
  ]

  const ScriptExtensions: seq<string> := [".py", ".ps1", ".sh"]

  datatype Grade = A | B | C | D

  // ---------------------------------------------------------------------------
  // Score and grade
  // ---------------------------------------------------------------------------

  /** The Terraform bonus: earned by having Terraform when it is required, and
      given outright when it is not. */
  predicate TerraformOk(present: bool, required: bool) {
    (required && present) || !required
  }

  function ScoreOf(readme: bool, gitignore: bool, scripts: nat, tfPresent: bool, tfRequired: bool): (score: int)
    ensures 50 <= score <= 100
    ensures score == 100 <==> readme && gitignore && scripts > 0 && TerraformOk(tfPresent, tfRequired)
  {
    var s := 50 + (if readme then 15 else 0) + (if gitignore then 10 else 0)
      + (if scripts > 0 then 10 else 0) + (if TerraformOk(tfPresent, tfRequired) then 15 else 0);
    if s < 100 then s else 100
  }

  function GradeOf(score: int): (g: Grade)
    ensures g == A <==> score >= 95
    ensures g == B <==> 85 <= score < 95
    ensures g == C <==> 70 <= score < 85
    ensures g == D <==> score < 70
  {
    if score >= 95 then A else if score >= 85 then B else if score >= 70 then C else D
  }

  /** `score_repo`, step by step. */
  method ScoreRepo(readme: bool, gitignore: bool, scripts: nat, tfPresent: bool, tfRequired: bool)
    returns (score: int, grade: Grade)
    ensures score == ScoreOf(readme, gitignore, scripts, tfPresent, tfRequired)
    ensures grade == GradeOf(score)
  {
    score := 50;
    if readme {
      score := score + 15;
    }
    if gitignore {
      score := score + 10;
    }
    if scripts > 0 {
      score := score + 10;
    }
    if tfRequired && tfPresent {
      score := score + 15;
    } else if !tfRequired {
      score := score + 15;
    }
    score := if score < 100 then score else 100;
    if score >= 95 {
      grade := A;
    } else if score >= 85 {
      grade := B;
    } else if score >= 70 {
      grade := C;
    } else {
      grade := D;
    }
  }

  /** The bonuses add up to exactly 100, so the cap never bites and an A needs
      every bonus. */
  lemma GradeAIff(readme: bool, gitignore: bool, scripts: nat, tfPresent: bool, tfRequired: bool)
    ensures GradeOf(ScoreOf(readme, gitignore, scripts, tfPresent, tfRequired)) == A <==>
      readme && gitignore && scripts > 0 && TerraformOk(tfPresent, tfRequired)
    ensures ScoreOf(readme, gitignore, scripts, tfPresent, tfRequired) ==
      50 + (if readme then 15 else 0) + (if gitignore then 10 else 0)
      + (if scripts > 0 then 10 else 0) + (if TerraformOk(tfPresent, tfRequired) then 15 else 0)
  {
  }

  /** Gaining a bonus never lowers the score. */
  lemma ScoreMonotone(r: bool, g: bool, s: nat, t: bool, q: bool, r': bool, g': bool, s': nat, t': bool, q': bool)
    requires (r ==> r') && (g ==> g') && (s > 0 ==> s' > 0) && (TerraformOk(t, q) ==> TerraformOk(t', q'))
    ensures ScoreOf(r, g, s, t, q) <= ScoreOf(r', g', s', t', q')
  {
  }

  // ---------------------------------------------------------------------------
  // One repository
  // ---------------------------------------------------------------------------

  /** A repository missing from the table is taken to need Terraform. */
  function TerraformRequired(table: map<string, bool>, name: string): (required: bool)
    ensures name !in table ==> required
    ensures name in table ==> required == table[name]
  {
    if name in table then table[name] else true
  }

  predicate IsScript(exts: seq<string>, f: File) {
    EndsWithAny(f.name, exts)
  }

  predicate IsTerraform(f: File) {
    EndsWith(f.name, ".tf")
  }

  /** The walk: the scripts counted and whether any Terraform file was seen. */
  method Detect(exts: seq<string>, files: seq<File>) returns (scripts: nat, terraform: bool)
    ensures scripts == CountIf(files, f => IsScript(exts, f))
    ensures terraform <==> exists k | 0 <= k < |files| :: IsTerraform(files[k])
  {
    scripts, terraform := 0, false;
    var i := 0;
    while i < |files|
      invariant 0 <= i <= |files|
      invariant scripts == CountIf(files[..i], f => IsScript(exts, f))
      invariant terraform <==> exists k | 0 <= k < i :: IsTerraform(files[k])
    {
      assert files[..i + 1][..i] == files[..i];
      FilterSnoc(files[..i], files[i], f => IsScript(exts, f));
      assert files[..i + 1] == files[..i] + [files[i]];
      if EndsWithAny(files[i].name, exts) {
        scripts := scripts + 1;
      }
      if EndsWith(files[i].name, ".tf") {
        terraform := true;
      }
      i := i + 1;
    }
    assert files[..i] == files;
  }

  /** The issues, in their fixed order. */
  function Issues(readme: bool, gitignore: bool, tfPresent: bool, tfRequired: bool): (r: seq<string>)
    ensures r == [] <==> readme && gitignore && TerraformOk(tfPresent, tfRequired)
    ensures |r| <= 3
  {
    (if !readme then ["Missing README.md"] else [])
    + (if !gitignore then ["Missing .gitignore"] else [])
    + (if tfRequired && !tfPresent then ["No Terraform files detected"] else [])
  }

  datatype Result = Result(
    repo: string, readme: bool, gitignore: bool, scripts: nat,
    tfPresent: bool, tfRequired: bool, issues: seq<string>, score: int, grade: Grade)

  function ResultOf(repo: Repo): (r: Result)
    ensures r.grade == A ==> r.issues == []
  {
    var readme := repo.readme.Some?;
    var gitignore := ".gitignore" in repo.topFiles;
    var scripts := CountIf(repo.files, f => IsScript(ScriptExtensions, f));
    var tfPresent := exists k | 0 <= k < |repo.files| :: IsTerraform(repo.files[k]);
    var tfRequired := TerraformRequired(TerraformExpected, repo.name);
    var score := ScoreOf(readme, gitignore, scripts, tfPresent, tfRequired);
    Result(repo.name, readme, gitignore, scripts, tfPresent, tfRequired,
           Issues(readme, gitignore, tfPresent, tfRequired), score, GradeOf(score))
  }

  method ScanRepo(repo: Repo) returns (result: Result)
    ensures result == ResultOf(repo)
  {
    var tfRequired := TerraformRequired(TerraformExpected, repo.name);
    var readme := repo.readme.Some?;
    var gitignore := ".gitignore" in repo.topFiles;
    var scripts, tfPresent := Detect(ScriptExtensions, repo.files);
    var issues: seq<string> := [];
    if !readme {
      issues := issues + ["Missing README.md"];
    }
    if !gitignore {
      issues := issues + ["Missing .gitignore"];
    }
    if tfRequired && !tfPresent {
      issues := issues + ["No Terraform files detected"];
    }
    var score, grade := ScoreRepo(readme, gitignore, scripts, tfPresent, tfRequired);
    result := Result(repo.name, readme, gitignore, scripts, tfPresent, tfRequired, issues, score, grade);
  }

  // ---------------------------------------------------------------------------
  // The folder
  // ---------------------------------------------------------------------------

  predicate IsGitRepo(e: Entry) {
    e.Directory? && ".git" in e.repo.topDirs
  }

  function Results(entries: seq<Entry>): (r: seq<Result>)
    ensures |r| == CountIf(entries, IsGitRepo)
  {
    if entries == [] then []
    else
      var e := entries[|entries| - 1];
      FilterSnoc(entries[..|entries| - 1], e, IsGitRepo);
      assert entries[..|entries| - 1] + [e] == entries;
      Results(entries[..|entries| - 1]) + (if IsGitRepo(e) then [ResultOf(e.repo)] else [])
  }

  /** The main loop over the folder's entries, skipping all but git repositories. */
  method ScanFolder(entries: seq<Entry>) returns (results: seq<Result>)
    ensures results == Results(entries)
  {
    results := [];
    var i := 0;
    while i < |entries|
      invariant 0 <= i <= |entries|
      invariant results == Results(entries[..i])
    {
      assert entries[..i + 1][..i] == entries[..i];
      var e := entries[i];
      if e.Directory? && ".git" in e.repo.topDirs {
        var r := ScanRepo(e.repo);
        results := results + [r];
      }
      i := i + 1;
    }
    assert entries[..i] == entries;
  }
}
