/** The deep repository auditor: for each repository of a folder it scores the
    README sections (appending stubs for the missing ones), the cloud keywords
    across every file, the documented scripts (prepending a header docstring to
    the others) and the top-level layout, and weighs the four into a total. */
module RepoSecurityScan {
  import opened Wrappers
  import opened Seqs
  import opened Text
  import opened Fs
  import opened Ratios

  const RequiredSections: seq<string> :=
    ["TL;DR", "Overview", "Setup Instructions", "Usage Examples", "Incident Scenarios", "Screenshots", "Contact"]

  const CloudKeywords: seq<string> :=
    ["aws", "ec2", "s3", "lambda", "iam", "cloudwatch", "terraform", "vpc", "rds", "cloud"]

  const CodeExtensions: seq<string> := [".py", ".sh", ".ps1"]

  const Expected: seq<string> := ["README.md", "src", "tests"]

  const MissingReadme := "Missing README.md"
  const SectionsAdded := "Added missing README sections"
  const CloudTip := "Add more AWS/cloud terminology and examples."
  const NoCode := "No code files found"
  const DocsTip := "Increase docstrings and inline comments."

  // ---------------------------------------------------------------------------
  // README sections
  // ---------------------------------------------------------------------------

  /** A section is missing when its name does not occur in the text, ignoring ASCII case. */
  function AbsentFrom(content: string): string -> bool {
    section => !Contains(Lower(content), Lower(section))
  }

  function MissingFrom(sections: seq<string>, content: string): seq<string> {
    Filter(sections, AbsentFrom(content))
  }

  /** The stub appended for a missing section. */
  function Stub(section: string): string {
    "## " + section + "\n\n_TODO_\n"
  }

  /** The README after the stubs of the missing sections are appended. */
  function Patched(content: string, missing: seq<string>): string {
    content + "\n\n" + Join("\n", Map(missing, Stub))
  }

  /** Ten points off per missing item, never below zero. */
  function TenOffPer(n: nat): (score: int)
    ensures 0 <= score <= 100
    ensures score == 100 <==> n == 0
    ensures n <= 10 ==> score == 100 - 10 * n
  {
    if 100 - 10 * n > 0 then 100 - 10 * n else 0
  }

  /** What `scan_readme` reports, and the new README text when it writes one. */
  datatype ReadmeScan = ReadmeScan(score: int, missing: seq<string>, notes: seq<string>, written: Option<string>)

  function ReadmeScanOf(sections: seq<string>, readme: Option<string>): (r: ReadmeScan)
    ensures readme.None? ==> r == ReadmeScan(0, [MissingReadme], [], None)
    ensures readme.Some? ==> r.missing == MissingFrom(sections, readme.value)
    ensures r.written.Some? <==> readme.Some? && r.missing != []
    ensures 0 <= r.score <= 100
  {
    match readme
    case None => ReadmeScan(0, [MissingReadme], [], None)
    case Some(content) =>
      var missing := MissingFrom(sections, content);
      if missing == [] then ReadmeScan(100, [], [], None)
      else ReadmeScan(TenOffPer(|missing|), missing, [SectionsAdded], Some(Patched(content, missing)))
  }

  /** `scan_readme`: collect the missing sections and their stubs in list
      order, write the stubs back only when some section is missing, and take
      ten points off per missing section. */
  method ScanReadme(sections: seq<string>, readme: Option<string>) returns (scan: ReadmeScan)
    ensures scan == ReadmeScanOf(sections, readme)
  {
    if readme.None? {
      return ReadmeScan(0, [MissingReadme], [], None);
    }
    var content := readme.value;
    var missing: seq<string> := [];
    var fixes: seq<string> := [];
    var i := 0;
    while i < |sections|
      invariant 0 <= i <= |sections|
      invariant missing == Filter(sections[..i], AbsentFrom(content))
      invariant fixes == Map(missing, Stub)
    {
      assert sections[..i + 1][..i] == sections[..i];
      var section := sections[i];
      if !Contains(Lower(content), Lower(section)) {
        assert (missing + [section])[..|missing|] == missing;
        missing := missing + [section];
        fixes := fixes + ["## " + section + "\n\n_TODO_\n"];
      }
      i := i + 1;
    }
    assert sections[..i] == sections;
    var written: Option<string> := None;
    if fixes != [] {
      written := Some(content + "\n\n" + Join("\n", fixes));
    }
    scan := ReadmeScan(TenOffPer(|missing|), missing, if fixes != [] then [SectionsAdded] else [], written);
  }

  /** Every section the patch was asked for, and every section the text
      already had, occurs in the patched text. */
  lemma PatchKeeps(content: string, missing: seq<string>, s: string)
    requires s in missing || Contains(Lower(content), Lower(s))
    ensures Contains(Lower(Patched(content, missing)), Lower(s))
  {
    var stubs := Join("\n", Map(missing, Stub));
    var patched := Patched(content, missing);
    assert patched == content + ("\n\n" + stubs);
    if s in missing {
      var k :| 0 <= k < |missing| && missing[k] == s;
      JoinContainsPart("\n", Map(missing, Stub), k);
      ContainsAt(Stub(s), s, 3);
      ContainsTrans(stubs, Stub(s), s);
      ContainsAppendRight(content + "\n\n", stubs, s);
      ContainsLower(patched, s);
    } else {
      LowerAppend(content, "\n\n" + stubs);
      ContainsAppendLeft(Lower(content), Lower("\n\n" + stubs), Lower(s));
    }
  }

  /** A second scan of the patched README finds every section, so it scores
      100 and writes nothing. */
  lemma PatchedReadmeComplete(sections: seq<string>, content: string)
    ensures MissingFrom(sections, Patched(content, MissingFrom(sections, content))) == []
    ensures ReadmeScanOf(sections, Some(Patched(content, MissingFrom(sections, content)))) ==
      ReadmeScan(100, [], [], None)
  {
    var missing := MissingFrom(sections, content);
    var patched := Patched(content, missing);
    FilterMembers(sections, AbsentFrom(content));
    forall i | 0 <= i < |sections| ensures !AbsentFrom(patched)(sections[i]) {
      PatchKeeps(content, missing, sections[i]);
    }
    FilterNone(sections, AbsentFrom(patched));
  }

  /** With the seven configured sections the README score never drops below 30
      once a README exists, and it is 100 exactly when nothing is missing. */
  lemma ReadmeScoreBounds(content: string)
    ensures ReadmeScanOf(RequiredSections, Some(content)).score >= 30
    ensures ReadmeScanOf(RequiredSections, Some(content)).score == 100 <==>
      MissingFrom(RequiredSections, content) == []
  {
  }

  // ---------------------------------------------------------------------------
  // Cloud relevance
  // ---------------------------------------------------------------------------

  /** Every file's text, lower-cased and concatenated in walk order. */
  function Corpus(files: seq<File>): string {
    if files == [] then "" else Corpus(files[..|files| - 1]) + Lower(SafeRead(files[|files| - 1]))
  }

  function InText(text: string): string -> bool {
    keyword => Contains(text, keyword)
  }

  /** The number of listed keywords (duplicates counted as listed) occurring in the text. */
  function Hits(keywords: seq<string>, text: string): nat {
    CountIf(keywords, InText(text))
  }

  function Min(a: int, b: int): int {
    if a < b then a else b
  }

  function CloudScoreOf(keywords: seq<string>, files: seq<File>): (score: int)
    requires keywords != []
    ensures 0 <= score <= 100
  {
    Min(100, Share(Hits(keywords, Corpus(files)), |keywords|))
  }

  function CloudNotes(score: int): seq<string> {
    if score < 70 then [CloudTip] else []
  }

  /** `scan_cloud_relevance`: concatenate the lower-cased files, count the
      keywords found, and scale to a percentage. */
  method ScanCloudRelevance(keywords: seq<string>, files: seq<File>) returns (score: int, suggestions: seq<string>)
    requires keywords != []
    ensures score == CloudScoreOf(keywords, files)
    ensures 0 <= score <= 100
    ensures suggestions == CloudNotes(score)
  {
    var text := "";
    var i := 0;
    while i < |files|
      invariant 0 <= i <= |files|
      invariant text == Corpus(files[..i])
    {
      assert files[..i + 1][..i] == files[..i];
      text := text + Lower(SafeRead(files[i]));
      i := i + 1;
    }
    assert files[..i] == files;
    var hits := 0;
    i := 0;
    while i < |keywords|
      invariant 0 <= i <= |keywords|
      invariant hits == CountIf(keywords[..i], InText(text))
    {
      assert keywords[..i + 1][..i] == keywords[..i];
      if Contains(text, keywords[i]) {
        hits := hits + 1;
      }
      i := i + 1;
    }
    assert keywords[..i] == keywords;
    score := Min(100, Share(hits, |keywords|));
    suggestions := if score < 70 then [CloudTip] else [];
  }

  lemma CorpusAppend(files: seq<File>, more: seq<File>)
    ensures Corpus(files + more) == Corpus(files) + Corpus(more)
  {
    if more == [] {
      assert files + more == files;
    } else {
      var init := more[..|more| - 1];
      assert (files + more)[..|files + more| - 1] == files + init;
      assert (files + more)[|files + more| - 1] == more[|more| - 1];
      CorpusAppend(files, init);
      var last := Lower(SafeRead(more[|more| - 1]));
      assert Corpus(files) + Corpus(init) + last == Corpus(files) + (Corpus(init) + last);
    }
  }

  /** More files can only raise the cloud score: each keyword found in a
      corpus is still found once more text follows it. */
  lemma CloudScoreMonotone(keywords: seq<string>, files: seq<File>, more: seq<File>)
    requires keywords != []
    ensures CloudScoreOf(keywords, files) <= CloudScoreOf(keywords, files + more)
  {
    var a, b := Corpus(files), Corpus(more);
    CorpusAppend(files, more);
    forall kw | InText(a)(kw) ensures InText(a + b)(kw) {
      ContainsAppendLeft(a, b, kw);
    }
    FilterWeaker(keywords, InText(a), InText(a + b));
    ShareMonotone(Hits(keywords, a), Hits(keywords, a + b), |keywords|);
  }

  /** With the ten configured keywords each one found is worth ten points. */
  lemma CloudScoreTens(files: seq<File>)
    ensures CloudScoreOf(CloudKeywords, files) == 10 * Hits(CloudKeywords, Corpus(files))
  {
  }

  // ---------------------------------------------------------------------------
  // Documentation headers
  // ---------------------------------------------------------------------------

  /** A script is a file whose suffix is one of `exts`. */
  predicate IsCode(exts: seq<string>, f: File) {
    Suffix(f.name) in exts
  }

  /** A script counts as commented when its text holds `"""` or `#`. */
  predicate IsCommented(f: File) {
    Contains(SafeRead(f), "\"\"\"") || Contains(SafeRead(f), "#")
  }

  function CodeIn(exts: seq<string>): File -> bool {
    f => IsCode(exts, f)
  }

  function CommentedCodeIn(exts: seq<string>): File -> bool {
    f => IsCode(exts, f) && IsCommented(f)
  }

  function NeedsHeaderIn(exts: seq<string>): File -> bool {
    f => IsCode(exts, f) && !IsCommented(f)
  }

  function Header(name: string): string {
    "\"\"\"\n" + name + " - Entry-level cloud script\n\"\"\"\n\n"
  }

  /** A script with no comment gets the header docstring in front of its text. */
  function AddHeader(exts: seq<string>, f: File): File {
    if IsCode(exts, f) && !IsCommented(f) then f.(content := Some(Header(f.name) + SafeRead(f))) else f
  }

  function AddHeaderIn(exts: seq<string>): File -> File {
    f => AddHeader(exts, f)
  }

  /** One note per script that received a header, in walk order. */
  function HeaderNotes(exts: seq<string>, files: seq<File>): seq<string> {
    if files == [] then []
    else
      var f := files[|files| - 1];
      HeaderNotes(exts, files[..|files| - 1])
      + (if IsCode(exts, f) && !IsCommented(f) then ["Added docstring to " + f.name] else [])
  }

  function DocsScoreOf(exts: seq<string>, files: seq<File>): (score: int)
    ensures 0 <= score <= 100
  {
    var total := CountIf(files, CodeIn(exts));
    FilterWeaker(files, CommentedCodeIn(exts), CodeIn(exts));
    if total == 0 then 0 else Share(CountIf(files, CommentedCodeIn(exts)), total)
  }

  function DocsNotesOf(exts: seq<string>, files: seq<File>): seq<string> {
    if CountIf(files, CodeIn(exts)) == 0 then [NoCode]
    else
      (if DocsScoreOf(exts, files) < 70 then [DocsTip] else [])
      + HeaderNotes(exts, files)
  }

  lemma AddHeadersStep(exts: seq<string>, files: seq<File>, i: nat)
    requires i < |files|
    ensures CountIf(files[..i + 1], CommentedCodeIn(exts)) ==
      CountIf(files[..i], CommentedCodeIn(exts)) + (if IsCode(exts, files[i]) && IsCommented(files[i]) then 1 else 0)
    ensures HeaderNotes(exts, files[..i + 1]) == HeaderNotes(exts, files[..i])
      + (if IsCode(exts, files[i]) && !IsCommented(files[i]) then ["Added docstring to " + files[i].name] else [])
    ensures Map(files[..i + 1], AddHeaderIn(exts)) == Map(files[..i], AddHeaderIn(exts)) + [AddHeader(exts, files[i])]
  {
    assert files[..i + 1] == files[..i] + [files[i]];
    FilterSnoc(files[..i], files[i], CommentedCodeIn(exts));
    MapSnoc(files[..i], files[i], AddHeaderIn(exts));
  }

  /** The loop of `scan_docs`: count the commented scripts, give every other
      script the header docstring and note it. */
  method AddHeaders(exts: seq<string>, files: seq<File>) returns (commented: nat, fixes: seq<string>, after: seq<File>)
    ensures commented == CountIf(files, CommentedCodeIn(exts))
    ensures fixes == HeaderNotes(exts, files)
    ensures after == Map(files, AddHeaderIn(exts))
  {
    commented := 0;
    fixes := [];
    after := [];
    var i := 0;
    while i < |files|
      invariant 0 <= i <= |files|
      invariant commented == CountIf(files[..i], CommentedCodeIn(exts))
      invariant fixes == HeaderNotes(exts, files[..i])
      invariant after == Map(files[..i], AddHeaderIn(exts))
    {
      AddHeadersStep(exts, files, i);
      var f := files[i];
      if Suffix(f.name) in exts {
        var content := SafeRead(f);
        if IsCommented(f) {
          commented := commented + 1;
          after := after + [f];
        } else {
          after := after + [f.(content := Some(Header(f.name) + content))];
          fixes := fixes + ["Added docstring to " + f.name];
        }
      } else {
        after := after + [f];
      }
      i := i + 1;
    }
    assert files[..i] == files;
  }

  /** `scan_docs`: with no script, report it and change nothing; otherwise
      add the missing headers and score the share of scripts that were
      already commented. */
  method ScanDocs(exts: seq<string>, files: seq<File>) returns (score: int, suggestions: seq<string>, after: seq<File>)
    ensures score == DocsScoreOf(exts, files) && 0 <= score <= 100
    ensures suggestions == DocsNotesOf(exts, files)
    ensures after == Map(files, AddHeaderIn(exts))
  {
    var total := CountIf(files, CodeIn(exts));
    if total == 0 {
      FilterMembers(files, CodeIn(exts));
      forall i | 0 <= i < |files| ensures AddHeader(exts, files[i]) == files[i] {
        assert files[i] !in Filter(files, CodeIn(exts));
      }
      return 0, [NoCode], files;
    }
    var commented, fixes;
    commented, fixes, after := AddHeaders(exts, files);
    FilterWeaker(files, CommentedCodeIn(exts), CodeIn(exts));
    score := Share(commented, total);
    suggestions := (if score < 70 then [DocsTip] else []) + fixes;
  }

  /** After the headers are added every script is commented: a second scan
      scores 100 whenever there are scripts, and adds no header again. */
  lemma HeadersComplete(exts: seq<string>, files: seq<File>)
    ensures Filter(Map(files, AddHeaderIn(exts)), NeedsHeaderIn(exts)) == []
    ensures CountIf(files, CodeIn(exts)) > 0 ==> DocsScoreOf(exts, Map(files, AddHeaderIn(exts))) == 100
    ensures Map(Map(files, AddHeaderIn(exts)), AddHeaderIn(exts)) == Map(files, AddHeaderIn(exts))
  {
    var after := Map(files, AddHeaderIn(exts));
    forall i | 0 <= i < |after|
      ensures after[i].name == files[i].name
      ensures IsCode(exts, after[i]) == IsCode(exts, files[i])
      ensures IsCode(exts, after[i]) ==> IsCommented(after[i])
    {
      if IsCode(exts, files[i]) && !IsCommented(files[i]) {
        var h := Header(files[i].name);
        assert SafeRead(after[i]) == h + SafeRead(files[i]);
        ContainsAt(h, "\"\"\"", 0);
        ContainsAppendLeft(h, SafeRead(files[i]), "\"\"\"");
      }
    }
    FilterNone(after, NeedsHeaderIn(exts));
    CountMapped(files, AddHeaderIn(exts), CodeIn(exts), CodeIn(exts));
    FilterSame(after, CommentedCodeIn(exts), CodeIn(exts));
  }

  // ---------------------------------------------------------------------------
  // Layout
  // ---------------------------------------------------------------------------

  function AbsentIn(present: set<string>): string -> bool {
    e => e !in present
  }

  function ConsiderAdding(missing: seq<string>): seq<string> {
    if missing == [] then [] else ["Consider adding: " + Join(", ", missing)]
  }

  /** `scan_structure`: ten points off per expected top-level entry that does
      not exist, and one suggestion naming them all. */
  method ScanStructure(expected: seq<string>, present: set<string>)
    returns (score: int, missing: seq<string>, suggestions: seq<string>)
    ensures missing == Filter(expected, AbsentIn(present))
    ensures score == TenOffPer(|missing|)
    ensures suggestions == ConsiderAdding(missing)
  {
    score := 100;
    missing := [];
    var i := 0;
    while i < |expected|
      invariant 0 <= i <= |expected|
      invariant missing == Filter(expected[..i], AbsentIn(present))
      invariant score == 100 - 10 * |missing|
    {
      assert expected[..i + 1][..i] == expected[..i];
      if expected[i] !in present {
        missing := missing + [expected[i]];
        score := score - 10;
      }
      i := i + 1;
    }
    assert expected[..i] == expected;
    suggestions := if missing != [] then ["Consider adding: " + Join(", ", missing)] else [];
    score := if score > 0 then score else 0;
  }

  /** With the three expected entries the layout score is at least 70, and it
      is 100 exactly when all of them exist. */
  lemma StructureScoreBounds(present: set<string>)
    ensures TenOffPer(|Filter(Expected, AbsentIn(present))|) >= 70
    ensures TenOffPer(|Filter(Expected, AbsentIn(present))|) == 100 <==>
      forall e :: e in Expected ==> e in present
  {
    FilterAll(Expected, (e: string) => e in present);
    FilterPartition(Expected, (e: string) => e in present, AbsentIn(present));
  }

  // ---------------------------------------------------------------------------
  // One repository and the folder
  // ---------------------------------------------------------------------------

  /** The weighted total: 30% cloud, 25% README, 25% docs, 10% layout, and
      10% of a bonus worth 100 when the README scores over 70 and 50 otherwise. */
  function Total(cloud: int, readme: int, docs: int, layout: int): (t: real)
    requires 0 <= cloud <= 100 && 0 <= readme <= 100 && 0 <= docs <= 100 && 0 <= layout <= 100
    ensures 5.0 <= t <= 100.0
    ensures t == 100.0 <==> cloud == 100 && readme == 100 && docs == 100 && layout == 100
  {
    cloud as real * 0.30 + readme as real * 0.25 + docs as real * 0.25 + layout as real * 0.10
    + (if readme > 70 then 100.0 else 50.0) * 0.10
  }

  datatype Audit = Audit(
    name: string,
    cloud: int,
    readme: int,
    docs: int,
    layout: int,
    total: real,
    suggestions: seq<string>)

  /** The repository once the README stubs are written. */
  function AfterReadme(repo: Repo): Repo {
    var scan := ReadmeScanOf(RequiredSections, repo.readme);
    if scan.written.Some? then WithReadme(repo, scan.written.value) else repo
  }

  /** The repository once the README stubs and the script headers are written. */
  function AfterAudit(repo: Repo): Repo {
    var r := AfterReadme(repo);
    r.(files := Map(r.files, AddHeaderIn(CodeExtensions)))
  }

  /** What `audit_repo` reports. The cloud keywords are counted after the
      README was patched, and the scripts are judged before their headers
      are added, as the scans run in that order. */
  function AuditOf(repo: Repo): (a: Audit)
    ensures 5.0 <= a.total <= 100.0
    ensures a.total == 100.0 <==> a.cloud == 100 && a.readme == 100 && a.docs == 100 && a.layout == 100
  {
    var scan := ReadmeScanOf(RequiredSections, repo.readme);
    var patched := AfterReadme(repo);
    var cloud := CloudScoreOf(CloudKeywords, patched.files);
    var docs := DocsScoreOf(CodeExtensions, patched.files);
    var layoutMissing := Filter(Expected, AbsentIn(repo.topFiles + repo.topDirs));
    var layout := TenOffPer(|layoutMissing|);
    CloudScoreTens(patched.files);
    Audit(repo.name, cloud, scan.score, docs, layout, Total(cloud, scan.score, docs, layout),
      scan.missing + CloudNotes(cloud) + DocsNotesOf(CodeExtensions, patched.files) + ConsiderAdding(layoutMissing))
  }

  /** The first scan of `audit_repo`, and its write to README.md. */
  method PatchReadme(repo: Repo) returns (scan: ReadmeScan, current: Repo)
    ensures scan == ReadmeScanOf(RequiredSections, repo.readme)
    ensures current == AfterReadme(repo)
  {
    scan := ScanReadme(RequiredSections, repo.readme);
    current := repo;
    if scan.written.Some? {
      current := WithReadme(current, scan.written.value);
    }
  }

  /** `audit_repo`: the four scans in order, each seeing what the previous one wrote. */
  method AuditRepo(repo: Repo) returns (audit: Audit, after: Repo)
    ensures audit == AuditOf(repo)
    ensures after == AfterAudit(repo)
    ensures 5.0 <= audit.total <= 100.0
  {
    var readme, current := PatchReadme(repo);
    var cloud, cloudNotes := ScanCloudRelevance(CloudKeywords, current.files);
    var docs, docsNotes, files := ScanDocs(CodeExtensions, current.files);
    var layout, missing, layoutNotes := ScanStructure(Expected, repo.topFiles + repo.topDirs);
    var total := Total(cloud, readme.score, docs, layout);
    audit := Audit(repo.name, cloud, readme.score, docs, layout, total,
      readme.missing + cloudNotes + docsNotes + layoutNotes);
    after := current.(files := files);
  }

  /** A second audit of an audited repository finds no README section missing
      and no script without a comment. */
  lemma AuditSettles(repo: Repo)
    requires repo.readme.Some?
    ensures ReadmeScanOf(RequiredSections, AfterAudit(repo).readme).missing == []
    ensures Filter(AfterAudit(repo).files, NeedsHeaderIn(CodeExtensions)) == []
  {
    var content := repo.readme.value;
    PatchedReadmeComplete(RequiredSections, content);
    HeadersComplete(CodeExtensions, AfterReadme(repo).files);
  }

  /** The folder walk audits the directories whose names do not start with a dot. */
  predicate IsAudited(e: Entry) {
    e.Directory? && !("." <= e.Name())
  }

  function Audits(entries: seq<Entry>): seq<Audit> {
    if entries == [] then []
    else
      var e := entries[|entries| - 1];
      Audits(entries[..|entries| - 1]) + (if IsAudited(e) then [AuditOf(e.repo)] else [])
  }

  function EntryAfter(e: Entry): Entry {
    if IsAudited(e) then Directory(AfterAudit(e.repo)) else e
  }

  /** One audited directory per audit. */
  lemma {:induction false} AuditsCounted(entries: seq<Entry>)
    ensures |Audits(entries)| == CountIf(entries, IsAudited)
  {
    if entries != [] {
      var init := entries[..|entries| - 1];
      AuditsCounted(init);
      FilterSnoc(init, entries[|entries| - 1], IsAudited);
      assert init + [entries[|entries| - 1]] == entries;
    }
  }

  lemma AuditFolderStep(entries: seq<Entry>, i: nat)
    requires i < |entries|
    ensures Audits(entries[..i + 1]) ==
      Audits(entries[..i]) + (if IsAudited(entries[i]) then [AuditOf(entries[i].repo)] else [])
    ensures Map(entries[..i + 1], EntryAfter) == Map(entries[..i], EntryAfter) + [EntryAfter(entries[i])]
  {
    assert entries[..i + 1] == entries[..i] + [entries[i]];
    MapSnoc(entries[..i], entries[i], EntryAfter);
  }

  /** `main`: audit every visible directory of the folder, in listing order. */
  method AuditFolder(entries: seq<Entry>) returns (audits: seq<Audit>, after: seq<Entry>)
    ensures audits == Audits(entries)
    ensures |audits| == CountIf(entries, IsAudited)
    ensures after == Map(entries, EntryAfter)
  {
    audits := [];
    after := [];
    var i := 0;
    while i < |entries|
      invariant 0 <= i <= |entries|
      invariant audits == Audits(entries[..i])
      invariant after == Map(entries[..i], EntryAfter)
    {
      AuditFolderStep(entries, i);
      var e := entries[i];
      if IsAudited(e) {
        var audit, repo := AuditRepo(e.repo);
        audits := audits + [audit];
        after := after + [Directory(repo)];
      } else {
        after := after + [e];
      }
      i := i + 1;
    }
    assert entries[..i] == entries;
    AuditsCounted(entries);
  }
}
