/** The portfolio booster: fills in the README sections an analyzer looks for,
    deletes whole-word TODO markers and prepends documentation headers to
    scripts, then creates placeholder repositories to reach ten in total. */
module PortfolioBooster {
  import opened Wrappers
  import opened Seqs
  import opened Text
  import opened Fs

  /** The section table, in its iteration order: each key with the text that
      follows its `## <key>` heading in the block appended for it. */
  const Sections: seq<(string, string)> := [
    ("TL;DR", "\nA concise summary of this project and its purpose."),
    ("Incident Scenarios", "\nExample incidents and how this project addresses them."),
    ("Setup Instructions", "\n1. Clone the repo\n2. Install dependencies (`pip install -r requirements.txt`)\n3. Configure environment variables if required\n4. Run scripts or tests"),
    ("Usage Examples", "\n```bash\npython script_name.py --example-arg value\n``` Replace with actual usage commands."),
    ("Screenshots", "\nInclude screenshots of outputs, dashboards, or UI if available. Example:\n![Example](path_to_screenshot.png)"),
    ("Contact", "\nReach me at your-email@example.com or GitHub: https://github.com/Charles-Bucher")
  ]

  const PlaceholderRepos: seq<string> := ["CloudSnippets", "AWS_QuickLabs", "CloudUtils"]
  const ScriptExtensions: seq<string> := [".py", ".ps1", ".sh"]
  const TargetCount := 10

  // ---------------------------------------------------------------------------
  // README
  // ---------------------------------------------------------------------------

  function Key(entry: (string, string)): string {
    entry.0
  }

  /** The text of a section: its heading, then the rest. */
  function SectionText(entry: (string, string)): string {
    "## " + entry.0 + entry.1
  }

  function Block(entry: (string, string)): string {
    "\n" + SectionText(entry) + "\n"
  }

  /** `update_readme`: start from a title line when there is no README, then
      append the text of every key that does not occur in the text so far.
      The file is written back in every case. */
  function UpdatedReadme(table: seq<(string, string)>, name: string, readme: Option<string>): (r: string)
    ensures readme.Some? ==> readme.value <= r
  {
    AppendMissing(if readme.Some? then readme.value else "# " + name + "\n\n", table, Key, Block)
  }

  method UpdateReadme(table: seq<(string, string)>, name: string, readme: Option<string>) returns (content: string)
    ensures content == UpdatedReadme(table, name, readme)
  {
    if readme.None? {
      content := "# " + name + "\n\n";
    } else {
      content := readme.value;
    }
    ghost var start := content;
    var i := 0;
    while i < |table|
      invariant 0 <= i <= |table|
      invariant content == AppendMissing(start, table[..i], Key, Block)
    {
      assert table[..i + 1][..i] == table[..i];
      if !Contains(content, table[i].0) {
        content := content + Block(table[i]);
      }
      i := i + 1;
    }
    assert table[..i] == table;
  }

  lemma BlockHasKey(table: seq<(string, string)>)
    ensures forall k :: 0 <= k < |table| ==> Contains(Block(table[k]), Key(table[k]))
  {
    forall k | 0 <= k < |table| ensures Contains(Block(table[k]), Key(table[k])) {
      var key := table[k].0;
      assert Block(table[k]) == "\n## " + key + (table[k].1 + "\n");
      assert Block(table[k])[4..] == key + (table[k].1 + "\n");
      ContainsAt(Block(table[k]), key, 4);
    }
  }

  /** After one pass every key occurs in the README. */
  lemma UpdateComplete(table: seq<(string, string)>, name: string, readme: Option<string>)
    ensures forall k :: 0 <= k < |table| ==> Contains(UpdatedReadme(table, name, readme), table[k].0)
  {
    BlockHasKey(table);
    AppendMissingHasAll(if readme.Some? then readme.value else "# " + name + "\n\n", table, Key, Block);
  }

  /** A second pass leaves the README as the first one wrote it. */
  lemma UpdateIdempotent(table: seq<(string, string)>, name: string, readme: Option<string>)
    ensures UpdatedReadme(table, name, Some(UpdatedReadme(table, name, readme))) == UpdatedReadme(table, name, readme)
  {
    UpdateComplete(table, name, readme);
    AppendMissingNoop(UpdatedReadme(table, name, readme), table, Key, Block);
  }

  // ---------------------------------------------------------------------------
  // TODO removal
  // ---------------------------------------------------------------------------

  /** `re.sub(r"\bw\b", "", s)` from position `i` on: matches are found left to
      right on the original text and do not overlap. */
  function RemoveWordFrom(s: string, w: string, i: nat): (r: string)
    requires i <= |s|
    ensures |r| <= |s| - i
    decreases |s| - i
  {
    if i == |s| then []
    else if |w| > 0 && WordAt(s, w, i) then RemoveWordFrom(s, w, i + |w|)
    else [s[i]] + RemoveWordFrom(s, w, i + 1)
  }

  function RemoveWord(s: string, w: string): string {
    RemoveWordFrom(s, w, 0)
  }

  /** Without a match from `i` on the text is kept as it is. */
  lemma {:induction false} RemoveNothing(s: string, w: string, i: nat)
    requires i <= |s|
    requires forall j :: i <= j < |s| ==> !WordAt(s, w, j)
    ensures RemoveWordFrom(s, w, i) == s[i..]
    decreases |s| - i
  {
    if i < |s| {
      RemoveNothing(s, w, i + 1);
      assert s[i..] == [s[i]] + s[i + 1..];
    }
  }

  /** A match from `i` on makes the text shorter. */
  lemma {:induction false} RemoveShortens(s: string, w: string, i: nat, j: nat)
    requires i <= j < |s| && |w| > 0 && WordAt(s, w, j)
    ensures |RemoveWordFrom(s, w, i)| < |s| - i
    decreases |s| - i
  {
    if !WordAt(s, w, i) {
      RemoveShortens(s, w, i + 1, j);
    }
  }

  /** The text changes, and so is rewritten, exactly when it has a whole-word match. */
  lemma RemoveChangesIff(s: string, w: string)
    requires |w| > 0
    ensures RemoveWord(s, w) != s <==> HasWord(s, w)
  {
    if HasWord(s, w) {
      var j :| 0 <= j <= |s| && WordAt(s, w, j);
      RemoveShortens(s, w, 0, j);
    } else {
      RemoveNothing(s, w, 0);
    }
  }

  /** Every character of `w` is a word character, as in `TODO`. */
  predicate AllWordChars(w: string) {
    forall k :: 0 <= k < |w| ==> IsWordChar(w[k])
  }

  /** Without a match in `[i, k)` the scan copies `s[i..k]` as it is. */
  lemma {:induction false} RemoveCopies(s: string, w: string, i: nat, k: nat)
    requires i <= k <= |s|
    requires forall j :: i <= j < k ==> !WordAt(s, w, j)
    ensures RemoveWordFrom(s, w, i) == s[i..k] + RemoveWordFrom(s, w, k)
    decreases k - i
  {
    if i < k {
      RemoveCopies(s, w, i + 1, k);
      SliceCons(s, i, k, RemoveWordFrom(s, w, k));
    }
  }

  /** A whole word of `a + b` that ends within `a` is a whole word of `a`. */
  lemma WordInLeft(a: string, b: string, w: string, j: nat)
    requires WordAt(a + b, w, j) && j + |w| <= |a|
    ensures WordAt(a, w, j)
  {
    var x := a + b;
    assert a[j..j + |w|] == x[j..j + |w|];
    if j + |w| < |a| {
      assert x[j + |w|] == a[j + |w|];
    }
  }

  /** A whole word of `a + b` that starts within `b` is a whole word of `b`. */
  lemma WordInRight(a: string, b: string, w: string, j: nat)
    requires WordAt(a + b, w, j) && j >= |a|
    ensures WordAt(b, w, j - |a|)
  {
    var x := a + b;
    assert x[|a|..] == b;
    assert b[j - |a|..j - |a| + |w|] == x[j..j + |w|];
  }

  /** A match of a word made of word characters cannot straddle a character
      that is not a word character. */
  lemma NoStraddle(a: string, b: string, w: string, j: nat)
    requires AllWordChars(w)
    requires a == [] || !IsWordChar(a[|a| - 1])
    requires WordAt(a + b, w, j)
    ensures j + |w| <= |a| || j >= |a|
  {
    var x := a + b;
    if j < |a| {
      forall t | j <= t < j + |w| ensures IsWordChar(x[t]) {
        assert x[t] == x[j..j + |w|][t - j];
      }
      assert x[|a| - 1] == a[|a| - 1];
    }
  }

  /** Two texts without a whole-word `w` give none when joined, provided the
      first ends with a character that is not a word character. */
  lemma NoWordJoined(a: string, b: string, w: string)
    requires AllWordChars(w)
    requires a == [] || !IsWordChar(a[|a| - 1])
    requires !HasWord(a, w) && !HasWord(b, w)
    ensures !HasWord(a + b, w)
  {
    forall j | 0 <= j <= |a + b| && WordAt(a + b, w, j) ensures false {
      NoStraddle(a, b, w, j);
      if j + |w| <= |a| {
        WordInLeft(a, b, w, j);
      } else {
        WordInRight(a, b, w, j);
      }
    }
  }

  /** The end of the run of word characters that starts at `i`. */
  function RunEnd(s: string, i: nat): (k: nat)
    requires i <= |s|
    ensures i <= k <= |s|
    ensures forall j :: i <= j < k ==> IsWordChar(s[j])
    ensures k == |s| || !IsWordChar(s[k])
    decreases |s| - i
  {
    if i == |s| || !IsWordChar(s[i]) then i else RunEnd(s, i + 1)
  }

  /** A run of word characters that starts after a non-word character and is
      not `w` holds no whole-word `w`, even with the character that ends it:
      `e` is the end of the run, or one past the character that ends it. */
  lemma KeptRunHasNoWord(s: string, w: string, i: nat, e: nat)
    requires AllWordChars(w) && |w| > 0
    requires i <= e <= |s| && (i == 0 || !IsWordChar(s[i - 1]))
    requires forall j :: i <= j < e - 1 ==> IsWordChar(s[j])
    requires e == |s| || (e > i && !IsWordChar(s[e - 1]))
    requires !WordAt(s, w, i)
    ensures !HasWord(s[i..e], w)
  {
    var seg := s[i..e];
    if j :| 0 <= j <= |seg| && WordAt(seg, w, j) {
    }
  }

  /** A lone character that is not a word character holds no whole word. */
  lemma SeparatorHasNoWord(c: char, w: string)
    requires AllWordChars(w) && |w| > 0 && !IsWordChar(c)
    ensures !HasWord([c], w)
  {
    assert w != [c] by {
      assert IsWordChar(w[0]);
    }
    assert [c][0..1] == [c];
  }

  /** A match at `i` is dropped together with nothing else, and the character
      after it, which is not a word character, is copied. */
  lemma MatchDropped(s: string, w: string, i: nat)
    requires AllWordChars(w) && |w| > 0
    requires WordAt(s, w, i) && i + |w| < |s|
    requires !HasWord(RemoveWordFrom(s, w, i + |w| + 1), w)
    ensures !HasWord(RemoveWordFrom(s, w, i), w)
  {
    var m := i + |w|;
    MatchSkipped(s, w, i);
    SeparatorHasNoWord(s[m], w);
    JoinKept(RemoveWordFrom(s, w, i), [s[m]], RemoveWordFrom(s, w, m + 1), w);
  }

  /** The scan drops a match and copies the separator after it. */
  lemma MatchSkipped(s: string, w: string, i: nat)
    requires AllWordChars(w) && |w| > 0
    requires WordAt(s, w, i) && i + |w| < |s|
    ensures !IsWordChar(s[i + |w|])
    ensures RemoveWordFrom(s, w, i) == [s[i + |w|]] + RemoveWordFrom(s, w, i + |w| + 1)
  {
    var m := i + |w|;
    assert !WordAt(s, w, m) by {
      assert IsWordChar(w[0]);
    }
    assert RemoveWordFrom(s, w, i) == RemoveWordFrom(s, w, m);
  }

  /** Without a match at `i`, a run of word characters from `i` and the
      character after it are copied as they are. */
  lemma RunCopied(s: string, w: string, i: nat, e: nat)
    requires i < e <= |s| && !WordAt(s, w, i)
    requires forall j :: i <= j < e - 1 ==> IsWordChar(s[j])
    ensures RemoveWordFrom(s, w, i) == s[i..e] + RemoveWordFrom(s, w, e)
  {
    forall j | i < j < e ensures !WordAt(s, w, j) {
      assert IsWordChar(s[j - 1]);
    }
    RemoveCopies(s, w, i, e);
  }

  /** Joining with an equal text: the form in which the scan's copy is used. */
  lemma JoinKept(x: string, seg: string, rest: string, w: string)
    requires AllWordChars(w) && x == seg + rest
    requires seg == [] || !IsWordChar(seg[|seg| - 1])
    requires !HasWord(seg, w) && !HasWord(rest, w)
    ensures !HasWord(x, w)
  {
    NoWordJoined(seg, rest, w);
  }

  /** A run ended by a separator at `k` is copied with it, and the copy holds
      no whole word when what follows it holds none. */
  lemma RunKeptBefore(s: string, w: string, i: nat, k: nat)
    requires AllWordChars(w) && |w| > 0 && i <= k < |s|
    requires i == 0 || !IsWordChar(s[i - 1])
    requires !WordAt(s, w, i)
    requires forall j :: i <= j < k ==> IsWordChar(s[j])
    requires !IsWordChar(s[k])
    requires !HasWord(RemoveWordFrom(s, w, k + 1), w)
    ensures !HasWord(RemoveWordFrom(s, w, i), w)
  {
    KeptRunHasNoWord(s, w, i, k + 1);
    RunCopied(s, w, i, k + 1);
    assert s[i..k + 1][k - i] == s[k];
    JoinKept(RemoveWordFrom(s, w, i), s[i..k + 1], RemoveWordFrom(s, w, k + 1), w);
  }

  /** A run that reaches the end of the text is copied and holds no whole word. */
  lemma RunKeptToEnd(s: string, w: string, i: nat)
    requires AllWordChars(w) && |w| > 0 && i < |s|
    requires i == 0 || !IsWordChar(s[i - 1])
    requires !WordAt(s, w, i)
    requires forall j :: i <= j < |s| ==> IsWordChar(s[j])
    ensures !HasWord(RemoveWordFrom(s, w, i), w)
  {
    KeptRunHasNoWord(s, w, i, |s|);
    RunCopied(s, w, i, |s|);
    assert s[i..|s|] + RemoveWordFrom(s, w, |s|) == s[i..|s|];
  }

  /** From a position that does not follow a word character on, the removal
      leaves no whole-word `w` behind: the characters around a removed match
      are not word characters, so no new match can form across it. */
  lemma {:induction false} RemovedLeavesNoWord(s: string, w: string, i: nat)
    requires AllWordChars(w) && |w| > 0 && i <= |s|
    requires i == 0 || !IsWordChar(s[i - 1])
    ensures !HasWord(RemoveWordFrom(s, w, i), w)
    decreases |s| - i
  {
    if i == |s| {
      assert RemoveWordFrom(s, w, i) == [];
    } else if WordAt(s, w, i) {
      if i + |w| < |s| {
        RemovedLeavesNoWord(s, w, i + |w| + 1);
        MatchDropped(s, w, i);
      } else {
        assert RemoveWordFrom(s, w, i) == RemoveWordFrom(s, w, |s|) == [];
      }
    } else {
      var k := RunEnd(s, i);
      if k < |s| {
        RemovedLeavesNoWord(s, w, k + 1);
        RunKeptBefore(s, w, i, k);
      } else {
        RunKeptToEnd(s, w, i);
      }
    }
  }

  /** After `re.sub(r"\bTODO\b", "", s)` no whole-word TODO is left. */
  lemma TodoGone(s: string)
    ensures !HasWord(RemoveWord(s, "TODO"), "TODO")
  {
    assert AllWordChars("TODO");
    RemovedLeavesNoWord(s, "TODO", 0);
  }

  /** So a second removal changes nothing. */
  lemma RemoveTodoIdempotent(s: string)
    ensures RemoveWord(RemoveWord(s, "TODO"), "TODO") == RemoveWord(s, "TODO")
  {
    TodoGone(s);
    RemoveChangesIff(RemoveWord(s, "TODO"), "TODO");
  }

  /** A script file: one of the listed endings. */
  predicate IsScript(exts: seq<string>, f: File) {
    EndsWithAny(f.name, exts)
  }

  /** A script `open` fails on. The scripts catch no error, so the run ends there. */
  predicate Unreadable(exts: seq<string>, f: File) {
    IsScript(exts, f) && f.content.None?
  }

  function UnreadableIn(exts: seq<string>): File -> bool {
    f => Unreadable(exts, f)
  }

  /** A fixing walk: the files before the first unreadable script are fixed;
      opening that script raises, and it and the files after it stay as they were. */
  function Walked(exts: seq<string>, fix: File -> File, files: seq<File>): (r: seq<File>)
    ensures |r| == |files|
  {
    var k := FirstWhere(files, UnreadableIn(exts));
    Map(files[..k], fix) + files[k..]
  }

  /** A script after `remove_todos`; other files stay. */
  function TodoFree(exts: seq<string>, f: File): File {
    if IsScript(exts, f) && f.content.Some? then f.(content := Some(RemoveWord(f.content.value, "TODO"))) else f
  }

  function Rewritten(fix: File -> File, files: seq<File>): (r: seq<string>)
    ensures |r| <= |files|
  {
    if files == [] then []
    else
      var f := files[|files| - 1];
      Rewritten(fix, files[..|files| - 1]) + (if fix(f) != f then [f.path] else [])
  }

  /** One more file of the walk adds its fixed form and, when it changed, its path. */
  lemma RewriteStep(fix: File -> File, files: seq<File>, i: nat)
    requires i < |files|
    ensures Map(files[..i + 1], fix) == Map(files[..i], fix) + [fix(files[i])]
    ensures Rewritten(fix, files[..i + 1]) ==
      Rewritten(fix, files[..i]) + (if fix(files[i]) != files[i] then [files[i].path] else [])
  {
    assert files[..i + 1] == files[..i] + [files[i]];
    MapSnoc(files[..i], files[i], fix);
  }

  /** A walk that read the first `i` files and stops at `i` stopped at the
      first unreadable script, and did so early exactly when there is one. */
  lemma WalkStopsAt(exts: seq<string>, files: seq<File>, i: nat)
    requires i <= |files|
    requires forall j :: 0 <= j < i ==> !Unreadable(exts, files[j])
    requires i < |files| ==> Unreadable(exts, files[i])
    ensures FirstWhere(files, UnreadableIn(exts)) == i
    ensures i < |files| <==> exists k | 0 <= k < |files| :: Unreadable(exts, files[k])
  {
    forall j | 0 <= j < i ensures !UnreadableIn(exts)(files[j]) {
    }
    if i < |files| {
      assert UnreadableIn(exts)(files[i]);
    }
  }

  function TodoFreeIn(exts: seq<string>): File -> File {
    f => TodoFree(exts, f)
  }

  /** `remove_todos`: the walk, rewriting a script only when its text changed,
      up to the first script that cannot be opened. */
  method RemoveTodos(exts: seq<string>, files: seq<File>) returns (after: seq<File>, rewritten: seq<string>, failed: bool)
    ensures after == Walked(exts, TodoFreeIn(exts), files)
    ensures rewritten == Rewritten(TodoFreeIn(exts), files[..FirstWhere(files, UnreadableIn(exts))])
    ensures failed <==> exists k | 0 <= k < |files| :: Unreadable(exts, files[k])
  {
    after, rewritten, failed := [], [], false;
    var i := 0;
    while i < |files|
      invariant 0 <= i <= |files|
      invariant forall j :: 0 <= j < i ==> !Unreadable(exts, files[j])
      invariant after == Map(files[..i], TodoFreeIn(exts))
      invariant rewritten == Rewritten(TodoFreeIn(exts), files[..i])
    {
      var f := files[i];
      if IsScript(exts, f) && f.content.None? {
        failed := true;
        break;
      }
      RewriteStep(TodoFreeIn(exts), files, i);
      var fixed := f;
      if IsScript(exts, f) {
        var content := f.content.value;
        var cleaned := RemoveWord(content, "TODO");
        if cleaned != content {
          fixed := f.(content := Some(cleaned));
        }
      }
      after := after + [fixed];
      if fixed != f {
        rewritten := rewritten + [f.path];
      }
      i := i + 1;
    }
    WalkStopsAt(exts, files, i);
    after := after + files[i..];
  }

  /** A walk that met no unreadable script leaves no whole-word TODO in any
      script, so running it again rewrites nothing. */
  lemma TodosGone(exts: seq<string>, files: seq<File>)
    requires forall k :: 0 <= k < |files| ==> !Unreadable(exts, files[k])
    ensures forall k :: 0 <= k < |files| && IsScript(exts, files[k]) ==>
      !HasWord(Walked(exts, TodoFreeIn(exts), files)[k].content.value, "TODO")
    ensures Walked(exts, TodoFreeIn(exts), Walked(exts, TodoFreeIn(exts), files)) == Walked(exts, TodoFreeIn(exts), files)
  {
    var after := Walked(exts, TodoFreeIn(exts), files);
    assert files[..|files|] == files;
    forall k | 0 <= k < |files| && IsScript(exts, files[k])
      ensures !HasWord(after[k].content.value, "TODO")
    {
      TodoGone(files[k].content.value);
    }
    forall k | 0 <= k < |after| ensures TodoFree(exts, after[k]) == after[k] {
      if IsScript(exts, files[k]) {
        RemoveTodoIdempotent(files[k].content.value);
      }
    }
    assert FirstWhere(after, UnreadableIn(exts)) == |after|;
    assert after[..|after|] == after;
  }

  /** A script is rewritten exactly when it holds a whole-word TODO. */
  lemma TodoRewrittenIff(exts: seq<string>, f: File)
    ensures TodoFree(exts, f) != f <==> IsScript(exts, f) && f.content.Some? && HasWord(f.content.value, "TODO")
  {
    if IsScript(exts, f) && f.content.Some? {
      RemoveChangesIff(f.content.value, "TODO");
    }
  }

  // ---------------------------------------------------------------------------
  // Documentation headers
  // ---------------------------------------------------------------------------

  /** The header for a file: a `# ` comment line with its name, then the author and description lines. */
  const DocHeaderTail := " - Auto-updated documentation\n# Author: Charles Bucher\n# Description: Add description here\n\n"

  function DocHeader(fileName: string): (h: string)
    ensures "# " <= h
  {
    "# " + (fileName + DocHeaderTail)
  }

  /** A script after `add_doc_headers`: the header goes first unless the text
      already starts with a `# ` comment. */
  /** A file whose text starts with a `# ` comment. */
  predicate Headed(f: File) {
    f.content.Some? && "# " <= f.content.value
  }

  function WithHeader(exts: seq<string>, f: File): File {
    if IsScript(exts, f) && f.content.Some? && !("# " <= f.content.value)
    then f.(content := Some(DocHeader(f.name) + f.content.value))
    else f
  }

  function HeaderIn(exts: seq<string>): File -> File {
    f => WithHeader(exts, f)
  }

  /** `add_doc_headers`: the same walk, up to the first script that cannot be opened. */
  method AddDocHeaders(exts: seq<string>, files: seq<File>) returns (after: seq<File>, rewritten: seq<string>, failed: bool)
    ensures after == Walked(exts, HeaderIn(exts), files)
    ensures rewritten == Rewritten(HeaderIn(exts), files[..FirstWhere(files, UnreadableIn(exts))])
    ensures failed <==> exists k | 0 <= k < |files| :: Unreadable(exts, files[k])
  {
    after, rewritten, failed := [], [], false;
    var i := 0;
    while i < |files|
      invariant 0 <= i <= |files|
      invariant forall j :: 0 <= j < i ==> !Unreadable(exts, files[j])
      invariant after == Map(files[..i], HeaderIn(exts))
      invariant rewritten == Rewritten(HeaderIn(exts), files[..i])
    {
      var f := files[i];
      if IsScript(exts, f) && f.content.None? {
        failed := true;
        break;
      }
      RewriteStep(HeaderIn(exts), files, i);
      var fixed := WithHeader(exts, f);
      after := after + [fixed];
      if fixed != f {
        rewritten := rewritten + [f.path];
      }
      i := i + 1;
    }
    WalkStopsAt(exts, files, i);
    after := after + files[i..];
  }

  /** A script without a leading `# ` comment is always rewritten. */
  lemma HeaderRewrittenIff(exts: seq<string>, f: File)
    ensures WithHeader(exts, f) != f <==> IsScript(exts, f) && f.content.Some? && !("# " <= f.content.value)
  {
    if IsScript(exts, f) && f.content.Some? && !("# " <= f.content.value) {
      assert |WithHeader(exts, f).content.value| > |f.content.value|;
    }
  }

  /** The header starts with `# `, so adding headers twice is adding them once. */
  lemma HeaderIdempotent(exts: seq<string>, f: File)
    ensures WithHeader(exts, WithHeader(exts, f)) == WithHeader(exts, f)
    ensures IsScript(exts, f) && f.content.Some? ==> Headed(WithHeader(exts, f))
  {
    if IsScript(exts, f) && f.content.Some? && !("# " <= f.content.value) {
      var h := DocHeader(f.name);
      assert (h + f.content.value)[..2] == h[..2];
    }
  }

  // ---------------------------------------------------------------------------
  // One repository and the placeholder repositories
  // ---------------------------------------------------------------------------

  /** A repository after the three fixes of `main`, in order, and whether a
      script that cannot be opened ended the run. TODO removal fails exactly
      where header insertion would, so the headers are added only when the
      TODO walk went through. */
  function Boosted(repo: Repo): (r: (Repo, bool))
    ensures r.0.readme == Some(UpdatedReadme(Sections, repo.name, repo.readme))
    ensures |r.0.files| == |repo.files|
  {
    BoostedWith(repo, UpdatedReadme(Sections, repo.name, repo.readme))
  }

  /** The same with the updated README text given as `text`. */
  function BoostedWith(repo: Repo, text: string): (r: (Repo, bool))
    ensures r.0.readme == Some(text)
    ensures |r.0.files| == |repo.files|
  {
    var withReadme := WithReadme(repo, text);
    var cleaned := Walked(ScriptExtensions, TodoFreeIn(ScriptExtensions), withReadme.files);
    if FirstWhere(withReadme.files, UnreadableIn(ScriptExtensions)) < |withReadme.files|
    then (withReadme.(files := cleaned), true)
    else (withReadme.(files := Map(cleaned, HeaderIn(ScriptExtensions))), false)
  }

  /** The README is not a script, so rewriting it leaves the unreadable scripts as they were. */
  lemma ReadmeNotScript(files: seq<File>, text: string)
    requires ReadmeNamed(files)
    ensures forall k :: 0 <= k < |files| ==>
      Unreadable(ScriptExtensions, Overwrite(files, "README.md", text)[k]) == Unreadable(ScriptExtensions, files[k])
  {
    forall k | 0 <= k < |files| && files[k].path == "README.md"
      ensures !IsScript(ScriptExtensions, files[k])
    {
      forall e | 0 <= e < |ScriptExtensions| ensures !EndsWith("README.md", ScriptExtensions[e]) {
      }
    }
  }

  /** The run ends inside this repository exactly when one of its scripts cannot
      be opened; otherwise every script starts with a `# ` comment afterwards. */
  lemma BoostFailsIff(repo: Repo)
    requires ReadmeNamed(repo.files)
    ensures Boosted(repo).1 <==> exists k | 0 <= k < |repo.files| :: Unreadable(ScriptExtensions, repo.files[k])
    ensures !Boosted(repo).1 ==> forall k :: 0 <= k < |repo.files| && IsScript(ScriptExtensions, repo.files[k]) ==>
      Headed(Boosted(repo).0.files[k])
  {
    BoostWithFailsIff(repo, UpdatedReadme(Sections, repo.name, repo.readme));
  }

  /** `BoostFailsIff` for any README text. */
  lemma BoostWithFailsIff(repo: Repo, text: string)
    requires ReadmeNamed(repo.files)
    ensures BoostedWith(repo, text).1 <==> exists k | 0 <= k < |repo.files| :: Unreadable(ScriptExtensions, repo.files[k])
    ensures !BoostedWith(repo, text).1 ==> forall k :: 0 <= k < |repo.files| && IsScript(ScriptExtensions, repo.files[k]) ==>
      Headed(BoostedWith(repo, text).0.files[k])
  {
    var files := WithReadme(repo, text).files;
    ReadmeNotScript(repo.files, text);
    UnreadableFound(ScriptExtensions, files);
    if !BoostedWith(repo, text).1 {
      CleanedHeaded(ScriptExtensions, files);
    }
  }

  /** The first unreadable script is found exactly when there is one. */
  lemma UnreadableFound(exts: seq<string>, files: seq<File>)
    ensures FirstWhere(files, UnreadableIn(exts)) < |files| <==> exists k | 0 <= k < |files| :: Unreadable(exts, files[k])
  {
    var first := FirstWhere(files, UnreadableIn(exts));
    if first < |files| {
      assert UnreadableIn(exts)(files[first]);
    } else {
      forall k | 0 <= k < |files| ensures !Unreadable(exts, files[k]) {
        assert !UnreadableIn(exts)(files[k]);
      }
    }
  }

  /** When no script is unreadable, the TODO walk and then the headers leave
      every script starting with a `# ` comment. */
  lemma CleanedHeaded(exts: seq<string>, files: seq<File>)
    requires forall k :: 0 <= k < |files| ==> !Unreadable(exts, files[k])
    ensures forall k :: 0 <= k < |files| && IsScript(exts, files[k]) ==>
      Headed(Map(Walked(exts, TodoFreeIn(exts), files), HeaderIn(exts))[k])
  {
    var cleaned := Walked(exts, TodoFreeIn(exts), files);
    UnreadableFound(exts, files);
    assert files[..|files|] == files;
    forall k | 0 <= k < |files| && IsScript(exts, files[k])
      ensures Headed(Map(cleaned, HeaderIn(exts))[k])
    {
      HeaderIdempotent(exts, cleaned[k]);
    }
  }

  /** Removing TODO words keeps every script's name and readability, so when
      the TODO walk goes through, so does the header walk. */
  lemma HeadersGoThrough(exts: seq<string>, files: seq<File>)
    requires forall k :: 0 <= k < |files| ==> !Unreadable(exts, files[k])
    ensures Walked(exts, HeaderIn(exts), Walked(exts, TodoFreeIn(exts), files)) ==
      Map(Walked(exts, TodoFreeIn(exts), files), HeaderIn(exts))
  {
    var cleaned := Walked(exts, TodoFreeIn(exts), files);
    UnreadableFound(exts, files);
    assert files[..|files|] == files;
    assert forall k :: 0 <= k < |cleaned| ==> !Unreadable(exts, cleaned[k]);
    UnreadableFound(exts, cleaned);
    assert cleaned[..|cleaned|] == cleaned;
  }

  method BoostRepo(repo: Repo) returns (after: Repo, failed: bool)
    ensures (after, failed) == Boosted(repo)
  {
    var readme := UpdateReadme(Sections, repo.name, repo.readme);
    after := WithReadme(repo, readme);
    UnreadableFound(ScriptExtensions, after.files);
    var cleaned, _, todoFailed := RemoveTodos(ScriptExtensions, after.files);
    failed := todoFailed;
    if !failed {
      HeadersGoThrough(ScriptExtensions, after.files);
      var headed, _, _ := AddDocHeaders(ScriptExtensions, cleaned);
      after := after.(files := headed);
    } else {
      after := after.(files := cleaned);
    }
  }

  /** How many placeholders `create_placeholder_repos` considers for `n`
      existing repositories: `min(10 - n, 3)`, an empty range when negative. */
  function Quota(n: nat, names: seq<string>): (q: nat)
    ensures q <= |names|
    ensures n >= TargetCount ==> q == 0
    ensures n + q <= TargetCount || q == 0
  {
    var m := if TargetCount - n < |names| then TargetCount - n else |names|;
    if m > 0 then m else 0
  }

  function PlaceholderReadme(table: seq<(string, string)>, name: string): string {
    "# " + name + "\n\n" + Lines(table)
  }

  function Lines(table: seq<(string, string)>): string {
    if table == [] then "" else Lines(table[..|table| - 1]) + SectionText(table[|table| - 1]) + "\n"
  }

  /** A new placeholder repository: its folder holds only the README. */
  function PlaceholderRepo(name: string): (r: Repo)
    ensures r.name == name && r.readme == Some(PlaceholderReadme(Sections, name))
  {
    var readme := PlaceholderReadme(Sections, name);
    Repo(name, Some(readme), [File("README.md", "README.md", Some(readme))], {"README.md"}, {})
  }

  function NotInSet(present: set<string>): string -> bool {
    n => n !in present
  }

  lemma PlaceholderStep(names: seq<string>, i: nat, existing: set<string>)
    requires i < |names|
    ensures Map(Filter(names[..i + 1], NotInSet(existing)), PlaceholderRepo) ==
      Map(Filter(names[..i], NotInSet(existing)), PlaceholderRepo)
      + (if names[i] !in existing then [PlaceholderRepo(names[i])] else [])
  {
    assert names[..i + 1] == names[..i] + [names[i]];
    FilterSnoc(names[..i], names[i], NotInSet(existing));
    if names[i] !in existing {
      MapSnoc(Filter(names[..i], NotInSet(existing)), names[i], PlaceholderRepo);
    }
  }

  /** `create_placeholder_repos`: the first `Quota` names, skipping those that exist. */
  method CreatePlaceholderRepos(n: nat, names: seq<string>, existing: set<string>) returns (created: seq<Repo>)
    ensures created == Map(Filter(names[..Quota(n, names)], NotInSet(existing)), PlaceholderRepo)
  {
    created := [];
    var q := Quota(n, names);
    var i := 0;
    while i < q
      invariant 0 <= i <= q
      invariant created == Map(Filter(names[..i], NotInSet(existing)), PlaceholderRepo)
    {
      PlaceholderStep(names, i, existing);
      if names[i] !in existing {
        created := created + [PlaceholderRepo(names[i])];
      }
      i := i + 1;
    }
  }

  /** No more than `min(10 - n, 3)` placeholders are created, none from ten
      repositories on, and each is a name of the list that did not exist. */
  lemma PlaceholderCount(n: nat, existing: set<string>)
    ensures |Map(Filter(PlaceholderRepos[..Quota(n, PlaceholderRepos)], NotInSet(existing)), PlaceholderRepo)|
      <= Quota(n, PlaceholderRepos) <= 3
    ensures n >= TargetCount ==> Quota(n, PlaceholderRepos) == 0
    ensures forall r :: r in Map(Filter(PlaceholderRepos[..Quota(n, PlaceholderRepos)], NotInSet(existing)), PlaceholderRepo) ==>
      (r.name in PlaceholderRepos && r.name !in existing)
  {
    FilterMembers(PlaceholderRepos[..Quota(n, PlaceholderRepos)], NotInSet(existing));
  }

  /** With fewer than ten repositories and nothing in the way, the placeholders
      bring the count up to ten or use up the list. */
  lemma PlaceholdersFill(n: nat, names: seq<string>)
    requires n < TargetCount
    ensures Quota(n, names) == TargetCount - n || Quota(n, names) == |names|
  {
  }

  // ---------------------------------------------------------------------------
  // The whole run
  // ---------------------------------------------------------------------------

  /** The repositories after a loop that applies `boost` to each in listing
      order, and whether the run ended early. The repository where it ends is
      left as far as its fixes got; the ones after it are never visited. */
  function Sweep(repos: seq<Repo>, boost: Repo -> (Repo, bool)): (r: (seq<Repo>, bool))
    ensures |r.0| <= |repos|
    ensures !r.1 ==> |r.0| == |repos|
  {
    if repos == [] then ([], false)
    else
      var before := Sweep(repos[..|repos| - 1], boost);
      if before.1 then before
      else
        var last := boost(repos[|repos| - 1]);
        (before.0 + [last.0], last.1)
  }

  /** One more repository of a run that has not ended adds its result. */
  lemma SweepStep(repos: seq<Repo>, boost: Repo -> (Repo, bool), i: nat)
    requires i < |repos| && !Sweep(repos[..i], boost).1
    ensures Sweep(repos[..i + 1], boost) ==
      (Sweep(repos[..i], boost).0 + [boost(repos[i]).0], boost(repos[i]).1)
  {
    assert repos[..i + 1][..i] == repos[..i];
  }

  /** Once the run has ended, later repositories change nothing. */
  lemma {:induction false} SweepStops(repos: seq<Repo>, boost: Repo -> (Repo, bool), i: nat)
    requires i <= |repos| && Sweep(repos[..i], boost).1
    ensures Sweep(repos, boost) == Sweep(repos[..i], boost)
    decreases |repos| - i
  {
    if i < |repos| {
      assert repos[..i + 1][..i] == repos[..i];
      SweepStops(repos, boost, i + 1);
    } else {
      assert repos[..i] == repos;
    }
  }

  /** The run ends early exactly when `boost` fails on some repository;
      otherwise every repository is boosted in full. */
  lemma {:induction false} SweepFailsIff(repos: seq<Repo>, boost: Repo -> (Repo, bool))
    ensures Sweep(repos, boost).1 <==> exists i | 0 <= i < |repos| :: boost(repos[i]).1
    ensures !Sweep(repos, boost).1 ==> forall i :: 0 <= i < |repos| ==> Sweep(repos, boost).0[i] == boost(repos[i]).0
  {
    if repos != [] {
      var init := repos[..|repos| - 1];
      SweepFailsIff(init, boost);
      assert forall i :: 0 <= i < |init| ==> init[i] == repos[i];
    }
  }

  function BoostOne(): Repo -> (Repo, bool) {
    r => Boosted(r)
  }

  /** For the booster, the run ends early exactly when some repository holds a
      script that cannot be opened, and otherwise every script of every
      repository starts with a `# ` comment (`SweepFailsIff` gives each
      repository's result as `Boosted`). */
  lemma BoostedAllFailsIff(repos: seq<Repo>)
    requires forall i :: 0 <= i < |repos| ==> ReadmeNamed(repos[i].files)
    ensures Sweep(repos, BoostOne()).1 <==>
      exists i, k | 0 <= i < |repos| && 0 <= k < |repos[i].files| :: Unreadable(ScriptExtensions, repos[i].files[k])
    ensures !Sweep(repos, BoostOne()).1 ==>
      forall i, k | 0 <= i < |repos| && 0 <= k < |repos[i].files| && IsScript(ScriptExtensions, repos[i].files[k]) ::
        Headed(Boosted(repos[i]).0.files[k])
  {
    SweepFailsIff(repos, BoostOne());
    forall i | 0 <= i < |repos| {
      BoostFailsIff(repos[i]);
    }
  }

  /** `main` after the cache removal: every directory is boosted in listing
      order until the run ends, and the placeholders are created only when it
      did not. `existing` holds the names already in the folder. */
  method BoostPortfolio(repos: seq<Repo>, existing: set<string>) returns (boosted: seq<Repo>, created: seq<Repo>, failed: bool)
    ensures (boosted, failed) == Sweep(repos, BoostOne())
    ensures created == if failed then [] else
      Map(Filter(PlaceholderRepos[..Quota(|repos|, PlaceholderRepos)], NotInSet(existing)), PlaceholderRepo)
  {
    boosted, failed := [], false;
    var i := 0;
    while i < |repos| && !failed
      invariant 0 <= i <= |repos|
      invariant (boosted, failed) == Sweep(repos[..i], BoostOne())
    {
      SweepStep(repos, BoostOne(), i);
      var after, stopped := BoostRepo(repos[i]);
      boosted, failed := boosted + [after], stopped;
      i := i + 1;
    }
    if failed {
      SweepStops(repos, BoostOne(), i);
      created := [];
    } else {
      assert repos[..i] == repos;
      created := CreatePlaceholderRepos(|repos|, PlaceholderRepos, existing);
    }
  }
}
