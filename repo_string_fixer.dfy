/** The unterminated-string fixer: every line of a Python file whose
    right-stripped text has an odd number of unescaped single or double quotes,
    is not a comment and holds an `=` gets the missing closing quote appended;
    the file is rewritten only when something changed. */
module RepoStringFixer {
  import opened Wrappers
  import opened Seqs
  import opened Text

  // ---------------------------------------------------------------------------
  // Counting quotes
  // ---------------------------------------------------------------------------

  /** Position `i` holds the quote `q` with no backslash right before it
      (the pattern `(?<!\\)q`). */
  predicate UnescapedAt(s: string, q: char, i: nat)
    requires i < |s|
  {
    s[i] == q && (i == 0 || s[i - 1] != '\\')
  }

  /** The number of unescaped occurrences of `q` in `s`. */
  function Unescaped(s: string, q: char): (n: nat)
    ensures n <= |s|
    ensures q !in s ==> n == 0
  {
    if s == [] then 0
    else Unescaped(s[..|s| - 1], q) + (if UnescapedAt(s, q, |s| - 1) then 1 else 0)
  }

  /** Appending a character other than `q` leaves the count of `q` alone. */
  lemma UnescapedOther(s: string, c: char, q: char)
    requires c != q
    ensures Unescaped(s + [c], q) == Unescaped(s, q)
  {
    assert (s + [c])[..|s|] == s;
  }

  /** Appending `q` adds one to its count unless the text ends in a backslash. */
  lemma UnescapedSame(s: string, q: char)
    ensures Unescaped(s + [q], q) == Unescaped(s, q) + (if EndsInBackslash(s) then 0 else 1)
  {
    assert (s + [q])[..|s|] == s;
  }

  /** The text ends in a backslash, which escapes a quote appended to it. */
  predicate EndsInBackslash(s: string) {
    s != [] && s[|s| - 1] == '\\'
  }

  predicate Odd(n: nat) {
    n % 2 == 1
  }

  // ---------------------------------------------------------------------------
  // One line
  // ---------------------------------------------------------------------------

  /** The stripped line has an odd count of one of the two quotes. */
  predicate Unbalanced(stripped: string) {
    Odd(Unescaped(stripped, '\'')) || Odd(Unescaped(stripped, '"'))
  }

  /** Not a comment and holding an `=`: likely an assignment of a string. */
  predicate LooksAssigned(stripped: string) {
    !("#" <= stripped) && '=' in stripped
  }

  /** The line is rewritten exactly when both tests hold of its right-stripped form. */
  predicate Altered(line: string) {
    Unbalanced(RStrip(line)) && LooksAssigned(RStrip(line))
  }

  /** The quote appended: the single quote when its count is odd, else the double quote. */
  function Closing(stripped: string): (q: char)
    ensures q == '\'' <==> Odd(Unescaped(stripped, '\''))
    ensures q == '\'' || q == '"'
  {
    if Odd(Unescaped(stripped, '\'')) then '\'' else '"'
  }

  /** The loop body for one line: an altered line becomes its right-stripped
      form plus the closing quote; any other line is kept with its trailing
      whitespace. */
  function FixLine(line: string): (r: string)
    ensures r != line <==> Altered(line)
    ensures Altered(line) ==> r == RStrip(line) + [Closing(RStrip(line))]
    ensures '\n' !in line ==> '\n' !in r
  {
    if Altered(line) then
      var s := RStrip(line);
      s + [Closing(s)]
    else line
  }

  /** The appended quote's count goes up by one, from odd, unless the
      stripped line ends in a backslash, which escapes it. */
  lemma ClosingCount(s: string)
    requires Unbalanced(s)
    ensures Odd(Unescaped(s, Closing(s)))
    ensures Unescaped(s + [Closing(s)], Closing(s)) ==
      Unescaped(s, Closing(s)) + (if EndsInBackslash(s) then 0 else 1)
  {
    UnescapedSame(s, Closing(s));
  }

  /** A fixed line ends with a quote whose count is now even, unless the
      stripped line ended in a backslash. */
  lemma FixCloses(line: string)
    requires Altered(line)
    requires !EndsInBackslash(RStrip(line))
    ensures !Odd(Unescaped(FixLine(line), Closing(RStrip(line))))
  {
    var s := RStrip(line);
    ClosingCount(s);
    assert FixLine(line) == s + [Closing(s)];
  }

  /** After a trailing backslash the appended quote is escaped, so its count stays odd. */
  lemma FixEscaped(line: string)
    requires Altered(line)
    requires EndsInBackslash(RStrip(line))
    ensures Odd(Unescaped(FixLine(line), Closing(RStrip(line))))
  {
    ClosingCount(RStrip(line));
  }

  /** The other quote is untouched: a line odd in both keeps an odd double-quote count. */
  lemma FixBothOdd(line: string)
    requires Altered(line)
    requires Odd(Unescaped(RStrip(line), '\'')) && Odd(Unescaped(RStrip(line), '"'))
    ensures FixLine(line) == RStrip(line) + "'"
    ensures Odd(Unescaped(FixLine(line), '"'))
  {
    UnescapedOther(RStrip(line), '\'', '"');
  }

  /** A concrete line: `a='\` is altered to `a='\'`, which is still unterminated. */
  lemma EscapedExample()
    ensures Altered("a='\\")
    ensures FixLine("a='\\") == "a='\\'"
    ensures Odd(Unescaped(FixLine("a='\\"), '\''))
  {
    var s := "a='\\";
    assert RStrip(s) == s;
    assert s[1] == '=';
    assert '=' in s;
    assert s[..1] == "a";
    assert Unescaped("a", '\'') == 0;
    assert Unescaped("a=", '\'') == 0;
    assert Unescaped("a='", '\'') == 1;
    assert Unescaped(s, '\'') == 1;
    FixEscaped(s);
  }

  /** The loop body step by step, with the change flag it raises. */
  method FixOne(line: string) returns (fixedLine: string, changed: bool)
    ensures fixedLine == FixLine(line)
    ensures changed <==> Altered(line)
  {
    fixedLine := line;
    changed := false;
    var stripped := RStrip(line);
    var single := Unescaped(stripped, '\'');
    var double := Unescaped(stripped, '"');
    if single % 2 == 1 || double % 2 == 1 {
      if !("#" <= stripped) && '=' in stripped {
        if single % 2 == 1 {
          fixedLine := stripped + "'";
        } else if double % 2 == 1 {
          fixedLine := stripped + "\"";
        }
        if fixedLine != line {
          changed := true;
        }
      }
    }
  }

  // ---------------------------------------------------------------------------
  // One file
  // ---------------------------------------------------------------------------

  /** What happens to a file: the text written back (none when nothing changed),
      the number of lines fixed and the value returned. */
  datatype Outcome = Outcome(written: Option<string>, lineChanges: nat, fixed: bool)

  /** Every line, fixed. */
  function FixedLines(lines: seq<string>): (r: seq<string>)
    ensures |r| == |lines|
  {
    if lines == [] then [] else FixedLines(lines[..|lines| - 1]) + [FixLine(lines[|lines| - 1])]
  }

  /** The number of altered lines: `line_changes`. */
  function LineChanges(lines: seq<string>): (n: nat)
    ensures n <= |lines|
  {
    if lines == [] then 0 else LineChanges(lines[..|lines| - 1]) + (if Altered(lines[|lines| - 1]) then 1 else 0)
  }

  /** Line `k` of the result is line `k` fixed. */
  lemma {:induction false} FixedLinesAt(lines: seq<string>, k: nat)
    requires k < |lines|
    ensures FixedLines(lines)[k] == FixLine(lines[k])
  {
    if k < |lines| - 1 {
      FixedLinesAt(lines[..|lines| - 1], k);
    }
  }

  /** With no line altered every line is kept. */
  lemma {:induction false} NothingAltered(lines: seq<string>)
    requires LineChanges(lines) == 0
    ensures FixedLines(lines) == lines
  {
    if lines != [] {
      NothingAltered(lines[..|lines| - 1]);
      assert lines[..|lines| - 1] + [lines[|lines| - 1]] == lines;
    }
  }

  /** The count is the number of lines the fix changes. */
  lemma {:induction false} ChangesCounted(lines: seq<string>)
    ensures LineChanges(lines) == CountIf(lines, Altered)
  {
    if lines != [] {
      ChangesCounted(lines[..|lines| - 1]);
    }
  }

  /** `smartChanged` is the flag left by the smart-quote pass, which runs first. */
  function OutcomeOf(content: string, smartChanged: bool): (r: Outcome)
    ensures r.fixed <==> r.written.Some?
    ensures r.written.Some? <==> smartChanged || r.lineChanges > 0
    ensures r.lineChanges <= |Split(content, '\n')|
  {
    var lines := Split(content, '\n');
    var changes := LineChanges(lines);
    if smartChanged || changes > 0 then Outcome(Some(Join("\n", FixedLines(lines))), changes, true)
    else Outcome(None, changes, false)
  }

  /** The line loop: the fixed lines, the count of altered lines, and the
      change flag, which starts from the smart-quote pass's. */
  method FixAll(lines: seq<string>, smartChanged: bool)
    returns (fixedLines: seq<string>, lineChanges: nat, changesMade: bool)
    ensures fixedLines == FixedLines(lines)
    ensures lineChanges == LineChanges(lines)
    ensures changesMade <==> smartChanged || lineChanges > 0
  {
    fixedLines, lineChanges, changesMade := [], 0, smartChanged;
    var i := 0;
    while i < |lines|
      invariant 0 <= i <= |lines|
      invariant fixedLines == FixedLines(lines[..i])
      invariant lineChanges == LineChanges(lines[..i])
      invariant changesMade <==> smartChanged || lineChanges > 0
    {
      assert lines[..i + 1][..i] == lines[..i];
      var line, changed := FixOne(lines[i]);
      if changed {
        lineChanges := lineChanges + 1;
        changesMade := true;
      }
      fixedLines := fixedLines + [line];
      i := i + 1;
    }
    assert lines[..i] == lines;
  }

  /** `fix_strings_in_file` after the read: the line loop and the decision to write. */
  method FixStrings(content: string, smartChanged: bool) returns (outcome: Outcome)
    ensures outcome == OutcomeOf(content, smartChanged)
  {
    var lines := Split(content, '\n');
    var fixedLines, lineChanges, changesMade := FixAll(lines, smartChanged);
    if changesMade {
      outcome := Outcome(Some(Join("\n", fixedLines)), lineChanges, true);
    } else {
      outcome := Outcome(None, lineChanges, false);
    }
  }

  /** The text written back has as many lines as the file had, and line `k`
      of it is line `k` of the file, fixed. */
  lemma LinesPreserved(content: string, smartChanged: bool)
    requires OutcomeOf(content, smartChanged).written.Some?
    ensures |Split(OutcomeOf(content, smartChanged).written.value, '\n')| == |Split(content, '\n')|
    ensures forall k :: 0 <= k < |Split(content, '\n')| ==>
      Split(OutcomeOf(content, smartChanged).written.value, '\n')[k] == FixLine(Split(content, '\n')[k])
  {
    var lines := Split(content, '\n');
    SplitPiecesFree(content, '\n');
    var fixedLines := FixedLines(lines);
    forall k | 0 <= k < |lines| ensures fixedLines[k] == FixLine(lines[k]) && '\n' !in fixedLines[k] {
      FixedLinesAt(lines, k);
    }
    assert "\n" == ['\n'];
    SplitJoin(fixedLines, '\n');
  }

  /** A file written only because of the smart-quote pass keeps its lines as they were. */
  lemma NoLineFixed(content: string, smartChanged: bool)
    requires OutcomeOf(content, smartChanged).lineChanges == 0
    ensures OutcomeOf(content, smartChanged).written.Some? ==>
      OutcomeOf(content, smartChanged).written.value == content
  {
    NothingAltered(Split(content, '\n'));
    assert "\n" == ['\n'];
    JoinSplit(content, '\n');
  }
}
