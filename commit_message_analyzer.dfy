/** The commit-message analyzer: a message is valid when it is at most 72
    characters long, leaves a blank line after its subject when it has a body,
    and its subject has the Conventional Commits header form
    `type(scope): description` with a known type; an invalid message can be
    given a suggested replacement. */
module CommitMessageAnalyzer {
  import opened Wrappers
  import opened Text

  const DefaultTypes: seq<string> :=
    ["feat", "fix", "docs", "style", "refactor", "perf", "test", "build", "ci", "chore", "revert"]

  const MaxLength := 72

  /** The three issues, in the order the checks run. */
  datatype Issue = TooLong | NoBlankLine | NotConventional {
    /** The text the report lists. */
    function Message(): string {
      match this
      case TooLong => "Subject line exceeds 72 characters."
      case NoBlankLine => "Missing blank line between subject and body."
      case NotConventional => "Subject does not follow conventional commit format."
    }

    function Rank(): nat {
      match this
      case TooLong => 0
      case NoBlankLine => 1
      case NotConventional => 2
    }
  }

  // ---------------------------------------------------------------------------
  // The header pattern `^(type1|type2|...)(?:\([\w\-]+\))?: .+`
  // ---------------------------------------------------------------------------

  /** A character of the class `[\w\-]`. */
  predicate ScopeChar(c: char) {
    IsWordChar(c) || c == '-'
  }

  /** The length of the run of scope characters at the start of `s`. */
  function ScopeRun(s: string): (n: nat)
    ensures n <= |s|
    ensures forall k :: 0 <= k < n ==> ScopeChar(s[k])
    ensures n < |s| ==> !ScopeChar(s[n])
  {
    if s != [] && ScopeChar(s[0]) then 1 + ScopeRun(s[1..]) else 0
  }

  /** `: .+` at the start of `r`: a colon, a space and one character that is not a newline. */
  predicate DescriptionAt(r: string) {
    |r| >= 3 && r[..2] == ": " && r[2] != '\n'
  }

  /** `(scope)` with a non-empty scope, then the description. Since `)` is not a
      scope character, the scope can only end where the run of scope characters does. */
  predicate ScopedAt(r: string) {
    && |r| >= 1 && r[0] == '('
    && var n := ScopeRun(r[1..]);
       n > 0 && n + 1 < |r| && r[n + 1] == ')' && DescriptionAt(r[n + 2..])
  }

  /** What may follow the type: the description, or a scope and the description. */
  predicate TailMatches(r: string) {
    DescriptionAt(r) || ScopedAt(r)
  }

  /** The type `t` starts the subject and the rest matches. */
  predicate HeaderWith(subject: string, t: string) {
    t <= subject && TailMatches(subject[|t|..])
  }

  /** `re.match` of the header pattern: some known type starts a match. */
  predicate IsConventional(types: seq<string>, subject: string) {
    exists i :: 0 <= i < |types| && HeaderWith(subject, types[i])
  }

  /** A tail put together from a scope and a description. */
  function Tail(scope: Option<string>, description: string): string {
    (if scope.Some? then "(" + scope.value + ")" else "") + ": " + description
  }

  /** A header put together from its parts: `type(scope): description`. */
  function Header(t: string, scope: Option<string>, description: string): string {
    t + Tail(scope, description)
  }

  predicate ValidScope(scope: Option<string>) {
    scope.Some? ==> scope.value != [] && forall k :: 0 <= k < |scope.value| ==> ScopeChar(scope.value[k])
  }

  predicate ValidDescription(description: string) {
    description != [] && description[0] != '\n'
  }

  /** The run of scope characters stops at the first character that is not one. */
  lemma {:induction false} ScopeRunStops(scope: string, rest: string)
    requires forall k :: 0 <= k < |scope| ==> ScopeChar(scope[k])
    requires rest != [] && !ScopeChar(rest[0])
    ensures ScopeRun(scope + rest) == |scope|
  {
    if scope != [] {
      ScopeRunStops(scope[1..], rest);
      assert (scope + rest)[1..] == scope[1..] + rest;
    }
  }

  lemma TailMatchesParts(scope: Option<string>, description: string)
    requires ValidScope(scope) && ValidDescription(description)
    ensures TailMatches(Tail(scope, description))
  {
    var tail := Tail(scope, description);
    if scope.Some? {
      var sc := scope.value;
      assert tail[1..] == sc + (")" + ": " + description);
      ScopeRunStops(sc, ")" + ": " + description);
      assert tail[|sc| + 2..] == ": " + description;
      assert ScopedAt(tail);
    } else {
      assert DescriptionAt(tail);
    }
  }

  lemma TailParts(tail: string) returns (scope: Option<string>, description: string)
    requires TailMatches(tail)
    ensures ValidScope(scope) && ValidDescription(description)
    ensures tail == Tail(scope, description)
  {
    if DescriptionAt(tail) {
      scope, description := None, tail[2..];
      assert tail == tail[..2] + tail[2..];
    } else {
      var n := ScopeRun(tail[1..]);
      var sc := tail[1..n + 1];
      scope, description := Some(sc), tail[n + 4..];
      assert tail[n + 2..][..2] == ": ";
      assert tail == tail[..1] + tail[1..n + 1] + tail[n + 1..n + 2] + tail[n + 2..n + 4] + tail[n + 4..];
    }
  }

  /** Every header built from a known type, a valid scope and a description matches. */
  lemma HeaderConventional(types: seq<string>, t: string, scope: Option<string>, description: string)
    requires t in types && ValidScope(scope) && ValidDescription(description)
    ensures IsConventional(types, Header(t, scope, description))
  {
    var h := Header(t, scope, description);
    assert h[|t|..] == Tail(scope, description);
    TailMatchesParts(scope, description);
    var i :| 0 <= i < |types| && types[i] == t;
    assert HeaderWith(h, types[i]);
  }

  /** Every matching subject is such a header; nothing is needed after the
      description's first character. */
  lemma ConventionalHeader(types: seq<string>, subject: string)
    returns (t: string, scope: Option<string>, description: string)
    requires IsConventional(types, subject)
    ensures t in types && ValidScope(scope) && ValidDescription(description)
    ensures subject == Header(t, scope, description)
  {
    var i :| 0 <= i < |types| && HeaderWith(subject, types[i]);
    t := types[i];
    scope, description := TailParts(subject[|t|..]);
    assert subject == t + subject[|t|..];
  }

  // ---------------------------------------------------------------------------
  // Subject, body and the suggested fix
  // ---------------------------------------------------------------------------

  /** `message.split("\n", 1)[0]`: the text before the first newline. */
  function Subject(message: string): (s: string)
    ensures s <= message
    ensures '\n' !in s
  {
    if '\n' in message then message[..IndexOf(message, '\n')] else message
  }

  /** `message.split("\n", 1)[1]`: the text after the first newline. */
  function Body(message: string): (b: string)
    requires '\n' in message
    ensures message == Subject(message) + "\n" + b
  {
    var i := IndexOf(message, '\n');
    assert message == message[..i] + [message[i]] + message[i + 1..];
    message[i + 1..]
  }

  /** Splitting once and splitting everywhere agree on the first piece. */
  lemma {:induction false} SubjectFirstPiece(message: string)
    ensures Subject(message) == Split(message, '\n')[0]
  {
    if message != [] && message[0] != '\n' {
      SubjectFirstPiece(message[1..]);
      if '\n' in message[1..] {
        var i := IndexOf(message[1..], '\n');
        assert IndexOf(message, '\n') == i + 1;
        assert message[..i + 1] == [message[0]] + message[1..][..i];
      } else {
        assert message == [message[0]] + message[1..];
      }
    }
  }

  /** `suggest_fix`: the first line of the stripped message, capitalized, as a chore. */
  function SuggestFix(message: string): (r: string)
    ensures "chore: " <= r
    ensures |r| == 7 + |Split(Strip(message), '\n')[0]|
  {
    "chore: " + Capitalize(Split(Strip(message), '\n')[0])
  }

  /** The suggestion passes the format check whenever the message is not blank
      and `chore` is a known type. */
  lemma SuggestionConventional(types: seq<string>, message: string)
    requires "chore" in types
    requires Strip(message) != []
    ensures IsConventional(types, SuggestFix(message))
  {
    var s := Strip(message);
    LStripShape(RStrip(message));
    var first := Split(s, '\n')[0];
    assert IsSpace('\n');
    assert first == [s[0]] + Split(s[1..], '\n')[0];
    var description := Capitalize(first);
    assert description[0] == UpperChar(s[0]);
    assert Header("chore", None, description) == SuggestFix(message);
    HeaderConventional(types, "chore", None, description);
  }

  /** A blank message gets the bare `chore: `, which no list of types accepts. */
  lemma BlankSuggestion(types: seq<string>, message: string)
    requires Strip(message) == []
    ensures SuggestFix(message) == "chore: "
    ensures !IsConventional(types, SuggestFix(message))
  {
    var r := SuggestFix(message);
    assert Split([], '\n')[0] == [];
    assert r == "chore: ";
    forall i | 0 <= i < |types| && types[i] <= r
      ensures !TailMatches(r[|types[i]|..])
    {
      var t := types[i];
      var tail := r[|t|..];
      if |tail| >= 3 {
        assert tail[0] == r[|t|] && |t| <= 4;
      }
    }
  }

  // ---------------------------------------------------------------------------
  // The analysis
  // ---------------------------------------------------------------------------

  datatype Report = Report(original: string, isValid: bool, issues: seq<Issue>, suggestedFix: Option<string>)

  /** The body does not start with the blank line that should follow the subject. */
  predicate MissingBlankLine(message: string) {
    '\n' in message && !("\n" <= Body(message))
  }

  /** The issues raised by the three checks, in the order they run. */
  function Issues(tooLong: bool, noBlankLine: bool, notConventional: bool): seq<Issue> {
    (if tooLong then [TooLong] else [])
    + (if noBlankLine then [NoBlankLine] else [])
    + (if notConventional then [NotConventional] else [])
  }

  /** Each issue is listed exactly when its check fails, in the order the checks run. */
  lemma IssuesMeaning(tooLong: bool, noBlankLine: bool, notConventional: bool)
    ensures var r := Issues(tooLong, noBlankLine, notConventional);
      && (r == [] <==> !tooLong && !noBlankLine && !notConventional)
      && (TooLong in r <==> tooLong)
      && (NoBlankLine in r <==> noBlankLine)
      && (NotConventional in r <==> notConventional)
      && (forall i, j :: 0 <= i < j < |r| ==> r[i].Rank() < r[j].Rank())
  {
  }

  /** `analyze` with the analyzer's types and auto-fix setting. */
  function ReportOf(types: seq<string>, autoFix: bool, message: string): Report {
    var issues := Issues(|message| > MaxLength, MissingBlankLine(message), !IsConventional(types, Subject(message)));
    Report(message, issues == [], issues, if autoFix && issues != [] then Some(SuggestFix(message)) else None)
  }

  /** What a report says: valid exactly when no issue is listed; each issue
      listed exactly when its check fails, in the order the checks run; a
      suggestion exactly when auto-fix is on and the message is invalid. */
  lemma ReportMeaning(types: seq<string>, autoFix: bool, message: string)
    ensures var r := ReportOf(types, autoFix, message);
      && r.original == message
      && (r.isValid <==> r.issues == [])
      && (TooLong in r.issues <==> |message| > MaxLength)
      && (NoBlankLine in r.issues <==> MissingBlankLine(message))
      && (NotConventional in r.issues <==> !IsConventional(types, Subject(message)))
      && (forall i, j :: 0 <= i < j < |r.issues| ==> r.issues[i].Rank() < r.issues[j].Rank())
      && (r.suggestedFix.Some? <==> autoFix && !r.isValid)
      && (r.suggestedFix.Some? ==> r.suggestedFix.value == SuggestFix(message))
  {
    IssuesMeaning(|message| > MaxLength, MissingBlankLine(message), !IsConventional(types, Subject(message)));
  }

  /** A short one-line message is valid exactly when its header matches. */
  lemma OneLineValid(types: seq<string>, autoFix: bool, message: string)
    requires |message| <= MaxLength && '\n' !in message
    ensures ReportOf(types, autoFix, message).isValid <==> IsConventional(types, message)
  {
    ReportMeaning(types, autoFix, message);
  }

  /** The subject, and whether a body follows it without a blank line. */
  method SplitSubject(message: string) returns (subject: string, noBlankLine: bool)
    ensures subject == Subject(message)
    ensures noBlankLine == MissingBlankLine(message)
  {
    noBlankLine := false;
    if '\n' in message {
      subject := Subject(message);
      var body := Body(message);
      if !("\n" <= body) {
        noBlankLine := true;
      }
    } else {
      subject := message;
    }
  }

  /** The analyzer: its settings are fixed when it is made. */
  class Analyzer {
    const githubUsername: string
    const autoFix: bool
    const allowedTypes: seq<string>

    constructor (githubUsername: string, autoFix: bool)
      ensures this.githubUsername == githubUsername && this.autoFix == autoFix
      ensures allowedTypes == DefaultTypes
    {
      this.githubUsername := githubUsername;
      this.autoFix := autoFix;
      allowedTypes := DefaultTypes;
    }

    /** `analyze`: the checks in order, each adding its issue and clearing
        the valid flag, then the suggestion. */
    method Analyze(message: string) returns (report: Report)
      ensures report == ReportOf(allowedTypes, autoFix, message)
    {
      var issues: seq<Issue> := [];
      var isValid := true;
      if |message| > MaxLength {
        issues := issues + [TooLong];
        isValid := false;
      }
      ghost var tooLong := |message| > MaxLength;
      var subject, noBlankLine := SplitSubject(message);
      if noBlankLine {
        issues := issues + [NoBlankLine];
        isValid := false;
      }
      var conventional := IsConventional(allowedTypes, subject);
      if !conventional {
        issues := issues + [NotConventional];
        isValid := false;
      }
      assert issues == Issues(tooLong, noBlankLine, !conventional) && (isValid <==> issues == []);
      var suggestedFix: Option<string> := None;
      if autoFix && !isValid {
        suggestedFix := Some(SuggestFix(message));
      }
      report := Report(message, isValid, issues, suggestedFix);
    }
  }
}
