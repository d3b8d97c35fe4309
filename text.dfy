/** Optional values: a file that is absent or cannot be read. */
module Wrappers {
  datatype Option<+T> = None | Some(value: T) {
    function GetOr(default: T): T {
      match this
      case Some(v) => v
      case None => default
    }
  }
}

/** Generic sequence helpers shared by the auditors. */
module Seqs {

  /** The elements of `xs` that satisfy `p`, in their original order. */
  function Filter<T>(xs: seq<T>, p: T -> bool): (r: seq<T>)
    ensures |r| <= |xs|
  {
    if xs == [] then []
    else Filter(xs[..|xs| - 1], p) + (if p(xs[|xs| - 1]) then [xs[|xs| - 1]] else [])
  }

  /** An element is kept exactly when it is in the input and satisfies the predicate. */
  lemma {:induction false} FilterMembers<T>(xs: seq<T>, p: T -> bool)
    ensures forall i :: 0 <= i < |Filter(xs, p)| ==> Filter(xs, p)[i] in xs && p(Filter(xs, p)[i])
    ensures forall i :: 0 <= i < |xs| && p(xs[i]) ==> xs[i] in Filter(xs, p)
  {
    if xs != [] {
      var init := xs[..|xs| - 1];
      FilterMembers(init, p);
      assert forall x :: x in init ==> x in xs;
      forall i | 0 <= i < |xs| && p(xs[i]) ensures xs[i] in Filter(xs, p) {
        if i < |xs| - 1 {
          assert xs[i] == init[i];
        }
      }
    }
  }

  /** Filtering by a predicate and by its negation splits the input in two. */
  lemma {:induction false} FilterPartition<T>(xs: seq<T>, p: T -> bool, q: T -> bool)
    requires forall x :: q(x) == !p(x)
    ensures |Filter(xs, p)| + |Filter(xs, q)| == |xs|
  {
    if xs != [] {
      FilterPartition(xs[..|xs| - 1], p, q);
    }
  }

  /** Nothing is dropped exactly when every element satisfies the predicate. */
  lemma {:induction false} FilterAll<T>(xs: seq<T>, p: T -> bool)
    ensures Filter(xs, p) == xs <==> forall i :: 0 <= i < |xs| ==> p(xs[i])
  {
    if xs != [] {
      var init := xs[..|xs| - 1];
      FilterAll(init, p);
      assert init + [xs[|xs| - 1]] == xs;
      if !p(xs[|xs| - 1]) {
        assert |Filter(xs, p)| < |xs|;
      } else if Filter(xs, p) == xs {
        assert Filter(init, p) == init;
      }
    }
  }

  /** Nothing is kept when no element satisfies the predicate. */
  lemma {:induction false} FilterNone<T>(xs: seq<T>, p: T -> bool)
    requires forall i :: 0 <= i < |xs| ==> !p(xs[i])
    ensures Filter(xs, p) == []
  {
    if xs != [] {
      FilterNone(xs[..|xs| - 1], p);
    }
  }

  /** A weaker predicate keeps at least as many elements. */
  lemma {:induction false} FilterWeaker<T>(xs: seq<T>, p: T -> bool, q: T -> bool)
    requires forall x :: p(x) ==> q(x)
    ensures |Filter(xs, p)| <= |Filter(xs, q)|
  {
    if xs != [] {
      FilterWeaker(xs[..|xs| - 1], p, q);
    }
  }

  /** Predicates that agree on every element keep the same elements. */
  lemma {:induction false} FilterSame<T>(xs: seq<T>, p: T -> bool, q: T -> bool)
    requires forall i :: 0 <= i < |xs| ==> p(xs[i]) == q(xs[i])
    ensures Filter(xs, p) == Filter(xs, q)
  {
    if xs != [] {
      FilterSame(xs[..|xs| - 1], p, q);
    }
  }

  /** `f` applied to every element, in order. */
  function Map<T, U>(xs: seq<T>, f: T -> U): (r: seq<U>)
    ensures |r| == |xs|
    ensures forall i :: 0 <= i < |xs| ==> r[i] == f(xs[i])
  {
    if xs == [] then [] else Map(xs[..|xs| - 1], f) + [f(xs[|xs| - 1])]
  }

  /** Counting after a map: `q` on the image agrees with `p` on the original. */
  lemma {:induction false} CountMapped<T, U>(xs: seq<T>, f: T -> U, p: T -> bool, q: U -> bool)
    requires forall i :: 0 <= i < |xs| ==> q(f(xs[i])) == p(xs[i])
    ensures |Filter(Map(xs, f), q)| == |Filter(xs, p)|
  {
    if xs != [] {
      var init := xs[..|xs| - 1];
      assert Map(xs, f)[..|xs| - 1] == Map(init, f);
      CountMapped(init, f, p, q);
    }
  }

  lemma AppendAssoc<T>(a: seq<T>, b: seq<T>, c: seq<T>)
    ensures a + b + c == a + (b + c)
  {
  }

  /** A slice is its first element followed by the rest of the slice. */
  lemma SliceCons<T>(s: seq<T>, i: nat, k: nat, rest: seq<T>)
    requires i < k <= |s|
    ensures s[i..k] + rest == [s[i]] + (s[i + 1..k] + rest)
  {
    assert s[i..k] == [s[i]] + s[i + 1..k];
  }

  /** One more element at the end: one more mapped value at the end. */
  lemma MapSnoc<T, U>(xs: seq<T>, x: T, f: T -> U)
    ensures Map(xs + [x], f) == Map(xs, f) + [f(x)]
  {
    assert (xs + [x])[..|xs|] == xs;
  }

  /** One more element at the end: kept at the end when it satisfies the predicate. */
  lemma FilterSnoc<T>(xs: seq<T>, x: T, p: T -> bool)
    ensures Filter(xs + [x], p) == Filter(xs, p) + (if p(x) then [x] else [])
  {
    assert (xs + [x])[..|xs|] == xs;
  }

  /** The number of elements of `xs` that satisfy `p`. */
  function CountIf<T>(xs: seq<T>, p: T -> bool): (n: nat)
    ensures n <= |xs|
  {
    |Filter(xs, p)|
  }

  /** The index of the first element that satisfies `p`, or the length when none does. */
  function FirstWhere<T>(xs: seq<T>, p: T -> bool): (k: nat)
    ensures k <= |xs|
    ensures forall j :: 0 <= j < k ==> !p(xs[j])
    ensures k < |xs| ==> p(xs[k])
  {
    if xs == [] || p(xs[0]) then 0 else 1 + FirstWhere(xs[1..], p)
  }
}

/** String helpers with the meaning of the Python built-ins the auditors call. */
module Text {
  import opened Seqs

  /** Python's whitespace: exactly the characters for which `str.isspace()` holds,
      which `str.strip()` removes and the regular-expression class `\s` matches. */
  predicate IsSpace(c: char) {
    || c == ' '
    || '\t' <= c <= '\r'
    || '\U{1C}' <= c <= '\U{1F}'
    || c == '\U{85}' || c == '\U{A0}' || c == '\U{1680}'
    || '\U{2000}' <= c <= '\U{200A}'
    || c == '\U{2028}' || c == '\U{2029}' || c == '\U{202F}' || c == '\U{205F}' || c == '\U{3000}'
  }

  /** A character of the regular-expression class `\w`, restricted to ASCII. */
  predicate IsWordChar(c: char) {
    'a' <= c <= 'z' || 'A' <= c <= 'Z' || '0' <= c <= '9' || c == '_'
  }

  /** `w` occurs at `i` with no word character right before or right after it:
      a match of the regular expression `\bw\b` when `w` starts and ends with
      word characters. */
  predicate WordAt(s: string, w: string, i: nat) {
    && i + |w| <= |s|
    && s[i..i + |w|] == w
    && (i == 0 || !IsWordChar(s[i - 1]))
    && (i + |w| == |s| || !IsWordChar(s[i + |w|]))
  }

  /** `re.search(r"\bw\b", s)` succeeds. */
  predicate HasWord(s: string, w: string) {
    exists i | 0 <= i <= |s| :: WordAt(s, w, i)
  }

  function LowerChar(c: char): char {
    if 'A' <= c <= 'Z' then (c as int + 32) as char else c
  }

  function UpperChar(c: char): char {
    if 'a' <= c <= 'z' then (c as int - 32) as char else c
  }

  /** `str.lower()` on ASCII letters. */
  function Lower(s: string): (r: string)
    ensures |r| == |s|
  {
    seq(|s|, i requires 0 <= i < |s| => LowerChar(s[i]))
  }

  lemma LowerAppend(a: string, b: string)
    ensures Lower(a + b) == Lower(a) + Lower(b)
  {
    assert forall i :: 0 <= i < |a + b| ==> Lower(a + b)[i] == (Lower(a) + Lower(b))[i];
  }

  lemma LowerSlice(s: string, i: nat)
    requires i <= |s|
    ensures Lower(s[i..]) == Lower(s)[i..]
  {
  }

  lemma LowerPrefix(p: string, s: string)
    requires p <= s
    ensures Lower(p) <= Lower(s)
  {
  }

  /** Python's `sub in s`: `sub` occurs somewhere in `s` (the empty string occurs everywhere). */
  predicate Contains(s: string, sub: string) {
    exists i | 0 <= i <= |s| :: sub <= s[i..]
  }

  lemma ContainsAt(s: string, sub: string, i: nat)
    requires i <= |s| && sub <= s[i..]
    ensures Contains(s, sub)
  {
  }

  /** Appending text keeps every substring that was already there. */
  lemma ContainsAppendLeft(a: string, b: string, sub: string)
    requires Contains(a, sub)
    ensures Contains(a + b, sub)
  {
    var i :| 0 <= i <= |a| && sub <= a[i..];
    assert (a + b)[i..] == a[i..] + b;
    ContainsAt(a + b, sub, i);
  }

  lemma ContainsAppendRight(a: string, b: string, sub: string)
    requires Contains(b, sub)
    ensures Contains(a + b, sub)
  {
    var i :| 0 <= i <= |b| && sub <= b[i..];
    assert (a + b)[|a| + i..] == b[i..];
    ContainsAt(a + b, sub, |a| + i);
  }

  /** A text lacking one of the characters of `sub` does not contain `sub`. */
  lemma NotContainsChar(s: string, sub: string, j: nat)
    requires j < |sub| && sub[j] !in s
    ensures !Contains(s, sub)
  {
  }

  /** Python's `s not in content`, as a predicate on `s`. */
  function NotIn(content: string): string -> bool {
    s => !Contains(content, s)
  }

  /** The entries of `subs` that do not occur (case-sensitively) in `content`, in order. */
  function Absent(subs: seq<string>, content: string): seq<string> {
    Filter(subs, NotIn(content))
  }

  /** The text after a loop that, item by item, appends `block(item)` when
      `key(item)` does not occur in the text so far. */
  function AppendMissing<T>(start: string, items: seq<T>, key: T -> string, block: T -> string): (r: string)
    ensures start <= r
  {
    if items == [] then start
    else
      var before := AppendMissing(start, items[..|items| - 1], key, block);
      var item := items[|items| - 1];
      if Contains(before, key(item)) then before else before + block(item)
  }

  /** When every block contains its key, every key occurs after the loop. */
  lemma {:induction false} AppendMissingHasAll<T>(start: string, items: seq<T>, key: T -> string, block: T -> string)
    requires forall k :: 0 <= k < |items| ==> Contains(block(items[k]), key(items[k]))
    ensures forall k :: 0 <= k < |items| ==> Contains(AppendMissing(start, items, key, block), key(items[k]))
  {
    if items != [] {
      var init := items[..|items| - 1];
      var item := items[|items| - 1];
      var before := AppendMissing(start, init, key, block);
      AppendMissingHasAll(start, init, key, block);
      if !Contains(before, key(item)) {
        forall k | 0 <= k < |init| ensures Contains(before + block(item), key(items[k])) {
          ContainsAppendLeft(before, block(item), key(init[k]));
        }
        ContainsAppendRight(before, block(item), key(item));
      }
    }
  }

  /** With every key already present the loop appends nothing. */
  lemma {:induction false} AppendMissingNoop<T>(text: string, items: seq<T>, key: T -> string, block: T -> string)
    requires forall k :: 0 <= k < |items| ==> Contains(text, key(items[k]))
    ensures AppendMissing(text, items, key, block) == text
  {
    if items != [] {
      AppendMissingNoop(text, items[..|items| - 1], key, block);
    }
  }

  /** An occurrence that does not contain the separator lies on one side of it. */
  lemma ContainsAcrossSeparator(a: string, c: char, b: string, sub: string)
    requires c !in sub
    requires Contains(a + [c] + b, sub)
    ensures Contains(a, sub) || Contains(b, sub)
  {
    var s := a + [c] + b;
    var i :| 0 <= i <= |s| && sub <= s[i..];
    assert s[|a|] == c;
    assert forall j :: 0 <= j < |sub| ==> sub[j] != c;
    if i + |sub| <= |a| {
      assert sub == s[i..i + |sub|] == a[i..i + |sub|];
      ContainsAt(a, sub, i);
    } else if i > |a| {
      assert s[i..] == b[i - |a| - 1..];
      ContainsAt(b, sub, i - |a| - 1);
    } else {
      assert false;
    }
  }

  /** An occurrence of an occurrence is an occurrence. */
  lemma ContainsTrans(s: string, mid: string, sub: string)
    requires Contains(s, mid) && Contains(mid, sub)
    ensures Contains(s, sub)
  {
    var i :| 0 <= i <= |s| && mid <= s[i..];
    var j :| 0 <= j <= |mid| && sub <= mid[j..];
    assert forall k :: 0 <= k < |sub| ==> s[i + j + k] == mid[j + k] == sub[k];
    assert sub <= s[i + j..];
    ContainsAt(s, sub, i + j);
  }

  /** Lower-casing preserves occurrences. */
  lemma ContainsLower(s: string, sub: string)
    requires Contains(s, sub)
    ensures Contains(Lower(s), Lower(sub))
  {
    var i :| 0 <= i <= |s| && sub <= s[i..];
    LowerSlice(s, i);
    LowerPrefix(sub, s[i..]);
    ContainsAt(Lower(s), Lower(sub), i);
  }

  predicate EndsWith(s: string, suffix: string) {
    |suffix| <= |s| && s[|s| - |suffix|..] == suffix
  }

  /** Python's `str.rstrip()`: trailing whitespace removed. */
  function RStrip(s: string): (r: string)
    ensures r <= s
    ensures forall i :: |r| <= i < |s| ==> IsSpace(s[i])
    ensures r == [] || !IsSpace(r[|r| - 1])
  {
    if |s| > 0 && IsSpace(s[|s| - 1]) then RStrip(s[..|s| - 1]) else s
  }

  /** Python's `str.lstrip()`: leading whitespace removed. */
  function LStrip(s: string): (r: string)
    ensures |r| <= |s|
  {
    if |s| > 0 && IsSpace(s[0]) then LStrip(s[1..]) else s
  }

  /** What `LStrip` removes is leading whitespace, and all of it. */
  lemma {:induction false} LStripShape(s: string)
    ensures LStrip(s) == s[|s| - |LStrip(s)|..]
    ensures forall i :: 0 <= i < |s| - |LStrip(s)| ==> IsSpace(s[i])
    ensures LStrip(s) == [] || !IsSpace(LStrip(s)[0])
  {
    if |s| > 0 && IsSpace(s[0]) {
      LStripShape(s[1..]);
    }
  }

  /** Python's `str.strip()`. */
  function Strip(s: string): string {
    LStrip(RStrip(s))
  }

  /** Python's `str.capitalize()` on ASCII: first character upper-case, the rest lower-case. */
  function Capitalize(s: string): (r: string)
    ensures |r| == |s|
  {
    if s == [] then [] else [UpperChar(s[0])] + Lower(s[1..])
  }

  /** Python's `sep.join(parts)`. */
  function Join(sep: string, parts: seq<string>): string {
    if |parts| == 0 then ""
    else if |parts| == 1 then parts[0]
    else parts[0] + sep + Join(sep, parts[1..])
  }

  /** Every part occurs in the joined text. */
  lemma {:induction false} JoinContainsPart(sep: string, parts: seq<string>, k: nat)
    requires k < |parts|
    ensures Contains(Join(sep, parts), parts[k])
  {
    if |parts| == 1 {
      ContainsAt(parts[0], parts[0], 0);
    } else if k == 0 {
      ContainsAt(parts[0], parts[0], 0);
      ContainsAppendLeft(parts[0], sep + Join(sep, parts[1..]), parts[0]);
      assert parts[0] + sep + Join(sep, parts[1..]) == parts[0] + (sep + Join(sep, parts[1..]));
    } else {
      JoinContainsPart(sep, parts[1..], k - 1);
      ContainsAppendRight(parts[0] + sep, Join(sep, parts[1..]), parts[k]);
    }
  }

  /** Python's `s.split(c)` for a one-character separator: the pieces between separators. */
  function Split(s: string, c: char): (r: seq<string>)
    ensures |r| >= 1
  {
    if s == [] then [""]
    else
      var rest := Split(s[1..], c);
      if s[0] == c then [""] + rest else [[s[0]] + rest[0]] + rest[1..]
  }

  /** No piece of a split contains the separator. */
  lemma {:induction false} SplitPiecesFree(s: string, c: char)
    ensures forall k :: 0 <= k < |Split(s, c)| ==> c !in Split(s, c)[k]
  {
    if s != [] {
      SplitPiecesFree(s[1..], c);
    }
  }

  /** Joining the pieces with the separator gives back the text. */
  lemma {:induction false} JoinSplit(s: string, c: char)
    ensures Join([c], Split(s, c)) == s
  {
    if s != [] {
      var rest := Split(s[1..], c);
      JoinSplit(s[1..], c);
      if s[0] == c {
        assert Join([c], [""] + rest) == "" + [c] + Join([c], rest);
      } else if |rest| == 1 {
        assert Join([c], [[s[0]] + rest[0]] + rest[1..]) == [s[0]] + rest[0];
      } else {
        var r := [[s[0]] + rest[0]] + rest[1..];
        assert r[1..] == rest[1..];
        assert Join([c], r) == [s[0]] + rest[0] + [c] + Join([c], rest[1..]);
      }
    }
  }

  lemma {:induction false} SplitFree(x: string, c: char)
    requires c !in x
    ensures Split(x, c) == [x]
  {
    if x != [] {
      SplitFree(x[1..], c);
      assert [x[0]] + x[1..] == x;
    }
  }

  lemma {:induction false} SplitAfterPiece(x: string, c: char, y: string)
    requires c !in x
    ensures Split(x + [c] + y, c) == [x] + Split(y, c)
  {
    if x == [] {
      assert x + [c] + y == [c] + y;
      assert ([c] + y)[1..] == y;
    } else {
      SplitAfterPiece(x[1..], c, y);
      assert (x + [c] + y)[1..] == x[1..] + [c] + y;
      assert [x[0]] + x[1..] == x;
    }
  }

  /** Splitting a join of separator-free pieces gives back the pieces. */
  lemma {:induction false} SplitJoin(parts: seq<string>, c: char)
    requires |parts| >= 1
    requires forall k :: 0 <= k < |parts| ==> c !in parts[k]
    ensures Split(Join([c], parts), c) == parts
  {
    if |parts| == 1 {
      SplitFree(parts[0], c);
    } else {
      SplitJoin(parts[1..], c);
      SplitAfterPiece(parts[0], c, Join([c], parts[1..]));
      assert [parts[0]] + parts[1..] == parts;
    }
  }

  /** Python's `s.count(sub)` for a non-empty `sub`: non-overlapping occurrences, leftmost first. */
  function CountOf(s: string, sub: string): nat
    requires |sub| > 0
    decreases |s|
  {
    if |s| < |sub| then 0
    else if sub <= s then 1 + CountOf(s[|sub|..], sub)
    else CountOf(s[1..], sub)
  }

  /** Python's `str.find(c)` for one character. */
  function IndexOf(s: string, c: char): (r: int)
    ensures -1 <= r < |s|
    ensures r == -1 <==> c !in s
    ensures r >= 0 ==> s[r] == c && c !in s[..r]
  {
    if s == [] then -1
    else if s[0] == c then 0
    else
      var k := IndexOf(s[1..], c);
      if k < 0 then -1
      else
        assert s[..k + 1] == [s[0]] + s[1..][..k];
        k + 1
  }

  /** Python's `str.rfind(c)` for one character. */
  function LastIndexOf(s: string, c: char): (r: int)
    ensures -1 <= r < |s|
    ensures r == -1 <==> c !in s
    ensures r >= 0 ==> s[r] == c && c !in s[r + 1..]
  {
    if s == [] then -1
    else if s[|s| - 1] == c then |s| - 1
    else
      assert s == s[..|s| - 1] + [s[|s| - 1]];
      LastIndexOf(s[..|s| - 1], c)
  }
}

/** Integer percentages, as `int((part / whole) * 100)` computes them. */
module Ratios {
  lemma {:induction false} MulStep(d: nat, x: nat)
    ensures d * (x + 1) == d * x + d
  {
  }

  lemma {:induction false} MulMonotone(d: nat, x: nat, y: nat)
    requires x <= y
    ensures d * x <= d * y
    decreases y - x
  {
    if x < y {
      MulMonotone(d, x, y - 1);
      MulStep(d, y - 1);
    }
  }

  lemma DivBelow(a: nat, d: nat, k: nat)
    requires 0 < d && a < d * k
    ensures a / d < k
  {
    var q := a / d;
    assert a == d * q + a % d;
    if q >= k {
      MulMonotone(d, k, q);
    }
  }

  lemma DivAtLeast(a: nat, d: nat, k: nat)
    requires 0 < d && d * k <= a
    ensures k <= a / d
  {
    var q := a / d;
    assert a == d * q + a % d;
    if q < k {
      MulStep(d, q);
      MulMonotone(d, q + 1, k);
    }
  }

  /** The whole percentage `n` out of `d` makes, rounded down. */
  function Share(n: nat, d: nat): (r: int)
    requires n <= d && 0 < d
    ensures 0 <= r <= 100
    ensures r == 100 <==> n == d
    ensures r == 0 <==> n * 100 < d
  {
    MulStep(d, 100);
    DivBelow(n * 100, d, 101);
    if n == d then
      DivAtLeast(n * 100, d, 100);
      n * 100 / d
    else
      DivBelow(n * 100, d, 100);
      if n * 100 < d then
        DivBelow(n * 100, d, 1);
        n * 100 / d
      else
        DivAtLeast(n * 100, d, 1);
        n * 100 / d
  }

  /** A larger part never makes a smaller share. */
  lemma ShareMonotone(m: nat, n: nat, d: nat)
    requires m <= n <= d && 0 < d
    ensures Share(m, d) <= Share(n, d)
  {
    var q := m * 100 / d;
    assert m * 100 == d * q + (m * 100) % d;
    assert d * q <= m * 100 <= n * 100;
    DivAtLeast(n * 100, d, q);
  }
}
