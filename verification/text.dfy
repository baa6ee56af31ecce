/** The parts of JavaScript's string built-ins the extractor relies on:
    whitespace as `trim()` and the regular-expression class `\s` see it,
    `includes`, `indexOf`, `split` and `join`. */
module Text {
  import opened Results

  /** The characters `String.prototype.trim` removes and `\s` matches: the
      WhiteSpace and LineTerminator code points of ECMA-262. */
  const Whitespace: set<char> := {
    '\t', '\n', '\U{B}', '\U{C}', '\r', ' ', '\U{A0}', '\U{1680}',
    '\U{2000}', '\U{2001}', '\U{2002}', '\U{2003}', '\U{2004}', '\U{2005}',
    '\U{2006}', '\U{2007}', '\U{2008}', '\U{2009}', '\U{200A}',
    '\U{2028}', '\U{2029}', '\U{202F}', '\U{205F}', '\U{3000}', '\U{FEFF}'
  }

  predicate IsWhitespace(c: char) {
    c in Whitespace
  }

  /** `s.trim() === ''` */
  predicate IsBlank(s: string) {
    forall i | 0 <= i < |s| :: IsWhitespace(s[i])
  }

  /** A stretch of whitespace characters is a blank slice. */
  lemma BlankSlice(s: string, i: nat, j: nat)
    requires i <= j <= |s|
    requires forall k | i <= k < j :: IsWhitespace(s[k])
    ensures IsBlank(s[i..j])
  {
    forall k | 0 <= k < j - i ensures IsWhitespace(s[i..j][k]) {
      assert s[i..j][k] == s[i + k];
    }
  }

  /** `t` occurs in `s` starting at index `i`. */
  predicate OccursAt(s: string, t: string, i: nat) {
    i + |t| <= |s| && s[i..i + |t|] == t
  }

  /** `s.includes(t)` */
  predicate Contains(s: string, t: string) {
    exists i | 0 <= i <= |s| - |t| :: OccursAt(s, t, i)
  }

  /** The trailing whitespace of `s` removed. */
  function TrimEnd(s: string): (r: string)
    ensures |r| <= |s| && r == s[..|r|]
    ensures IsBlank(s[|r|..])
    ensures r == [] || !IsWhitespace(r[|r| - 1])
  {
    if |s| > 0 && IsWhitespace(s[|s| - 1]) then
      var r := TrimEnd(s[..|s| - 1]);
      assert s[|r|..] == s[..|s| - 1][|r|..] + [s[|s| - 1]];
      r
    else
      s
  }

  /** The leading whitespace of `s` removed. */
  function TrimStart(s: string): (r: string)
    ensures |r| <= |s| && r == s[|s| - |r|..]
    ensures IsBlank(s[..|s| - |r|])
    ensures r == [] || !IsWhitespace(r[0])
  {
    if |s| > 0 && IsWhitespace(s[0]) then
      var r := TrimStart(s[1..]);
      assert s[1..][..|s| - 1 - |r|] == s[1..|s| - |r|];
      r
    else
      s
  }

  /** `s.trim()`: empty exactly when `s` is blank, and otherwise starting
      and ending with a character that is not whitespace. */
  function Trim(s: string): (r: string)
    ensures r == [] <==> IsBlank(s)
    ensures r != [] ==> !IsWhitespace(r[0]) && !IsWhitespace(r[|r| - 1])
  {
    var t := TrimStart(s);
    assert s == s[..|s| - |t|] + t;
    TrimEnd(t)
  }

  /** What `trim()` keeps is an infix of the string, and what it cuts on
      either side is whitespace. */
  lemma TrimInfix(s: string)
    ensures exists i: nat :: OccursAt(s, Trim(s), i) && IsBlank(s[..i]) && IsBlank(s[i + |Trim(s)|..])
  {
    var t := TrimStart(s);
    var r := TrimEnd(t);
    var i := |s| - |t|;
    assert s[i..i + |r|] == t[..|r|];
    assert s[i + |r|..] == t[|r|..];
    assert OccursAt(s, r, i);
  }

  /** The first index at or after `from` where `t` occurs in `s`. */
  function IndexOfFrom(s: string, t: string, from: nat): (r: Option<nat>)
    decreases |s| - from
    ensures r.Some? ==> from <= r.value && OccursAt(s, t, r.value)
    ensures r.Some? ==> forall j: nat | from <= j < r.value :: !OccursAt(s, t, j)
    ensures r.None? ==> forall j: nat | from <= j :: !OccursAt(s, t, j)
  {
    if from + |t| > |s| then None
    else if s[from..from + |t|] == t then Some(from)
    else IndexOfFrom(s, t, from + 1)
  }

  /** `s.indexOf(t)`, with `None` for -1. */
  function IndexOf(s: string, t: string): (r: Option<nat>)
    ensures r.None? <==> !Contains(s, t)
    ensures r.Some? ==> OccursAt(s, t, r.value) && forall j: nat | j < r.value :: !OccursAt(s, t, j)
  {
    IndexOfFrom(s, t, 0)
  }

  /** An occurrence inside a prefix is an occurrence in the whole string. */
  lemma OccursInPrefix(s: string, k: nat, t: string, j: nat)
    requires k <= |s| && OccursAt(s[..k], t, j)
    ensures OccursAt(s, t, j)
  {
    assert s[..k][j..j + |t|] == s[j..j + |t|];
  }

  /** `s.split(sep)` for a non-empty separator: the pieces between the
      occurrences of `sep` found scanning from the left. */
  function Split(s: string, sep: string): (parts: seq<string>)
    requires |sep| > 0
    decreases |s|
    ensures |parts| >= 1
  {
    match IndexOf(s, sep)
    case None => [s]
    case Some(i) => [s[..i]] + Split(s[i + |sep|..], sep)
  }

  /** There is more than one piece exactly when the separator occurs, and no
      piece contains the separator. */
  lemma SplitPieces(s: string, sep: string)
    requires |sep| > 0
    ensures |Split(s, sep)| == 1 <==> !Contains(s, sep)
    ensures |Split(s, sep)| == 1 ==> Split(s, sep)[0] == s
    ensures forall k | 0 <= k < |Split(s, sep)| :: !Contains(Split(s, sep)[k], sep)
  {
    SplitSingle(s, sep);
    SplitPiecesFree(s, sep);
  }

  /** A split gives one piece, the whole text, exactly when the separator
      does not occur. */
  lemma SplitSingle(s: string, sep: string)
    requires |sep| > 0
    ensures |Split(s, sep)| == 1 <==> !Contains(s, sep)
    ensures |Split(s, sep)| == 1 ==> Split(s, sep)[0] == s
  {
    match IndexOf(s, sep)
    case None =>
    case Some(i) =>
      assert |Split(s, sep)| >= 2;
  }

  /** No piece of a split holds the separator. */
  lemma {:induction false} SplitPiecesFree(s: string, sep: string)
    requires |sep| > 0
    decreases |s|
    ensures forall k | 0 <= k < |Split(s, sep)| :: !Contains(Split(s, sep)[k], sep)
  {
    match IndexOf(s, sep)
    case None =>
    case Some(i) =>
      var head, tail := s[..i], s[i + |sep|..];
      BeforeFirstFree(s, sep, i);
      SplitPiecesFree(tail, sep);
      var parts, rest := Split(s, sep), Split(tail, sep);
      assert parts == [head] + rest;
      forall k | 0 <= k < |parts| ensures !Contains(parts[k], sep) {
        if k > 0 {
          assert parts[k] == rest[k - 1];
        }
      }
  }

  /** The text before the first occurrence holds no occurrence. */
  lemma BeforeFirstFree(s: string, sep: string, i: nat)
    requires |sep| > 0 && IndexOf(s, sep) == Some(i)
    ensures !Contains(s[..i], sep)
  {
    var head := s[..i];
    forall j | 0 <= j <= |head| - |sep| ensures !OccursAt(head, sep, j) {
      if OccursAt(head, sep, j) {
        OccursInPrefix(s, i, sep, j);
      }
    }
  }

  /** `parts.join(sep)` */
  function Join(parts: seq<string>, sep: string): string {
    if |parts| == 0 then []
    else if |parts| == 1 then parts[0]
    else parts[0] + sep + Join(parts[1..], sep)
  }

  /** `s.split('\n')` */
  function Lines(s: string): seq<string> {
    Split(s, "\n")
  }

  /** `s.split(sep)[0]`: the text before the first `sep`, or all of `s`. */
  function Before(s: string, sep: string): (r: string)
    requires |sep| > 0
    ensures |r| <= |s| && r == s[..|r|] && !Contains(r, sep)
    ensures r == s || OccursAt(s, sep, |r|)
  {
    SplitPieces(s, sep);
    Split(s, sep)[0]
  }

  /** `s.split('\n')[0]` */
  function FirstLine(s: string): (r: string)
    ensures |r| <= |s| && r == s[..|r|] && '\n' !in r
    ensures r == s || s[|r|] == '\n'
  {
    var r := Before(s, "\n");
    assert '\n' !in r by {
      if '\n' in r {
        var j :| 0 <= j < |r| && r[j] == '\n';
        assert OccursAt(r, "\n", j);
      }
    }
    assert r != s ==> s[|r|..|r| + 1] == "\n";
    r
  }

  /** Splitting puts back together: `s.split(sep).join(sep) === s`. */
  lemma {:induction false} SplitJoin(s: string, sep: string)
    requires |sep| > 0
    decreases |s|
    ensures Join(Split(s, sep), sep) == s
  {
    match IndexOf(s, sep)
    case None =>
    case Some(i) =>
      var head, tail := s[..i], s[i + |sep|..];
      var rest := Split(tail, sep);
      SplitJoin(tail, sep);
      assert Split(s, sep) == [head] + rest;
      JoinCons(head, rest, sep);
      assert s == head + sep + tail;
  }

  lemma JoinCons(head: string, rest: seq<string>, sep: string)
    requires |rest| >= 1
    ensures Join([head] + rest, sep) == head + sep + Join(rest, sep)
  {
    assert ([head] + rest)[1..] == rest;
  }

  /** A one-character separator is found exactly where that character is. */
  lemma OccursAtChar(s: string, c: char, j: nat)
    ensures OccursAt(s, [c], j) <==> j < |s| && s[j] == c
  {
    if j < |s| {
      assert s[j..j + 1] == [s[j]];
    }
  }

  /** A string without the separator character is a single piece. */
  lemma SplitWithoutChar(s: string, c: char)
    requires c !in s
    ensures Split(s, [c]) == [s]
  {
    forall j: nat ensures !OccursAt(s, [c], j) {
      OccursAtChar(s, c, j);
    }
  }

  /** Splitting on a character peels off the text before its first occurrence. */
  lemma SplitCharCons(a: string, c: char, b: string)
    requires c !in a
    ensures Split(a + [c] + b, [c]) == [a] + Split(b, [c])
  {
    var s := a + [c] + b;
    forall j: nat | j < |a| ensures !OccursAt(s, [c], j) {
      OccursAtChar(s, c, j);
      assert s[j] == a[j];
    }
    OccursAtChar(s, c, |a|);
    assert IndexOf(s, [c]) == Some(|a|);
    assert s[..|a|] == a;
    assert s[|a| + 1..] == b;
  }

  /** Joining on a character and splitting again gives back the pieces, when
      no piece contains that character. */
  lemma {:induction false} JoinSplitChar(parts: seq<string>, c: char)
    requires |parts| >= 1
    requires forall k | 0 <= k < |parts| :: c !in parts[k]
    ensures Split(Join(parts, [c]), [c]) == parts
  {
    if |parts| == 1 {
      SplitWithoutChar(parts[0], c);
    } else {
      JoinSplitChar(parts[1..], c);
      SplitCharCons(parts[0], c, Join(parts[1..], [c]));
    }
  }

  /** The number of pieces is one more than the number of separator characters. */
  lemma {:induction false} SplitCharCount(s: string, c: char)
    decreases |s|
    ensures |Split(s, [c])| == multiset(s)[c] + 1
  {
    match IndexOf(s, [c])
    case None =>
      if c in s {
        var j :| 0 <= j < |s| && s[j] == c;
        OccursAtChar(s, c, j);
      }
    case Some(i) =>
      OccursAtChar(s, c, i);
      var a, b := s[..i], s[i + 1..];
      assert c !in a by {
        if c in a {
          var j :| 0 <= j < |a| && a[j] == c;
          OccursAtChar(s, c, j);
        }
      }
      assert s == a + [c] + b;
      SplitCharCons(a, c, b);
      SplitCharCount(b, c);
  }

  /** No line holds a newline. */
  lemma LinesNoNewline(s: string)
    ensures forall k | 0 <= k < |Lines(s)| :: '\n' !in Lines(s)[k]
  {
    SplitPieces(s, "\n");
    forall k | 0 <= k < |Lines(s)| ensures '\n' !in Lines(s)[k] {
      var line := Lines(s)[k];
      if '\n' in line {
        var j :| 0 <= j < |line| && line[j] == '\n';
        OccursAtChar(line, '\n', j);
      }
    }
  }

  /** Every character of a piece is a character of the split string. */
  lemma {:induction false} SplitPieceChars(s: string, sep: string, k: nat, x: char)
    requires |sep| > 0 && k < |Split(s, sep)| && x in Split(s, sep)[k]
    decreases |s|
    ensures x in s
  {
    match IndexOf(s, sep)
    case None =>
    case Some(i) =>
      if k > 0 {
        SplitPieceChars(s[i + |sep|..], sep, k - 1, x);
      }
  }

  /** Every character of a join is a character of a piece or of the separator. */
  lemma {:induction false} JoinChars(parts: seq<string>, sep: string, x: char)
    requires x in Join(parts, sep)
    ensures x in sep || exists k | 0 <= k < |parts| :: x in parts[k]
  {
    if |parts| > 1 {
      if x !in parts[0] && x !in sep {
        JoinChars(parts[1..], sep, x);
        var k :| 0 <= k < |parts[1..]| && x in parts[1..][k];
        assert x in parts[k + 1];
      }
    }
  }

  /** The first index at or after `i` that is not whitespace (or `|s|`):
      where a greedy `\s*` starting at `i` stops. */
  function SkipWhitespace(s: string, i: nat): (j: nat)
    requires i <= |s|
    decreases |s| - i
    ensures i <= j <= |s|
    ensures forall k | i <= k < j :: IsWhitespace(s[k])
    ensures j == |s| || !IsWhitespace(s[j])
  {
    if i < |s| && IsWhitespace(s[i]) then SkipWhitespace(s, i + 1) else i
  }

  /** `SkipWhitespace` stops at the first character that is not whitespace. */
  lemma SkipWhitespaceAt(s: string, i: nat, j: nat)
    requires i <= j <= |s|
    requires forall k | i <= k < j :: IsWhitespace(s[k])
    requires j == |s| || !IsWhitespace(s[j])
    ensures SkipWhitespace(s, i) == j
  {
  }

  /** The text before a character is everything up to where it first
      stands. */
  lemma BeforeChar(a: string, c: char, b: string)
    requires c !in a && (b == [] || b[0] == c)
    ensures Before(a + b, [c]) == a
  {
    if b == [] {
      assert a + b == a;
      SplitWithoutChar(a, c);
    } else {
      assert a + b == a + [c] + b[1..];
      SplitCharCons(a, c, b[1..]);
    }
  }
}
