/** `dedent` of markdown.js: expand tabs, drop the blank lines at both ends,
    and cut the smallest indentation of the non-blank lines off every line. */
module Dedent {
  import opened Text

  function ExpandChar(c: char): string {
    if c == '\t' then "  " else [c]
  }

  /** The text with every tab replaced by two spaces. */
  function ExpandTabs(s: string): (r: string)
    ensures '\t' !in r
  {
    if |s| == 0 then [] else ExpandChar(s[0]) + ExpandTabs(s[1..])
  }

  /** Each tab adds one character. */
  lemma {:induction false} ExpandTabsLength(s: string)
    ensures |ExpandTabs(s)| == |s| + multiset(s)['\t']
  {
    if |s| > 0 {
      assert s == [s[0]] + s[1..];
      ExpandTabsLength(s[1..]);
    }
  }

  /** Tab expansion works character by character. */
  lemma {:induction false} ExpandTabsAppend(a: string, b: string)
    ensures ExpandTabs(a + b) == ExpandTabs(a) + ExpandTabs(b)
  {
    if |a| > 0 {
      var c := a[0];
      assert a + b == [c] + (a[1..] + b);
      assert (a + b)[0] == c && (a + b)[1..] == a[1..] + b;
      ExpandTabsAppend(a[1..], b);
    } else {
      assert a + b == b;
    }
  }

  /** A string without tabs is left as it is. */
  lemma {:induction false} ExpandTabsNoTab(s: string)
    requires '\t' !in s
    ensures ExpandTabs(s) == s
  {
    if |s| > 0 {
      assert s == [s[0]] + s[1..];
      ExpandTabsNoTab(s[1..]);
      assert ExpandChar(s[0]) == [s[0]];
    }
  }

  /** The only characters tab expansion introduces are spaces, and it keeps
      every character other than the tab. */
  lemma {:induction false} ExpandTabsChars(s: string, x: char)
    ensures x in ExpandTabs(s) ==> x in s || x == ' '
    ensures x in s && x != '\t' ==> x in ExpandTabs(s)
  {
    if |s| > 0 {
      ExpandTabsChars(s[1..], x);
      assert s == [s[0]] + s[1..];
    }
  }

  /** Expanding tabs neither makes a blank line hold text nor the reverse. */
  lemma ExpandTabsBlank(s: string)
    ensures IsBlank(ExpandTabs(s)) <==> IsBlank(s)
  {
    var r := ExpandTabs(s);
    if IsBlank(s) {
      forall i | 0 <= i < |r| ensures IsWhitespace(r[i]) {
        ExpandTabsChars(s, r[i]);
      }
    }
    if IsBlank(r) {
      forall i | 0 <= i < |s| ensures IsWhitespace(s[i]) {
        ExpandTabsChars(s, s[i]);
      }
    }
  }

  /** Tab expansion commutes with joining lines. */
  lemma {:induction false} ExpandTabsJoin(parts: seq<string>)
    ensures ExpandTabs(Join(parts, "\n")) == Join(ExpandEach(parts), "\n")
  {
    if |parts| > 1 {
      var rest := parts[1..];
      ExpandTabsJoin(rest);
      ExpandTabsAppend(parts[0] + "\n", Join(rest, "\n"));
      ExpandTabsAppend(parts[0], "\n");
      assert ExpandTabs("\n") == "\n";
      assert ExpandEach(parts) == [ExpandTabs(parts[0])] + ExpandEach(rest);
      JoinCons(ExpandTabs(parts[0]), ExpandEach(rest), "\n");
    }
  }

  function ExpandEach(lines: seq<string>): (r: seq<string>)
    ensures |r| == |lines| && forall j | 0 <= j < |lines| :: r[j] == ExpandTabs(lines[j])
  {
    seq(|lines|, j requires 0 <= j < |lines| => ExpandTabs(lines[j]))
  }

  /** Tab expansion keeps the line structure: the lines of the expanded text
      are the expanded lines of the text. */
  lemma ExpandTabsLines(s: string)
    ensures Lines(ExpandTabs(s)) == ExpandEach(Lines(s))
  {
    var lines := Lines(s);
    SplitJoin(s, "\n");
    LinesNoNewline(s);
    ExpandTabsJoin(lines);
    var expanded := ExpandEach(lines);
    forall k | 0 <= k < |expanded| ensures '\n' !in expanded[k] {
      ExpandTabsChars(lines[k], '\n');
    }
    JoinSplitChar(expanded, '\n');
  }

  /** The lines less the blank lines at the start. */
  function DropLeadingBlank(lines: seq<string>): (r: seq<string>)
    ensures |r| <= |lines| && r == lines[|lines| - |r|..]
    ensures forall i | 0 <= i < |lines| - |r| :: IsBlank(lines[i])
    ensures r == [] || !IsBlank(r[0])
  {
    if |lines| > 0 && IsBlank(lines[0]) then
      var r := DropLeadingBlank(lines[1..]);
      assert lines[1..][|lines| - 1 - |r|..] == lines[|lines| - |r|..];
      assert forall i | 1 <= i < |lines| - |r| :: lines[i] == lines[1..][i - 1];
      r
    else lines
  }

  /** The lines less the blank lines at the end. */
  function DropTrailingBlank(lines: seq<string>): (r: seq<string>)
    ensures |r| <= |lines| && r == lines[..|r|]
    ensures forall i | |r| <= i < |lines| :: IsBlank(lines[i])
    ensures r == [] || !IsBlank(r[|r| - 1])
  {
    if |lines| > 0 && IsBlank(lines[|lines| - 1]) then DropTrailingBlank(lines[..|lines| - 1]) else lines
  }

  /** The lines `dedent` keeps: those of the tab-expanded text, less the blank
      lines at the start and at the end. */
  function KeptLines(s: string): seq<string> {
    DropTrailingBlank(DropLeadingBlank(Lines(ExpandTabs(s))))
  }

  /** Dropping the blank lines at both ends keeps a contiguous run of the
      lines: the one that starts after the leading blank lines. */
  lemma {:induction false} DropBlankRun(lines: seq<string>)
    ensures var front := DropLeadingBlank(lines); var kept := DropTrailingBlank(front);
      && |lines| - |front| + |kept| <= |lines|
      && kept == lines[|lines| - |front|..|lines| - |front| + |kept|]
  {
    var front := DropLeadingBlank(lines);
    RunOfRun(lines, front, DropTrailingBlank(front));
  }

  /** A prefix of a suffix is a slice. */
  lemma RunOfRun(lines: seq<string>, front: seq<string>, kept: seq<string>)
    requires |front| <= |lines| && front == lines[|lines| - |front|..]
    requires |kept| <= |front| && kept == front[..|kept|]
    ensures kept == lines[|lines| - |front|..|lines| - |front| + |kept|]
  {
  }

  /** Every line dropped before or after the kept run is blank. */
  lemma DropBlankOutside(lines: seq<string>)
    ensures var front := DropLeadingBlank(lines); var kept := DropTrailingBlank(front);
      && (forall j | 0 <= j < |lines| - |front| :: IsBlank(lines[j]))
      && (forall j | |lines| - |front| + |kept| <= j < |lines| :: IsBlank(lines[j]))
  {
    var front := DropLeadingBlank(lines);
    var kept := DropTrailingBlank(front);
    var a := |lines| - |front|;
    forall j | a + |kept| <= j < |lines| ensures IsBlank(lines[j]) {
      assert lines[j] == front[j - a];
    }
  }

  /** The kept run neither starts nor ends with a blank line. */
  lemma DropBlankEnds(lines: seq<string>)
    ensures var kept := DropTrailingBlank(DropLeadingBlank(lines));
      kept == [] || (!IsBlank(kept[0]) && !IsBlank(kept[|kept| - 1]))
  {
    var front := DropLeadingBlank(lines);
    var kept := DropTrailingBlank(front);
    assert kept != [] ==> kept[0] == front[0];
  }

  /** Nothing is kept exactly when every line is blank. */
  lemma DropBlankAll(lines: seq<string>)
    ensures DropTrailingBlank(DropLeadingBlank(lines)) == [] <==> forall j | 0 <= j < |lines| :: IsBlank(lines[j])
  {
    var front := DropLeadingBlank(lines);
    if DropTrailingBlank(front) == [] {
      DropBlankOutside(lines);
    }
  }

  /** Lines without blank ends are kept as they are. */
  lemma DropBlankEdgesNone(lines: seq<string>)
    requires lines == [] || (!IsBlank(lines[0]) && !IsBlank(lines[|lines| - 1]))
    ensures DropTrailingBlank(DropLeadingBlank(lines)) == lines
  {
  }

  /** The first and the last kept line are not blank. */
  lemma KeptLinesEnds(s: string)
    ensures KeptLines(s) == [] || (!IsBlank(KeptLines(s)[0]) && !IsBlank(KeptLines(s)[|KeptLines(s)| - 1]))
  {
    DropBlankEnds(Lines(ExpandTabs(s)));
  }

  /** Kept lines hold neither newlines (they come from splitting on `\n`)
      nor tabs (they were expanded). */
  lemma KeptLineChars(s: string)
    ensures forall i | 0 <= i < |KeptLines(s)| :: '\n' !in KeptLines(s)[i] && '\t' !in KeptLines(s)[i]
  {
    var expanded := ExpandTabs(s);
    var lines := Lines(expanded);
    var front := DropLeadingBlank(lines);
    var kept := DropTrailingBlank(front);
    LinesNoNewline(expanded);
    forall i | 0 <= i < |kept| ensures '\n' !in kept[i] && '\t' !in kept[i] {
      var j := |lines| - |front| + i;
      assert kept[i] == front[i] == lines[j];
      if '\t' in lines[j] {
        SplitPieceChars(expanded, "\n", j, '\t');
      }
    }
  }

  /** A text is blank exactly when each of its lines is. */
  lemma BlankLines(t: string)
    ensures IsBlank(t) <==> forall j | 0 <= j < |Lines(t)| :: IsBlank(Lines(t)[j])
  {
    var lines := Lines(t);
    if IsBlank(t) {
      forall j, k | 0 <= j < |lines| && 0 <= k < |lines[j]| ensures IsWhitespace(lines[j][k]) {
        SplitPieceChars(t, "\n", j, lines[j][k]);
      }
    } else {
      var k :| 0 <= k < |t| && !IsWhitespace(t[k]);
      SplitJoin(t, "\n");
      JoinChars(lines, "\n", t[k]);
    }
  }

  /** `dedent` keeps no line exactly when the text is blank. */
  lemma KeptLinesNone(s: string)
    ensures KeptLines(s) == [] <==> IsBlank(s)
  {
    DropBlankAll(Lines(ExpandTabs(s)));
    BlankLines(ExpandTabs(s));
    ExpandTabsBlank(s);
  }

  /** The kept lines are the input's own lines with their tabs expanded,
      less the blank lines at both ends. */
  lemma {:induction false} KeptInputLines(s: string)
    ensures KeptLines(s) == DropTrailingBlank(DropLeadingBlank(ExpandEach(Lines(s))))
  {
    ExpandTabsLines(s);
  }

  function LeadingSpaces(line: string): (n: nat)
    ensures n <= |line|
    ensures forall i | 0 <= i < n :: line[i] == ' '
    ensures n == |line| || line[n] != ' '
  {
    if |line| > 0 && line[0] == ' ' then 1 + LeadingSpaces(line[1..]) else 0
  }

  predicate HasText(lines: seq<string>) {
    exists i | 0 <= i < |lines| :: !IsBlank(lines[i])
  }

  /** The smallest indentation of the non-blank lines, or 0 when there are none. */
  function MinIndent(lines: seq<string>): (m: nat)
    ensures forall i | 0 <= i < |lines| && !IsBlank(lines[i]) :: m <= LeadingSpaces(lines[i])
    ensures HasText(lines) ==> exists i | 0 <= i < |lines| :: !IsBlank(lines[i]) && LeadingSpaces(lines[i]) == m
    ensures !HasText(lines) ==> m == 0
  {
    if |lines| == 0 then 0
    else
      var rest := MinIndent(lines[1..]);
      var first := LeadingSpaces(lines[0]);
      assert forall i | 1 <= i < |lines| :: lines[i] == lines[1..][i - 1];
      if IsBlank(lines[0]) then rest
      else if !HasText(lines[1..]) then first
      else if first <= rest then first
      else rest
  }

  /** `line.slice(n)`: all but the first `n` characters, or nothing. */
  function SliceFrom(line: string, n: nat): string {
    if n <= |line| then line[n..] else []
  }

  function Spaces(n: nat): (r: string)
    ensures |r| == n && forall i | 0 <= i < n :: r[i] == ' '
  {
    if n == 0 then [] else [' '] + Spaces(n - 1)
  }

  /** Every line with its first `n` characters cut off. */
  function SliceEach(lines: seq<string>, n: nat): (r: seq<string>)
    ensures |r| == |lines| && forall i | 0 <= i < |lines| :: r[i] == SliceFrom(lines[i], n)
  {
    seq(|lines|, i requires 0 <= i < |lines| => SliceFrom(lines[i], n))
  }

  /** Cutting characters off a line keeps the rest of its characters, and a
      blank line stays blank. */
  lemma SliceChars(line: string, n: nat)
    ensures forall x :: x in SliceFrom(line, n) ==> x in line
    ensures IsBlank(line) ==> IsBlank(SliceFrom(line, n))
  {
  }

  /** Cutting `n` characters off a non-blank line indented by at least `n`
      spaces removes just those spaces: the line stays non-blank and its
      indentation shrinks by `n`. */
  lemma SliceIndented(line: string, n: nat)
    requires !IsBlank(line) && n <= LeadingSpaces(line)
    ensures line == Spaces(n) + SliceFrom(line, n)
    ensures !IsBlank(SliceFrom(line, n))
    ensures LeadingSpaces(SliceFrom(line, n)) == LeadingSpaces(line) - n
  {
    var r := SliceFrom(line, n);
    assert line == line[..n] + r;
    assert line[..n] == Spaces(n);
    assert !IsBlank(r) by {
      var k :| 0 <= k < |line| && !IsWhitespace(line[k]);
      assert r[k - n] == line[k];
    }
    var p := LeadingSpaces(line) - n;
    assert forall i | 0 <= i < p :: r[i] == line[i + n];
    assert p == |r| || r[p] == line[p + n];
  }

  /** Cutting `m` characters off lines whose non-blank ones are indented by
      at least `m`: a non-blank line loses exactly `m` spaces, so relative
      indentation is kept, and a line is blank after exactly when before. */
  lemma StripLines(kept: seq<string>, m: nat)
    requires forall i | 0 <= i < |kept| && !IsBlank(kept[i]) :: m <= LeadingSpaces(kept[i])
    ensures var out := SliceEach(kept, m);
      && (forall i | 0 <= i < |out| && !IsBlank(kept[i]) ::
            kept[i] == Spaces(m) + out[i] && LeadingSpaces(out[i]) == LeadingSpaces(kept[i]) - m)
      && (forall i | 0 <= i < |out| :: IsBlank(out[i]) <==> IsBlank(kept[i]))
  {
    var out := SliceEach(kept, m);
    forall i | 0 <= i < |out|
      ensures !IsBlank(kept[i]) ==> kept[i] == Spaces(m) + out[i]
      ensures !IsBlank(kept[i]) ==> LeadingSpaces(out[i]) == LeadingSpaces(kept[i]) - m
      ensures IsBlank(out[i]) <==> IsBlank(kept[i])
    {
      if IsBlank(kept[i]) {
        SliceChars(kept[i], m);
      } else {
        SliceIndented(kept[i], m);
      }
    }
  }

  /** Cutting characters off every line brings in no character. */
  lemma SliceEachChars(lines: seq<string>, n: nat, c: char)
    requires forall i | 0 <= i < |lines| :: c !in lines[i]
    ensures forall i | 0 <= i < |lines| :: c !in SliceEach(lines, n)[i]
  {
    forall i | 0 <= i < |lines| ensures c !in SliceEach(lines, n)[i] {
      SliceChars(lines[i], n);
    }
  }

  /** After cutting the smallest indentation, some non-blank line starts in
      column zero. */
  lemma StripZero(kept: seq<string>)
    requires HasText(kept)
    ensures exists i | 0 <= i < |kept| ::
      !IsBlank(SliceEach(kept, MinIndent(kept))[i]) && LeadingSpaces(SliceEach(kept, MinIndent(kept))[i]) == 0
  {
    var m := MinIndent(kept);
    var i :| 0 <= i < |kept| && !IsBlank(kept[i]) && LeadingSpaces(kept[i]) == m;
    SliceIndented(kept[i], m);
    assert SliceEach(kept, m)[i] == SliceFrom(kept[i], m);
  }

  /** The lines `dedent` joins: each kept line with the smallest indentation
      of the non-blank kept lines cut off. */
  function DedentedLines(s: string): seq<string> {
    var kept := KeptLines(s);
    SliceEach(kept, MinIndent(kept))
  }

  /** `dedent(str)`: the dedented lines joined with `\n`. */
  function Dedent(s: string): string {
    Join(DedentedLines(s), "\n")
  }

  /** The dedented lines are the kept lines less their common indentation:
      a non-blank line loses exactly that many spaces, so relative
      indentation is kept, and a line is blank after exactly when before. */
  lemma DedentLines(s: string)
    ensures var kept := KeptLines(s); var m := MinIndent(kept); var out := DedentedLines(s);
      && |out| == |kept|
      && (forall i | 0 <= i < |out| && !IsBlank(kept[i]) ::
            kept[i] == Spaces(m) + out[i] && LeadingSpaces(out[i]) == LeadingSpaces(kept[i]) - m)
      && (forall i | 0 <= i < |out| :: IsBlank(out[i]) <==> IsBlank(kept[i]))
  {
    var kept := KeptLines(s);
    StripLines(kept, MinIndent(kept));
  }

  /** The dedented block neither starts nor ends with a blank line. */
  lemma DedentEnds(s: string)
    ensures var out := DedentedLines(s); out == [] || (!IsBlank(out[0]) && !IsBlank(out[|out| - 1]))
  {
    KeptLinesEnds(s);
    DedentLines(s);
  }

  /** When the dedented block is not empty, some non-blank line of it starts
      in column zero. */
  lemma DedentZero(s: string)
    ensures var out := DedentedLines(s);
      out != [] ==> exists i | 0 <= i < |out| :: !IsBlank(out[i]) && LeadingSpaces(out[i]) == 0
  {
    var kept := KeptLines(s);
    if kept != [] {
      KeptLinesEnds(s);
      assert HasText(kept) by { assert !IsBlank(kept[0]); }
      StripZero(kept);
    }
  }

  /** Dedented lines hold neither newlines nor tabs. */
  lemma DedentedLineChars(s: string)
    ensures forall i | 0 <= i < |DedentedLines(s)| :: '\n' !in DedentedLines(s)[i] && '\t' !in DedentedLines(s)[i]
  {
    var kept := KeptLines(s);
    KeptLineChars(s);
    SliceEachChars(kept, MinIndent(kept), '\n');
    SliceEachChars(kept, MinIndent(kept), '\t');
  }

  /** The text `dedent` returns holds no tab. */
  lemma DedentNoTab(s: string)
    ensures '\t' !in Dedent(s)
  {
    DedentedLineChars(s);
    if '\t' in Dedent(s) {
      JoinChars(DedentedLines(s), "\n", '\t');
    }
  }

  /** The text `dedent` returns is empty when no line is kept, and otherwise
      splits back into the dedented lines. */
  lemma DedentText(s: string)
    ensures DedentedLines(s) == [] ==> Dedent(s) == []
    ensures DedentedLines(s) != [] ==> Lines(Dedent(s)) == DedentedLines(s)
  {
    var out := DedentedLines(s);
    if out != [] {
      DedentedLineChars(s);
      JoinSplitChar(out, '\n');
    }
  }

  /** `dedent` gives the empty string exactly when no line is kept. */
  lemma DedentNone(s: string)
    ensures Dedent(s) == [] <==> DedentedLines(s) == []
  {
    var out := DedentedLines(s);
    if out != [] && Dedent(s) == [] {
      DedentText(s);
      DedentEnds(s);
    }
  }

  /** `dedent` gives the empty string exactly for an input that is all
      whitespace (blank lines only). */
  lemma DedentEmpty(s: string)
    ensures Dedent(s) == [] <==> IsBlank(s)
  {
    DedentNone(s);
    KeptLinesNone(s);
  }

  /** Dedenting twice is dedenting once. */
  lemma DedentIdempotent(s: string)
    ensures Dedent(Dedent(s)) == Dedent(s)
  {
    var t := Dedent(s);
    var out := DedentedLines(s);
    DedentText(s);
    if out == [] {
      DedentEmpty(t);
      assert IsBlank(t);
    } else {
      DedentKept(s);
      DedentZero(s);
      MinIndentZero(out);
      SliceNone(out);
      assert DedentedLines(t) == out;
    }
  }

  /** Dedenting a dedented text keeps all of its lines. */
  lemma DedentKept(s: string)
    requires DedentedLines(s) != []
    ensures KeptLines(Dedent(s)) == DedentedLines(s)
  {
    DedentText(s);
    DedentEnds(s);
    DedentNoTab(s);
    KeptLinesOf(Dedent(s), DedentedLines(s));
  }

  /** A tab-free text whose lines neither start nor end blank keeps all of
      them. */
  lemma KeptLinesOf(t: string, lines: seq<string>)
    requires '\t' !in t && Lines(t) == lines
    requires lines == [] || (!IsBlank(lines[0]) && !IsBlank(lines[|lines| - 1]))
    ensures KeptLines(t) == lines
  {
    ExpandTabsNoTab(t);
    DropBlankEdgesNone(lines);
  }

  /** A block with a non-blank line in column zero has no common indentation. */
  lemma MinIndentZero(lines: seq<string>)
    requires exists i | 0 <= i < |lines| :: !IsBlank(lines[i]) && LeadingSpaces(lines[i]) == 0
    ensures MinIndent(lines) == 0
  {
  }

  /** Cutting nothing off leaves every line as it is. */
  lemma SliceNone(lines: seq<string>)
    ensures SliceEach(lines, 0) == lines
  {
  }
}
