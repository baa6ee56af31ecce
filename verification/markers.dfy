/** The test-case marker scan of markdown.js: the global regular expression
    `/\n\s*(Good:|Bad:)\s*([\s\S]*?)(?=\n\s*(Good:|Bad:)|$)/g` run with `exec`
    over a rule section, one match after another.

    A match starts at a newline followed by optional whitespace and a marker
    word. The greedy `\s*` after the word eats all the whitespace that
    follows, newlines included, and the lazy body then runs up to the first
    position where another marker starts, or to the end of the text. The
    next search resumes where the body ended. */
module Markers {
  import opened Results
  import opened Text

  const Good: string := "Good:"
  const Bad: string := "Bad:"

  function Word(isGood: bool): string {
    if isGood then Good else Bad
  }

  /** `\n\s*(Good:|Bad:)` matches at `p`. Whitespace cannot start a marker
      word, so the greedy `\s*` never needs to give characters back. */
  predicate MarkerAt(s: string, p: nat) {
    && p < |s|
    && s[p] == '\n'
    && var w := SkipWhitespace(s, p + 1);
    OccursAt(s, Good, w) || OccursAt(s, Bad, w)
  }

  /** The first position at or after `from` where a marker starts. */
  function NextMarker(s: string, from: nat): (r: Option<nat>)
    requires from <= |s|
    decreases |s| - from
    ensures r.Some? ==> from <= r.value < |s| && MarkerAt(s, r.value)
    ensures r.Some? ==> forall q | from <= q < r.value :: !MarkerAt(s, q)
    ensures r.None? ==> forall q | from <= q < |s| :: !MarkerAt(s, q)
  {
    if from == |s| then None
    else if MarkerAt(s, from) then Some(from)
    else NextMarker(s, from + 1)
  }

  /** One match of the marker expression: the newline it starts at, which
      word it found and where, and the span of the body (group 2). */
  datatype Match = Match(start: nat, isGood: bool, word: nat, bodyStart: nat, bodyEnd: nat)

  /** What a match of the expression at `m.start` is: a newline, whitespace,
      the marker word, all the whitespace after it, then a body that runs
      to the first later marker or to the end of the text. */
  ghost predicate IsMatch(s: string, m: Match) {
    && m.start < m.word
    && m.word + |Word(m.isGood)| <= m.bodyStart <= m.bodyEnd <= |s|
    && s[m.start] == '\n'
    && IsBlank(s[m.start + 1..m.word])
    && OccursAt(s, Word(m.isGood), m.word)
    && IsBlank(s[m.word + |Word(m.isGood)|..m.bodyStart])
    && (m.bodyStart == |s| || !IsWhitespace(s[m.bodyStart]))
    && (m.bodyEnd == |s| || MarkerAt(s, m.bodyEnd))
    && (forall q | m.bodyStart <= q < m.bodyEnd :: !MarkerAt(s, q))
  }

  /** The match the expression finds when a marker starts at `p`. */
  function MatchAt(s: string, p: nat): (m: Match)
    requires MarkerAt(s, p)
    ensures m.start == p < m.word && m.word + |Word(m.isGood)| <= m.bodyStart <= m.bodyEnd <= |s|
  {
    var w := SkipWhitespace(s, p + 1);
    var isGood := OccursAt(s, Good, w);
    var b := SkipWhitespace(s, w + |Word(isGood)|);
    var e := match NextMarker(s, b) case Some(q) => q case None => |s|;
    Match(p, isGood, w, b, e)
  }

  /** The match found at a marker is a match of the expression. */
  lemma MatchAtIsMatch(s: string, p: nat)
    requires MarkerAt(s, p)
    ensures IsMatch(s, MatchAt(s, p))
  {
    var m := MatchAt(s, p);
    BlankSlice(s, p + 1, m.word);
    BlankSlice(s, m.word + |Word(m.isGood)|, m.bodyStart);
  }

  /** The matches `exec` returns one after another, starting the search at
      `from`. */
  function MatchesFrom(s: string, from: nat): seq<Match>
    requires from <= |s|
    decreases |s| - from
  {
    match NextMarker(s, from)
    case None => []
    case Some(p) =>
      var m := MatchAt(s, p);
      [m] + MatchesFrom(s, m.bodyEnd)
  }

  /** Every match is a match of the expression, found at or after `from`. */
  lemma {:induction false} MatchesWellFormed(s: string, from: nat)
    requires from <= |s|
    decreases |s| - from
    ensures forall i | 0 <= i < |MatchesFrom(s, from)| ::
      from <= MatchesFrom(s, from)[i].start && IsMatch(s, MatchesFrom(s, from)[i])
  {
    match NextMarker(s, from)
    case None =>
    case Some(p) =>
      var m := MatchAt(s, p);
      var rest := MatchesFrom(s, m.bodyEnd);
      MatchesWellFormed(s, m.bodyEnd);
      MatchAtIsMatch(s, p);
      var ms := MatchesFrom(s, from);
      assert ms == [m] + rest;
      forall i | 0 < i < |ms| ensures from <= ms[i].start && IsMatch(s, ms[i]) {
        assert ms[i] == rest[i - 1];
      }
  }

  /** There is no match exactly when no marker starts at or after `from`;
      otherwise the first match is at the first such marker. */
  lemma MatchesFirst(s: string, from: nat)
    requires from <= |s|
    ensures MatchesFrom(s, from) == [] <==> forall q | from <= q < |s| :: !MarkerAt(s, q)
    ensures MatchesFrom(s, from) != [] ==> NextMarker(s, from) == Some(MatchesFrom(s, from)[0].start)
  {
  }

  /** Each match's body ends where the next match starts. */
  lemma {:induction false} MatchesLinked(s: string, from: nat)
    requires from <= |s|
    decreases |s| - from
    ensures var ms := MatchesFrom(s, from);
      forall i | 0 <= i < |ms| - 1 :: ms[i].bodyEnd == ms[i + 1].start
  {
    match NextMarker(s, from)
    case None =>
    case Some(p) =>
      var m := MatchAt(s, p);
      var rest := MatchesFrom(s, m.bodyEnd);
      MatchesLinked(s, m.bodyEnd);
      MatchesFirst(s, m.bodyEnd);
      var ms := MatchesFrom(s, from);
      assert ms == [m] + rest;
      forall i | 0 <= i < |ms| - 1 ensures ms[i].bodyEnd == ms[i + 1].start {
        if i > 0 {
          assert ms[i] == rest[i - 1] && ms[i + 1] == rest[i];
        }
      }
  }

  /** The last body runs to the end of the text. */
  lemma {:induction false} MatchesLast(s: string, from: nat)
    requires from <= |s|
    decreases |s| - from
    ensures var ms := MatchesFrom(s, from); ms != [] ==> ms[|ms| - 1].bodyEnd == |s|
  {
    match NextMarker(s, from)
    case None =>
    case Some(p) =>
      var m := MatchAt(s, p);
      var rest := MatchesFrom(s, m.bodyEnd);
      MatchesLast(s, m.bodyEnd);
      assert MatchesFrom(s, from) == [m] + rest;
  }

  /** Every marker at or after `from` is either where a match starts or
      inside the whitespace-and-word prefix of a match: no marker lies in
      a body. A marker strictly inside such a prefix is one the previous
      marker's greedy `\s*` swallowed. */
  lemma {:induction false} MatchesCover(s: string, from: nat, q: nat)
    requires from <= q < |s| && MarkerAt(s, q)
    decreases |s| - from
    ensures exists i | 0 <= i < |MatchesFrom(s, from)| ::
      MatchesFrom(s, from)[i].start <= q < MatchesFrom(s, from)[i].bodyStart
  {
    var ms := MatchesFrom(s, from);
    var m := ms[0];
    var rest := MatchesFrom(s, m.bodyEnd);
    MatchesHead(s, from);
    if q >= m.bodyStart {
      MatchesCover(s, m.bodyEnd, q);
      var i :| 0 <= i < |rest| && rest[i].start <= q < rest[i].bodyStart;
      assert ms[i + 1] == rest[i];
    }
  }

  /** When a marker starts at or after `from`, the first match is the
      match at the first marker, the others are those found from the end of
      its body, and a marker at or after its body start lies at or after
      its body end. */
  lemma MatchesHead(s: string, from: nat)
    requires from <= |s|
    requires exists q | from <= q < |s| :: MarkerAt(s, q)
    ensures MatchesFrom(s, from) != []
    ensures var m := MatchesFrom(s, from)[0];
      && m.start == NextMarker(s, from).value
      && m.bodyEnd <= |s|
      && MatchesFrom(s, from) == [m] + MatchesFrom(s, m.bodyEnd)
      && forall q | m.bodyStart <= q < |s| && MarkerAt(s, q) :: m.bodyEnd <= q
  {
    var m := MatchAt(s, NextMarker(s, from).value);
    MatchAtIsMatch(s, m.start);
    assert MatchesFrom(s, from) == [m] + MatchesFrom(s, m.bodyEnd);
  }

  /** All the matches of the expression over a text. */
  function Matches(s: string): seq<Match> {
    MatchesFrom(s, 0)
  }

  /** A test-case block as the extractor first sees it: the marker's kind
      and the trimmed body. */
  datatype Section = Section(isGood: bool, code: string)

  /** One block per match: whether its marker is `Good:`, and its body
      trimmed. */
  function Sections(s: string): (r: seq<Section>)
    ensures |r| == |Matches(s)|
  {
    var ms := Matches(s);
    MatchesWellFormed(s, 0);
    seq(|ms|, i requires 0 <= i < |ms| =>
      Section(ms[i].isGood, Trim(s[ms[i].bodyStart..ms[i].bodyEnd])))
  }

  /** A block is good exactly when its match found `Good:`, and bad exactly
      when it found `Bad:`. */
  lemma SectionKind(s: string, i: nat)
    requires i < |Sections(s)|
    ensures var m := Matches(s)[i];
      && (Sections(s)[i].isGood <==> OccursAt(s, Good, m.word))
      && (!Sections(s)[i].isGood <==> OccursAt(s, Bad, m.word))
  {
    MatchesWellFormed(s, 0);
    var m := Matches(s)[i];
    assert IsMatch(s, m);
    if m.isGood {
      assert s[m.word] == 'G';
      assert !OccursAt(s, Bad, m.word) by { assert Bad[0] == 'B'; }
    } else {
      assert s[m.word] == 'B';
      assert !OccursAt(s, Good, m.word) by { assert Good[0] == 'G'; }
    }
  }
}
