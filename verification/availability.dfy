/** The availability line of a rule section: `**Availability:** `es5`, `es6``,
    optionally followed by a note in parentheses. The profiles are the
    odd-numbered pieces of the line's text before the first `(`, split on
    backticks. */
module Availability {
  import opened Results
  import opened Text

  const Label: string := "**Availability:**"
  const Tick: char := '`'
  const NoteStart: char := '('

  /** The index of the first line that contains `t`. */
  function FirstContaining(lines: seq<string>, t: string): (r: Option<nat>)
    ensures r.Some? ==> r.value < |lines| && Contains(lines[r.value], t)
    ensures r.Some? ==> forall j | 0 <= j < r.value :: !Contains(lines[j], t)
    ensures r.None? <==> forall j | 0 <= j < |lines| :: !Contains(lines[j], t)
  {
    if |lines| == 0 then None
    else if Contains(lines[0], t) then Some(0)
    else match FirstContaining(lines[1..], t)
      case None => None
      case Some(i) => Some(i + 1)
  }

  /** The first line of a rule section that carries the availability
      label, or `None` when no line does. */
  function AvailabilityLine(section: string): (r: Option<string>)
    ensures r.None? <==> forall j | 0 <= j < |Lines(section)| :: !Contains(Lines(section)[j], Label)
    ensures r.Some? ==> Contains(r.value, Label) && r.value in Lines(section)
  {
    var lines := Lines(section);
    match FirstContaining(lines, Label)
    case None => None
    case Some(i) => Some(lines[i])
  }

  /** Of several lines that carry the label, the first is chosen. */
  lemma AvailabilityLineFirst(section: string, i: nat)
    requires i < |Lines(section)| && Contains(Lines(section)[i], Label)
    requires forall j | 0 <= j < i :: !Contains(Lines(section)[j], Label)
    ensures AvailabilityLine(section) == Some(Lines(section)[i])
  {
    var k := FirstContaining(Lines(section), Label).value;
    assert !(k < i) && !(i < k);
  }

  /** The pieces at odd positions: the second, the fourth, and so on. */
  function OddPieces(bits: seq<string>): (r: seq<string>)
    ensures |r| == |bits| / 2
    ensures forall j | 0 <= j < |r| :: r[j] == bits[2 * j + 1]
  {
    if |bits| < 2 then []
    else
      var rest := OddPieces(bits[2..]);
      assert forall j | 1 <= j < |rest| + 1 :: bits[2 * j + 1] == bits[2..][2 * (j - 1) + 1];
      [bits[1]] + rest
  }

  /** The profiles an availability line lists. */
  function ParseAvailability(line: string): seq<string> {
    OddPieces(Split(Before(line, [NoteStart]), [Tick]))
  }

  /** A profile token holds neither a backtick nor an opening parenthesis. */
  lemma AvailabilityTokens(line: string)
    ensures forall j | 0 <= j < |ParseAvailability(line)| ::
      Tick !in ParseAvailability(line)[j] && NoteStart !in ParseAvailability(line)[j]
  {
    var head := Before(line, [NoteStart]);
    var bits := Split(head, [Tick]);
    var r := ParseAvailability(line);
    SplitPieces(head, [Tick]);
    forall j | 0 <= j < |r| ensures Tick !in r[j] && NoteStart !in r[j] {
      var piece := bits[2 * j + 1];
      if Tick in piece {
        var k :| 0 <= k < |piece| && piece[k] == Tick;
        OccursAtChar(piece, Tick, k);
      }
      if NoteStart in piece {
        SplitPieceChars(head, [Tick], 2 * j + 1, NoteStart);
        var k :| 0 <= k < |head| && head[k] == NoteStart;
        OccursAtChar(head, NoteStart, k);
      }
    }
  }

  /** There is one profile per opening backtick before the note: an
      unclosed last backtick still opens a profile that runs to the note. */
  lemma AvailabilityCount(line: string)
    ensures |ParseAvailability(line)| == (multiset(Before(line, [NoteStart]))[Tick] + 1) / 2
  {
    SplitCharCount(Before(line, [NoteStart]), Tick);
  }

  /** Profiles written as a backtick-quoted list with `sep` between them. */
  function Quoted(tokens: seq<string>, sep: string): string {
    if |tokens| == 0 then []
    else if |tokens| == 1 then [Tick] + tokens[0] + [Tick]
    else [Tick] + tokens[0] + [Tick] + sep + Quoted(tokens[1..], sep)
  }

  predicate TokensWithout(tokens: seq<string>, c: char) {
    forall j | 0 <= j < |tokens| :: c !in tokens[j]
  }

  /** Two tick-free pieces around a backtick split apart. */
  lemma SplitTwoTicks(a: string, t: string, b: string)
    requires Tick !in a && Tick !in t
    ensures Split(a + [Tick] + t + [Tick] + b, [Tick]) == [a, t] + Split(b, [Tick])
  {
    assert a + [Tick] + t + [Tick] + b == a + [Tick] + (t + [Tick] + b);
    SplitCharCons(a, Tick, t + [Tick] + b);
    SplitCharCons(t, Tick, b);
  }

  lemma OddPiecesCons(a: string, t: string, rest: seq<string>)
    ensures OddPieces([a, t] + rest) == [t] + OddPieces(rest)
  {
    assert ([a, t] + rest)[2..] == rest;
  }

  /** A quoted list of one profile. */
  lemma QuotedOne(pre: string, tokens: seq<string>, sep: string, post: string)
    requires |tokens| == 1
    ensures pre + Quoted(tokens, sep) + post == pre + [Tick] + tokens[0] + [Tick] + post
  {
  }

  /** A quoted list of several profiles: the first, quoted, then the
      separator and the rest. */
  lemma QuotedMore(pre: string, tokens: seq<string>, sep: string, post: string)
    requires |tokens| > 1
    ensures pre + Quoted(tokens, sep) + post
      == pre + [Tick] + tokens[0] + [Tick] + (sep + Quoted(tokens[1..], sep) + post)
  {
  }

  /** Splitting a quoted list on backticks and taking every other piece gives
      the profiles back, whatever tick-free text stands before and after. */
  lemma {:induction false} QuotedRoundTrip(pre: string, tokens: seq<string>, sep: string, post: string)
    requires Tick !in pre && Tick !in sep && Tick !in post && TokensWithout(tokens, Tick)
    decreases |tokens|
    ensures OddPieces(Split(pre + Quoted(tokens, sep) + post, [Tick])) == tokens
  {
    if |tokens| == 0 {
      assert pre + Quoted(tokens, sep) + post == pre + post;
      SplitWithoutChar(pre + post, Tick);
    } else if |tokens| == 1 {
      QuotedOne(pre, tokens, sep, post);
      SplitTwoTicks(pre, tokens[0], post);
      SplitWithoutChar(post, Tick);
      OddPiecesCons(pre, tokens[0], [post]);
    } else {
      var rest := sep + Quoted(tokens[1..], sep) + post;
      QuotedMore(pre, tokens, sep, post);
      SplitTwoTicks(pre, tokens[0], rest);
      OddPiecesCons(pre, tokens[0], Split(rest, [Tick]));
      QuotedRoundTrip(sep, tokens[1..], sep, post);
    }
  }

  /** Every character of a quoted list is a backtick, a character of the
      separator or a character of a profile. */
  lemma {:induction false} QuotedChars(tokens: seq<string>, sep: string, c: char)
    requires c != Tick && c !in sep && TokensWithout(tokens, c)
    decreases |tokens|
    ensures c !in Quoted(tokens, sep)
  {
    if |tokens| > 1 {
      QuotedChars(tokens[1..], sep, c);
    }
  }

  /** An availability line written as a label-bearing prefix, a quoted list
      of profiles, tick-free text and an optional note in parentheses lists
      exactly those profiles. */
  lemma AvailabilityRoundTrip(pre: string, tokens: seq<string>, sep: string, post: string, note: string)
    requires NoteStart !in pre && NoteStart !in sep && NoteStart !in post && TokensWithout(tokens, NoteStart)
    requires Tick !in pre && Tick !in sep && Tick !in post && TokensWithout(tokens, Tick)
    requires note == [] || note[0] == NoteStart
    ensures ParseAvailability(pre + Quoted(tokens, sep) + post + note) == tokens
  {
    var head := pre + Quoted(tokens, sep) + post;
    QuotedChars(tokens, sep, NoteStart);
    BeforeChar(head, NoteStart, note);
    QuotedRoundTrip(pre, tokens, sep, post);
  }
}
