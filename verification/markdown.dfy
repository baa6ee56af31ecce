/** `getTestCasesData(rule, docPath)` of markdown.js, on the document's text:
    find the rule's bulleted section, read its availability line, scan its
    Good/Bad blocks, and turn each block into a test case. Each stage fails
    with its own error, and the first failing stage wins. */
module Markdown {
  import opened Results
  import opened Text
  import opened Decimal
  import Dedent
  import Markers
  import Availability
  import Directive

  datatype TestCase = TestCase(isGood: bool, title: string, code: string, expectedErrors: nat)

  datatype TestCasesData = TestCasesData(availability: seq<string>, testCases: seq<TestCase>)

  /** The errors `getTestCasesData` throws, one per stage. */
  datatype ExtractError =
    | RuleNotFound(rule: string)
    | AvailabilityNotFound(rule: string)
    | NoTestCases(rule: string)
    | CommentOutNotFound(title: string)
    | ExpectedErrorsNotFound(title: string)
    | CodeNotFound(title: string)

  /** What `doc.split('\n- ')` splits the document on: a new bullet. */
  const Bullet: string := "\n- "

  /** The reference a rule's bullet line carries. */
  function RuleTag(rule: string): string {
    "eslint: [`" + rule + "`]"
  }

  /** The first line of a chunk mentions the rule. */
  predicate Mentions(chunk: string, rule: string) {
    Contains(FirstLine(chunk), RuleTag(rule))
  }

  /** The index of the first chunk that mentions the rule. */
  function FirstMentioning(chunks: seq<string>, rule: string): (r: Option<nat>)
    ensures r.Some? ==> r.value < |chunks| && Mentions(chunks[r.value], rule)
    ensures r.Some? ==> forall j | 0 <= j < r.value :: !Mentions(chunks[j], rule)
    ensures r.None? <==> forall j | 0 <= j < |chunks| :: !Mentions(chunks[j], rule)
  {
    if |chunks| == 0 then None
    else if Mentions(chunks[0], rule) then Some(0)
    else match FirstMentioning(chunks[1..], rule)
      case None => None
      case Some(i) => Some(i + 1)
  }

  /** The first bullet chunk whose first line carries the rule's tag, or
      `None` when none does. */
  function RuleSection(doc: string, rule: string): (r: Option<string>)
    ensures r.None? <==> forall j | 0 <= j < |Split(doc, Bullet)| :: !Mentions(Split(doc, Bullet)[j], rule)
    ensures r.Some? ==> Mentions(r.value, rule) && r.value in Split(doc, Bullet)
  {
    var chunks := Split(doc, Bullet);
    match FirstMentioning(chunks, rule)
    case None => None
    case Some(i) =>
      assert i < |chunks| && Mentions(chunks[i], rule);
      assert !(forall j | 0 <= j < |Split(doc, Bullet)| :: !Mentions(Split(doc, Bullet)[j], rule));
      Some(chunks[i])
  }

  /** Of several chunks that mention the rule, the first is chosen. */
  lemma RuleSectionFirst(doc: string, rule: string, i: nat)
    requires i < |Split(doc, Bullet)| && Mentions(Split(doc, Bullet)[i], rule)
    requires forall j | 0 <= j < i :: !Mentions(Split(doc, Bullet)[j], rule)
    ensures RuleSection(doc, rule) == Some(Split(doc, Bullet)[i])
  {
    var chunks := Split(doc, Bullet);
    var k := FirstMentioning(chunks, rule).value;
    assert !(k < i) && !(i < k);
  }

  /** The marker of the hidden comment line, a markdown link definition. */
  const CommentOutTag: string := "[//]: #"
  const CodeOpen: string := "```js"
  const CodeClose: string := "```"

  /** The rest of the line after the first comment marker, cut short at the
      next marker, or `None` when the block has no comment line. */
  function CommentOut(code: string): Option<string> {
    var bits := Split(code, CommentOutTag);
    if |bits| == 1 then None else Some(FirstLine(bits[1]))
  }

  /** The text after the first `js` fence up to the next fence, or `None`
      when the block has no `js` fence. */
  function Snippet(code: string): Option<string> {
    var bits := Split(code, CodeOpen);
    if |bits| == 1 then None else Some(Before(bits[1], CodeClose))
  }

  /** The second piece of a split is what follows the first separator, up
      to the next one. */
  lemma SecondPiece(s: string, sep: string)
    requires |sep| > 0 && |Split(s, sep)| > 1
    ensures IndexOf(s, sep).Some?
    ensures Split(s, sep)[1] == Before(s[IndexOf(s, sep).value + |sep|..], sep)
  {
    SplitPieces(s, sep);
  }

  /** A block has a comment line exactly when it contains the marker. */
  lemma CommentOutFound(code: string)
    ensures CommentOut(code).Some? <==> Contains(code, CommentOutTag)
  {
    SplitPieces(code, CommentOutTag);
  }

  /** The comment line is the text right after the first marker, up to the
      end of that line, the next marker, or the end of the block. */
  lemma CommentOutShape(code: string)
    requires CommentOut(code).Some?
    ensures var i := IndexOf(code, CommentOutTag).value;
      var rest := code[i + |CommentOutTag|..]; var c := CommentOut(code).value;
      && |c| <= |rest| && c == rest[..|c|] && '\n' !in c
      && !Contains(c, CommentOutTag)
      && (c == rest || rest[|c|] == '\n' || OccursAt(rest, CommentOutTag, |c|))
  {
    var bits := Split(code, CommentOutTag);
    SplitPieces(code, CommentOutTag);
    SecondPiece(code, CommentOutTag);
    var c := CommentOut(code).value;
    if Contains(c, CommentOutTag) {
      var j :| 0 <= j && OccursAt(c, CommentOutTag, j);
      OccursInPrefix(bits[1], |c|, CommentOutTag, j);
      assert false;
    }
  }

  /** A block has a code snippet exactly when it contains a `js` fence. */
  lemma SnippetFound(code: string)
    ensures Snippet(code).Some? <==> Contains(code, CodeOpen)
  {
    SplitPieces(code, CodeOpen);
  }

  /** The snippet is the text right after the first `js` fence; it holds no
      fence and is followed by one or by the end of the block. */
  lemma SnippetShape(code: string)
    requires Snippet(code).Some?
    ensures var i := IndexOf(code, CodeOpen).value;
      var rest := code[i + |CodeOpen|..]; var c := Snippet(code).value;
      && |c| <= |rest| && c == rest[..|c|] && !Contains(c, CodeClose)
      && (c == rest || OccursAt(rest, CodeClose, |c|))
  {
    SplitPieces(code, CodeOpen);
    SecondPiece(code, CodeOpen);
    var i := IndexOf(code, CodeOpen).value;
    var rest := code[i + |CodeOpen|..];
    var b := Before(rest, CodeOpen);
    var c := Before(b, CodeClose);
    if c == b && b != rest {
      assert rest[|b|..|b| + |CodeClose|] == rest[|b|..|b| + |CodeOpen|][..|CodeClose|];
    }
    if c != b {
      assert b[|c|..|c| + |CodeClose|] == rest[|c|..|c| + |CodeClose|];
    }
  }

  /** `${rule} case ${n}` */
  function CaseTitle(rule: string, n: nat): string {
    rule + " case " + Show(n)
  }

  /** Different case numbers give different titles. */
  lemma CaseTitleInjective(rule: string, m: nat, n: nat)
    requires CaseTitle(rule, m) == CaseTitle(rule, n)
    ensures m == n
  {
    var k := |rule + " case "|;
    assert CaseTitle(rule, m)[k..] == Show(m);
    assert CaseTitle(rule, n)[k..] == Show(n);
    ShowInjective(m, n);
  }

  const DirectiveOpen: string := "/* eslint "
  const DirectiveClose: string := " */"

  /** `/* eslint ${eslintConfig} */\n${code}` when there is a directive. */
  function WithConfig(config: Option<string>, code: string): string {
    match config
    case None => code
    case Some(c) => DirectiveOpen + c + DirectiveClose + "\n" + code
  }

  /** A directive without a newline becomes the first line, on its own,
      and the snippet follows it unchanged. */
  lemma WithConfigLine(config: string, code: string)
    requires '\n' !in config
    ensures var line := DirectiveOpen + config + DirectiveClose; var r := WithConfig(Some(config), code);
      && FirstLine(r) == line
      && r[|line| + 1..] == code
  {
    var line := DirectiveOpen + config + DirectiveClose;
    var r := WithConfig(Some(config), code);
    assert r == line + "\n" + code;
    assert '\n' !in line by {
      assert forall k | 0 <= k < |line| :: line[k] in DirectiveOpen || line[k] in config || line[k] in DirectiveClose;
    }
    LinePrefix(line, code);
  }

  /** The first line of `line + "\n" + rest` is `line` when it holds no
      newline. */
  lemma LinePrefix(line: string, rest: string)
    requires '\n' !in line
    ensures FirstLine(line + "\n" + rest) == line
    ensures (line + "\n" + rest)[|line| + 1..] == rest
  {
    var s := line + "\n" + rest;
    var r := FirstLine(s);
    assert s[|line|] == '\n';
    assert r != s;
    assert s[|r|] == '\n';
    assert forall k | 0 <= k < |line| :: s[k] == line[k];
    assert |r| == |line|;
    assert r == s[..|line|] == line;
  }

  /** One test-case block turned into a test case: the comment line, then
      `expectedErrors`, then the optional directive, then the code snippet,
      dedented and prefixed with the directive. */
  function ParseCase(rule: string, n: nat, section: Markers.Section): (r: Result<TestCase, ExtractError>)
    ensures r.Ok? ==> r.value.isGood == section.isGood && r.value.title == CaseTitle(rule, n)
    ensures r.Err? ==> r.error in [
      CommentOutNotFound(CaseTitle(rule, n)), ExpectedErrorsNotFound(CaseTitle(rule, n)), CodeNotFound(CaseTitle(rule, n))]
  {
    var title := CaseTitle(rule, n);
    var comment :- CommentOut(section.code).ToResult(CommentOutNotFound(title));
    var expected :- Directive.ExpectedErrors(comment).ToResult(ExpectedErrorsNotFound(title));
    var config := Directive.EslintConfig(comment);
    var snippet :- Snippet(section.code).ToResult(CodeNotFound(title));
    Ok(TestCase(section.isGood, title, WithConfig(config, Dedent.Dedent(snippet)), expected))
  }

  /** Which stage a block fails at, in terms of its text: no comment marker
      first, then no `expectedErrors` on the comment line, then no `js`
      fence. A block passing all three becomes a test case. */
  lemma ParseCaseOutcome(rule: string, n: nat, section: Markers.Section)
    ensures var code := section.code; var title := CaseTitle(rule, n); var r := ParseCase(rule, n, section);
      && (r == Err(CommentOutNotFound(title)) <==> !Contains(code, CommentOutTag))
      && (r == Err(ExpectedErrorsNotFound(title)) <==>
            Contains(code, CommentOutTag) && Directive.ExpectedErrors(CommentOut(code).value).None?)
      && (r == Err(CodeNotFound(title)) <==>
            Contains(code, CommentOutTag) && Directive.ExpectedErrors(CommentOut(code).value).Some?
            && !Contains(code, CodeOpen))
      && (r.Ok? <==>
            Contains(code, CommentOutTag) && Directive.ExpectedErrors(CommentOut(code).value).Some?
            && Contains(code, CodeOpen))
  {
    CommentOutFound(section.code);
    SnippetFound(section.code);
  }

  /** The code of a parsed case: the dedented snippet, preceded, when the
      comment line carries a directive, by that directive on a line of its
      own; the expected count is the one the comment line states. */
  lemma ParseCaseCode(rule: string, n: nat, section: Markers.Section)
    requires ParseCase(rule, n, section).Ok?
    ensures var t := ParseCase(rule, n, section).value;
      var comment := CommentOut(section.code).value; var body := Dedent.Dedent(Snippet(section.code).value);
      && Directive.ExpectedErrors(comment) == Some(t.expectedErrors)
      && (Directive.EslintConfig(comment).None? ==> t.code == body)
      && (Directive.EslintConfig(comment).Some? ==>
            var line := DirectiveOpen + Directive.EslintConfig(comment).value + DirectiveClose;
            FirstLine(t.code) == line && t.code[|line| + 1..] == body)
  {
    var comment := CommentOut(section.code).value;
    match Directive.EslintConfig(comment)
    case None =>
    case Some(c) =>
      CommentOutNoNewline(section.code);
      Directive.ConfigChars(comment, 0, '\n');
      WithConfigLine(c, Dedent.Dedent(Snippet(section.code).value));
  }

  /** The comment line holds no newline. */
  lemma CommentOutNoNewline(code: string)
    requires CommentOut(code).Some?
    ensures '\n' !in CommentOut(code).value
  {
  }

  /** The cases of a list of parse results, in order, or the error of the
      first result that failed: the loop throws at the first bad block. */
  function Collect(rs: seq<Result<TestCase, ExtractError>>): Result<seq<TestCase>, ExtractError> {
    if |rs| == 0 then Ok([])
    else
      var first :- rs[0];
      var rest :- Collect(rs[1..]);
      Ok([first] + rest)
  }

  /** Collecting succeeds exactly when every result is a case. */
  lemma {:induction false} CollectOk(rs: seq<Result<TestCase, ExtractError>>)
    ensures Collect(rs).Ok? <==> forall i | 0 <= i < |rs| :: rs[i].Ok?
  {
    if |rs| > 0 {
      CollectOk(rs[1..]);
      assert forall i | 1 <= i < |rs| :: rs[i] == rs[1..][i - 1];
    }
  }

  /** A successful collection holds every case, in order. */
  lemma {:induction false} CollectValues(rs: seq<Result<TestCase, ExtractError>>)
    requires Collect(rs).Ok?
    ensures |Collect(rs).value| == |rs|
    ensures forall i | 0 <= i < |rs| :: rs[i] == Ok(Collect(rs).value[i])
  {
    if |rs| > 0 {
      CollectValues(rs[1..]);
      var cases := Collect(rs).value;
      var rest := Collect(rs[1..]).value;
      assert cases == [rs[0].value] + rest;
      forall i | 1 <= i < |rs| ensures rs[i] == Ok(cases[i]) {
        assert rs[i] == rs[1..][i - 1] && cases[i] == rest[i - 1];
      }
    }
  }

  /** A failed collection reports the error of the first failed result. */
  lemma {:induction false} CollectErr(rs: seq<Result<TestCase, ExtractError>>)
    requires Collect(rs).Err?
    ensures exists k | 0 <= k < |rs| ::
      && rs[k] == Err(Collect(rs).error)
      && forall i | 0 <= i < k :: rs[i].Ok?
  {
    if rs[0].Err? {
      assert rs[0] == Err(Collect(rs).error);
    } else {
      CollectErr(rs[1..]);
      var k :| && 0 <= k < |rs[1..]|
        && rs[1..][k] == Err(Collect(rs[1..]).error)
        && forall i | 0 <= i < k :: rs[1..][i].Ok?;
      assert rs[k + 1] == rs[1..][k];
      forall i | 0 <= i < k + 1 ensures rs[i].Ok? {
        if i > 0 {
          assert rs[i] == rs[1..][i - 1];
        }
      }
    }
  }

  /** Each block parsed on its own, the `i`-th as case `i + 1`. */
  function ParsedCases(rule: string, sections: seq<Markers.Section>): seq<Result<TestCase, ExtractError>> {
    seq(|sections|, i requires 0 <= i < |sections| => ParseCase(rule, i + 1, sections[i]))
  }

  /** The test cases of the rule's blocks, with the availability its line
      lists: no block at all is an error, and so is any block that does
      not parse. */
  function CasesData(rule: string, line: string, sections: seq<Markers.Section>): Result<TestCasesData, ExtractError> {
    if |sections| == 0 then Err(NoTestCases(rule))
    else
      var cases :- Collect(ParsedCases(rule, sections));
      Ok(TestCasesData(Availability.ParseAvailability(line), cases))
  }

  /** `getTestCasesData`: the rule's section, its availability, and its test
      cases, or the error of the first stage that fails. */
  function GetTestCasesData(doc: string, rule: string): Result<TestCasesData, ExtractError> {
    var section :- RuleSection(doc, rule).ToResult(RuleNotFound(rule));
    var line :- Availability.AvailabilityLine(section).ToResult(AvailabilityNotFound(rule));
    CasesData(rule, line, Markers.Sections(section))
  }

  /** A block that fails to parse fails with a per-case error. */
  lemma ParsedCasesKinds(rule: string, sections: seq<Markers.Section>)
    ensures var rs := ParsedCases(rule, sections);
      forall i | 0 <= i < |rs| && rs[i].Err? ::
        rs[i].error.CommentOutNotFound? || rs[i].error.ExpectedErrorsNotFound? || rs[i].error.CodeNotFound?
  {
  }

  /** A failed extraction of the cases fails with a per-case error. */
  lemma ParsedCasesError(rule: string, sections: seq<Markers.Section>)
    requires Collect(ParsedCases(rule, sections)).Err?
    ensures var e := Collect(ParsedCases(rule, sections)).error;
      e.CommentOutNotFound? || e.ExpectedErrorsNotFound? || e.CodeNotFound?
  {
    ParsedCasesKinds(rule, sections);
    CollectErr(ParsedCases(rule, sections));
  }

  /** The last stage reports no test cases exactly when there is no block. */
  lemma CasesDataEmpty(rule: string, line: string, sections: seq<Markers.Section>)
    ensures CasesData(rule, line, sections) == Err(NoTestCases(rule)) <==> sections == []
  {
    if sections != [] && Collect(ParsedCases(rule, sections)).Err? {
      ParsedCasesError(rule, sections);
    }
  }

  /** With at least one block, the last stage succeeds exactly when every
      block parses, and otherwise fails with the error of the first block
      that does not. */
  lemma CasesDataParse(rule: string, line: string, sections: seq<Markers.Section>)
    requires sections != []
    ensures var rs := ParsedCases(rule, sections);
      CasesData(rule, line, sections).Ok? <==> forall i | 0 <= i < |rs| :: rs[i].Ok?
    ensures var rs := ParsedCases(rule, sections);
      CasesData(rule, line, sections).Err? ==> exists k | 0 <= k < |rs| ::
        && rs[k] == Err(CasesData(rule, line, sections).error)
        && forall i | 0 <= i < k :: rs[i].Ok?
  {
    var rs := ParsedCases(rule, sections);
    CollectOk(rs);
    if Collect(rs).Err? {
      CollectErr(rs);
    }
  }

  /** A successful last stage: the availability the line lists, and one
      case per block, each the block's own parse. */
  lemma CasesDataOk(rule: string, line: string, sections: seq<Markers.Section>)
    requires CasesData(rule, line, sections).Ok?
    ensures var data := CasesData(rule, line, sections).value; var rs := ParsedCases(rule, sections);
      && data.availability == Availability.ParseAvailability(line)
      && |data.testCases| == |rs| == |sections| > 0
      && forall i | 0 <= i < |rs| :: rs[i] == Ok(data.testCases[i])
  {
    CollectValues(ParsedCases(rule, sections));
  }

  /** The stages of `getTestCasesData` in order: finding the section, then
      its availability line, then its cases. */
  lemma GetStages(doc: string, rule: string)
    ensures RuleSection(doc, rule).None? ==> GetTestCasesData(doc, rule) == Err(RuleNotFound(rule))
    ensures RuleSection(doc, rule).Some? && Availability.AvailabilityLine(RuleSection(doc, rule).value).None? ==>
      GetTestCasesData(doc, rule) == Err(AvailabilityNotFound(rule))
    ensures RuleSection(doc, rule).Some? && Availability.AvailabilityLine(RuleSection(doc, rule).value).Some? ==>
      var section := RuleSection(doc, rule).value;
      GetTestCasesData(doc, rule)
        == CasesData(rule, Availability.AvailabilityLine(section).value, Markers.Sections(section))
  {
  }

  /** The error of the last stage is neither of the first two. */
  lemma CasesDataError(rule: string, line: string, sections: seq<Markers.Section>)
    ensures CasesData(rule, line, sections) != Err(RuleNotFound(rule))
    ensures CasesData(rule, line, sections) != Err(AvailabilityNotFound(rule))
  {
    if sections != [] && Collect(ParsedCases(rule, sections)).Err? {
      ParsedCasesError(rule, sections);
    }
  }

  /** The rule is not found exactly when no bullet chunk mentions it (see
      `RuleSection`), whatever the rest of the document holds. */
  lemma GetRuleNotFound(doc: string, rule: string)
    ensures GetTestCasesData(doc, rule) == Err(RuleNotFound(rule)) <==> RuleSection(doc, rule).None?
  {
    GetStages(doc, rule);
    if RuleSection(doc, rule).Some? {
      var section := RuleSection(doc, rule).value;
      if Availability.AvailabilityLine(section).Some? {
        CasesDataError(rule, Availability.AvailabilityLine(section).value, Markers.Sections(section));
      }
    }
  }

  /** The availability line is missing exactly when the rule's section is
      found and none of its lines carries the availability label (see
      `Availability.AvailabilityLine`), whatever its test cases. */
  lemma GetAvailabilityNotFound(doc: string, rule: string)
    ensures GetTestCasesData(doc, rule) == Err(AvailabilityNotFound(rule)) <==>
      RuleSection(doc, rule).Some? && Availability.AvailabilityLine(RuleSection(doc, rule).value).None?
  {
    GetStages(doc, rule);
    if RuleSection(doc, rule).Some? && Availability.AvailabilityLine(RuleSection(doc, rule).value).Some? {
      var section := RuleSection(doc, rule).value;
      CasesDataError(rule, Availability.AvailabilityLine(section).value, Markers.Sections(section));
    }
  }

  /** There are no test cases exactly when the rule's section and its
      availability line are found but no Good/Bad marker starts anywhere in
      the section. */
  lemma GetNoTestCases(doc: string, rule: string)
    ensures GetTestCasesData(doc, rule) == Err(NoTestCases(rule)) <==>
      && RuleSection(doc, rule).Some?
      && Availability.AvailabilityLine(RuleSection(doc, rule).value).Some?
      && var section := RuleSection(doc, rule).value;
      forall q | 0 <= q < |section| :: !Markers.MarkerAt(section, q)
  {
    GetStages(doc, rule);
    if RuleSection(doc, rule).Some? && Availability.AvailabilityLine(RuleSection(doc, rule).value).Some? {
      var section := RuleSection(doc, rule).value;
      Markers.MatchesFirst(section, 0);
      CasesDataEmpty(rule, Availability.AvailabilityLine(section).value, Markers.Sections(section));
    }
  }

  /** Once the section, its availability line and at least one block are
      found, extraction succeeds exactly when every block parses, and
      otherwise fails with the error of the first block that does not. */
  lemma GetCases(doc: string, rule: string)
    requires RuleSection(doc, rule).Some?
    requires Availability.AvailabilityLine(RuleSection(doc, rule).value).Some?
    requires Markers.Sections(RuleSection(doc, rule).value) != []
    ensures var rs := ParsedCases(rule, Markers.Sections(RuleSection(doc, rule).value));
      GetTestCasesData(doc, rule).Ok? <==> forall i | 0 <= i < |rs| :: rs[i].Ok?
    ensures var rs := ParsedCases(rule, Markers.Sections(RuleSection(doc, rule).value));
      GetTestCasesData(doc, rule).Err? ==> exists k | 0 <= k < |rs| ::
        && rs[k] == Err(GetTestCasesData(doc, rule).error)
        && forall i | 0 <= i < k :: rs[i].Ok?
  {
    var section := RuleSection(doc, rule).value;
    GetStages(doc, rule);
    CasesDataParse(rule, Availability.AvailabilityLine(section).value, Markers.Sections(section));
  }

  /** A successful extraction: the availability is the one the section's
      availability line lists, and there is one case per block, in order,
      each the block's own parse. */
  lemma GetOk(doc: string, rule: string)
    requires GetTestCasesData(doc, rule).Ok?
    ensures RuleSection(doc, rule).Some?
    ensures Availability.AvailabilityLine(RuleSection(doc, rule).value).Some?
    ensures var section := RuleSection(doc, rule).value;
      var sections := Markers.Sections(section); var rs := ParsedCases(rule, sections);
      var data := GetTestCasesData(doc, rule).value;
      && data.availability == Availability.ParseAvailability(Availability.AvailabilityLine(section).value)
      && |data.testCases| == |rs| == |sections| > 0
      && forall i | 0 <= i < |rs| :: rs[i] == Ok(data.testCases[i])
  {
    GetStages(doc, rule);
    var section := RuleSection(doc, rule).value;
    CasesDataOk(rule, Availability.AvailabilityLine(section).value, Markers.Sections(section));
  }

  /** A parsed block keeps its kind and is titled with its position. */
  lemma ParsedCasesTitles(rule: string, sections: seq<Markers.Section>)
    ensures var rs := ParsedCases(rule, sections);
      forall i | 0 <= i < |rs| && rs[i].Ok? ::
        rs[i].value.isGood == sections[i].isGood && rs[i].value.title == CaseTitle(rule, i + 1)
  {
  }

  /** Cases titled with their positions have pairwise different titles. */
  lemma TitlesDistinct(rule: string, cases: seq<TestCase>)
    requires forall i | 0 <= i < |cases| :: cases[i].title == CaseTitle(rule, i + 1)
    ensures forall i, j | 0 <= i < j < |cases| :: cases[i].title != cases[j].title
  {
    forall i, j | 0 <= i < j < |cases| ensures cases[i].title != cases[j].title {
      if cases[i].title == cases[j].title {
        CaseTitleInjective(rule, i + 1, j + 1);
      }
    }
  }

  /** Collected cases of blocks that keep their kinds and are titled with
      their positions do so too. */
  lemma CollectTitles(rule: string, rs: seq<Result<TestCase, ExtractError>>, sections: seq<Markers.Section>)
    requires |rs| == |sections| && Collect(rs).Ok?
    requires forall i | 0 <= i < |rs| && rs[i].Ok? ::
      rs[i].value.isGood == sections[i].isGood && rs[i].value.title == CaseTitle(rule, i + 1)
    ensures var cases := Collect(rs).value;
      && |cases| == |sections|
      && forall i | 0 <= i < |cases| :: cases[i].isGood == sections[i].isGood && cases[i].title == CaseTitle(rule, i + 1)
  {
    CollectValues(rs);
  }

  /** The cases of a successful extraction keep their blocks' kinds and are
      titled with their positions, so no two share a title. */
  lemma GetTitles(doc: string, rule: string)
    requires GetTestCasesData(doc, rule).Ok?
    ensures RuleSection(doc, rule).Some?
    ensures var sections := Markers.Sections(RuleSection(doc, rule).value);
      var cases := GetTestCasesData(doc, rule).value.testCases;
      && |cases| == |sections|
      && forall i | 0 <= i < |cases| :: cases[i].isGood == sections[i].isGood && cases[i].title == CaseTitle(rule, i + 1)
    ensures var cases := GetTestCasesData(doc, rule).value.testCases;
      forall i, j | 0 <= i < j < |cases| :: cases[i].title != cases[j].title
  {
    GetStages(doc, rule);
    var sections := Markers.Sections(RuleSection(doc, rule).value);
    var rs := ParsedCases(rule, sections);
    ParsedCasesTitles(rule, sections);
    CollectTitles(rule, rs, sections);
    TitlesDistinct(rule, GetTestCasesData(doc, rule).value.testCases);
  }
}
