/** The checks of `Linter.checkRule`: extract the rule's documentation, make
    sure the configuration profile is available for the rule, make sure
    every case's kind agrees with its expected count, then lint the cases
    one by one and compare the error counts. ESLint itself is the parameter
    `lint`, the number of errors it reports for a piece of code. */
module Linter {
  import opened Results
  import Markdown

  /** Why a check fails; each is an assertion of `checkRule`. */
  datatype CheckError =
    | Extraction(cause: Markdown.ExtractError)
    | Unavailable(configType: string, rule: string)
    | ShouldBeBad(title: string)
    | ShouldBeGood(title: string)
    | ErrorCountMismatch(title: string, expected: nat, actual: nat)

  datatype Outcome = Pass | Fail(error: CheckError)

  /** The outcome of a check and the code it handed to the linter, in
      order. */
  datatype CheckRun = CheckRun(outcome: Outcome, linted: seq<string>)

  /** A case with expected errors is a bad case, and a case without is a
      good one. */
  predicate Consistent(tc: Markdown.TestCase) {
    tc.expectedErrors > 0 <==> !tc.isGood
  }

  /** The assertion an inconsistent case fails. */
  function ConsistencyError(tc: Markdown.TestCase): CheckError {
    if tc.expectedErrors > 0 then ShouldBeBad(tc.title) else ShouldBeGood(tc.title)
  }

  /** The index of the first inconsistent case. */
  function FirstInconsistent(cases: seq<Markdown.TestCase>): (r: Option<nat>)
    ensures r.Some? ==> r.value < |cases| && !Consistent(cases[r.value])
    ensures r.Some? ==> forall j | 0 <= j < r.value :: Consistent(cases[j])
    ensures r.None? <==> forall j | 0 <= j < |cases| :: Consistent(cases[j])
  {
    if |cases| == 0 then None
    else if !Consistent(cases[0]) then Some(0)
    else match FirstInconsistent(cases[1..])
      case None => None
      case Some(i) => Some(i + 1)
  }

  /** The lint loop: each case's code is linted in turn, and the first case
      whose error count differs from its expected count stops the loop. */
  function LintCases(cases: seq<Markdown.TestCase>, lint: string -> nat): CheckRun
    decreases |cases|
  {
    if |cases| == 0 then CheckRun(Pass, [])
    else
      var tc := cases[0];
      var actual := lint(tc.code);
      if actual != tc.expectedErrors then
        CheckRun(Fail(ErrorCountMismatch(tc.title, tc.expectedErrors, actual)), [tc.code])
      else
        var rest := LintCases(cases[1..], lint);
        CheckRun(rest.outcome, [tc.code] + rest.linted)
  }

  /** The codes of the first `n` cases, in order. */
  predicate LintedPrefix(linted: seq<string>, cases: seq<Markdown.TestCase>, n: nat) {
    && n <= |cases|
    && |linted| == n
    && forall i | 0 <= i < n :: linted[i] == cases[i].code
  }

  /** The loop passes exactly when every case's error count is its expected
      count, and then every case was linted, in order. */
  lemma {:induction false} LintCasesPass(cases: seq<Markdown.TestCase>, lint: string -> nat)
    decreases |cases|
    ensures var run := LintCases(cases, lint);
      run.outcome == Pass <==> forall i | 0 <= i < |cases| :: lint(cases[i].code) == cases[i].expectedErrors
    ensures var run := LintCases(cases, lint);
      run.outcome == Pass ==> LintedPrefix(run.linted, cases, |cases|)
  {
    if |cases| > 0 && lint(cases[0].code) == cases[0].expectedErrors {
      LintCasesPass(cases[1..], lint);
      var rest := LintCases(cases[1..], lint);
      assert forall i | 1 <= i < |cases| :: cases[i] == cases[1..][i - 1];
      if rest.outcome == Pass {
        assert forall i | 1 <= i < |cases| :: ([cases[0].code] + rest.linted)[i] == rest.linted[i - 1];
      }
    }
  }

  /** The index of the first case whose error count differs from its
      expected count. */
  function FirstMismatch(cases: seq<Markdown.TestCase>, lint: string -> nat): (r: Option<nat>)
    ensures r.Some? ==> r.value < |cases| && lint(cases[r.value].code) != cases[r.value].expectedErrors
    ensures r.Some? ==> forall j | 0 <= j < r.value :: lint(cases[j].code) == cases[j].expectedErrors
    ensures r.None? <==> forall j | 0 <= j < |cases| :: lint(cases[j].code) == cases[j].expectedErrors
  {
    if |cases| == 0 then None
    else if lint(cases[0].code) != cases[0].expectedErrors then Some(0)
    else match FirstMismatch(cases[1..], lint)
      case None => None
      case Some(i) => Some(i + 1)
  }

  /** Linting one more case in front extends the linted prefix by one. */
  lemma LintedPrefixCons(linted: seq<string>, cases: seq<Markdown.TestCase>, n: nat)
    requires |cases| > 0 && LintedPrefix(linted, cases[1..], n)
    ensures LintedPrefix([cases[0].code] + linted, cases, n + 1)
  {
    forall i | 1 <= i < n + 1 ensures ([cases[0].code] + linted)[i] == cases[i].code {
      assert cases[i] == cases[1..][i - 1];
    }
  }

  /** A failing loop stops at the first case whose count differs: it
      reports that case's title, expected and actual counts, and it linted
      exactly the cases up to and including that one. */
  lemma {:induction false} LintCasesFail(cases: seq<Markdown.TestCase>, lint: string -> nat)
    decreases |cases|
    requires LintCases(cases, lint).outcome.Fail?
    ensures FirstMismatch(cases, lint).Some?
    ensures var k := FirstMismatch(cases, lint).value; var run := LintCases(cases, lint);
      && run.outcome.error == ErrorCountMismatch(cases[k].title, cases[k].expectedErrors, lint(cases[k].code))
      && LintedPrefix(run.linted, cases, k + 1)
  {
    if lint(cases[0].code) == cases[0].expectedErrors {
      var tail := cases[1..];
      LintCasesFail(tail, lint);
      var k := FirstMismatch(tail, lint).value;
      assert FirstMismatch(cases, lint) == Some(k + 1);
      assert cases[k + 1] == tail[k];
      LintedPrefixCons(LintCases(tail, lint).linted, cases, k + 1);
    }
  }

  /** `checkRule(rule)` on the documentation text `doc` for the profile
      `configType`. */
  function CheckRule(doc: string, configType: string, rule: string, lint: string -> nat): CheckRun {
    match Markdown.GetTestCasesData(doc, rule)
    case Err(e) => CheckRun(Fail(Extraction(e)), [])
    case Ok(data) =>
      if configType !in data.availability then CheckRun(Fail(Unavailable(configType, rule)), [])
      else match FirstInconsistent(data.testCases)
        case Some(k) => CheckRun(Fail(ConsistencyError(data.testCases[k])), [])
        case None => LintCases(data.testCases, lint)
  }

  /** The check passes exactly when the documentation yields test cases,
      the profile is listed as available, every case's kind agrees with its
      expected count, and ESLint reports for every case exactly the expected
      number of errors. */
  lemma CheckRulePass(doc: string, configType: string, rule: string, lint: string -> nat)
    ensures CheckRule(doc, configType, rule, lint).outcome == Pass <==>
      && Markdown.GetTestCasesData(doc, rule).Ok?
      && var data := Markdown.GetTestCasesData(doc, rule).value;
      && configType in data.availability
      && (forall i | 0 <= i < |data.testCases| :: Consistent(data.testCases[i]))
      && (forall i | 0 <= i < |data.testCases| ::
            lint(data.testCases[i].code) == data.testCases[i].expectedErrors)
  {
    if Markdown.GetTestCasesData(doc, rule).Ok? {
      LintCasesPass(Markdown.GetTestCasesData(doc, rule).value.testCases, lint);
    }
  }

  /** A passing check linted every case, in document order. */
  lemma CheckRuleLintsAll(doc: string, configType: string, rule: string, lint: string -> nat)
    requires CheckRule(doc, configType, rule, lint).outcome == Pass
    ensures Markdown.GetTestCasesData(doc, rule).Ok?
    ensures var cases := Markdown.GetTestCasesData(doc, rule).value.testCases;
      LintedPrefix(CheckRule(doc, configType, rule, lint).linted, cases, |cases|)
  {
    LintCasesPass(Markdown.GetTestCasesData(doc, rule).value.testCases, lint);
  }

  /** Extraction, availability and consistency are all settled before the
      first lint call: when one of them fails nothing is linted, and the
      result is the same whatever the linter would have said. */
  lemma CheckRuleBeforeLint(doc: string, configType: string, rule: string, lint: string -> nat, other: string -> nat)
    requires CheckRule(doc, configType, rule, lint).outcome.Fail?
    requires !CheckRule(doc, configType, rule, lint).outcome.error.ErrorCountMismatch?
    ensures CheckRule(doc, configType, rule, lint).linted == []
    ensures CheckRule(doc, configType, rule, other) == CheckRule(doc, configType, rule, lint)
  {
    var data := Markdown.GetTestCasesData(doc, rule);
    if data.Ok? && configType in data.value.availability && FirstInconsistent(data.value.testCases).None? {
      LintCasesMismatch(data.value.testCases, lint);
    }
  }

  /** The lint loop fails only with an error-count mismatch. */
  lemma {:induction false} LintCasesMismatch(cases: seq<Markdown.TestCase>, lint: string -> nat)
    decreases |cases|
    ensures LintCases(cases, lint).outcome.Fail? ==> LintCases(cases, lint).outcome.error.ErrorCountMismatch?
  {
    if |cases| > 0 && lint(cases[0].code) == cases[0].expectedErrors {
      LintCasesMismatch(cases[1..], lint);
    }
  }

  /** The profile is checked before the cases: an unavailable profile fails
      the check even when cases are inconsistent. */
  lemma CheckRuleUnavailable(doc: string, configType: string, rule: string, lint: string -> nat)
    requires Markdown.GetTestCasesData(doc, rule).Ok?
    ensures CheckRule(doc, configType, rule, lint).outcome == Fail(Unavailable(configType, rule)) <==>
      configType !in Markdown.GetTestCasesData(doc, rule).value.availability
  {
    var data := Markdown.GetTestCasesData(doc, rule).value;
    if configType in data.availability && FirstInconsistent(data.testCases).None? {
      LintCasesMismatch(data.testCases, lint);
    }
  }

  /** With an available profile, an inconsistent case fails the check with
      the assertion of the first such case, and nothing is linted. */
  lemma CheckRuleInconsistent(doc: string, configType: string, rule: string, lint: string -> nat, k: nat)
    requires Markdown.GetTestCasesData(doc, rule).Ok?
    requires var data := Markdown.GetTestCasesData(doc, rule).value;
      && configType in data.availability
      && k < |data.testCases| && !Consistent(data.testCases[k])
      && forall j | 0 <= j < k :: Consistent(data.testCases[j])
    ensures var cases := Markdown.GetTestCasesData(doc, rule).value.testCases;
      && CheckRule(doc, configType, rule, lint).outcome == Fail(ConsistencyError(cases[k]))
      && CheckRule(doc, configType, rule, lint).linted == []
  {
  }

  /** A count mismatch is reported only once every case is consistent, and
      it names the first case whose count differs, after linting exactly
      the cases up to it. */
  lemma CheckRuleMismatch(doc: string, configType: string, rule: string, lint: string -> nat)
    requires CheckRule(doc, configType, rule, lint).outcome.Fail?
    requires CheckRule(doc, configType, rule, lint).outcome.error.ErrorCountMismatch?
    ensures Markdown.GetTestCasesData(doc, rule).Ok?
    ensures var data := Markdown.GetTestCasesData(doc, rule).value;
      configType in data.availability && forall i | 0 <= i < |data.testCases| :: Consistent(data.testCases[i])
    ensures var cases := Markdown.GetTestCasesData(doc, rule).value.testCases;
      FirstMismatch(cases, lint).Some?
    ensures var cases := Markdown.GetTestCasesData(doc, rule).value.testCases;
      var k := FirstMismatch(cases, lint).value; var run := CheckRule(doc, configType, rule, lint);
      && run.outcome.error == ErrorCountMismatch(cases[k].title, cases[k].expectedErrors, lint(cases[k].code))
      && LintedPrefix(run.linted, cases, k + 1)
  {
    LintCasesFail(Markdown.GetTestCasesData(doc, rule).value.testCases, lint);
  }
}
