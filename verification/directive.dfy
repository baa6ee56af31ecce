/** The two regular expressions markdown.js runs over a test case's hidden
    comment line: `/expectedErrors:\s*(\d+)/` and `/eslint:\s*'([^']+)'/`.
    Both are run with `match`, which returns the leftmost match. Neither
    can backtrack into a different match at the same start: the text after
    `\s*` must be a digit or a quote, which whitespace is not, and the
    character after `\d+` or `[^']+` is fixed by the run's maximality. */
module Directive {
  import opened Results
  import opened Text
  import opened Decimal

  const ExpectedLabel: string := "expectedErrors:"

  /** `/expectedErrors:\s*(\d+)/` matches at `i`. */
  predicate ExpectedAt(s: string, i: nat) {
    && OccursAt(s, ExpectedLabel, i)
    && var j := SkipWhitespace(s, i + |ExpectedLabel|);
    j < |s| && IsDigit(s[j])
  }

  /** `parseInt(group1, 10)` for the match at `i`: the value of the whole
      run of digits after the label and the whitespace. */
  function ExpectedValueAt(s: string, i: nat): nat
    requires ExpectedAt(s, i)
  {
    var j := SkipWhitespace(s, i + |ExpectedLabel|);
    Parse(s[j..DigitsEnd(s, j)])
  }

  /** The value of the leftmost match of the expected-errors expression
      at or after `from`. */
  function ExpectedFrom(s: string, from: nat): Option<nat>
    decreases |s| + 1 - from
  {
    if from > |s| then None
    else if ExpectedAt(s, from) then Some(ExpectedValueAt(s, from))
    else ExpectedFrom(s, from + 1)
  }

  /** The number of errors a test case expects, or `None` when the comment
      line carries no `expectedErrors: <digits>`. */
  function ExpectedErrors(s: string): Option<nat> {
    ExpectedFrom(s, 0)
  }

  /** The scan finds nothing exactly when no match starts at or after
      `from`. */
  lemma {:induction false} ExpectedFromNone(s: string, from: nat)
    decreases |s| + 1 - from
    ensures ExpectedFrom(s, from).None? <==> forall k | from <= k <= |s| :: !ExpectedAt(s, k)
  {
    if from <= |s| && !ExpectedAt(s, from) {
      ExpectedFromNone(s, from + 1);
    }
  }

  /** The scan reads the leftmost match at or after `from`. */
  lemma {:induction false} ExpectedFromFirst(s: string, from: nat, i: nat)
    requires from <= i <= |s| && ExpectedAt(s, i)
    requires forall k | from <= k < i :: !ExpectedAt(s, k)
    decreases i - from
    ensures ExpectedFrom(s, from) == Some(ExpectedValueAt(s, i))
  {
    if from < i {
      ExpectedFromFirst(s, from + 1, i);
    }
  }

  /** A found count is the value of a match with no match before it. */
  lemma {:induction false} ExpectedFromLeftmost(s: string, from: nat)
    requires ExpectedFrom(s, from).Some?
    decreases |s| + 1 - from
    ensures exists i | from <= i <= |s| ::
      && ExpectedAt(s, i) && ExpectedFrom(s, from).value == ExpectedValueAt(s, i)
      && forall k | from <= k < i :: !ExpectedAt(s, k)
  {
    if !ExpectedAt(s, from) {
      ExpectedFromLeftmost(s, from + 1);
      var i :| && from + 1 <= i <= |s|
        && ExpectedAt(s, i) && ExpectedFrom(s, from + 1).value == ExpectedValueAt(s, i)
        && forall k | from + 1 <= k < i :: !ExpectedAt(s, k);
      assert forall k | from <= k < i :: !ExpectedAt(s, k);
    }
  }

  /** No count is found exactly when the expression matches nowhere. */
  lemma ExpectedNone(s: string)
    ensures ExpectedErrors(s).None? <==> forall i | 0 <= i <= |s| :: !ExpectedAt(s, i)
  {
    ExpectedFromNone(s, 0);
  }

  /** A found count is the value of the leftmost match. */
  lemma ExpectedLeftmost(s: string)
    requires ExpectedErrors(s).Some?
    ensures exists i | 0 <= i <= |s| ::
      && ExpectedAt(s, i) && ExpectedErrors(s).value == ExpectedValueAt(s, i)
      && forall k | 0 <= k < i :: !ExpectedAt(s, k)
  {
    ExpectedFromLeftmost(s, 0);
  }

  const ConfigLabel: string := "eslint:"

  /** The end of the run of characters other than `'` starting at `i`:
      where a greedy `[^']*` stops. */
  function QuoteEnd(s: string, i: nat): (k: nat)
    requires i <= |s|
    decreases |s| - i
    ensures i <= k <= |s|
    ensures forall j | i <= j < k :: s[j] != '\''
    ensures k == |s| || s[k] == '\''
  {
    if i < |s| && s[i] != '\'' then QuoteEnd(s, i + 1) else i
  }

  /** `/eslint:\s*'([^']+)'/` matches at `i`: after the label and the
      whitespace comes a quote, at least one other character, and a
      closing quote. */
  predicate ConfigAt(s: string, i: nat) {
    && OccursAt(s, ConfigLabel, i)
    && var j := SkipWhitespace(s, i + |ConfigLabel|);
    && j < |s| && s[j] == '\''
    && var k := QuoteEnd(s, j + 1);
    j + 1 < k < |s|
  }

  /** Group 1 of the match at `i`: the text between the quotes. */
  function ConfigValueAt(s: string, i: nat): (v: string)
    requires ConfigAt(s, i)
    ensures |v| > 0 && '\'' !in v
  {
    var j := SkipWhitespace(s, i + |ConfigLabel|);
    s[j + 1..QuoteEnd(s, j + 1)]
  }

  /** The text of the leftmost match of the directive expression at or
      after `from`. */
  function ConfigFrom(s: string, from: nat): Option<string>
    decreases |s| + 1 - from
  {
    if from > |s| then None
    else if ConfigAt(s, from) then Some(ConfigValueAt(s, from))
    else ConfigFrom(s, from + 1)
  }

  /** The inline ESLint directive of a test case, or `None` when the comment
      line carries no `eslint: '<directive>'`. */
  function EslintConfig(s: string): Option<string> {
    ConfigFrom(s, 0)
  }

  /** The scan finds nothing exactly when no match starts at or after
      `from`. */
  lemma {:induction false} ConfigFromNone(s: string, from: nat)
    decreases |s| + 1 - from
    ensures ConfigFrom(s, from).None? <==> forall k | from <= k <= |s| :: !ConfigAt(s, k)
  {
    if from <= |s| && !ConfigAt(s, from) {
      ConfigFromNone(s, from + 1);
    }
  }

  /** The scan reads the leftmost match at or after `from`. */
  lemma {:induction false} ConfigFromFirst(s: string, from: nat, i: nat)
    requires from <= i <= |s| && ConfigAt(s, i)
    requires forall k | from <= k < i :: !ConfigAt(s, k)
    decreases i - from
    ensures ConfigFrom(s, from) == Some(ConfigValueAt(s, i))
  {
    if from < i {
      ConfigFromFirst(s, from + 1, i);
    }
  }

  /** A found directive is the text of a match with no match before it. */
  lemma {:induction false} ConfigFromLeftmost(s: string, from: nat)
    requires ConfigFrom(s, from).Some?
    decreases |s| + 1 - from
    ensures exists i | from <= i <= |s| ::
      && ConfigAt(s, i) && ConfigFrom(s, from).value == ConfigValueAt(s, i)
      && forall k | from <= k < i :: !ConfigAt(s, k)
  {
    if !ConfigAt(s, from) {
      ConfigFromLeftmost(s, from + 1);
      var i :| && from + 1 <= i <= |s|
        && ConfigAt(s, i) && ConfigFrom(s, from + 1).value == ConfigValueAt(s, i)
        && forall k | from + 1 <= k < i :: !ConfigAt(s, k);
      assert forall k | from <= k < i :: !ConfigAt(s, k);
    }
  }

  /** No directive is found exactly when the expression matches nowhere. */
  lemma ConfigNone(s: string)
    ensures EslintConfig(s).None? <==> forall i | 0 <= i <= |s| :: !ConfigAt(s, i)
  {
    ConfigFromNone(s, 0);
  }

  /** A found directive is the text of the leftmost match. */
  lemma ConfigLeftmost(s: string)
    requires EslintConfig(s).Some?
    ensures exists i | 0 <= i <= |s| ::
      && ConfigAt(s, i) && EslintConfig(s).value == ConfigValueAt(s, i)
      && forall k | 0 <= k < i :: !ConfigAt(s, k)
  {
    ConfigFromLeftmost(s, 0);
  }

  /** A directive read from a comment line is never empty and holds no
      quote: `[^']+` needs at least one non-quote character. */
  lemma ConfigShape(s: string)
    requires EslintConfig(s).Some?
    ensures |EslintConfig(s).value| > 0 && '\'' !in EslintConfig(s).value
  {
    ConfigLeftmost(s);
  }

  /** A slice holds no character its text does not. */
  lemma SliceWithout(s: string, a: nat, b: nat, c: char)
    requires a <= b <= |s| && c !in s
    ensures c !in s[a..b]
  {
    forall t | 0 <= t < b - a ensures s[a..b][t] != c {
      assert s[a..b][t] == s[a + t];
    }
  }

  /** The text of a directive match is a piece of the text it was read
      from. */
  lemma ConfigValueChars(s: string, i: nat, c: char)
    requires ConfigAt(s, i) && c !in s
    ensures c !in ConfigValueAt(s, i)
  {
    var j := SkipWhitespace(s, i + |ConfigLabel|);
    SliceWithout(s, j + 1, QuoteEnd(s, j + 1), c);
  }

  /** A found directive holds no character the text does not. */
  lemma {:induction false} ConfigChars(s: string, from: nat, c: char)
    requires ConfigFrom(s, from).Some? && c !in s
    decreases |s| + 1 - from
    ensures c !in ConfigFrom(s, from).value
  {
    if ConfigAt(s, from) {
      ConfigValueChars(s, from, c);
    } else {
      ConfigChars(s, from + 1, c);
    }
  }

  /** A tag placed right after `pre` does not also occur starting inside
      `pre` when `pre` holds no copy of the tag's first two characters. */
  lemma TagAfter(pre: string, tag: string, rest: string, i: nat)
    requires |tag| >= 2 && i < |pre| && !Contains(pre, tag[..2]) && tag[0] != tag[1]
    ensures !OccursAt(pre + tag + rest, tag, i)
  {
    var s := pre + tag + rest;
    if OccursAt(s, tag, i) {
      assert s[i] == tag[0] && s[i + 1] == tag[1];
      if i + 1 < |pre| {
        assert pre[i..i + 2] == tag[..2];
        assert OccursAt(pre, tag[..2], i);
      }
    }
  }

  /** The leftmost match decides the expected-errors value. */
  lemma ExpectedFirst(s: string, i: nat)
    requires ExpectedAt(s, i) && forall k | 0 <= k < i :: !ExpectedAt(s, k)
    ensures ExpectedErrors(s) == Some(ExpectedValueAt(s, i))
  {
    ExpectedFromFirst(s, 0, i);
  }

  /** The leftmost match decides the directive. */
  lemma ConfigFirst(s: string, i: nat)
    requires ConfigAt(s, i) && forall k | 0 <= k < i :: !ConfigAt(s, k)
    ensures EslintConfig(s) == Some(ConfigValueAt(s, i))
  {
    ConfigFromFirst(s, 0, i);
  }

  /** A digit is not whitespace. */
  lemma DigitNotWhitespace(c: char)
    requires IsDigit(c)
    ensures !IsWhitespace(c)
  {
  }

  /** The expected-errors expression matches at `i` when the label is there,
      followed by whitespace and a maximal run of digits printing `n`; the
      value it reads is `n`. */
  lemma ExpectedMatchValue(s: string, i: nat, j: nat, n: nat)
    requires OccursAt(s, ExpectedLabel, i) && i + |ExpectedLabel| <= j
    requires j + |Show(n)| <= |s| && s[j..j + |Show(n)|] == Show(n)
    requires forall k | i + |ExpectedLabel| <= k < j :: IsWhitespace(s[k])
    requires j + |Show(n)| == |s| || !IsDigit(s[j + |Show(n)|])
    ensures ExpectedAt(s, i) && ExpectedValueAt(s, i) == n
  {
    var digits := Show(n);
    var e := j + |digits|;
    assert s[j] == digits[0];
    DigitNotWhitespace(s[j]);
    SkipWhitespaceAt(s, i + |ExpectedLabel|, j);
    assert forall k | j <= k < e :: s[k] == digits[k - j];
    DigitsEndAt(s, j, e);
    ParseShow(n);
  }

  /** No expected-errors match starts inside a text without `ex` that the
      label follows. */
  lemma ExpectedNoneBefore(pre: string, ws: string, n: nat, post: string)
    requires !Contains(pre, "ex")
    ensures forall k | 0 <= k < |pre| :: !ExpectedAt(pre + ExpectedLabel + ws + Show(n) + post, k)
  {
    var rest := ws + Show(n) + post;
    assert pre + ExpectedLabel + ws + Show(n) + post == pre + ExpectedLabel + rest;
    assert ExpectedLabel[..2] == "ex";
    forall k | 0 <= k < |pre| ensures !ExpectedAt(pre + ExpectedLabel + rest, k) {
      TagAfter(pre, ExpectedLabel, rest, k);
    }
  }

  /** The leftmost expected-errors match, with the label at `i` followed by
      whitespace up to `j` and a maximal run of digits printing `n`, reads
      `n`. */
  lemma ExpectedRead(s: string, i: nat, j: nat, n: nat)
    requires OccursAt(s, ExpectedLabel, i) && i + |ExpectedLabel| <= j
    requires j + |Show(n)| <= |s| && s[j..j + |Show(n)|] == Show(n)
    requires forall k | i + |ExpectedLabel| <= k < j :: IsWhitespace(s[k])
    requires j + |Show(n)| == |s| || !IsDigit(s[j + |Show(n)|])
    requires forall k | 0 <= k < i :: !ExpectedAt(s, k)
    ensures ExpectedErrors(s) == Some(n)
  {
    ExpectedMatchValue(s, i, j, n);
    ExpectedFirst(s, i);
  }

  /** Where the parts of a rendered `expectedErrors:` directive sit. */
  lemma ExpectedLayout(pre: string, ws: string, n: nat, post: string)
    requires IsBlank(ws)
    requires post == [] || !IsDigit(post[0])
    ensures var s := pre + ExpectedLabel + ws + Show(n) + post;
      var i := |pre|; var j := i + |ExpectedLabel| + |ws|;
      && OccursAt(s, ExpectedLabel, i)
      && j + |Show(n)| <= |s| && s[j..j + |Show(n)|] == Show(n)
      && (forall k | i + |ExpectedLabel| <= k < j :: IsWhitespace(s[k]))
      && (j + |Show(n)| == |s| || !IsDigit(s[j + |Show(n)|]))
  {
    var digits := Show(n);
    var s := pre + ExpectedLabel + ws + digits + post;
    var i := |pre|;
    var j := i + |ExpectedLabel| + |ws|;
    assert s[i..i + |ExpectedLabel|] == ExpectedLabel;
    assert forall k | i + |ExpectedLabel| <= k < j :: s[k] == ws[k - i - |ExpectedLabel|];
    assert s[j..j + |digits|] == digits;
    assert j + |digits| < |s| ==> s[j + |digits|] == post[0];
  }

  /** Reading back an `expectedErrors:` label, some whitespace and a printed
      number gives the number, provided no earlier text starts the label
      (no `ex` before it) and no digit follows the number. */
  lemma ExpectedRoundTrip(pre: string, ws: string, n: nat, post: string)
    requires !Contains(pre, "ex") && IsBlank(ws)
    requires post == [] || !IsDigit(post[0])
    ensures ExpectedErrors(pre + ExpectedLabel + ws + Show(n) + post) == Some(n)
  {
    var s := pre + ExpectedLabel + ws + Show(n) + post;
    ExpectedLayout(pre, ws, n, post);
    ExpectedNoneBefore(pre, ws, n, post);
    ExpectedRead(s, |pre|, |pre| + |ExpectedLabel| + |ws|, n);
  }

  /** The directive expression matches at `i` when the label is there,
      followed by whitespace and a quoted non-empty text without quotes; the
      value it reads is that text. */
  lemma ConfigMatchValue(s: string, i: nat, j: nat, config: string)
    requires OccursAt(s, ConfigLabel, i) && i + |ConfigLabel| <= j
    requires |config| > 0 && '\'' !in config
    requires j + |config| + 2 <= |s| && s[j] == '\'' && s[j + 1..j + 1 + |config|] == config
    requires forall k | i + |ConfigLabel| <= k < j :: IsWhitespace(s[k])
    requires s[j + 1 + |config|] == '\''
    ensures ConfigAt(s, i) && ConfigValueAt(s, i) == config
  {
    var e := j + 1 + |config|;
    SkipWhitespaceAt(s, i + |ConfigLabel|, j);
    assert forall k | j + 1 <= k < e :: s[k] == config[k - j - 1];
    QuoteEndAt(s, j + 1, e);
  }

  /** No directive match starts inside a text without `es` that the label
      follows. */
  lemma ConfigNoneBefore(pre: string, ws: string, config: string, post: string)
    requires !Contains(pre, "es")
    ensures forall k | 0 <= k < |pre| :: !ConfigAt(pre + ConfigLabel + ws + "'" + config + "'" + post, k)
  {
    var rest := ws + "'" + config + "'" + post;
    assert pre + ConfigLabel + ws + "'" + config + "'" + post == pre + ConfigLabel + rest;
    assert ConfigLabel[..2] == "es";
    forall k | 0 <= k < |pre| ensures !ConfigAt(pre + ConfigLabel + rest, k) {
      TagAfter(pre, ConfigLabel, rest, k);
    }
  }

  /** Where the parts of a rendered `eslint:` directive sit. */
  lemma ConfigLayout(pre: string, ws: string, config: string, post: string)
    requires IsBlank(ws)
    ensures var s := pre + ConfigLabel + ws + "'" + config + "'" + post;
      var i := |pre|; var j := i + |ConfigLabel| + |ws|;
      && OccursAt(s, ConfigLabel, i)
      && j + |config| + 2 <= |s| && s[j] == '\'' && s[j + 1..j + 1 + |config|] == config
      && s[j + 1 + |config|] == '\''
      && (forall k | i + |ConfigLabel| <= k < j :: IsWhitespace(s[k]))
  {
    var s := pre + ConfigLabel + ws + "'" + config + "'" + post;
    var i := |pre|;
    var j := i + |ConfigLabel| + |ws|;
    assert s[i..i + |ConfigLabel|] == ConfigLabel;
    assert forall k | i + |ConfigLabel| <= k < j :: s[k] == ws[k - i - |ConfigLabel|];
    assert s[j + 1..j + 1 + |config|] == config;
  }

  /** The leftmost directive match, with the label at `i` followed by
      whitespace up to `j` and a quoted text, reads that text. */
  lemma ConfigRead(s: string, i: nat, j: nat, config: string)
    requires OccursAt(s, ConfigLabel, i) && i + |ConfigLabel| <= j
    requires |config| > 0 && '\'' !in config
    requires j + |config| + 2 <= |s| && s[j] == '\'' && s[j + 1..j + 1 + |config|] == config
    requires s[j + 1 + |config|] == '\''
    requires forall k | i + |ConfigLabel| <= k < j :: IsWhitespace(s[k])
    requires forall k | 0 <= k < i :: !ConfigAt(s, k)
    ensures EslintConfig(s) == Some(config)
  {
    ConfigMatchValue(s, i, j, config);
    ConfigFirst(s, i);
  }

  /** Reading back an `eslint:` label, some whitespace and a quoted
      directive gives the directive, provided no earlier text starts the
      label (no `es` before it) and the directive is not empty and holds no
      quote. */
  lemma ConfigRoundTrip(pre: string, ws: string, config: string, post: string)
    requires !Contains(pre, "es") && IsBlank(ws)
    requires |config| > 0 && '\'' !in config
    ensures EslintConfig(pre + ConfigLabel + ws + "'" + config + "'" + post) == Some(config)
  {
    var s := pre + ConfigLabel + ws + "'" + config + "'" + post;
    ConfigLayout(pre, ws, config, post);
    ConfigNoneBefore(pre, ws, config, post);
    ConfigRead(s, |pre|, |pre| + |ConfigLabel| + |ws|, config);
  }

  /** `QuoteEnd` stops at the first quote. */
  lemma QuoteEndAt(s: string, i: nat, j: nat)
    requires i <= j <= |s|
    requires forall k | i <= k < j :: s[k] != '\''
    requires j == |s| || s[j] == '\''
    ensures QuoteEnd(s, i) == j
  {
  }
}
