/** The whole program (env_replace.py, `main`) as one pure function: the
    environment and the input lines go in, the written strings come out, the
    rewritten lines first and the report after them. */
module EnvReplace {
  import opened Sorting
  import opened Strings
  import opened Table
  import opened Rewrite
  import opened Report

  /** `main()`: build the table, rewrite every line, then print the report. */
  function Run(env: seq<EnvVar>, input: seq<string>): (output: seq<string>)
    ensures |input| <= |output|
    ensures forall i | 0 <= i < |input| :: |output[i]| <= |input[i]|
    ensures |output| == |input| ==> output == input
  {
    var rules := BuildTable(env);
    var stream := RewriteStream(rules, input, []);
    stream.output + Summary(stream.consumed)
  }

  /** Each output line is the rewrite of its input line alone. */
  lemma {:induction false} RunIsLineByLine(env: seq<EnvVar>, input: seq<string>)
    ensures forall i | 0 <= i < |input| :: Run(env, input)[i] == RewrittenLine(BuildTable(env), input[i])
  {
    StreamIsLineByLine(BuildTable(env), input, []);
  }

  /** `line` is `export NAME=VALUE` for an eligible variable of `env`. */
  predicate ExportsEligible(env: seq<EnvVar>, line: string) {
    exists e | e in env && Eligible(e) :: line == "export " + e.name + "=" + e.value + "\n"
  }

  /** Every report line after the header exports an eligible variable of the
      environment with its own value. */
  lemma {:induction false} RunReportsVariables(env: seq<EnvVar>, input: seq<string>)
    ensures forall i | |input| < i < |Run(env, input)| :: ExportsEligible(env, Run(env, input)[i])
  {
    var rules := BuildTable(env);
    var consumed := RewriteStream(rules, input, []).consumed;
    RunEndsWithReport(env, input);
    ReportExportsVariables(env, rules, consumed);
  }

  /** The output is the rewritten lines followed by the report. */
  lemma {:induction false} RunEndsWithReport(env: seq<EnvVar>, input: seq<string>)
    ensures var consumed := RewriteStream(BuildTable(env), input, []).consumed;
      && |Run(env, input)| == |input| + |Summary(consumed)|
      && forall i | |input| <= i < |Run(env, input)| :: Run(env, input)[i] == Summary(consumed)[i - |input|]
  {
  }

  /** Every line of a report on entries recorded from rules of eligible
      variables, after the header, exports an eligible variable. */
  lemma {:induction false} ReportExportsVariables(env: seq<EnvVar>, rules: seq<Rule>, consumed: seq<Entry>)
    requires forall k | 0 <= k < |rules| :: RuleOf(env, rules[k])
    requires forall k | 0 <= k < |consumed| :: EntryOf(rules, consumed[k])
    ensures forall j | 1 <= j < |Summary(consumed)| :: ExportsEligible(env, Summary(consumed)[j])
  {
    var report := Summary(consumed);
    SummaryLines(consumed);
    forall j | 1 <= j < |report|
      ensures ExportsEligible(env, report[j])
    {
      var entry :| entry in consumed && report[j] == ExportLine(entry);
      var k :| 0 <= k < |consumed| && consumed[k] == entry;
      ExportsVariable(env, rules, entry);
    }
  }

  /** An entry recorded from a rule of an eligible variable exports that variable. */
  lemma {:induction false} ExportsVariable(env: seq<EnvVar>, rules: seq<Rule>, entry: Entry)
    requires forall k | 0 <= k < |rules| :: RuleOf(env, rules[k])
    requires EntryOf(rules, entry)
    ensures ExportsEligible(env, ExportLine(entry))
  {
    var r :| r in rules && entry == Entry(r.reference, r.value);
    var m :| 0 <= m < |rules| && rules[m] == r;
    assert RuleOf(env, rules[m]);
    var e :| e in env && Eligible(e) && r == MakeRule(e);
    ExportLineOfRule(e);
  }

  /** With no variable worth substituting, the output is the input, byte for
      byte, and there is no report. */
  lemma {:induction false} NothingEligibleIsIdentity(env: seq<EnvVar>, input: seq<string>)
    requires forall e | e in env :: !Eligible(e)
    ensures Run(env, input) == input
  {
    NoEligibleNoRules(env);
  }

  /** With a single variable worth substituting, a line `before + value + after`
      that does not assign it, where no occurrence of the value starts inside
      `before` and none lies inside `after`, gets the reference in place of
      that value, and the report exports the variable. */
  lemma {:induction false} SingleVariableLine(e: EnvVar, before: string, after: string)
    requires Eligible(e) && e.value != "$" + e.name
    requires forall i | 0 <= i < |before| :: !StartsWith((before + e.value + after)[i..], e.value)
    requires !Contains(after, e.value)
    requires !StartsWith(before + e.value + after, e.name + "=")
    ensures Run([e], [before + e.value + after])
         == [before + "$" + e.name + after, Header, "export " + e.name + "=" + e.value + "\n"]
  {
    var line := before + e.value + after;
    var rule := MakeRule(e);
    var entry := Entry("$" + e.name, e.value);
    SingleVariableTable(e);
    ReplaceOnce(before, e.value, after, "$" + e.name);
    assert before + ("$" + e.name) + after == before + "$" + e.name + after;
    OneRuleOneLine(rule, line);
    assert RewriteStream(BuildTable([e]), [line], []) == StreamState([before + "$" + e.name + after], [entry]);
    SingleEntryReport(entry);
    ExportLineOfRule(e);
    assert Summary([entry]) == [Header, "export " + e.name + "=" + e.value + "\n"];
  }

  /** With no occurrence of the value starting inside `before` and none
      inside `after`, `replace` rewrites exactly the value between them. */
  lemma {:induction false} ReplaceOnce(before: string, value: string, after: string, reference: string)
    requires 0 < |value| && |reference| <= |value| && value != reference
    requires forall i | 0 <= i < |before| :: !StartsWith((before + value + after)[i..], value)
    requires !Contains(after, value)
    ensures ReplaceAll(before + value + after, value, reference) == before + reference + after
    ensures ReplaceAll(before + value + after, value, reference) != before + value + after
  {
    var line := before + value + after;
    var n := |before|;
    assert line[n..] == value + after;
    assert line[n..][..|value|] == value;
    ReplaceAllLeftmost(line, n, value, reference);
    assert line[..n] == before;
    assert line[n + |value|..] == after;
    ReplaceAllAbsent(after, value, reference);
    ReplaceAllChanges(line, value, reference);
  }

  /** A stretch without the value's first character holds no start of the value. */
  lemma {:induction false} NoEarlyOccurrence(before: string, value: string, after: string)
    requires 0 < |value|
    requires forall i | 0 <= i < |before| :: before[i] != value[0]
    ensures forall i | 0 <= i < |before| :: !StartsWith((before + value + after)[i..], value)
  {
    CannotStartIn(before, value + after, value);
    assert before + (value + after) == before + value + after;
  }

  /** One rule applied to one line that it changes: the changed line is
      written and the rule is recorded. */
  lemma {:induction false} OneRuleOneLine(rule: Rule, line: string)
    requires !StartsWith(line, rule.guard)
    requires ReplaceAll(line, rule.value, rule.reference) != line
    ensures RewriteStream([rule], [line], [])
         == StreamState([ReplaceAll(line, rule.value, rule.reference)], [Entry(rule.reference, rule.value)])
  {
    var rewritten := ReplaceAll(line, rule.value, rule.reference);
    var entry := Entry(rule.reference, rule.value);
    assert ApplyRule(LineState(line, []), rule) == LineState(rewritten, [entry]);
    assert RewriteLine([rule], LineState(line, [])) == LineState(rewritten, [entry]);
  }

  /** A line assigning the only variable is left alone and nothing is reported. */
  lemma {:induction false} AssignmentLineUntouched(e: EnvVar, line: string)
    requires Eligible(e)
    requires StartsWith(line, e.name + "=")
    ensures Run([e], [line]) == [line]
  {
    SingleVariableTable(e);
    assert RewriteLine([MakeRule(e)], LineState(line, [])) == LineState(line, []);
    assert RewriteStream([MakeRule(e)], [line], []) == StreamState([line], []);
  }

  /** `HOME=/home/alice` shortens a path in the middle of a line and is reported. */
  lemma {:induction false} ScenarioHome()
    ensures Run([EnvVar("HOME", "/home/alice")], ["Reading config from /home/alice/.config\n"])
         == ["Reading config from $HOME/.config\n", Header, "export HOME=/home/alice\n"]
  {
    HomeLineShape();
    SingleVariableLine(EnvVar("HOME", "/home/alice"), "Reading config from ", "/.config\n");
  }

  /** The line of the `HOME` scenario holds `/home/alice` exactly once, after
      a stretch where it cannot start, and does not assign `HOME`. */
  lemma {:induction false} HomeLineShape()
    ensures "Reading config from " + "/home/alice" + "/.config\n" == "Reading config from /home/alice/.config\n"
    ensures "Reading config from " + "$" + "HOME" + "/.config\n" == "Reading config from $HOME/.config\n"
    ensures "export " + "HOME" + "=" + "/home/alice" + "\n" == "export HOME=/home/alice\n"
    ensures forall i | 0 <= i < |"Reading config from "| ::
      !StartsWith(("Reading config from " + "/home/alice" + "/.config\n")[i..], "/home/alice")
    ensures !Contains("/.config\n", "/home/alice")
    ensures !StartsWith("Reading config from /home/alice/.config\n", "HOME=")
  {
    var before, value, after := "Reading config from ", "/home/alice", "/.config\n";
    assert forall i | 0 <= i < |before| :: before[i] != value[0];
    NoEarlyOccurrence(before, value, after);
    if Contains(after, value) {
      ContainsShorter(after, value);
    }
    var line := "Reading config from /home/alice/.config\n";
    assert line[..5][0] == line[0] == 'R';
  }

  /** A single eligible variable makes a one-rule table. */
  lemma {:induction false} SingleVariableTable(e: EnvVar)
    requires Eligible(e)
    ensures BuildTable([e]) == [MakeRule(e)]
  {
    PrecedesIsTotalPreorder();
    assert Sorting.Sort(Precedes, [e]) == [e] by {
      assert [e][1..] == [];
    }
    assert [e][..0] == [];
  }

  /** A single recorded entry makes the header and one export line. */
  lemma {:induction false} SingleEntryReport(entry: Entry)
    ensures Summary([entry]) == [Header, ExportLine(entry)]
  {
    ByReferenceIsTotalPreorder();
    assert Sorting.Sort(ByReference, [entry]) == [entry] by {
      assert [entry][1..] == [];
    }
  }
}
