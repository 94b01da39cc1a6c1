/** The stream rewriter (env_replace.py, the second loop of `main`): every
    line is folded through the ordered rules; a rule is skipped on a line that
    currently starts with its guard, otherwise every occurrence of its value is
    replaced by its reference, and the first change a rule makes is recorded
    in `consumed`. */
module Rewrite {
  import opened Strings
  import opened Table

  /** One `consumed` entry: a reference and the literal value it stands for. */
  datatype Entry = Entry(reference: string, value: string)

  /** The line being rewritten together with the `consumed` record, which
      keeps its entries in insertion order as a Python dict does. */
  datatype LineState = LineState(line: string, consumed: seq<Entry>)

  /** The rewritten lines of a stream and the `consumed` record after it. */
  datatype StreamState = StreamState(output: seq<string>, consumed: seq<Entry>)

  /** `ref in consumed`. */
  predicate Recorded(consumed: seq<Entry>, ref: string) {
    exists k | 0 <= k < |consumed| :: consumed[k].reference == ref
  }

  /** Each reference is recorded at most once. */
  predicate DistinctReferences(consumed: seq<Entry>) {
    forall i, j | 0 <= i < j < |consumed| :: consumed[i].reference != consumed[j].reference
  }

  /** `e` records one of the rules: its reference and that rule's own value. */
  predicate EntryOf(rules: seq<Rule>, e: Entry) {
    exists r | r in rules :: e == Entry(r.reference, r.value)
  }

  /** Every rule of the table is shortening. */
  predicate AllShortening(rules: seq<Rule>) {
    forall k | 0 <= k < |rules| :: Shortening(rules[k])
  }

  /** One iteration of the inner loop: apply `rule` to the current line. */
  function ApplyRule(st: LineState, rule: Rule): (st': LineState)
    ensures StartsWith(st.line, rule.guard) ==> st' == st
    ensures st'.consumed == st.consumed || st'.consumed == st.consumed + [Entry(rule.reference, rule.value)]
    ensures st'.consumed != st.consumed <==> st'.line != st.line && !Recorded(st.consumed, rule.reference)
    ensures Shortening(rule) ==> |st'.line| <= |st.line|
    ensures DistinctReferences(st.consumed) ==> DistinctReferences(st'.consumed)
  {
    if StartsWith(st.line, rule.guard) then
      st
    else
      var line' := ReplaceAll(st.line, rule.value, rule.reference);
      if !Recorded(st.consumed, rule.reference) && line' != st.line then
        LineState(line', st.consumed + [Entry(rule.reference, rule.value)])
      else
        LineState(line', st.consumed)
  }

  /** A shortening rule changes the line exactly when the line does not start
      with its guard and contains its value, unless the value is its own
      reference, in which case it changes nothing. */
  lemma {:induction false} ApplyRuleChangesLine(st: LineState, rule: Rule)
    requires Shortening(rule)
    ensures rule.value != rule.reference ==>
      (ApplyRule(st, rule).line != st.line <==> !StartsWith(st.line, rule.guard) && Contains(st.line, rule.value))
    ensures rule.value == rule.reference ==> ApplyRule(st, rule) == st
  {
    if !StartsWith(st.line, rule.guard) {
      if rule.value == rule.reference {
        ReplaceAllSelf(st.line, rule.value);
      } else if Contains(st.line, rule.value) {
        ReplaceAllChanges(st.line, rule.value, rule.reference);
      } else {
        ReplaceAllAbsent(st.line, rule.value, rule.reference);
      }
    }
  }

  /** The rules, in order, applied to one line (the inner `for` loop). */
  function RewriteLine(rules: seq<Rule>, st: LineState): (st': LineState)
    ensures AllShortening(rules) ==> |st'.line| <= |st.line|
    ensures st.consumed <= st'.consumed
    ensures forall k | |st.consumed| <= k < |st'.consumed| :: EntryOf(rules, st'.consumed[k])
    ensures DistinctReferences(st.consumed) ==> DistinctReferences(st'.consumed)
    ensures st.consumed == [] && st'.consumed == [] ==> st'.line == st.line
    decreases |rules|
  {
    if |rules| == 0 then
      st
    else
      var st1 := ApplyRule(st, rules[0]);
      var st' := RewriteLine(rules[1..], st1);
      assert forall r | r in rules[1..] :: r in rules;
      st'
  }

  /** The outer loop over the input lines, threading `consumed` through. */
  function RewriteStream(rules: seq<Rule>, lines: seq<string>, consumed: seq<Entry>): (out: StreamState)
    ensures |out.output| == |lines|
    ensures AllShortening(rules) ==> forall i | 0 <= i < |lines| :: |out.output[i]| <= |lines[i]|
    ensures consumed <= out.consumed
    ensures forall k | |consumed| <= k < |out.consumed| :: EntryOf(rules, out.consumed[k])
    ensures DistinctReferences(consumed) ==> DistinctReferences(out.consumed)
    ensures consumed == [] && out.consumed == [] ==> out.output == lines
    decreases |lines|
  {
    if |lines| == 0 then
      StreamState([], consumed)
    else
      var st := RewriteLine(rules, LineState(lines[0], consumed));
      var rest := RewriteStream(rules, lines[1..], st.consumed);
      StreamState([st.line] + rest.output, rest.consumed)
  }

  /** The rewritten line does not depend on what was recorded before. */
  lemma {:induction false} LineIndependentOfConsumed(rules: seq<Rule>, line: string, c1: seq<Entry>, c2: seq<Entry>)
    ensures RewriteLine(rules, LineState(line, c1)).line == RewriteLine(rules, LineState(line, c2)).line
    decreases |rules|
  {
    if |rules| > 0 {
      var l1 := ApplyRule(LineState(line, c1), rules[0]);
      var l2 := ApplyRule(LineState(line, c2), rules[0]);
      assert l1.line == l2.line;
      LineIndependentOfConsumed(rules[1..], l1.line, l1.consumed, l2.consumed);
    }
  }

  /** The rewritten text of a line, whatever was recorded before it. */
  function RewrittenLine(rules: seq<Rule>, line: string): string {
    RewriteLine(rules, LineState(line, [])).line
  }

  /** The stream is rewritten line by line: each output line is the rewrite of
      the corresponding input line on its own. */
  lemma {:induction false} StreamIsLineByLine(rules: seq<Rule>, lines: seq<string>, consumed: seq<Entry>)
    ensures forall i | 0 <= i < |lines| :: RewriteStream(rules, lines, consumed).output[i] == RewrittenLine(rules, lines[i])
    decreases |lines|
  {
    if |lines| > 0 {
      var st := RewriteLine(rules, LineState(lines[0], consumed));
      LineIndependentOfConsumed(rules, lines[0], consumed, []);
      StreamIsLineByLine(rules, lines[1..], st.consumed);
    }
  }

  /** A line that contains none of the values comes out unchanged, and records nothing. */
  lemma {:induction false} UntouchedLine(rules: seq<Rule>, st: LineState)
    requires AllShortening(rules)
    requires forall k | 0 <= k < |rules| :: !Contains(st.line, rules[k].value)
    ensures RewriteLine(rules, st) == st
    decreases |rules|
  {
    if |rules| > 0 {
      ReplaceAllAbsent(st.line, rules[0].value, rules[0].reference);
      assert ApplyRule(st, rules[0]) == st;
      UntouchedLine(rules[1..], st);
    }
  }
}
