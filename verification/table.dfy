/** The table builder (env_replace.py, `_sort_by_length` and the first loop of
    `main`): the environment, sorted longest value first and shortest name
    second, is scanned once, and each variable whose value is longer than its
    name and not yet claimed becomes a substitution rule. */
module Table {
  import opened Sorting
  import opened Strings

  /** One environment variable, `name=value`. */
  datatype EnvVar = EnvVar(name: string, value: string)

  /** A substitution rule: the literal `value` is rewritten to `reference`,
      except on lines that start with `guard` (lines assigning the variable). */
  datatype Rule = Rule(value: string, reference: string, guard: string)

  /** The order the sort key `(-len(value), len(name))` induces: `a` comes no
      later than `b`. */
  predicate Precedes(a: EnvVar, b: EnvVar) {
    |a.value| > |b.value| || (|a.value| == |b.value| && |a.name| <= |b.name|)
  }

  /** The same order, read off a rule: the reference is one longer than the name. */
  predicate RulePrecedes(a: Rule, b: Rule) {
    |a.value| > |b.value| || (|a.value| == |b.value| && |a.reference| <= |b.reference|)
  }

  lemma {:induction false} PrecedesIsTotalPreorder()
    ensures TotalPreorder(Precedes)
  {
  }

  /** `sorted(environ.items(), key=_sort_by_length)`. */
  function SortByPriority(env: seq<EnvVar>): (sorted: seq<EnvVar>)
    ensures SortedBy(Precedes, sorted)
    ensures multiset(sorted) == multiset(env)
  {
    PrecedesIsTotalPreorder();
    Sort(Precedes, env)
  }

  /** Substituting would not lengthen the output: `len(value) > len(key)`. */
  predicate Eligible(e: EnvVar) {
    |e.value| > |e.name|
  }

  /** The rule built for an accepted variable: `'$' + key` and `key + '='`. */
  function MakeRule(e: EnvVar): Rule {
    Rule(e.value, "$" + e.name, e.name + "=")
  }

  /** Some rule already has literal value `v` (`value in replacements`). */
  predicate HasValue(rules: seq<Rule>, v: string) {
    exists k | 0 <= k < |rules| :: rules[k].value == v
  }

  /** `r` is the rule of some eligible variable of `env`. */
  predicate RuleOf(env: seq<EnvVar>, r: Rule) {
    exists e | e in env :: Eligible(e) && r == MakeRule(e)
  }

  /** No two rules share a literal value. */
  predicate DistinctValues(rules: seq<Rule>) {
    forall i, j | 0 <= i < j < |rules| :: rules[i].value != rules[j].value
  }

  /** Every eligible variable of `env` has its value claimed by a rule whose
      name is no longer than its own. */
  predicate ShortestNames(env: seq<EnvVar>, rules: seq<Rule>) {
    forall e | e in env && Eligible(e) :: Claimed(rules, e)
  }

  /** Some rule has the value of `e` and a name no longer than `e`'s. */
  predicate Claimed(rules: seq<Rule>, e: EnvVar) {
    exists k | 0 <= k < |rules| :: rules[k].value == e.value && |rules[k].reference| <= |e.name| + 1
  }

  /** A rule never lengthens a line and never matches the empty string. */
  predicate Shortening(r: Rule) {
    0 < |r.value| && |r.reference| <= |r.value|
  }

  /** The table-building loop over already sorted variables, as a left fold. */
  function Select(sorted: seq<EnvVar>): (rules: seq<Rule>)
    ensures forall k | 0 <= k < |rules| :: RuleOf(sorted, rules[k])
    ensures DistinctValues(rules)
    ensures |rules| <= |sorted|
    decreases |sorted|
  {
    if |sorted| == 0 then
      []
    else
      var prefix := sorted[..|sorted| - 1];
      var e := sorted[|sorted| - 1];
      var rules := Select(prefix);
      assert forall x | x in prefix :: x in sorted;
      if Eligible(e) && !HasValue(rules, e.value) then
        rules + [MakeRule(e)]
      else
        rules
  }

  /** The rule table: the ordered replacements together with their guards. */
  function BuildTable(env: seq<EnvVar>): (rules: seq<Rule>)
    ensures forall k | 0 <= k < |rules| :: RuleOf(env, rules[k])
    ensures forall k | 0 <= k < |rules| :: Shortening(rules[k])
    ensures DistinctValues(rules)
    ensures SortedBy(RulePrecedes, rules)
    ensures ShortestNames(env, rules)
  {
    var sorted := SortByPriority(env);
    SelectOrdered(sorted);
    SelectShortest(sorted);
    SameElements(sorted, env, Select(sorted));
    Select(sorted)
  }

  /** What the table says about a sorted copy holds for the original environment. */
  lemma {:induction false} SameElements(sorted: seq<EnvVar>, env: seq<EnvVar>, rules: seq<Rule>)
    requires multiset(sorted) == multiset(env)
    requires forall k | 0 <= k < |rules| :: RuleOf(sorted, rules[k])
    requires ShortestNames(sorted, rules)
    ensures forall k | 0 <= k < |rules| :: RuleOf(env, rules[k]) && Shortening(rules[k])
    ensures ShortestNames(env, rules)
  {
    forall k | 0 <= k < |rules|
      ensures RuleOf(env, rules[k]) && Shortening(rules[k])
    {
      assert RuleOf(sorted, rules[k]);
      var e :| e in sorted && Eligible(e) && rules[k] == MakeRule(e);
      assert e in multiset(env);
      assert e in env;
    }
    forall e | e in env && Eligible(e)
      ensures Claimed(rules, e)
    {
      assert e in multiset(env);
    }
  }

  /** Rules come out in the priority order of the variables they were built from. */
  lemma {:induction false} SelectOrdered(sorted: seq<EnvVar>)
    requires SortedBy(Precedes, sorted)
    ensures SortedBy(RulePrecedes, Select(sorted))
    decreases |sorted|
  {
    if |sorted| > 0 {
      var prefix := sorted[..|sorted| - 1];
      var e := sorted[|sorted| - 1];
      var rules := Select(prefix);
      SelectOrdered(prefix);
      forall k | 0 <= k < |rules|
        ensures RulePrecedes(rules[k], MakeRule(e))
      {
        var x :| x in prefix && Eligible(x) && rules[k] == MakeRule(x);
        var j :| 0 <= j < |prefix| && prefix[j] == x;
        assert Precedes(sorted[j], sorted[|sorted| - 1]);
      }
    }
  }

  /** Every eligible value is claimed, by the variable with the shortest name. */
  lemma {:induction false} SelectShortest(sorted: seq<EnvVar>)
    requires SortedBy(Precedes, sorted)
    ensures ShortestNames(sorted, Select(sorted))
    decreases |sorted|
  {
    if |sorted| > 0 {
      var prefix := sorted[..|sorted| - 1];
      SelectShortest(prefix);
      forall x | x in sorted && Eligible(x)
        ensures Claimed(Select(sorted), x)
      {
        SelectStepClaims(sorted, x);
      }
    }
  }

  /** One step of the fold keeps earlier claims and claims the new variable. */
  lemma {:induction false} SelectStepClaims(sorted: seq<EnvVar>, x: EnvVar)
    requires |sorted| > 0 && SortedBy(Precedes, sorted)
    requires ShortestNames(sorted[..|sorted| - 1], Select(sorted[..|sorted| - 1]))
    requires x in sorted && Eligible(x)
    ensures Claimed(Select(sorted), x)
  {
    var prefix := sorted[..|sorted| - 1];
    if x in prefix {
      assert Claimed(Select(prefix), x);
      ClaimKept(sorted, x);
    } else {
      assert sorted == prefix + [sorted[|sorted| - 1]];
      SelectClaimsLast(sorted);
    }
  }

  /** A claim made before the last step survives it. */
  lemma {:induction false} ClaimKept(sorted: seq<EnvVar>, x: EnvVar)
    requires |sorted| > 0
    requires Claimed(Select(sorted[..|sorted| - 1]), x)
    ensures Claimed(Select(sorted), x)
  {
    var rules := Select(sorted[..|sorted| - 1]);
    var k :| 0 <= k < |rules| && rules[k].value == x.value && |rules[k].reference| <= |x.name| + 1;
    SelectExtends(sorted);
    assert Select(sorted)[k] == rules[k];
  }

  /** The fold only ever appends to the rules of the shorter prefix. */
  lemma {:induction false} SelectExtends(sorted: seq<EnvVar>)
    requires |sorted| > 0
    ensures Select(sorted)[..|Select(sorted[..|sorted| - 1])|] == Select(sorted[..|sorted| - 1])
  {
  }

  /** The last variable, if eligible, is claimed once the fold has seen it. */
  lemma {:induction false} SelectClaimsLast(sorted: seq<EnvVar>)
    requires |sorted| > 0 && SortedBy(Precedes, sorted)
    requires Eligible(sorted[|sorted| - 1])
    ensures Claimed(Select(sorted), sorted[|sorted| - 1])
  {
    var prefix := sorted[..|sorted| - 1];
    var e := sorted[|sorted| - 1];
    var rules := Select(prefix);
    if !HasValue(rules, e.value) {
      assert Select(sorted) == rules + [MakeRule(e)];
      assert Select(sorted)[|rules|] == MakeRule(e);
    } else {
      assert Select(sorted) == rules;
      ClaimedByEarlier(sorted);
    }
  }

  /** A value already in the table was claimed by a variable scanned earlier,
      whose name is no longer than the last variable's. */
  lemma {:induction false} ClaimedByEarlier(sorted: seq<EnvVar>)
    requires |sorted| > 0 && SortedBy(Precedes, sorted)
    requires HasValue(Select(sorted[..|sorted| - 1]), sorted[|sorted| - 1].value)
    ensures Claimed(Select(sorted[..|sorted| - 1]), sorted[|sorted| - 1])
  {
    var prefix := sorted[..|sorted| - 1];
    var e := sorted[|sorted| - 1];
    var rules := Select(prefix);
    var k :| 0 <= k < |rules| && rules[k].value == e.value;
    assert RuleOf(prefix, rules[k]);
    var y :| y in prefix && Eligible(y) && rules[k] == MakeRule(y);
    var j :| 0 <= j < |prefix| && prefix[j] == y;
    assert prefix[j] == sorted[j];
    assert Precedes(y, e);
    assert |rules[k].reference| == |y.name| + 1;
  }

  /** A rule whose value occurs inside another rule's value comes after it, so
      a long value is substituted before any shorter value it contains. */
  lemma {:induction false} LongerValuesFirst(env: seq<EnvVar>)
    ensures var rules := BuildTable(env);
      forall i, j | 0 <= i < |rules| && 0 <= j < |rules| && i != j && Contains(rules[i].value, rules[j].value) :: i < j
  {
    var rules := BuildTable(env);
    forall i, j | 0 <= i < |rules| && 0 <= j < |rules| && i != j && Contains(rules[i].value, rules[j].value)
      ensures i < j
    {
      ContainedComesLater(rules, i, j);
    }
  }

  /** In a table ordered longest value first, with no value twice, a value
      occurring inside another comes after it. */
  lemma {:induction false} ContainedComesLater(rules: seq<Rule>, i: nat, j: nat)
    requires SortedBy(RulePrecedes, rules) && DistinctValues(rules)
    requires i < |rules| && j < |rules| && i != j
    requires Contains(rules[i].value, rules[j].value)
    ensures i < j
  {
    ContainsShorter(rules[i].value, rules[j].value);
    if j < i {
      assert RulePrecedes(rules[j], rules[i]);
      ContainsSameLength(rules[i].value, rules[j].value);
    }
  }

  /** When two eligible variables share a value, the one with the longer name
      never supplies the rule for it. */
  lemma {:induction false} TieBreak(env: seq<EnvVar>, a: EnvVar, b: EnvVar)
    requires a in env && b in env && Eligible(a) && Eligible(b)
    requires a.value == b.value && |a.name| < |b.name|
    ensures forall r | r in BuildTable(env) && r.value == a.value :: r.reference != "$" + b.name
  {
    var rules := BuildTable(env);
    var k :| 0 <= k < |rules| && rules[k].value == a.value && |rules[k].reference| <= |a.name| + 1;
    forall r | r in rules && r.value == a.value
      ensures r.reference != "$" + b.name
    {
      var m :| 0 <= m < |rules| && rules[m] == r;
      assert m == k;
    }
  }

  /** Only eligible variables produce rules, so an environment with none
      produces an empty table. */
  lemma {:induction false} NoEligibleNoRules(env: seq<EnvVar>)
    requires forall e | e in env :: !Eligible(e)
    ensures BuildTable(env) == []
  {
    var sorted := SortByPriority(env);
    forall e | e in sorted
      ensures !Eligible(e)
    {
      assert e in multiset(env);
    }
    SelectNoEligible(sorted);
  }

  lemma {:induction false} SelectNoEligible(sorted: seq<EnvVar>)
    requires forall e | e in sorted :: !Eligible(e)
    ensures Select(sorted) == []
    decreases |sorted|
  {
    if |sorted| > 0 {
      var prefix := sorted[..|sorted| - 1];
      assert forall e | e in prefix :: e in sorted;
      SelectNoEligible(prefix);
    }
  }
}
