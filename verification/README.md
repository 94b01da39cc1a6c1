# env-replace in Dafny

`env-replace` reverses environment-variable expansion in a text stream. It
reads the process environment and keeps every variable whose value is longer
than its name, taking the longest values first and, for a shared value, the
shortest name. It then rewrites each input line by replacing those literal
values with `$NAME` references. A rule is skipped on a line that, at that
point of the rewrite, starts with `NAME=`. At the end it prints an
`export NAME=VALUE` line for every variable that actually changed some line.

This project models the whole program (`env_replace.py`) as pure functions over
strings and sequences, and proves properties of them:

- `Sorting`: a stable insertion sort over any total preorder. It stands for
  Python's `sorted`.
- `Strings`: Python's `startswith`, substring test, `str.replace` (including
  the empty-pattern case), `s[1:]` and code-point string order.
- `Table`: the sort key `_sort_by_length` and the table-building loop. A rule
  keeps the literal value, the reference `$NAME` and the guard `NAME=`.
- `Rewrite`: one rule applied to one line, the fold of all rules over a line,
  and the fold over all lines. All three thread the `consumed` record.
- `Report`: the trailing summary, sorted by reference.
- `EnvReplace`: `main` as `Run(env, input)`, end-to-end lemmas, and concrete
  scenarios.

The environment is a sequence of `EnvVar(name, value)` pairs in the order
`os.environ` iterates them. The input is a sequence of lines, each with its
terminator. The output is the sequence of strings written: each rewritten line,
then one string per `print` call, with `print`'s newline included.
`consumed` is a sequence of `Entry(reference, value)` in insertion order, as a
Python dict keeps it.

The length test `len(value) > len(name)` is modelled exactly as written. A
value exactly one character longer than its name is therefore substituted by a
reference of the same length. `Shortening` says "never longer", not "shorter".

## Model

| member | source | states |
|---|---|---|
| Sorting.Sort | env_replace.py:33 | `sorted` returns a permutation of its input that is ordered by the key's order |
| Table.PrecedesIsTotalPreorder | env_replace.py:19-26 | the order induced by the key `(-len(value), len(key))` is total and transitive, so sorting by it is well defined |
| Table.SortByPriority | env_replace.py:33 | the sorted environment is a permutation of the environment, with values in non-increasing length and, for equal value lengths, names in non-decreasing length |
| Table.Select | env_replace.py:33-40 | the loop only emits rules `($key, key=)` for variables with `len(value) > len(key)`, and never two rules with the same value |
| Table.BuildTable | env_replace.py:29-40 | every rule comes from an eligible variable of the environment and never lengthens a line, values are pairwise distinct, rules are ordered longest value first and then shortest name first, and every eligible value is claimed by a rule whose name is no longer than any variable holding it |
| Table.SelectOrdered | env_replace.py:33-39 | scanning sorted variables yields rules in that same priority order |
| Table.SelectShortest | env_replace.py:34-39 | scanning sorted variables, every eligible value gets a rule, and it is the rule of a shortest name holding that value |
| Table.LongerValuesFirst | env_replace.py:19-26 | if one rule's value occurs inside another's, the containing (longer) rule is applied first |
| Table.ContainedComesLater | env_replace.py:19-26 | in any table ordered longest value first with no value twice, a value occurring inside another value comes after it |
| Table.TieBreak | env_replace.py:22-23 | of two eligible variables with the same value, the one with the longer name never supplies the rule for that value |
| Table.NoEligibleNoRules | env_replace.py:34-35 | when no value is longer than its name, the table is empty |
| Strings.InsertEverywhere | env_replace.py:53 | `s.replace("", r)` adds `(len(s)+1)*len(r)` characters and starts with `r` |
| Strings.InsertEverywhereLayout | env_replace.py:53 | in `s.replace("", r)`, block `i` (of width `len(r)+1`) is `r` followed by `s[i]`, and the result closes with one more `r`: `r` is inserted before every character and at the end |
| Strings.ReplaceAll | env_replace.py:53 | with a non-empty pattern and a replacement no longer than it, `replace` never lengthens the string |
| Strings.ReplaceAllAbsent | env_replace.py:53-54 | a string not containing the pattern is returned unchanged |
| Strings.ReplaceAllChanges | env_replace.py:53-54 | a string that contains a non-empty pattern changes when the pattern is replaced by a different, no-longer string |
| Strings.ReplaceAllSelf | env_replace.py:53 | replacing a pattern by itself returns the same string |
| Strings.ReplaceAllLeftmost | env_replace.py:53 | when the leftmost occurrence of the pattern starts at `i`, the result is `s[:i]`, then the replacement, then the replace of the rest after that occurrence (non-overlapping, left to right) |
| Strings.ReplaceAllNoEarly | env_replace.py:53 | a prefix at none of whose positions an occurrence starts is copied unchanged |
| Strings.ReplaceAllSkips | env_replace.py:53 | a prefix none of whose characters is the pattern's first character is copied unchanged |
| Strings.DropFirst | env_replace.py:61 | `envvar[1:]` drops exactly the first character, and leaves an empty string empty |
| Strings.LessOrEqualTotal | env_replace.py:60 | any two strings are comparable in the order `sorted` uses |
| Strings.LessOrEqualTransitive | env_replace.py:60 | that string order is transitive |
| Strings.LessOrEqualAntisymmetric | env_replace.py:60 | that string order is antisymmetric, so distinct references sort strictly |
| Rewrite.ApplyRule | env_replace.py:47-55 | a line that currently starts with the guard is left unchanged and nothing is recorded; otherwise `consumed` gains at most the entry `(reference, value)` of this rule, and only when the line changed and the reference was not yet recorded; a shortening rule never lengthens the line |
| Rewrite.ApplyRuleChangesLine | env_replace.py:48-54 | a shortening rule changes the line exactly when the line does not start with its guard and contains its value, unless the value equals its own reference, which changes nothing |
| Rewrite.RewriteLine | env_replace.py:45-55 | folding the rules over a line never lengthens it, `consumed` only grows by appending, each new entry pairs a rule's reference with that rule's own value, references stay distinct, and a line that records nothing in an empty record is unchanged |
| Rewrite.RewriteStream | env_replace.py:42-56 | one output line per input line, none longer than its input; `consumed` only grows by appending entries of rules, references stay distinct; if nothing was recorded the output equals the input |
| Rewrite.LineIndependentOfConsumed | env_replace.py:46-53 | the text written for a line does not depend on what was recorded before |
| Rewrite.StreamIsLineByLine | env_replace.py:44-56 | each output line is the rewrite of its own input line alone |
| Rewrite.UntouchedLine | env_replace.py:47-53 | a line containing none of the values comes out unchanged and records nothing |
| Report.ByReferenceIsTotalPreorder | env_replace.py:60 | ordering entries by `itemgetter(0)` is total and transitive |
| Report.SortByReference | env_replace.py:60 | the sorted entries are a permutation of `consumed`, ordered by reference, and strictly ascending when references are distinct |
| Report.ExportLines | env_replace.py:60-61 | one `export` line per sorted entry, in the same order |
| Report.Summary | env_replace.py:58-61 | the report is empty exactly when `consumed` is empty; otherwise it is the header followed by one line per entry |
| Report.SummaryLines | env_replace.py:58-61 | every recorded entry has its `export` line in the report, and every line after the header exports a recorded entry |
| Report.SummaryOrdered | env_replace.py:60-61 | the `export` lines after the header follow the record sorted by reference, in that order, and that order is strictly ascending when references are distinct |
| Report.ExportLineOfRule | env_replace.py:38 | for an entry recorded from a table rule, the line is exactly `export NAME=VALUE` with the variable's own name and value |
| EnvReplace.Run | env_replace.py:29-61 | the output holds at least one string per input line, each rewritten line is no longer than its input, and when no report follows the output is the input unchanged |
| EnvReplace.RunIsLineByLine | env_replace.py:44-56 | every output line is the rewrite of the corresponding input line by the table |
| EnvReplace.RunReportsVariables | env_replace.py:58-61 | every report line after the header is `export NAME=VALUE` for an eligible variable of the environment |
| EnvReplace.NothingEligibleIsIdentity | env_replace.py:34-35 | with no variable longer in value than in name (such as `PORT=8080`), the output is the input unchanged and there is no report |
| EnvReplace.SingleVariableLine | env_replace.py:33-61 | with one eligible variable whose value is not `$NAME` itself, a line `before + VALUE + after` that does not start with `NAME=`, where no occurrence of the value starts inside `before` and none lies inside `after`, is written as `before + $NAME + after`, and the report exports that variable |
| EnvReplace.AssignmentLineUntouched | env_replace.py:48-51 | with one eligible variable, a line starting with `NAME=` is written unchanged and produces no report |
| EnvReplace.ScenarioHome | env_replace.py:29-61 | with `HOME=/home/alice`, `Reading config from /home/alice/.config` becomes `Reading config from $HOME/.config`, followed by the header and `export HOME=/home/alice` |
| Table.Precedes | env_replace.py:19-26 | definition, no contract |
| Table.Eligible | env_replace.py:34 | definition, no contract |
| Table.HasValue | env_replace.py:34 | definition, no contract |
| Table.MakeRule | env_replace.py:38-40 | definition, no contract |
| Strings.StartsWith | env_replace.py:48 | definition, no contract |
| Rewrite.Recorded | env_replace.py:54 | definition, no contract |
| Strings.LessOrEqual | env_replace.py:60 | definition, no contract |
| Report.ByReference | env_replace.py:60 | definition, no contract |
| Report.Header | env_replace.py:59 | definition, no contract |
| Report.ExportLine | env_replace.py:61 | definition, no contract |

## Left out

- Reading `os.environ`: the environment is a parameter. Its iteration order is the order of the given sequence. The sort is stable as Python's is, but no lemma depends on how exact ties on both keys are ordered.
- Strings are sequences of Unicode scalar values. Python on POSIX decodes `os.environ` with `surrogateescape`, so a value holding undecodable bytes contains lone surrogates that `EnvVar` cannot represent. Depending on the locale and Python's UTF-8 mode, undecodable bytes on standard input either raise `UnicodeDecodeError` part-way through the stream or are decoded with `surrogateescape` into lone surrogates, which a Dafny string cannot hold. Decoding and encoding, and both of these behaviours, are out of scope.
- Reading standard input and splitting it into lines: the input is a sequence of lines, each with its own terminator.
- Writing to standard output: the output is the sequence of strings that `sys.stdout.write` and `print` would write. Buffering, broken pipes and exit status are not modelled.
- The `OrderedDict` and dict types: the table is a sequence of rules and `consumed` is a sequence of entries, with membership predicates standing in for the lookups.
- `__version__`, the `__main__` guard and the unused `save_line`: they have no behaviour.
- A stronger "no partial substitution" claim: when a shorter value occurs inside a longer one, the only thing proved is that the longer rule is applied first (`Table.LongerValuesFirst`). Whether a shorter rule can still match text that an earlier replacement produced or left behind is not specified, because iterative literal replacement does not rule it out.
- Table.TieBreak: two variables whose names have equal length and whose values are equal are tied on both sort keys. Which of them wins then depends on environment order, and no lemma states it.
