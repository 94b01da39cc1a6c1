/** The Python string operations the program relies on: `startswith`, the `in`
    substring test, `str.replace` (every non-overlapping occurrence, scanning
    left to right), `s[1:]`, and the code-point order `<=` that `sorted` uses. */
module Strings {

  /** Python's `s.startswith(p)`. */
  predicate StartsWith(s: string, p: string) {
    |p| <= |s| && s[..|p|] == p
  }

  /** Python's `p in s`: `p` occurs somewhere in `s`. */
  predicate Contains(s: string, p: string) {
    exists i | 0 <= i <= |s| :: StartsWith(s[i..], p)
  }

  /** Python's `s[1:]`: drops the first character, and leaves "" alone. */
  function DropFirst(s: string): (r: string)
    ensures |s| > 0 ==> [s[0]] + r == s
    ensures |s| == 0 ==> r == s
  {
    if |s| == 0 then s else s[1..]
  }

  /** Python's `s.replace("", replacement)`: `replacement` before every character and at the end. */
  function InsertEverywhere(s: string, replacement: string): (r: string)
    ensures |r| == |s| + (|s| + 1) * |replacement|
    ensures StartsWith(r, replacement)
    decreases |s|
  {
    if |s| == 0 then replacement
    else
      var rest := InsertEverywhere(s[1..], replacement);
      assert (replacement + [s[0]] + rest)[..|replacement|] == replacement;
      replacement + [s[0]] + rest
  }

  /** Block `i` of `s.replace("", replacement)`: it starts at `i` times the
      width of one copy of `replacement` plus one character, and holds a copy
      of `replacement` followed by `s[i]`. */
  predicate BlockAt(r: string, s: string, replacement: string, i: nat) {
    var start := i * (|replacement| + 1);
    && i < |s| && start + |replacement| < |r|
    && r[start .. start + |replacement|] == replacement && r[start + |replacement|] == s[i]
  }

  /** The layout of `s.replace("", replacement)`: block `i` is `replacement`
      followed by `s[i]`, and one more `replacement` closes the string. */
  lemma {:induction false} InsertEverywhereLayout(s: string, replacement: string)
    ensures forall i | 0 <= i < |s| :: BlockAt(InsertEverywhere(s, replacement), s, replacement, i)
    ensures InsertEverywhere(s, replacement)[|s| * (|replacement| + 1) ..] == replacement
  {
    InsertEverywhereBlocks(s, replacement);
    InsertEverywhereEnd(s, replacement);
  }

  lemma {:induction false} InsertEverywhereBlocks(s: string, replacement: string)
    ensures forall i | 0 <= i < |s| :: BlockAt(InsertEverywhere(s, replacement), s, replacement, i)
    decreases |s|
  {
    var r := InsertEverywhere(s, replacement);
    if |s| > 0 {
      var rest := InsertEverywhere(s[1..], replacement);
      InsertEverywhereBlocks(s[1..], replacement);
      assert r == replacement + [s[0]] + rest;
      forall i | 0 <= i < |s|
        ensures BlockAt(r, s, replacement, i)
      {
        if i == 0 {
          assert r[0 .. |replacement|] == replacement;
        } else {
          BlockShift(r, s, rest, replacement, i);
        }
      }
    }
  }

  lemma {:induction false} InsertEverywhereEnd(s: string, replacement: string)
    ensures InsertEverywhere(s, replacement)[|s| * (|replacement| + 1) ..] == replacement
    decreases |s|
  {
    var r := InsertEverywhere(s, replacement);
    var k := |replacement| + 1;
    if |s| > 0 {
      var rest := InsertEverywhere(s[1..], replacement);
      InsertEverywhereEnd(s[1..], replacement);
      assert r == replacement + [s[0]] + rest;
      assert r[k..] == rest;
      MulSucc(|s| - 1, k);
      assert r[|s| * k ..] == rest[(|s| - 1) * k ..];
    } else {
      assert r == replacement;
    }
  }

  lemma {:induction false} MulSucc(j: nat, k: nat)
    ensures (j + 1) * k == k + j * k
  {
  }

  /** A block of the tail, shifted by the head block, is a block of the whole. */
  lemma {:induction false} BlockShift(r: string, s: string, rest: string, replacement: string, i: nat)
    requires 0 < i < |s|
    requires r == replacement + [s[0]] + rest
    requires BlockAt(rest, s[1..], replacement, i - 1)
    ensures BlockAt(r, s, replacement, i)
  {
    var k := |replacement| + 1;
    var start := (i - 1) * k;
    MulSucc(i - 1, k);
    assert r[k..] == rest;
    assert r[k + start .. k + start + |replacement|] == rest[start .. start + |replacement|];
    assert s[1..][i - 1] == s[i];
  }

  /** Python's `s.replace(pattern, replacement)`: every non-overlapping occurrence of `pattern`,
      found left to right, is replaced by `replacement`. */
  function ReplaceAll(s: string, pattern: string, replacement: string): (r: string)
    ensures 0 < |pattern| && |replacement| <= |pattern| ==> |r| <= |s|
    decreases |s|
  {
    if |pattern| == 0 then
      InsertEverywhere(s, replacement)
    else if |s| == 0 then
      s
    else if StartsWith(s, pattern) then
      replacement + ReplaceAll(s[|pattern|..], pattern, replacement)
    else
      [s[0]] + ReplaceAll(s[1..], pattern, replacement)
  }

  /** A string in which `pattern` does not occur comes back unchanged. */
  lemma {:induction false} ReplaceAllAbsent(s: string, pattern: string, replacement: string)
    requires 0 < |pattern|
    requires !Contains(s, pattern)
    ensures ReplaceAll(s, pattern, replacement) == s
    decreases |s|
  {
    if |s| > 0 {
      assert !StartsWith(s[0..], pattern);
      assert s[0..] == s;
      if Contains(s[1..], pattern) {
        ContainsInTail(s, pattern);
      }
      ReplaceAllAbsent(s[1..], pattern, replacement);
      assert s == [s[0]] + s[1..];
    }
  }

  /** An occurrence in the tail is an occurrence in the whole. */
  lemma {:induction false} ContainsInTail(s: string, p: string)
    requires 0 < |s| && Contains(s[1..], p)
    ensures Contains(s, p)
  {
    var i :| 0 <= i <= |s[1..]| && StartsWith(s[1..][i..], p);
    assert s[1..][i..] == s[i + 1..];
  }

  /** A string contained in one of the same length is that string. */
  lemma {:induction false} ContainsSameLength(s: string, p: string)
    requires Contains(s, p)
    requires |s| <= |p|
    ensures s == p
  {
    var i :| 0 <= i <= |s| && StartsWith(s[i..], p);
  }

  /** A contained string is no longer than the string containing it. */
  lemma {:induction false} ContainsShorter(s: string, p: string)
    requires Contains(s, p)
    ensures |p| <= |s|
  {
    var i :| 0 <= i <= |s| && StartsWith(s[i..], p);
  }

  /** Replacing an occurrence by something else of no greater length always
      changes the string: `replace` reports a change exactly when `pattern` occurs. */
  lemma {:induction false} ReplaceAllChanges(s: string, pattern: string, replacement: string)
    requires 0 < |pattern| && |replacement| <= |pattern| && pattern != replacement
    requires Contains(s, pattern)
    ensures ReplaceAll(s, pattern, replacement) != s
    decreases |s|
  {
    if StartsWith(s, pattern) {
      var r := ReplaceAll(s, pattern, replacement);
      assert r == replacement + ReplaceAll(s[|pattern|..], pattern, replacement);
      if |replacement| == |pattern| {
        assert r[..|pattern|] == replacement;
        assert s[..|pattern|] == pattern;
      } else {
        assert |ReplaceAll(s[|pattern|..], pattern, replacement)| <= |s| - |pattern|;
      }
    } else {
      var i :| 0 <= i <= |s| && StartsWith(s[i..], pattern);
      assert i != 0;
      assert s[1..][i - 1..] == s[i..];
      assert Contains(s[1..], pattern);
      ReplaceAllChanges(s[1..], pattern, replacement);
      var r := ReplaceAll(s, pattern, replacement);
      assert r == [s[0]] + ReplaceAll(s[1..], pattern, replacement);
      assert r[1..] == ReplaceAll(s[1..], pattern, replacement);
    }
  }

  /** `s.replace(x, x)` is `s`, including for the empty pattern. */
  lemma {:induction false} ReplaceAllSelf(s: string, pattern: string)
    ensures ReplaceAll(s, pattern, pattern) == s
    decreases |s|
  {
    if |pattern| == 0 {
      InsertEverywhereEmpty(s);
    } else if |s| == 0 {
    } else if StartsWith(s, pattern) {
      ReplaceAllSelf(s[|pattern|..], pattern);
      assert s == s[..|pattern|] + s[|pattern|..];
    } else {
      ReplaceAllSelf(s[1..], pattern);
      assert s == [s[0]] + s[1..];
    }
  }

  lemma {:induction false} InsertEverywhereEmpty(s: string)
    ensures InsertEverywhere(s, "") == s
    decreases |s|
  {
    if |s| > 0 {
      InsertEverywhereEmpty(s[1..]);
      assert s == [s[0]] + s[1..];
    }
  }

  /** A prefix of `p + s` at none of whose positions an occurrence of
      `pattern` starts passes through `replace` untouched. */
  lemma {:induction false} ReplaceAllNoEarly(p: string, s: string, pattern: string, replacement: string)
    requires 0 < |pattern|
    requires forall i | 0 <= i < |p| :: !StartsWith((p + s)[i..], pattern)
    ensures ReplaceAll(p + s, pattern, replacement) == p + ReplaceAll(s, pattern, replacement)
    decreases |p|
  {
    if |p| > 0 {
      var t := p + s;
      var rest := ReplaceAll(s, pattern, replacement);
      assert t[0..] == t;
      assert t[1..] == p[1..] + s;
      forall i | 0 <= i < |p[1..]|
        ensures !StartsWith((p[1..] + s)[i..], pattern)
      {
        assert (p[1..] + s)[i..] == t[i + 1..];
      }
      ReplaceAllNoEarly(p[1..], s, pattern, replacement);
      assert ReplaceAll(t, pattern, replacement) == [t[0]] + ReplaceAll(t[1..], pattern, replacement);
      assert p == [p[0]] + p[1..];
      assert [p[0]] + (p[1..] + rest) == p + rest;
    } else {
      assert p + s == s;
    }
  }

  /** `replace` at the leftmost occurrence: what comes before it is copied,
      the occurrence itself is replaced, and the scan resumes right after it. */
  lemma {:induction false} ReplaceAllLeftmost(s: string, i: nat, pattern: string, replacement: string)
    requires 0 < |pattern| && i <= |s|
    requires StartsWith(s[i..], pattern)
    requires forall k | 0 <= k < i :: !StartsWith(s[k..], pattern)
    ensures i + |pattern| <= |s|
    ensures ReplaceAll(s, pattern, replacement)
         == s[..i] + replacement + ReplaceAll(s[i + |pattern|..], pattern, replacement)
  {
    var p, t := s[..i], s[i..];
    assert s == p + t;
    ReplaceAllNoEarly(p, t, pattern, replacement);
    assert ReplaceAll(t, pattern, replacement) == replacement + ReplaceAll(t[|pattern|..], pattern, replacement);
    assert t[|pattern|..] == s[i + |pattern|..];
  }

  /** A prefix in which no occurrence of `pattern` can start passes through
      `replace` untouched. */
  lemma {:induction false} ReplaceAllSkips(p: string, s: string, pattern: string, replacement: string)
    requires 0 < |pattern|
    requires forall i | 0 <= i < |p| :: p[i] != pattern[0]
    ensures ReplaceAll(p + s, pattern, replacement) == p + ReplaceAll(s, pattern, replacement)
  {
    CannotStartIn(p, s, pattern);
    ReplaceAllNoEarly(p, s, pattern, replacement);
  }

  /** No occurrence starts at a character other than the pattern's first. */
  lemma {:induction false} CannotStartIn(p: string, s: string, pattern: string)
    requires 0 < |pattern|
    requires forall i | 0 <= i < |p| :: p[i] != pattern[0]
    ensures forall i | 0 <= i < |p| :: !StartsWith((p + s)[i..], pattern)
  {
    var t := p + s;
    forall i | 0 <= i < |p|
      ensures !StartsWith(t[i..], pattern)
    {
      assert t[i..][0] == p[i];
      assert |t[i..]| < |pattern| || t[i..][..|pattern|][0] == t[i..][0];
    }
  }

  /** Python's `a <= b` on strings: lexicographic by code point, a proper prefix first. */
  predicate LessOrEqual(a: string, b: string)
    decreases |a|
  {
    |a| == 0 || (|b| > 0 && (a[0] < b[0] || (a[0] == b[0] && LessOrEqual(a[1..], b[1..]))))
  }

  lemma {:induction false} LessOrEqualTotal(a: string, b: string)
    ensures LessOrEqual(a, b) || LessOrEqual(b, a)
    decreases |a|
  {
    if |a| > 0 && |b| > 0 && a[0] == b[0] {
      LessOrEqualTotal(a[1..], b[1..]);
    }
  }

  lemma {:induction false} LessOrEqualTransitive(a: string, b: string, c: string)
    requires LessOrEqual(a, b) && LessOrEqual(b, c)
    ensures LessOrEqual(a, c)
    decreases |a|
  {
    if |a| > 0 && a[0] == b[0] && b[0] == c[0] {
      LessOrEqualTransitive(a[1..], b[1..], c[1..]);
    }
  }

  lemma {:induction false} LessOrEqualAntisymmetric(a: string, b: string)
    requires LessOrEqual(a, b) && LessOrEqual(b, a)
    ensures a == b
    decreases |a|
  {
    if |a| > 0 {
      LessOrEqualAntisymmetric(a[1..], b[1..]);
      assert a == [a[0]] + a[1..];
      assert b == [b[0]] + b[1..];
    }
  }
}
