/** The usage report printed after the stream (env_replace.py, the end of
    `main`): nothing when no rule fired, otherwise a blank line, a header, and
    one `export NAME=VALUE` line per recorded reference, in ascending order of
    reference. Each string below is what one `print` call writes, newline
    included. */
module Report {
  import opened Sorting
  import opened Strings
  import opened Table
  import opened Rewrite

  /** What `print("\n[env-replace] environment variables found in output:")` writes. */
  const Header: string := "\n[env-replace] environment variables found in output:\n"

  /** The order `sorted(..., key=itemgetter(0))` puts entries in. */
  predicate ByReference(a: Entry, b: Entry) {
    LessOrEqual(a.reference, b.reference)
  }

  lemma {:induction false} ByReferenceIsTotalPreorder()
    ensures TotalPreorder(ByReference)
  {
    forall a: Entry, b: Entry
      ensures ByReference(a, b) || ByReference(b, a)
    {
      LessOrEqualTotal(a.reference, b.reference);
    }
    forall a: Entry, b: Entry, c: Entry | ByReference(a, b) && ByReference(b, c)
      ensures ByReference(a, c)
    {
      LessOrEqualTransitive(a.reference, b.reference, c.reference);
    }
  }

  /** Entries in ascending order of reference, no two with the same reference. */
  predicate StrictlyAscending(entries: seq<Entry>) {
    forall i, j | 0 <= i < j < |entries| ::
      LessOrEqual(entries[i].reference, entries[j].reference) && entries[i].reference != entries[j].reference
  }

  /** `sorted(consumed.items(), key=itemgetter(0))`. */
  function SortByReference(consumed: seq<Entry>): (sorted: seq<Entry>)
    ensures SortedBy(ByReference, sorted)
    ensures multiset(sorted) == multiset(consumed)
    ensures |sorted| == |consumed|
    ensures DistinctReferences(consumed) ==> StrictlyAscending(sorted)
  {
    ByReferenceIsTotalPreorder();
    SortKeepsReferencesDistinct(consumed);
    Sort(ByReference, consumed)
  }

  /** Sorting a record whose references are distinct keeps them distinct. */
  lemma {:induction false} SortKeepsReferencesDistinct(s: seq<Entry>)
    requires TotalPreorder(ByReference)
    ensures DistinctReferences(s) ==> DistinctReferences(Sort(ByReference, s))
    decreases |s|
  {
    if |s| > 0 && DistinctReferences(s) {
      assert forall k | 0 <= k < |s[1..]| :: s[1..][k] == s[k + 1];
      SortKeepsReferencesDistinct(s[1..]);
      var tail := Sort(ByReference, s[1..]);
      forall e | e in tail
        ensures e.reference != s[0].reference
      {
        assert e in multiset(s[1..]);
        var k :| 0 <= k < |s[1..]| && s[1..][k] == e;
      }
      InsertKeepsReferencesDistinct(s[0], tail);
    }
  }

  lemma {:induction false} InsertKeepsReferencesDistinct(x: Entry, s: seq<Entry>)
    requires TotalPreorder(ByReference) && SortedBy(ByReference, s)
    requires DistinctReferences(s)
    requires forall e | e in s :: e.reference != x.reference
    ensures DistinctReferences(Insert(ByReference, x, s))
    decreases |s|
  {
    if |s| > 0 && !ByReference(x, s[0]) {
      assert SortedBy(ByReference, s[1..]);
      InsertKeepsReferencesDistinct(x, s[1..]);
      InsertAvoids(x, s[1..], s[0].reference);
      DistinctCons(s[0], Insert(ByReference, x, s[1..]));
    } else {
      DistinctCons(x, s);
    }
  }

  /** Inserting an entry adds no reference other than its own. */
  lemma {:induction false} InsertAvoids(x: Entry, s: seq<Entry>, ref: string)
    requires TotalPreorder(ByReference) && SortedBy(ByReference, s)
    requires x.reference != ref
    requires forall e | e in s :: e.reference != ref
    ensures forall e | e in Insert(ByReference, x, s) :: e.reference != ref
  {
    forall e | e in Insert(ByReference, x, s)
      ensures e.reference != ref
    {
      assert e in multiset(s) + multiset{x};
    }
  }

  /** A reference new to a record keeps it distinct when put in front. */
  lemma {:induction false} DistinctCons(h: Entry, t: seq<Entry>)
    requires DistinctReferences(t)
    requires forall e | e in t :: e.reference != h.reference
    ensures DistinctReferences([h] + t)
  {
    var r := [h] + t;
    forall i, j | 0 <= i < j < |r|
      ensures r[i].reference != r[j].reference
    {
      assert r[j] == t[j - 1];
      if i > 0 {
        assert r[i] == t[i - 1];
      }
    }
  }

  /** One `export NAME=VALUE` line; NAME is `envvar[1:]`. */
  function ExportLine(e: Entry): string {
    "export " + DropFirst(e.reference) + "=" + e.value + "\n"
  }

  /** The report: empty unless something was recorded. */
  function Summary(consumed: seq<Entry>): (out: seq<string>)
    ensures |out| == 0 <==> |consumed| == 0
    ensures |consumed| > 0 ==> |out| == |consumed| + 1 && out[0] == Header
  {
    if |consumed| == 0 then
      []
    else
      [Header] + ExportLines(SortByReference(consumed))
  }

  /** The `for` loop over the sorted entries, one line per entry. */
  function ExportLines(entries: seq<Entry>): (lines: seq<string>)
    ensures |lines| == |entries|
    ensures forall i | 0 <= i < |entries| :: lines[i] == ExportLine(entries[i])
  {
    if |entries| == 0 then [] else [ExportLine(entries[0])] + ExportLines(entries[1..])
  }

  /** Every recorded entry has its export line in the report, and every line
      after the header exports a recorded entry. */
  lemma {:induction false} SummaryLines(consumed: seq<Entry>)
    ensures forall e | e in consumed :: ExportLine(e) in Summary(consumed)[1..]
    ensures forall i | 1 <= i < |Summary(consumed)| :: exists e | e in consumed :: Summary(consumed)[i] == ExportLine(e)
  {
    var out := Summary(consumed);
    if |consumed| > 0 {
      var sorted := SortByReference(consumed);
      assert out[1..] == ExportLines(sorted);
      ExportLinesOfPermutation(sorted, consumed);
    } else {
      assert out == [];
    }
  }

  /** The export lines of a permutation of `consumed` are exactly the export
      lines of its entries. */
  lemma {:induction false} ExportLinesOfPermutation(sorted: seq<Entry>, consumed: seq<Entry>)
    requires multiset(sorted) == multiset(consumed)
    ensures forall e | e in consumed :: ExportLine(e) in ExportLines(sorted)
    ensures forall i | 0 <= i < |ExportLines(sorted)| :: exists e | e in consumed :: ExportLines(sorted)[i] == ExportLine(e)
  {
    var lines := ExportLines(sorted);
    forall e | e in consumed
      ensures ExportLine(e) in lines
    {
      assert e in multiset(sorted);
      var k :| 0 <= k < |sorted| && sorted[k] == e;
      assert lines[k] == ExportLine(e);
    }
    forall i | 0 <= i < |lines|
      ensures exists e | e in consumed :: lines[i] == ExportLine(e)
    {
      assert sorted[i] in multiset(consumed);
    }
  }

  /** The export lines follow the header in the order of the sorted record,
      which is strictly ascending by reference. */
  lemma {:induction false} SummaryOrdered(consumed: seq<Entry>)
    requires DistinctReferences(consumed)
    ensures var sorted := SortByReference(consumed);
      && StrictlyAscending(sorted)
      && forall i | 1 <= i < |Summary(consumed)| :: Summary(consumed)[i] == ExportLine(sorted[i - 1])
  {
    var sorted := SortByReference(consumed);
    var out := Summary(consumed);
    if |consumed| > 0 {
      assert out[1..] == ExportLines(sorted);
      forall i | 1 <= i < |out|
        ensures out[i] == ExportLine(sorted[i - 1])
      {
        assert out[i] == out[1..][i - 1];
      }
    }
  }

  /** For an entry recorded from a table rule, the export line names the
      variable and its value exactly. */
  lemma {:induction false} ExportLineOfRule(e: EnvVar)
    ensures ExportLine(Entry(MakeRule(e).reference, MakeRule(e).value)) == "export " + e.name + "=" + e.value + "\n"
  {
    assert DropFirst("$" + e.name) == e.name;
  }
}
