/** The filter vocabulary (`extractUniqueValues`): for each column of the
    first record, the distinct trimmed non-blank values the column takes
    across all records, sorted in the default order of `Array.prototype.sort`,
    kept only when there are between one and twenty of them. */
module Vocabulary {
  import opened Seqs
  import opened Text
  import opened Records

  /** A column offered as a filter, with its chip values. */
  datatype Entry = Entry(column: string, values: seq<string>)

  /** A column with more distinct values than this gets no filter chips. */
  const MaxFilterValues := 20

  /** Strictly increasing in code-unit order, hence also free of repeats. */
  predicate StrictlySorted(s: seq<string>) {
    forall i, j | 0 <= i < j < |s| :: CodeUnitLess(s[i], s[j])
  }

  /** The values a column contributes: `row[column]` trimmed, for every row
      where that is not blank. */
  ghost function ValueSet(data: seq<Record>, column: string): set<string> {
    set i | 0 <= i < |data| && TrimmedValue(data[i], column) != "" :: TrimmedValue(data[i], column)
  }

  /** No element of a strictly sorted sequence sorts before its head. */
  lemma {:induction false} SortedHeadMin(s: seq<string>, x: string)
    requires StrictlySorted(s) && x in s
    ensures !CodeUnitLess(x, s[0])
  {
    var k :| 0 <= k < |s| && s[k] == x;
    if k == 0 {
      CodeUnitLessIrreflexive(x);
    } else {
      CodeUnitLessAsymmetric(s[0], x);
    }
  }

  /** A finite set of strings has exactly one strictly sorted arrangement, so
      any sorting algorithm gives the same chip order. */
  lemma {:induction false} SortedUnique(a: seq<string>, b: seq<string>)
    requires StrictlySorted(a) && StrictlySorted(b)
    requires forall x :: x in a <==> x in b
    ensures a == b
    decreases |a|
  {
    assert |a| > 0 ==> a[0] in b;
    assert |b| > 0 ==> b[0] in a;
    if |a| > 0 && |b| > 0 {
      SortedHeadMin(b, a[0]);
      SortedHeadMin(a, b[0]);
      CodeUnitLessTotal(a[0], b[0]);
      assert a[0] == b[0];
      assert a == [a[0]] + a[1..] && b == [b[0]] + b[1..];
      forall x
        ensures x in a[1..] <==> x in b[1..]
      {
        if x in a[1..] {
          var k :| 0 <= k < |a[1..]| && a[1..][k] == x;
          assert CodeUnitLess(a[0], a[k + 1]);
          CodeUnitLessIrreflexive(x);
          assert x in a && x != b[0];
          assert x in b;
        }
        if x in b[1..] {
          var k :| 0 <= k < |b[1..]| && b[1..][k] == x;
          assert CodeUnitLess(b[0], b[k + 1]);
          CodeUnitLessIrreflexive(x);
          assert x in b && x != a[0];
          assert x in a;
        }
      }
      SortedUnique(a[1..], b[1..]);
    }
  }

  /** Adding `x` to a sorted set of values: the result is sorted and holds
      exactly the old values and `x`. */
  function InsertSorted(s: seq<string>, x: string): (r: seq<string>)
    requires StrictlySorted(s)
    ensures StrictlySorted(r)
    ensures forall y :: y in r <==> y in s || y == x
    decreases |s|
  {
    if |s| == 0 then [x]
    else if x == s[0] then s
    else if CodeUnitLess(x, s[0]) then
      forall j | 0 < j < |s|
        ensures CodeUnitLess(x, s[j])
      {
        CodeUnitLessTransitive(x, s[0], s[j]);
      }
      [x] + s
    else
      CodeUnitLessTotal(x, s[0]);
      var rest := InsertSorted(s[1..], x);
      forall j | 0 <= j < |rest|
        ensures CodeUnitLess(s[0], rest[j])
      {
        assert rest[j] in rest;
        if rest[j] != x {
          var k :| 0 <= k < |s[1..]| && s[1..][k] == rest[j];
          assert s[k + 1] == rest[j];
        }
      }
      [s[0]] + rest
  }

  /** The chip values of one column: `Array.from(values).sort()` where
      `values` is the set of trimmed non-blank values of that column. */
  function ColumnValues(data: seq<Record>, column: string): (vs: seq<string>)
    ensures StrictlySorted(vs)
    decreases |data|
  {
    if |data| == 0 then []
    else
      var n := |data| - 1;
      var prior := ColumnValues(data[..n], column);
      var v := TrimmedValue(data[n], column);
      if v == "" then prior else InsertSorted(prior, v)
  }

  /** The chips of a column are exactly its trimmed non-blank values. */
  lemma {:induction false} ColumnValuesElems(data: seq<Record>, column: string)
    ensures forall v :: v in ColumnValues(data, column) <==> v in ValueSet(data, column)
    decreases |data|
  {
    if |data| > 0 {
      var n := |data| - 1;
      ColumnValuesElems(data[..n], column);
      ValueSetSnoc(data, column);
    }
  }

  lemma {:induction false} ValueSetSnoc(data: seq<Record>, column: string)
    requires |data| > 0
    ensures var n := |data| - 1;
      var v := TrimmedValue(data[n], column);
      ValueSet(data, column) == ValueSet(data[..n], column) + (if v == "" then {} else {v})
  {
    var n := |data| - 1;
    assert forall i | 0 <= i < n :: data[..n][i] == data[i];
  }

  /** The number of chips of a column is the number of distinct values. */
  lemma {:induction false} ColumnValuesCount(data: seq<Record>, column: string)
    ensures |ColumnValues(data, column)| == |ValueSet(data, column)|
  {
    var vs := ColumnValues(data, column);
    assert Distinct(vs) by {
      forall i, j | 0 <= i < j < |vs|
        ensures vs[i] != vs[j]
      {
        CodeUnitLessIrreflexive(vs[i]);
      }
    }
    DistinctCardinality(vs);
    ColumnValuesElems(data, column);
    assert Elems(vs) == ValueSet(data, column);
  }

  /** The entries for `columns`, in their order, keeping those whose value
      count lies between one and `MaxFilterValues`. */
  function Entries(columns: seq<string>, valuesOf: string -> seq<string>): (r: seq<Entry>)
    ensures |r| <= |columns|
    ensures forall e | e in r ::
      e.column in columns && e.values == valuesOf(e.column) && 1 <= |e.values| <= MaxFilterValues
    decreases |columns|
  {
    if |columns| == 0 then []
    else
      var vs := valuesOf(columns[0]);
      var rest := Entries(columns[1..], valuesOf);
      if 1 <= |vs| <= MaxFilterValues then [Entry(columns[0], vs)] + rest else rest
  }

  /** `uniqueValues[column]`: the chips of the first entry for `column`. */
  function ValuesFor(vocabulary: seq<Entry>, column: string): Option<seq<string>>
    decreases |vocabulary|
  {
    if |vocabulary| == 0 then None
    else if vocabulary[0].column == column then Some(vocabulary[0].values)
    else ValuesFor(vocabulary[1..], column)
  }

  /** The columns that have an entry, in order. */
  function Columns(vocabulary: seq<Entry>): (cs: seq<string>)
    ensures |cs| == |vocabulary|
    ensures forall i | 0 <= i < |cs| :: cs[i] == vocabulary[i].column
  {
    seq(|vocabulary|, i requires 0 <= i < |vocabulary| => vocabulary[i].column)
  }

  /** `extractUniqueValues`: with no data the previous vocabulary stays;
      otherwise the vocabulary is rebuilt from the columns of the first
      record (an object's keys, hence without repeats). */
  function ExtractUniqueValues(data: seq<Record>, previous: seq<Entry>): (r: seq<Entry>)
    ensures |data| == 0 ==> r == previous
    ensures |data| > 0 ==> IsSubsequence(Columns(r), Dedup(Keys(data[0])))
  {
    if |data| == 0 then previous
    else
      var columns := Dedup(Keys(data[0]));
      EntriesColumns(columns, column => ColumnValues(data, column));
      Entries(columns, column => ColumnValues(data, column))
  }

  /** The entries' columns are the kept columns, in order. */
  lemma {:induction false} EntriesColumns(columns: seq<string>, valuesOf: string -> seq<string>)
    ensures IsSubsequence(Columns(Entries(columns, valuesOf)), columns)
    decreases |columns|
  {
    if |columns| > 0 {
      EntriesColumns(columns[1..], valuesOf);
      var vs := valuesOf(columns[0]);
      var rest := Entries(columns[1..], valuesOf);
      if 1 <= |vs| <= MaxFilterValues {
        assert Columns([Entry(columns[0], vs)] + rest)[1..] == Columns(rest);
      } else {
        SubsequenceSkip(Columns(rest), columns);
      }
    }
  }

  /** What `Entries` offers for one column: its values exactly when it is
      listed and has between one and twenty. */
  lemma {:induction false} EntriesLookup(columns: seq<string>, valuesOf: string -> seq<string>, column: string)
    ensures ValuesFor(Entries(columns, valuesOf), column) ==
      if column in columns && 1 <= |valuesOf(column)| <= MaxFilterValues
      then Some(valuesOf(column)) else None
    decreases |columns|
  {
    if |columns| > 0 {
      var c0 := columns[0];
      EntriesLookup(columns[1..], valuesOf, column);
      assert column in columns <==> column == c0 || column in columns[1..] by {
        assert columns == [c0] + columns[1..];
      }
      var vs := valuesOf(c0);
      var rest := Entries(columns[1..], valuesOf);
      if 1 <= |vs| <= MaxFilterValues {
        var e := Entry(c0, vs);
        assert Entries(columns, valuesOf) == [e] + rest;
        assert ([e] + rest)[1..] == rest;
        assert ValuesFor([e] + rest, column) == if c0 == column then Some(vs) else ValuesFor(rest, column);
      } else {
        assert Entries(columns, valuesOf) == rest;
      }
    }
  }

  /** The vocabulary built from non-empty data: a column has chips exactly
      when it is a key of the first record and the set of its trimmed
      non-blank values has one to twenty members; its chips are then that
      set, each value once, in ascending code-unit order. */
  lemma {:induction false} VocabularyExact(data: seq<Record>, previous: seq<Entry>, column: string)
    requires |data| > 0
    ensures var r := ExtractUniqueValues(data, previous);
      && (ValuesFor(r, column).Some? <==>
            column in Keys(data[0]) && 1 <= |ValueSet(data, column)| <= MaxFilterValues)
      && (ValuesFor(r, column).Some? ==>
            var vs := ValuesFor(r, column).value;
            StrictlySorted(vs) && Elems(vs) == ValueSet(data, column))
  {
    var columns := Dedup(Keys(data[0]));
    EntriesLookup(columns, c => ColumnValues(data, c), column);
    ColumnValuesCount(data, column);
    var vs := ColumnValues(data, column);
    ColumnValuesElems(data, column);
    assert Elems(vs) == ValueSet(data, column);
  }

  /** A column whose values are all blank gets no chips, and neither does one
      with more than twenty distinct values. */
  lemma {:induction false} VocabularyBounds(data: seq<Record>, previous: seq<Entry>, column: string)
    requires |data| > 0
    requires ValuesFor(ExtractUniqueValues(data, previous), column).Some?
    ensures var vs := ValuesFor(ExtractUniqueValues(data, previous), column).value;
      1 <= |vs| <= MaxFilterValues && forall k | 0 <= k < |vs| :: vs[k] != "" && IsTrimmed(vs[k])
  {
    var columns := Dedup(Keys(data[0]));
    EntriesLookup(columns, c => ColumnValues(data, c), column);
    var vs := ColumnValues(data, column);
    ColumnValuesElems(data, column);
    forall k | 0 <= k < |vs|
      ensures vs[k] != "" && IsTrimmed(vs[k])
    {
      assert vs[k] in ValueSet(data, column);
    }
  }
}
