/** The search of the directory (`handleSearch`): the records that match a
    free-text term in any field and every active filter column. */
module Query {
  import opened Seqs
  import opened Text
  import opened Records

  /** The active filter chips, by column: a record passes a column when its
      trimmed value is one of the column's chosen values. */
  type Filters = map<string, seq<string>>

  /** The typed search text as used: trimmed, then lower-cased. */
  function NormalizeTerm(input: string): (term: string)
    ensures IsTrimmed(term)
    ensures |term| == 0 <==> IsBlank(input)
    ensures forall k | 0 <= k < |term| :: !('A' <= term[k] <= 'Z')
  {
    LowerKeepsTrimmed(Trim(input));
    ToLower(Trim(input))
  }

  /** `Object.values(row)`. */
  function Values(row: Record): (vs: seq<string>)
    ensures |vs| == |row|
    ensures forall k | 0 <= k < |row| :: vs[k] == row[k].value
  {
    seq(|row|, k requires 0 <= k < |row| => row[k].value)
  }

  /** One value passes the text search: it is non-empty and, lower-cased,
      contains the term. */
  predicate ValueMatches(value: string, term: string) {
    value != "" && Contains(ToLower(value), term)
  }

  /** `values.some(value => value && value.toLowerCase().includes(term))`,
      scanning left to right. */
  predicate AnyValueMatches(values: seq<string>, term: string)
    decreases |values|
  {
    |values| > 0 && (ValueMatches(values[0], term) || AnyValueMatches(values[1..], term))
  }

  /** The text search: an empty term matches every record; otherwise some
      field value must contain it, ignoring case. */
  predicate MatchesSearch(row: Record, term: string) {
    term == "" || exists k | 0 <= k < |row| :: ValueMatches(row[k].value, term)
  }

  /** The scan finds a matching value exactly when one exists. */
  lemma {:induction false} AnyValueMatchesExists(values: seq<string>, term: string)
    ensures AnyValueMatches(values, term) <==> exists k | 0 <= k < |values| :: ValueMatches(values[k], term)
    decreases |values|
  {
    if |values| > 0 {
      AnyValueMatchesExists(values[1..], term);
      assert forall k | 0 < k < |values| :: values[1..][k - 1] == values[k];
      if ValueMatches(values[0], term) {
        assert ValueMatches(values[0], term);
      } else if AnyValueMatches(values[1..], term) {
        var k :| 0 <= k < |values[1..]| && ValueMatches(values[1..][k], term);
        assert ValueMatches(values[k + 1], term);
      }
    }
  }

  /** The filter test: for every active column the trimmed value (the empty
      string when the field is missing) is one of the chosen values. Columns
      combine with AND, values within a column with OR. */
  predicate MatchesFilters(row: Record, filters: Filters) {
    forall column | column in filters :: TrimmedValue(row, column) in filters[column]
  }

  /** The body of the `allData.filter` callback: the `some` scan over the
      values and the filter test. It holds exactly when the record passes
      both the search test and the filter test. */
  predicate Matches(row: Record, term: string, filters: Filters)
    ensures Matches(row, term, filters) <==> MatchesSearch(row, term) && MatchesFilters(row, filters)
  {
    AnyValueMatchesExists(Values(row), term);
    (term == "" || AnyValueMatches(Values(row), term)) && MatchesFilters(row, filters)
  }

  /** `allData.filter(...)` for an already normalised term: every record in
      the result passes the test. */
  function Search(allData: seq<Record>, term: string, filters: Filters): (r: seq<Record>)
    ensures |r| <= |allData|
    ensures forall k | 0 <= k < |r| :: Matches(r[k], term, filters)
  {
    Filter(allData, row => Matches(row, term, filters))
  }

  /** `handleSearch`: the search with the term typed into the box. */
  function HandleSearch(allData: seq<Record>, input: string, filters: Filters): (r: seq<Record>)
    ensures |r| <= |allData|
    ensures forall k | 0 <= k < |r| ::
      MatchesSearch(r[k], NormalizeTerm(input)) && MatchesFilters(r[k], filters)
  {
    Search(allData, NormalizeTerm(input), filters)
  }

  /** The result is exactly the matching records: in their original order,
      each matching record as often as it occurs in the data, and no other. */
  lemma {:induction false} SearchExact(allData: seq<Record>, term: string, filters: Filters)
    ensures IsSubsequence(Search(allData, term, filters), allData)
    ensures forall row ::
      multiset(Search(allData, term, filters))[row] ==
        if MatchesSearch(row, term) && MatchesFilters(row, filters) then multiset(allData)[row] else 0
  {
    var keep := row => Matches(row, term, filters);
    FilterIsSubsequence(allData, keep);
    FilterMultiset(allData, keep);
  }

  /** A blank search box and no active chips show all the data. */
  lemma {:induction false} EmptyQueryShowsAll(allData: seq<Record>, input: string)
    requires IsBlank(input)
    ensures HandleSearch(allData, input, map[]) == allData
  {
    FilterAll(allData, row => Matches(row, NormalizeTerm(input), map[]));
  }

  /** Searching the result again with the same query changes nothing. */
  lemma {:induction false} SearchIdempotent(allData: seq<Record>, term: string, filters: Filters)
    ensures Search(Search(allData, term, filters), term, filters) == Search(allData, term, filters)
  {
    FilterIdempotent(allData, row => Matches(row, term, filters));
  }

  /** The search ignores the case of the typed text (for the letters that
      have a lower case here). */
  lemma {:induction false} SearchIgnoresCase(allData: seq<Record>, a: string, b: string, filters: Filters)
    requires ToLower(a) == ToLower(b)
    ensures HandleSearch(allData, a, filters) == HandleSearch(allData, b, filters)
  {
    TrimLowerCommute(a);
    TrimLowerCommute(b);
  }

  /** The search ignores white space around the typed text as well as case:
      texts whose trimmed forms agree up to case give the same result. */
  lemma {:induction false} SearchIgnoresSurroundingSpace(allData: seq<Record>, a: string, b: string,
                                                         filters: Filters)
    requires ToLower(Trim(a)) == ToLower(Trim(b))
    ensures HandleSearch(allData, a, filters) == HandleSearch(allData, b, filters)
  {
    assert NormalizeTerm(a) == NormalizeTerm(b);
  }

  /** Choosing a chip in a new column narrows the result: it is the old
      result filtered by that column alone (AND across columns). */
  lemma {:induction false} NewColumnNarrows(allData: seq<Record>, term: string, filters: Filters,
                                            column: string, chosen: seq<string>)
    requires column !in filters
    ensures Search(allData, term, filters[column := chosen]) ==
      Filter(Search(allData, term, filters), row => TrimmedValue(row, column) in chosen)
  {
    var narrower := filters[column := chosen];
    var p := row => Matches(row, term, filters);
    var q := row => TrimmedValue(row, column) in chosen;
    var both := row => Matches(row, term, narrower);
    forall row
      ensures both(row) == (p(row) && q(row))
    {
      if MatchesFilters(row, narrower) {
        forall c | c in filters
          ensures TrimmedValue(row, c) in filters[c]
        {
          assert narrower[c] == filters[c];
        }
      }
    }
    FilterCompose(allData, p, q, both);
  }

  /** Within one column the chosen values combine with OR: a record passes
      `a + b` exactly when it passes `a` or passes `b`. */
  lemma {:induction false} ColumnValuesOr(row: Record, term: string, filters: Filters,
                                          column: string, a: seq<string>, b: seq<string>)
    ensures Matches(row, term, filters[column := a + b]) <==>
      Matches(row, term, filters[column := a]) || Matches(row, term, filters[column := b])
  {
    MatchesFiltersUpdate(row, filters, column, a + b);
    MatchesFiltersUpdate(row, filters, column, a);
    MatchesFiltersUpdate(row, filters, column, b);
    var v := TrimmedValue(row, column);
    assert v in a + b <==> v in a || v in b;
  }

  /** Setting the chosen values of one column: the other columns' test and
      that column's test. */
  lemma {:induction false} MatchesFiltersUpdate(row: Record, filters: Filters, column: string, vs: seq<string>)
    ensures MatchesFilters(row, filters[column := vs]) <==>
      MatchesFilters(row, filters - {column}) && TrimmedValue(row, column) in vs
  {
    var f, g := filters[column := vs], filters - {column};
    assert forall c | c in g :: c in f && f[c] == g[c];
    assert forall c | c in f && c != column :: c in g;
  }
}
