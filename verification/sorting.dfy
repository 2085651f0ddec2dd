/** The sort menu (`applySort`): back to the loaded order, or the current view
    sorted by the title column (the first column of the first record) with a
    stable sort whose comparator is the string collation of the page. */
module Sorting {
  import opened Seqs
  import opened Records

  /** `before(a, b)`: `a` may stay ahead of `b`, that is the comparator
      returns at most zero for them. */
  predicate Sorted<T>(s: seq<T>, before: (T, T) -> bool) {
    forall i | 0 <= i < |s| - 1 :: before(s[i], s[i + 1])
  }

  /** Every two elements can be placed one way round or the other. */
  ghost predicate Total<T(!new)>(before: (T, T) -> bool) {
    forall a, b :: before(a, b) || before(b, a)
  }

  /** Insert `x` ahead of the first element it may precede. */
  function InsertBy<T>(x: T, s: seq<T>, before: (T, T) -> bool): (r: seq<T>)
    ensures multiset(r) == multiset(s) + multiset{x}
    ensures |r| > 0 && (r[0] == x || (|s| > 0 && r[0] == s[0]))
    decreases |s|
  {
    if |s| == 0 || before(x, s[0]) then [x] + s
    else
      assert s == [s[0]] + s[1..];
      [s[0]] + InsertBy(x, s[1..], before)
  }

  /** A stable insertion sort: an element is placed ahead of the first later
      element it may precede, so elements the comparator ties keep their
      order. It rearranges its input and loses nothing. */
  function SortBy<T>(s: seq<T>, before: (T, T) -> bool): (r: seq<T>)
    ensures multiset(r) == multiset(s)
    ensures |r| == |s|
    decreases |s|
  {
    if |s| == 0 then []
    else
      assert s == [s[0]] + s[1..];
      InsertBy(s[0], SortBy(s[1..], before), before)
  }

  lemma {:induction false} InsertBySorted<T(!new)>(x: T, s: seq<T>, before: (T, T) -> bool)
    requires Total(before) && Sorted(s, before)
    ensures Sorted(InsertBy(x, s, before), before)
    decreases |s|
  {
    if |s| > 0 && !before(x, s[0]) {
      var rest := InsertBy(x, s[1..], before);
      assert Sorted(s[1..], before) by {
        var t := s[1..];
        assert forall i | 0 <= i < |t| :: t[i] == s[i + 1];
      }
      InsertBySorted(x, s[1..], before);
      assert before(s[0], x);
      var r := [s[0]] + rest;
      assert forall i | 0 < i < |r| - 1 :: r[i] == rest[i - 1] && r[i + 1] == rest[i];
    }
  }

  /** With a comparator that orders every pair, the result is sorted. */
  lemma {:induction false} SortBySorted<T(!new)>(s: seq<T>, before: (T, T) -> bool)
    requires Total(before)
    ensures Sorted(SortBy(s, before), before)
    decreases |s|
  {
    if |s| > 0 {
      SortBySorted(s[1..], before);
      InsertBySorted(s[0], SortBy(s[1..], before), before);
    }
  }

  /** An already sorted input is returned unchanged; in particular, a
      comparator that ties everything keeps the order. */
  lemma {:induction false} SortByOfSorted<T>(s: seq<T>, before: (T, T) -> bool)
    requires Sorted(s, before)
    ensures SortBy(s, before) == s
    decreases |s|
  {
    if |s| > 0 {
      assert Sorted(s[1..], before) by {
        var t := s[1..];
        assert forall i | 0 <= i < |t| :: t[i] == s[i + 1];
      }
      SortByOfSorted(s[1..], before);
      assert s == [s[0]] + s[1..];
    }
  }

  /** Inserting `x` keeps the order of any group of elements that may all
      precede one another: `x` lands ahead of every member of its group. */
  lemma {:induction false} InsertByKeepsGroup<T(!new)>(x: T, s: seq<T>, before: (T, T) -> bool, group: T -> bool)
    requires forall a, b | group(a) && group(b) :: before(a, b)
    ensures Filter(InsertBy(x, s, before), group) == Filter([x] + s, group)
    decreases |s|
  {
    if |s| > 0 && !before(x, s[0]) {
      var y, rest := s[0], s[1..];
      InsertByKeepsGroup(x, rest, before, group);
      assert InsertBy(x, s, before) == [y] + InsertBy(x, rest, before);
      assert s == [y] + rest;
      KeepsGroupStep(x, y, rest, InsertBy(x, rest, before), before, group);
    }
  }

  /** One step of `InsertByKeepsGroup`: `x` moves past `y`, which it may not
      precede, so they are not both in the group. */
  lemma {:induction false} KeepsGroupStep<T(!new)>(x: T, y: T, rest: seq<T>, ins: seq<T>,
                                                  before: (T, T) -> bool, group: T -> bool)
    requires forall a, b | group(a) && group(b) :: before(a, b)
    requires !before(x, y)
    requires Filter(ins, group) == Filter([x] + rest, group)
    ensures Filter([y] + ins, group) == Filter([x] + ([y] + rest), group)
  {
    var fx, fy := (if group(x) then [x] else []), (if group(y) then [y] else []);
    var tail := Filter(rest, group);
    FilterCons(y, ins, group);
    FilterCons(x, rest, group);
    FilterCons(x, [y] + rest, group);
    FilterCons(y, rest, group);
    assert fy + fx == fx + fy by {
      assert group(x) ==> !group(y);
    }
    calc {
      Filter([y] + ins, group);
      fy + (fx + tail);
      (fy + fx) + tail;
      (fx + fy) + tail;
      fx + (fy + tail);
      Filter([x] + ([y] + rest), group);
    }
  }

  /** Stability: the elements of a group that may all precede one another
      (equal titles, say) come out in the order they went in. */
  lemma {:induction false} SortByStable<T(!new)>(s: seq<T>, before: (T, T) -> bool, group: T -> bool)
    requires forall a, b | group(a) && group(b) :: before(a, b)
    ensures Filter(SortBy(s, before), group) == Filter(s, group)
    decreases |s|
  {
    if |s| > 0 {
      SortByStable(s[1..], before, group);
      InsertByKeepsGroup(s[0], SortBy(s[1..], before), before, group);
      assert ([s[0]] + SortBy(s[1..], before))[1..] == SortBy(s[1..], before);
    }
  }

  /** The title column: the first key of the first loaded record; with no key
      at all the lookup is `row[undefined]`, the property named
      "undefined". */
  function TitleColumn(allData: seq<Record>): (title: string)
    requires |allData| > 0
    ensures |allData[0]| > 0 ==> title == allData[0][0].key
    ensures |allData[0]| == 0 ==> title == "undefined"
  {
    var columns := Keys(allData[0]);
    if |columns| > 0 then columns[0] else "undefined"
  }

  /** `(row[title] || '').toString()`. */
  function Title(row: Record, title: string): string {
    Lookup(row, title)
  }

  /** The comparator handed to `sort`: the page collation of the titles
      ascending or descending, and a tie for any other mode. It looks at the
      titles alone. */
  function Comparator(mode: string, title: string, compare: (string, string) -> int): (cmp: (Record, Record) -> int)
    ensures mode != "name-asc" && mode != "name-desc" ==> forall a, b :: cmp(a, b) == 0
    ensures forall a, b, a', b' | Title(a, title) == Title(a', title) && Title(b, title) == Title(b', title) ::
      cmp(a, b) == cmp(a', b')
  {
    (a: Record, b: Record) =>
      if mode == "name-asc" then compare(Title(a, title), Title(b, title))
      else if mode == "name-desc" then compare(Title(b, title), Title(a, title))
      else 0
  }

  /** Descending order is ascending order with the two records swapped. */
  lemma {:induction false} ComparatorReversed(title: string, compare: (string, string) -> int, a: Record, b: Record)
    ensures Comparator("name-desc", title, compare)(a, b) == Comparator("name-asc", title, compare)(b, a)
  {
  }

  /** `applySort`: the new view. "default" restores the loaded data, dropping
      any search; every other mode sorts a copy of the current view by the
      title column. Neither input is altered (values are immutable). */
  function ApplySort(mode: string, allData: seq<Record>, view: seq<Record>,
                     compare: (string, string) -> int): (r: seq<Record>)
    requires mode == "default" || |allData| > 0
    ensures mode == "default" ==> r == allData
    ensures mode != "default" ==> multiset(r) == multiset(view)
  {
    if mode == "default" then allData
    else
      var cmp := Comparator(mode, TitleColumn(allData), compare);
      SortBy(view, (a, b) => cmp(a, b) <= 0)
  }

  /** The collation orders every pair of strings one way or the other. */
  ghost predicate TotalCompare(compare: (string, string) -> int) {
    forall a, b :: compare(a, b) <= 0 || compare(b, a) <= 0
  }

  lemma {:induction false} ApplySortSorted(mode: string, allData: seq<Record>, view: seq<Record>,
                                           compare: (string, string) -> int)
    requires mode != "default" && |allData| > 0
    requires mode == "name-asc" || mode == "name-desc"
    requires TotalCompare(compare)
    ensures var r := ApplySort(mode, allData, view, compare);
      var title := TitleColumn(allData);
      forall i | 0 <= i < |r| - 1 ::
        if mode == "name-asc" then compare(Title(r[i], title), Title(r[i + 1], title)) <= 0
        else compare(Title(r[i + 1], title), Title(r[i], title)) <= 0
  {
    var cmp := Comparator(mode, TitleColumn(allData), compare);
    var before := (a, b) => cmp(a, b) <= 0;
    forall a, b
      ensures before(a, b) || before(b, a)
    {
      var title := TitleColumn(allData);
      assert compare(Title(a, title), Title(b, title)) <= 0 || compare(Title(b, title), Title(a, title)) <= 0;
    }
    SortBySorted(view, before);
  }

  /** A mode that is none of the known ones leaves the view as it is. */
  lemma {:induction false} ApplySortUnknownMode(mode: string, allData: seq<Record>, view: seq<Record>,
                                                compare: (string, string) -> int)
    requires |allData| > 0
    requires mode != "default" && mode != "name-asc" && mode != "name-desc"
    ensures ApplySort(mode, allData, view, compare) == view
  {
    var cmp := Comparator(mode, TitleColumn(allData), compare);
    SortByOfSorted(view, (a, b) => cmp(a, b) <= 0);
  }

  /** Records with the same title keep their relative order in every mode,
      as long as the collation ties a string with itself. */
  lemma {:induction false} ApplySortStable(mode: string, allData: seq<Record>, view: seq<Record>,
                                           compare: (string, string) -> int, t: string)
    requires mode != "default" && |allData| > 0
    requires compare(t, t) <= 0
    ensures var title := TitleColumn(allData);
      var sameTitle := (row: Record) => Title(row, title) == t;
      Filter(ApplySort(mode, allData, view, compare), sameTitle) == Filter(view, sameTitle)
  {
    var title := TitleColumn(allData);
    var cmp := Comparator(mode, title, compare);
    SortByStable(view, (a, b) => cmp(a, b) <= 0, (row: Record) => Title(row, title) == t);
  }
}
