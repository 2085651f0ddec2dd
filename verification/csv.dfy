/** The CSV reader of the directory widget: `parseCSVLine`, a two-state
    machine that splits one line into fields, and `parseCSV`, which turns a
    whole document into records keyed by its header line. */
module Csv {
  import opened Seqs
  import opened Text
  import opened Records

  // ---------------------------------------------------------------------
  // One line
  // ---------------------------------------------------------------------

  /** The state of the line splitter between two characters: the fields
      already ended (untrimmed), the field being read, and whether a quote
      is open. */
  datatype LineState = LineState(fields: seq<string>, current: string, inQuotes: bool)

  /** Reading one character: a quote toggles the flag and is dropped, a
      comma outside quotes ends the field, anything else is kept. Doubled
      quotes are not an escape: they toggle the flag twice. Whatever the
      character, the flag changes exactly when it is a quote, and a field
      ends exactly when it is a comma outside quotes. */
  function Step(st: LineState, c: char): (r: LineState)
    ensures r.inQuotes == (st.inQuotes != (c == '"'))
    ensures |r.fields| == |st.fields| + (if c == ',' && !st.inQuotes then 1 else 0)
  {
    if c == '"' then st.(inQuotes := !st.inQuotes)
    else if c == ',' && !st.inQuotes then LineState(st.fields + [st.current], "", false)
    else st.(current := st.current + [c])
  }

  /** The text read so far (the fields and the current field, comma-joined)
      grows by each character that is not a quote. */
  lemma {:induction false} StepJoin(st: LineState, c: char)
    ensures var r := Step(st, c);
      Join(r.fields + [r.current], ',') ==
        Join(st.fields + [st.current], ',') + (if c == '"' then "" else [c])
  {
    if c != '"' {
      if c == ',' && !st.inQuotes {
        JoinSnoc(st.fields + [st.current], "", ',');
      } else if |st.fields| > 0 {
        JoinSnoc(st.fields, st.current, ',');
        JoinSnoc(st.fields, st.current + [c], ',');
      }
    }
  }

  /** The state after reading all of `line`, left to right. No field read
      so far holds a quote. */
  function Scan(line: string): (st: LineState)
    ensures forall k | 0 <= k < |st.fields| :: '"' !in st.fields[k]
    ensures '"' !in st.current
    decreases |line|
  {
    if |line| == 0 then LineState([], "", false)
    else
      var prior := Scan(line[..|line| - 1]);
      var c := line[|line| - 1];
      assert forall k | 0 <= k < |prior.fields| + 1 ::
        '"' !in (prior.fields + [prior.current])[k];
      Step(prior, c)
  }

  /** `line` with its double quotes removed. */
  function StripQuotes(line: string): string {
    Filter(line, NotQuote)
  }

  predicate NotQuote(c: char) {
    c != '"'
  }

  /** The comma at position `i` separates fields: an even number of quotes
      precede it. */
  predicate IsSeparator(line: string, i: nat)
    requires i < |line|
  {
    line[i] == ',' && Count(line[..i], '"') % 2 == 0
  }

  /** The positions of the field-separating commas of `line`. */
  ghost function Separators(line: string): set<nat> {
    set i: nat | i < |line| && IsSeparator(line, i)
  }

  lemma {:induction false} SeparatorsSnoc(init: string, c: char)
    ensures Separators(init + [c]) ==
      Separators(init) + (if c == ',' && Count(init, '"') % 2 == 0 then {|init|} else {})
  {
    var line := init + [c];
    assert line[..|init|] == init;
    forall i: nat | i < |init|
      ensures IsSeparator(line, i) == IsSeparator(init, i)
    {
      assert line[..i] == init[..i];
    }
  }

  /** The quote flag after a prefix is the parity of the quotes read. */
  lemma {:induction false} ScanQuoteParity(line: string)
    ensures Scan(line).inQuotes <==> Count(line, '"') % 2 == 1
    decreases |line|
  {
    if |line| > 0 {
      var init, c := line[..|line| - 1], line[|line| - 1];
      assert line == init + [c];
      ScanQuoteParity(init);
    }
  }

  /** One field has ended per separating comma read. */
  lemma {:induction false} ScanFieldCount(line: string)
    ensures |Scan(line).fields| == |Separators(line)|
    decreases |line|
  {
    if |line| > 0 {
      var init, c := line[..|line| - 1], line[|line| - 1];
      assert line == init + [c];
      ScanFieldCount(init);
      ScanQuoteParity(init);
      SeparatorsSnoc(init, c);
      assert |init| !in Separators(init);
    }
  }

  /** The fields read so far, joined with commas, are the prefix without its
      quotes. */
  lemma {:induction false} ScanJoin(line: string)
    ensures Join(Scan(line).fields + [Scan(line).current], ',') == StripQuotes(line)
    decreases |line|
  {
    if |line| > 0 {
      var init, c := line[..|line| - 1], line[|line| - 1];
      assert line == init + [c];
      ScanJoin(init);
      StepJoin(Scan(init), c);
      FilterAppend(init, [c], NotQuote);
    }
  }

  /** The untrimmed fields of `line`: one more than the separating commas,
      quote-free, and together (comma-joined) the line without its quotes. */
  function RawFields(line: string): (r: seq<string>)
    ensures |r| == 1 + |Separators(line)|
    ensures Join(r, ',') == StripQuotes(line)
    ensures forall k | 0 <= k < |r| :: '"' !in r[k]
  {
    ScanFieldCount(line);
    ScanJoin(line);
    var st := Scan(line);
    st.fields + [st.current]
  }

  /** Each field trimmed. */
  function TrimAll(fields: seq<string>): (r: seq<string>)
    ensures |r| == |fields|
    ensures forall k | 0 <= k < |r| :: r[k] == Trim(fields[k])
  {
    seq(|fields|, k requires 0 <= k < |fields| => Trim(fields[k]))
  }

  /** `parseCSVLine`: the trimmed fields of one line. There is always at
      least one; there is one more than the commas outside quotes; each is
      trimmed and free of quotes. */
  function ParseLine(line: string): (r: seq<string>)
    ensures |r| == 1 + |Separators(line)|
    ensures forall k | 0 <= k < |r| :: IsTrimmed(r[k]) && '"' !in r[k]
  {
    var raw := RawFields(line);
    forall k | 0 <= k < |raw|
      ensures '"' !in Trim(raw[k])
    {
      TrimKeepsAbsence(raw[k], '"');
    }
    TrimAll(raw)
  }

  /** Trimming one more field appends its trimmed form. */
  lemma {:induction false} TrimAllSnoc(fields: seq<string>, f: string)
    ensures TrimAll(fields + [f]) == TrimAll(fields) + [Trim(f)]
  {
  }

  /** `parseCSVLine` as the source writes it: one pass over the characters,
      pushing each field trimmed as it ends. */
  method ParseCSVLine(line: string) returns (result: seq<string>)
    ensures result == ParseLine(line)
    ensures |result| == 1 + |Separators(line)|
  {
    result := [];
    var current := "";
    var inQuotes := false;
    ghost var raw: seq<string> := [];
    var i := 0;
    while i < |line|
      invariant 0 <= i <= |line|
      invariant Scan(line[..i]) == LineState(raw, current, inQuotes)
      invariant result == TrimAll(raw)
    {
      var c := line[i];
      assert line[..i + 1][..i] == line[..i];
      assert Scan(line[..i + 1]) == Step(LineState(raw, current, inQuotes), c);
      if c == '"' {
        inQuotes := !inQuotes;
      } else if c == ',' && !inQuotes {
        TrimAllSnoc(raw, current);
        result := result + [Trim(current)];
        raw := raw + [current];
        current := "";
      } else {
        current := current + [c];
      }
      i := i + 1;
    }
    assert line[..i] == line;
    TrimAllSnoc(raw, current);
    result := result + [Trim(current)];
  }

  /** Reading one more character is one more step of the machine. */
  lemma {:induction false} ScanSnoc(init: string, c: char)
    ensures Scan(init + [c]) == Step(Scan(init), c)
  {
    assert (init + [c])[..|init|] == init;
  }

  /** Reading `b` after a prefix that ends on a separating comma: the
      prefix's fields come first, then exactly what `b` reads to on its own. */
  lemma {:induction false} ScanShift(pre: string, b: string)
    requires Scan(pre).current == "" && !Scan(pre).inQuotes
    ensures Scan(pre + b) ==
      LineState(Scan(pre).fields + Scan(b).fields, Scan(b).current, Scan(b).inQuotes)
    decreases |b|
  {
    if |b| == 0 {
      assert pre + b == pre;
    } else {
      var init, c := b[..|b| - 1], b[|b| - 1];
      assert b == init + [c];
      assert pre + b == (pre + init) + [c];
      ScanShift(pre, init);
      ScanSnoc(pre + init, c);
      ScanSnoc(init, c);
      var f, g := Scan(pre).fields, Scan(init);
      if c == ',' && !g.inQuotes {
        assert f + g.fields + [g.current] == f + (g.fields + [g.current]);
      }
    }
  }

  /** A comma with an even number of quotes before it separates the line
      into what lies before it and what lies after it: the untrimmed fields
      are those of the two parts, in order. */
  lemma {:induction false} RawFieldsSplit(a: string, b: string)
    requires Count(a, '"') % 2 == 0
    ensures RawFields(a + [','] + b) == RawFields(a) + RawFields(b)
  {
    var pre := a + [','];
    ScanQuoteParity(a);
    ScanSnoc(a, ',');
    ScanShift(pre, b);
    var sa, sb := Scan(a), Scan(b);
    assert sa.fields + [sa.current] + sb.fields + [sb.current] ==
      (sa.fields + [sa.current]) + (sb.fields + [sb.current]);
  }

  /** Trimming fields one by one distributes over concatenation. */
  lemma {:induction false} TrimAllAppend(x: seq<string>, y: seq<string>)
    ensures TrimAll(x + y) == TrimAll(x) + TrimAll(y)
  {
    var l, r := TrimAll(x + y), TrimAll(x) + TrimAll(y);
    assert forall k | 0 <= k < |l| :: l[k] == r[k];
  }

  /** `parseCSVLine` splits at every comma outside quotes: the fields of
      `a,b` are those of `a` followed by those of `b` whenever `a` holds an
      even number of quotes. */
  lemma {:induction false} ParseLineSplit(a: string, b: string)
    requires Count(a, '"') % 2 == 0
    ensures ParseLine(a + [','] + b) == ParseLine(a) + ParseLine(b)
  {
    RawFieldsSplit(a, b);
    TrimAllAppend(RawFields(a), RawFields(b));
  }

  /** A line without a separating comma is one field: the line without its
      quotes. */
  lemma {:induction false} RawFieldsNoSeparator(x: string)
    requires Separators(x) == {}
    ensures RawFields(x) == [StripQuotes(x)]
  {
    var r := RawFields(x);
    assert |r| == 1;
    assert r == [r[0]];
  }

  /** A line without a separating comma parses to one field: the line
      without its quotes, trimmed. Together with `ParseLineSplit` this fixes
      the contents of every field of every line. */
  lemma {:induction false} ParseLineNoSeparator(x: string)
    requires Separators(x) == {}
    ensures ParseLine(x) == [Trim(StripQuotes(x))]
  {
    RawFieldsNoSeparator(x);
  }

  /** Characters that are neither quotes nor separating commas only extend
      the current field. */
  lemma {:induction false} ScanPlain(pre: string, x: string)
    requires '"' !in x
    requires Scan(pre).inQuotes || ',' !in x
    ensures Scan(pre + x) == Scan(pre).(current := Scan(pre).current + x)
    decreases |x|
  {
    if |x| == 0 {
      assert pre + x == pre;
    } else {
      var init, c := x[..|x| - 1], x[|x| - 1];
      assert x == init + [c];
      assert pre + x == (pre + init) + [c];
      ScanPlain(pre, init);
      ScanSnoc(pre + init, c);
    }
  }

  lemma {:induction false} ParseLineOfScan(line: string)
    ensures ParseLine(line) == TrimAll(Scan(line).fields + [Scan(line).current])
  {
  }

  /** The machine on a quoted field followed by a plain one. */
  lemma {:induction false} QuotedFieldScan(x: string, y: string)
    requires '"' !in x && '"' !in y && ',' !in y
    ensures Scan("\"" + x + "\"," + y) == LineState([x], y, false)
  {
    var q: string := ['"'];
    var e: string := [];
    assert Scan(e) == LineState([], [], false);
    ScanSnoc(e, '"');
    assert e + ['"'] == q;
    assert Scan(q) == LineState([], [], true);
    ScanPlain(q, x);
    var qx := q + x;
    assert Scan(qx) == LineState([], x, true);
    ScanSnoc(qx, '"');
    var qxq := qx + ['"'];
    assert Scan(qxq) == LineState([], x, false);
    ScanSnoc(qxq, ',');
    var pre := qxq + [','];
    assert Scan(pre) == LineState([x], [], false);
    ScanPlain(pre, y);
    assert "\"" + x + "\"," + y == pre + y;
  }

  /** A field in quotes keeps its commas and loses its quotes, and the next
      field, after the separating comma, is trimmed like any other. */
  lemma {:induction false} QuotedField(x: string, y: string)
    requires '"' !in x && '"' !in y && ',' !in y
    ensures ParseLine("\"" + x + "\"," + y) == [Trim(x), Trim(y)]
  {
    var line := "\"" + x + "\"," + y;
    QuotedFieldScan(x, y);
    ParseLineOfScan(line);
    assert Scan(line).fields + [Scan(line).current] == [x, y];
  }

  // ---------------------------------------------------------------------
  // A document
  // ---------------------------------------------------------------------

  /** The test `line => line.trim()` that keeps a line of the document. */
  predicate HasContent(line: string) {
    !IsBlank(line)
  }

  /** `csvText.split('\n').filter(line => line.trim())`. */
  function NonBlankLines(text: string): (lines: seq<string>)
    ensures forall k | 0 <= k < |lines| :: HasContent(lines[k])
    ensures IsSubsequence(lines, Split(text, '\n'))
    ensures forall line ::
      multiset(lines)[line] == if HasContent(line) then multiset(Split(text, '\n'))[line] else 0
  {
    FilterIsSubsequence(Split(text, '\n'), HasContent);
    FilterMultiset(Split(text, '\n'), HasContent);
    Filter(Split(text, '\n'), HasContent)
  }

  /** `values.every(v => !v.trim())`: the row holds nothing but blanks. */
  predicate AllBlank(values: seq<string>)
    decreases |values|
  {
    |values| == 0 || (IsBlank(values[0]) && AllBlank(values[1..]))
  }

  /** The records of the data lines, in order, skipping all-blank rows. */
  function RowRecords(header: seq<string>, lines: seq<string>): (rs: seq<Record>)
    ensures |rs| <= |lines|
    ensures forall k | 0 <= k < |rs| :: Keys(rs[k]) == Dedup(header)
    decreases |lines|
  {
    if |lines| == 0 then []
    else
      var values := ParseLine(lines[0]);
      var rest := RowRecords(header, lines[1..]);
      if AllBlank(values) then rest
      else
        var rec := MakeRecord(header, values);
        assert forall k | 0 < k <= |rest| :: ([rec] + rest)[k] == rest[k - 1];
        [rec] + rest
  }

  /** The header of the document: the fields of its first non-blank line. */
  function Header(text: string): seq<string> {
    var lines := NonBlankLines(text);
    if |lines| == 0 then [] else ParseLine(lines[0])
  }

  /** `parseCSV`: fewer than two non-blank lines give no records; otherwise
      each non-blank data line that is not all blanks becomes a record keyed
      by the header, at most one record per data line. */
  function ParseCSV(text: string): (data: seq<Record>)
    ensures |NonBlankLines(text)| < 2 ==> data == []
    ensures |NonBlankLines(text)| >= 2 ==> |data| <= |NonBlankLines(text)| - 1
    ensures forall k | 0 <= k < |data| ::
      Keys(data[k]) == Dedup(Header(text))
  {
    var lines := NonBlankLines(text);
    if |lines| < 2 then [] else RowRecords(ParseLine(lines[0]), lines[1..])
  }

  /** Rows are processed independently and in order. */
  lemma {:induction false} RowRecordsAppend(header: seq<string>, a: seq<string>, b: seq<string>)
    ensures RowRecords(header, a + b) == RowRecords(header, a) + RowRecords(header, b)
    decreases |a|
  {
    if |a| == 0 {
      assert a + b == b;
    } else {
      assert (a + b)[1..] == a[1..] + b;
      RowRecordsAppend(header, a[1..], b);
    }
  }

  /** One data line yields its record, or nothing when all its fields are
      blank. */
  lemma {:induction false} RowRecordsSingle(header: seq<string>, line: string)
    ensures RowRecords(header, [line]) ==
      if AllBlank(ParseLine(line)) then [] else [MakeRecord(header, ParseLine(line))]
  {
    assert [line][1..] == [];
  }

  /** Inserting a blank or white-space-only line anywhere in a document does
      not change what it parses to. */
  lemma {:induction false} BlankLineInsertion(lines: seq<string>, i: nat, blank: string)
    requires i <= |lines|
    requires forall k | 0 <= k < |lines| :: '\n' !in lines[k]
    requires '\n' !in blank && IsBlank(blank)
    ensures ParseCSV(Join(lines[..i] + [blank] + lines[i..], '\n')) == ParseCSV(Join(lines, '\n'))
  {
    var longer := lines[..i] + [blank] + lines[i..];
    assert NonBlankLines(Join(longer, '\n')) == NonBlankLines(Join(lines, '\n')) by {
      BlankLineInsertionLines(lines, i, blank);
    }
  }

  lemma {:induction false} BlankLineInsertionLines(lines: seq<string>, i: nat, blank: string)
    requires i <= |lines|
    requires forall k | 0 <= k < |lines| :: '\n' !in lines[k]
    requires '\n' !in blank && IsBlank(blank)
    ensures var longer := lines[..i] + [blank] + lines[i..];
      NonBlankLines(Join(longer, '\n')) == NonBlankLines(Join(lines, '\n'))
  {
    assert lines[..i] + lines[i..] == lines;
    var longer := lines[..i] + [blank] + lines[i..];
    assert Split(Join(longer, '\n'), '\n') == longer by {
      assert forall k | 0 <= k < |longer| :: '\n' !in longer[k];
      SplitJoin(longer, '\n');
    }
    assert Filter(longer, HasContent) == Filter(lines, HasContent) by {
      FilterDropInserted(lines[..i], blank, lines[i..], HasContent);
    }
    if |lines| > 0 {
      SplitJoin(lines, '\n');
    } else {
      assert Split("", '\n') == [""];
      assert Filter([""], HasContent) == [];
    }
  }

  /** Every piece of a split is made of characters of the text. */
  lemma {:induction false} SplitPiecesFromText(s: string, sep: char)
    ensures forall k, j | 0 <= k < |Split(s, sep)| && 0 <= j < |Split(s, sep)[k]| ::
      Split(s, sep)[k][j] in s
    decreases |s|
  {
    if |s| > 0 {
      SplitPiecesFromText(s[1..], sep);
    }
  }

  /** A document of white space alone has no records. */
  lemma {:induction false} BlankTextIsEmpty(text: string)
    requires IsBlank(text)
    ensures NonBlankLines(text) == []
    ensures ParseCSV(text) == []
  {
    var pieces := Split(text, '\n');
    SplitPiecesFromText(text, '\n');
    forall k | 0 <= k < |pieces|
      ensures IsBlank(pieces[k])
    {
      forall j | 0 <= j < |pieces[k]|
        ensures IsSpace(pieces[k][j])
      {
        var c := pieces[k][j];
        var m :| 0 <= m < |text| && text[m] == c;
      }
    }
    FilterNone(pieces, HasContent);
  }
}
