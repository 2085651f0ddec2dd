/** A record is a parsed row: a JavaScript object whose keys are column
    names and whose values are strings. It is modelled as the ordered list of
    its (key, value) fields, in the order `Object.keys` lists them. */
module Records {
  import opened Seqs
  import opened Text

  datatype Field = Field(key: string, value: string)

  type Record = seq<Field>

  /** `Object.keys(row)`. */
  function Keys(r: Record): (ks: seq<string>)
    ensures |ks| == |r|
    ensures forall i | 0 <= i < |r| :: ks[i] == r[i].key
  {
    seq(|r|, i requires 0 <= i < |r| => r[i].key)
  }

  /** The position of the field named `k`, if there is one. */
  function IndexOf(r: Record, k: string): (i: Option<nat>)
    ensures i.Some? ==> i.value < |r| && r[i.value].key == k
    ensures i.Some? ==> forall j | 0 <= j < i.value :: r[j].key != k
    ensures i.None? <==> k !in Keys(r)
    decreases |r|
  {
    if |r| == 0 then None
    else if r[0].key == k then Some(0)
    else match IndexOf(r[1..], k)
      case Some(j) => Some(j + 1)
      case None => None
  }

  /** `row[k]`: the value of the field named `k`, absent (`undefined`) when
      there is none. */
  function Get(r: Record, k: string): Option<string> {
    match IndexOf(r, k)
    case Some(i) => Some(r[i].value)
    case None => None
  }

  /** `row[k] || ''`: the value, or the empty string when absent. */
  function Lookup(r: Record, k: string): string {
    Get(r, k).GetOr("")
  }

  /** `row[k] ? row[k].trim() : ''`. */
  function TrimmedValue(r: Record, k: string): string {
    Trim(Lookup(r, k))
  }

  /** The assignment `row[k] = v`: an existing key keeps its position and
      takes the new value; a new key is appended. */
  function Assign(r: Record, k: string, v: string): (r': Record)
    ensures k in Keys(r) ==> Keys(r') == Keys(r)
    ensures k !in Keys(r) ==> Keys(r') == Keys(r) + [k]
    ensures Get(r', k) == Some(v)
    ensures forall k' | k' != k :: Get(r', k') == Get(r, k')
  {
    match IndexOf(r, k)
    case Some(i) =>
      var r' := r[i := Field(k, v)];
      assert IndexOf(r', k) == Some(i) by {
        IndexOfUpdate(r, i, k, v);
      }
      forall k' | k' != k
        ensures Get(r', k') == Get(r, k')
      {
        IndexOfUpdateOther(r, i, k, v, k');
      }
      r'
    case None =>
      var r' := r + [Field(k, v)];
      assert IndexOf(r', k) == Some(|r|) by {
        IndexOfAppend(r, Field(k, v), k);
      }
      forall k' | k' != k
        ensures Get(r', k') == Get(r, k')
      {
        IndexOfAppend(r, Field(k, v), k');
      }
      r'
  }

  /** A key's position is the first position holding it. */
  lemma {:induction false} IndexOfFirst(r: Record, k: string, i: nat)
    requires i < |r| && r[i].key == k
    requires forall j | 0 <= j < i :: r[j].key != k
    ensures IndexOf(r, k) == Some(i)
  {
    assert Keys(r)[i] == k;
  }

  /** The position of a key depends only on the keys. */
  lemma {:induction false} IndexOfSameKeys(r: Record, r': Record, k: string)
    requires |r| == |r'| && forall j | 0 <= j < |r| :: r[j].key == r'[j].key
    ensures IndexOf(r, k) == IndexOf(r', k)
  {
    assert Keys(r) == Keys(r');
    match IndexOf(r, k)
    case Some(i) => IndexOfFirst(r', k, i);
    case None =>
  }

  lemma {:induction false} IndexOfUpdate(r: Record, i: nat, k: string, v: string)
    requires IndexOf(r, k) == Some(i)
    ensures IndexOf(r[i := Field(k, v)], k) == Some(i)
  {
    IndexOfSameKeys(r, r[i := Field(k, v)], k);
  }

  lemma {:induction false} IndexOfUpdateOther(r: Record, i: nat, k: string, v: string, k': string)
    requires i < |r| && r[i].key == k && k' != k
    ensures IndexOf(r[i := Field(k, v)], k') == IndexOf(r, k')
    ensures Get(r[i := Field(k, v)], k') == Get(r, k')
  {
    IndexOfSameKeys(r, r[i := Field(k, v)], k');
  }

  lemma {:induction false} IndexOfAppend(r: Record, f: Field, k: string)
    ensures IndexOf(r + [f], k) ==
      if k in Keys(r) then IndexOf(r, k) else if f.key == k then Some(|r|) else None
    ensures k in Keys(r) ==> Get(r + [f], k) == Get(r, k)
  {
    var r' := r + [f];
    assert forall j | 0 <= j < |r| :: r'[j] == r[j];
    match IndexOf(r, k)
    case Some(i) =>
      IndexOfFirst(r', k, i);
    case None =>
      assert forall j | 0 <= j < |r| :: Keys(r)[j] != k;
      if f.key == k {
        IndexOfFirst(r', k, |r|);
      } else {
        assert Keys(r') == Keys(r) + [f.key];
      }
  }

  /** `s` with each element's later repetitions removed. */
  function Dedup(s: seq<string>): (d: seq<string>)
    ensures Distinct(d)
    ensures forall x :: x in d <==> x in s
    decreases |s|
  {
    if |s| == 0 then []
    else
      var init := s[..|s| - 1];
      var last := s[|s| - 1];
      assert s == init + [last];
      if last in init then Dedup(init) else Dedup(init) + [last]
  }

  /** Without repetitions there is nothing to remove. */
  lemma {:induction false} DedupOfDistinct(s: seq<string>)
    requires Distinct(s)
    ensures Dedup(s) == s
    decreases |s|
  {
    if |s| > 0 {
      var init := s[..|s| - 1];
      assert Distinct(init);
      DedupOfDistinct(init);
      assert s[|s| - 1] !in init by {
        assert forall i | 0 <= i < |init| :: init[i] == s[i];
      }
      assert s == init + [s[|s| - 1]];
    }
  }

  /** `values[i] || ''`: a missing or empty value reads as the empty string. */
  function ValueAt(values: seq<string>, i: nat): string {
    if i < |values| then values[i] else ""
  }

  /** The header at position `i` is not repeated later in `headers`. */
  predicate LastOccurrence(headers: seq<string>, i: nat)
    requires i < |headers|
  {
    forall j | i < j < |headers| :: headers[j] != headers[i]
  }

  /** `headers.forEach((h, i) => { row[h] = values[i] || '' })` on an empty
      object: the record a data row becomes. Its keys are the headers in
      first-occurrence order; a repeated header takes its last value;
      missing values read as the empty string and extra values are ignored. */
  function MakeRecord(headers: seq<string>, values: seq<string>): (r: Record)
    ensures Keys(r) == Dedup(headers)
    ensures forall i | 0 <= i < |headers| && LastOccurrence(headers, i) ::
      Get(r, headers[i]) == Some(ValueAt(values, i))
    ensures forall k | k !in headers :: Get(r, k) == None
    decreases |headers|
  {
    if |headers| == 0 then []
    else
      var n := |headers| - 1;
      assert headers == headers[..n] + [headers[n]];
      var prefix := MakeRecord(headers[..n], values);
      AssignHeader(prefix, headers[..n], headers[n], values);
      Assign(prefix, headers[n], ValueAt(values, n))
  }

  /** One step of `MakeRecord`: assigning the next header keeps its contract. */
  lemma {:induction false} AssignHeader(prefix: Record, init: seq<string>, h: string, values: seq<string>)
    requires Keys(prefix) == Dedup(init)
    requires forall i | 0 <= i < |init| && LastOccurrence(init, i) ::
      Get(prefix, init[i]) == Some(ValueAt(values, i))
    requires forall k | k !in init :: Get(prefix, k) == None
    ensures var r := Assign(prefix, h, ValueAt(values, |init|));
      var headers := init + [h];
      && Keys(r) == Dedup(headers)
      && (forall i | 0 <= i < |headers| && LastOccurrence(headers, i) ::
            Get(r, headers[i]) == Some(ValueAt(values, i)))
      && (forall k | k !in headers :: Get(r, k) == None)
  {
    AssignHeaderKeys(prefix, init, h, ValueAt(values, |init|));
    AssignHeaderValues(prefix, init, h, values);
  }

  lemma {:induction false} AssignHeaderKeys(prefix: Record, init: seq<string>, h: string, v: string)
    requires Keys(prefix) == Dedup(init)
    ensures Keys(Assign(prefix, h, v)) == Dedup(init + [h])
  {
    var headers := init + [h];
    assert headers[..|init|] == init;
    assert h in Keys(prefix) <==> h in init;
  }

  lemma {:induction false} AssignHeaderValues(prefix: Record, init: seq<string>, h: string, values: seq<string>)
    requires forall i | 0 <= i < |init| && LastOccurrence(init, i) ::
      Get(prefix, init[i]) == Some(ValueAt(values, i))
    requires forall k | k !in init :: Get(prefix, k) == None
    ensures var r := Assign(prefix, h, ValueAt(values, |init|));
      var headers := init + [h];
      && (forall i | 0 <= i < |headers| && LastOccurrence(headers, i) ::
            Get(r, headers[i]) == Some(ValueAt(values, i)))
      && (forall k | k !in headers :: Get(r, k) == None)
  {
    var headers := init + [h];
    var r := Assign(prefix, h, ValueAt(values, |init|));
    forall i | 0 <= i < |headers| && LastOccurrence(headers, i)
      ensures Get(r, headers[i]) == Some(ValueAt(values, i))
    {
      if i < |init| {
        assert headers[i] == init[i];
        assert headers[|init|] == h;
        assert LastOccurrence(init, i) by {
          assert forall j | i < j < |init| :: init[j] == headers[j];
        }
      }
    }
  }

  /** With distinct headers the record is the headers zipped with the values,
      padded with empty strings. */
  lemma {:induction false} MakeRecordDistinct(headers: seq<string>, values: seq<string>)
    requires Distinct(headers)
    ensures Keys(MakeRecord(headers, values)) == headers
    ensures forall i | 0 <= i < |headers| ::
      Get(MakeRecord(headers, values), headers[i]) == Some(ValueAt(values, i))
  {
    DedupOfDistinct(headers);
  }
}
