/** Loading the directory (`isCacheValid` and `loadData`): a fresh cached copy
    is shown without touching the network; otherwise the published sheet is
    requested from each endpoint in turn until one answers with a non-blank
    body, which is parsed, shown, and cached. The browser's clock, storage
    and network are parameters: the stored timestamp as already parsed, the
    stored records as already decoded, and the outcome of each request. */
module Loader {
  import opened Seqs
  import opened Text
  import opened Records
  import opened Csv
  import opened Vocabulary

  /** How long a cached copy stays fresh, in milliseconds. */
  const CacheDuration := 60000

  /** `isCacheValid`: a stored timestamp exists and is less than a minute
      old. `stamp` is `None` when nothing is stored, the stored text is
      empty or not a number, or storage cannot be read. */
  function IsCacheValid(stamp: Option<int>, now: int): (valid: bool)
    ensures stamp.None? ==> !valid
  {
    match stamp
    case None => false
    case Some(t) => now - t < CacheDuration
  }

  /** A copy stamped at `t` is still fresh 59999 ms later and stale at
      60000 ms. */
  lemma CacheBoundary(t: int)
    ensures IsCacheValid(Some(t), t + CacheDuration - 1)
    ensures !IsCacheValid(Some(t), t + CacheDuration)
  {
  }

  /** Once stale, a copy stays stale as time goes on. */
  lemma CacheStaysStale(stamp: Option<int>, now: int, later: int)
    requires now <= later && !IsCacheValid(stamp, now)
    ensures !IsCacheValid(stamp, later)
  {
  }

  /** The outcome of one request: it threw, it answered with a status that
      is not OK, or it answered OK with a body. */
  datatype Fetch = Threw | NotOk | Ok(body: string)

  /** The state of the endpoint loop: the last OK body seen (`csvText`) and
      the number of requests made. */
  datatype Fetched = Fetched(csvText: Option<string>, attempts: nat)

  /** A response the loop accepts and stops at. */
  predicate Usable(f: Fetch) {
    f.Ok? && !IsBlank(f.body)
  }

  /** The loop over the endpoints from a given state: each OK response
      replaces `csvText`, and the first non-blank one ends the loop. */
  function FetchFrom(outcomes: seq<Fetch>, csvText: Option<string>, attempts: nat): (r: Fetched)
    ensures attempts <= r.attempts <= attempts + |outcomes|
    decreases |outcomes|
  {
    if |outcomes| == 0 then Fetched(csvText, attempts)
    else match outcomes[0]
      case Ok(body) =>
        if !IsBlank(body) then Fetched(Some(body), attempts + 1)
        else FetchFrom(outcomes[1..], Some(body), attempts + 1)
      case _ => FetchFrom(outcomes[1..], csvText, attempts + 1)
  }

  /** The endpoint loop of `loadData`, starting with no text. */
  function FetchLoop(outcomes: seq<Fetch>): Fetched {
    FetchFrom(outcomes, None, 0)
  }

  /** The position of the first usable response, if any. */
  function FirstUsable(outcomes: seq<Fetch>): (i: Option<nat>)
    ensures i.Some? ==> i.value < |outcomes| && Usable(outcomes[i.value])
    ensures i.Some? ==> forall j | 0 <= j < i.value :: !Usable(outcomes[j])
    ensures i.None? ==> forall j | 0 <= j < |outcomes| :: !Usable(outcomes[j])
    decreases |outcomes|
  {
    if |outcomes| == 0 then None
    else if Usable(outcomes[0]) then Some(0)
    else match FirstUsable(outcomes[1..])
      case Some(j) => Some(j + 1)
      case None => None
  }

  /** The body of the last OK response, if any: there is one exactly when
      some response was OK, and no OK response comes after it. */
  function LastOkBody(outcomes: seq<Fetch>): (b: Option<string>)
    ensures b.Some? <==> exists j | 0 <= j < |outcomes| :: outcomes[j].Ok?
    ensures b.Some? ==> exists j | 0 <= j < |outcomes| ::
      outcomes[j] == Ok(b.value) && forall k | j < k < |outcomes| :: !outcomes[k].Ok?
    decreases |outcomes|
  {
    if |outcomes| == 0 then None
    else
      var n := |outcomes| - 1;
      if outcomes[n].Ok? then
        assert outcomes[n] == Ok(outcomes[n].body);
        Some(outcomes[n].body)
      else
        var prior := outcomes[..n];
        assert forall j | 0 <= j < n :: prior[j] == outcomes[j];
        LastOkBody(prior)
  }

  /** `LastOkBody` seen from the front: the last OK body of the tail, or
      else the head's. */
  lemma {:induction false} LastOkBodyCons(outcomes: seq<Fetch>)
    requires |outcomes| > 0
    ensures LastOkBody(outcomes) ==
      match LastOkBody(outcomes[1..])
      case Some(b) => Some(b)
      case None => if outcomes[0].Ok? then Some(outcomes[0].body) else None
    decreases |outcomes|
  {
    var n := |outcomes| - 1;
    if n > 0 {
      assert outcomes[1..][..n - 1] == outcomes[..n][1..];
      LastOkBodyCons(outcomes[..n]);
      assert outcomes[1..][n - 1] == outcomes[n];
    }
  }

  /** What the loop from a given state ends with, read off the outcomes:
      the first usable response and its position, or else the last OK body
      (or the starting text) after every request. */
  function Expected(outcomes: seq<Fetch>, csvText: Option<string>, attempts: nat): Fetched {
    match FirstUsable(outcomes)
    case Some(i) => Fetched(Some(outcomes[i].body), attempts + i + 1)
    case None => Fetched(match LastOkBody(outcomes) case Some(b) => Some(b) case None => csvText,
                         attempts + |outcomes|)
  }

  /** The loop from any state: it stops right after the first usable
      response, with that response's body; with none it makes every
      request and keeps the last OK body, or the text it started with. */
  lemma {:induction false} FetchFromSpec(outcomes: seq<Fetch>, csvText: Option<string>, attempts: nat)
    ensures FetchFrom(outcomes, csvText, attempts) == Expected(outcomes, csvText, attempts)
    decreases |outcomes|
  {
    if |outcomes| > 0 && !Usable(outcomes[0]) {
      var text := if outcomes[0].Ok? then Some(outcomes[0].body) else csvText;
      FetchFromSpec(outcomes[1..], text, attempts + 1);
      ExpectedStep(outcomes, csvText, attempts);
    }
  }

  /** Skipping a response that is not usable: what is expected from the
      next state is what was expected from this one. */
  lemma {:induction false} ExpectedStep(outcomes: seq<Fetch>, csvText: Option<string>, attempts: nat)
    requires |outcomes| > 0 && !Usable(outcomes[0])
    ensures var text := if outcomes[0].Ok? then Some(outcomes[0].body) else csvText;
      Expected(outcomes[1..], text, attempts + 1) == Expected(outcomes, csvText, attempts)
  {
    var rest := outcomes[1..];
    LastOkBodyCons(outcomes);
    match FirstUsable(rest)
    case Some(i) =>
      assert FirstUsable(outcomes) == Some(i + 1) && outcomes[i + 1] == rest[i];
    case None =>
      assert FirstUsable(outcomes).None?;
  }

  /** The endpoint loop: the first usable response wins after as many
      requests as its position plus one; with none, every endpoint is tried
      and the text is the last OK body, absent when no request was OK. */
  lemma {:induction false} FetchLoopSpec(outcomes: seq<Fetch>)
    ensures FetchLoop(outcomes) ==
      match FirstUsable(outcomes)
      case Some(i) => Fetched(Some(outcomes[i].body), i + 1)
      case None => Fetched(LastOkBody(outcomes), |outcomes|)
  {
    FetchFromSpec(outcomes, None, 0);
  }

  /** What the page holds: the loaded records, the records on show, and the
      filter vocabulary. */
  datatype Widget = Widget(allData: seq<Record>, view: seq<Record>, vocabulary: seq<Entry>)

  /** The two errors `loadData` reports. */
  datatype LoadError =
    | LoadFailed  // no endpoint gave a non-empty body
    | EmptyData   // the body parsed to no records

  datatype Outcome = FromCache | FromNetwork | Failed(error: LoadError)

  /** The effect of one `loadData`: how it ended, the page afterwards, the
      number of requests made, and the records written to the cache. */
  datatype LoadResult = LoadResult(outcome: Outcome, widget: Widget, attempts: nat, saved: Option<seq<Record>>)

  /** Show `data`: it becomes the loaded data and the view, and the
      vocabulary is rebuilt from it. */
  function Show(w: Widget, data: seq<Record>): Widget {
    Widget(data, data, ExtractUniqueValues(data, w.vocabulary))
  }

  /** `loadData`. */
  function LoadData(w: Widget, stamp: Option<int>, now: int, cached: Option<seq<Record>>,
                    outcomes: seq<Fetch>): (r: LoadResult)
    ensures r.outcome == FromCache <==> IsCacheValid(stamp, now) && cached.Some?
    ensures r.outcome == FromCache ==> r.attempts == 0 && r.widget.allData == cached.value
    ensures r.saved.Some? <==> r.outcome == FromNetwork
    ensures r.saved.Some? ==> |r.saved.value| > 0 && r.widget.allData == r.saved.value
    ensures r.outcome == Failed(LoadFailed) ==> r.widget == w
    ensures r.outcome == Failed(EmptyData) ==> r.widget == w.(allData := [])
    ensures r.attempts <= |outcomes|
  {
    if IsCacheValid(stamp, now) && cached.Some? then
      LoadResult(FromCache, Show(w, cached.value), 0, None)
    else
      var f := FetchLoop(outcomes);
      if f.csvText.None? || f.csvText.value == "" then
        LoadResult(Failed(LoadFailed), w, f.attempts, None)
      else
        var data := ParseCSV(f.csvText.value);
        if |data| == 0 then
          // `allData` is assigned before the empty check throws
          LoadResult(Failed(EmptyData), w.(allData := []), f.attempts, None)
        else
          LoadResult(FromNetwork, Show(w, data), f.attempts, Some(data))
  }

  /** Without a fresh cached copy, a usable response at position `i` ends the
      requests there, and its body is what gets parsed. */
  lemma {:induction false} LoadDataUsable(w: Widget, stamp: Option<int>, now: int,
                                          cached: Option<seq<Record>>, outcomes: seq<Fetch>, i: nat)
    requires !(IsCacheValid(stamp, now) && cached.Some?)
    requires FirstUsable(outcomes) == Some(i)
    ensures var r := LoadData(w, stamp, now, cached, outcomes);
      var data := ParseCSV(outcomes[i].body);
      && r.attempts == i + 1
      && (if |data| == 0 then r.outcome == Failed(EmptyData)
          else r.outcome == FromNetwork && r.widget == Show(w, data))
  {
    FetchLoopSpec(outcomes);
  }

  /** Without a fresh cached copy, loading fails with `LoadFailed` exactly
      when no response is usable and the last OK body (if any) is empty;
      every endpoint has then been tried. */
  lemma {:induction false} LoadFailedExactly(w: Widget, stamp: Option<int>, now: int,
                                             cached: Option<seq<Record>>, outcomes: seq<Fetch>)
    requires !(IsCacheValid(stamp, now) && cached.Some?)
    ensures var r := LoadData(w, stamp, now, cached, outcomes);
      r.outcome == Failed(LoadFailed) <==>
        FirstUsable(outcomes).None? && (LastOkBody(outcomes).None? || LastOkBody(outcomes) == Some(""))
    ensures var r := LoadData(w, stamp, now, cached, outcomes);
      r.outcome == Failed(LoadFailed) ==> r.attempts == |outcomes|
  {
    FetchLoopSpec(outcomes);
  }

  /** A last OK body of white space alone is kept as the text, is not empty,
      and parses to no records: the load ends with `EmptyData`, not
      `LoadFailed`, and the loaded data is cleared. */
  lemma {:induction false} WhitespaceBodyIsEmptyData(w: Widget, stamp: Option<int>, now: int,
                                                     cached: Option<seq<Record>>, outcomes: seq<Fetch>,
                                                     body: string)
    requires !(IsCacheValid(stamp, now) && cached.Some?)
    requires FirstUsable(outcomes).None? && LastOkBody(outcomes) == Some(body)
    requires body != "" && IsBlank(body)
    ensures LoadData(w, stamp, now, cached, outcomes).outcome == Failed(EmptyData)
    ensures LoadData(w, stamp, now, cached, outcomes).widget.allData == []
  {
    FetchLoopSpec(outcomes);
    BlankTextIsEmpty(body);
  }

  /** A fresh cached copy is shown even when it holds no records, and no
      request is made; a stamp in the future counts as fresh. */
  lemma {:induction false} FreshCacheShown(w: Widget, t: int, now: int, data: seq<Record>, outcomes: seq<Fetch>)
    requires now - t < CacheDuration
    ensures LoadData(w, Some(t), now, Some(data), outcomes) == LoadResult(FromCache, Show(w, data), 0, None)
  {
  }
}
