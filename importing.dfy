/**
 * The stop import: the status checks on a stop search, then the create-if-absent scan over the
 * first five candidates. The scan is a fold of one loop pass over the candidate indices; the
 * registry's import method is proved to compute it.
 */
module Importing {
  import opened Wrappers
  import opened Upstream
  import opened StopRecords

  /** One entry of the 201 answer: `stop_id`, `last_updated` and the self link. */
  datatype Created = Created(stopId: int, lastUpdated: string, selfHref: string)

  /** The entry reported for a stop created at time `now`. */
  function Entry(id: int, now: string): Created {
    Created(id, now, StopLink(id))
  }

  /** The record inserted for a new candidate: its name and location, the time, the link, no departure. */
  function NewStop(c: Candidate, now: string): Stop {
    Stop(c.name, c.latitude, c.longitude, now, StopLink(c.id), None)
  }

  predicate Ascending(xs: seq<Created>) {
    forall i, j :: 0 <= i < j < |xs| ==> xs[i].stopId < xs[j].stopId
  }

  /** Some entry of `xs` reports `id`. */
  predicate Lists(xs: seq<Created>, id: int) {
    exists i :: 0 <= i < |xs| && xs[i].stopId == id
  }

  /**
   * `append` followed by a stable sort on `stop_id`: on a list already in order, the new entry
   * goes after every entry with a smaller id.
   */
  function InsertSorted(xs: seq<Created>, c: Created): (r: seq<Created>)
    ensures multiset(r) == multiset(xs) + multiset{c}
    ensures forall e :: e in r <==> e == c || e in xs
  {
    if xs == [] || c.stopId < xs[0].stopId then [c] + xs
    else
      assert xs == [xs[0]] + xs[1..];
      [xs[0]] + InsertSorted(xs[1..], c)
  }

  /** Inserting an id that is not yet listed keeps the list strictly ascending. */
  lemma {:induction false} InsertSortedAscending(xs: seq<Created>, c: Created)
    requires Ascending(xs) && !Lists(xs, c.stopId)
    ensures Ascending(InsertSorted(xs, c))
  {
    if xs != [] && c.stopId >= xs[0].stopId {
      var tail := xs[1..];
      assert c.stopId != xs[0].stopId;
      assert !Lists(tail, c.stopId) by {
        forall i | 0 <= i < |tail| ensures tail[i].stopId != c.stopId {
          assert tail[i] == xs[i + 1];
        }
      }
      assert Ascending(tail) by {
        forall i, j | 0 <= i < j < |tail| ensures tail[i].stopId < tail[j].stopId {
          assert tail[i] == xs[i + 1] && tail[j] == xs[j + 1];
        }
      }
      InsertSortedAscending(tail, c);
      var rest := InsertSorted(tail, c);
      forall k | 0 <= k < |rest|
        ensures rest[k].stopId > xs[0].stopId
      {
        var e := rest[k];
        assert e in rest;
        if e != c {
          var j :| 0 <= j < |tail| && tail[j] == e;
          assert xs[j + 1] == e;
        }
      }
      var r := [xs[0]] + rest;
      assert r == InsertSorted(xs, c);
      forall i, j | 0 <= i < j < |r|
        ensures r[i].stopId < r[j].stopId
      {
        assert r[j] == rest[j - 1];
        if i > 0 {
          assert r[i] == rest[i - 1];
        }
      }
    }
  }

  /**
   * The state the loop carries: the store, `output_stops`, `update_flag` (a candidate id was
   * already stored) and whether the loop body raised.
   */
  datatype Scan = Scan(stops: map<int, Stop>, created: seq<Created>, found: bool, crashed: bool)

  /** Index `i` holds a candidate whose `type` is `'stop'`. */
  predicate IsStopAt(cands: seq<Candidate>, i: int) {
    0 <= i < |cands| && cands[i].kind == Some("stop")
  }

  /** Index `i` makes the loop body raise: past the end of the list, or a candidate without `type`. */
  predicate RaisesAt(cands: seq<Candidate>, i: int) {
    0 <= i && (i >= |cands| || cands[i].kind.None?)
  }

  /**
   * One pass of the loop body for index `i`. A raised exception ends everything, so a crashed
   * state stays as it is; a stored id only sets the flag; a new stop is inserted and reported.
   */
  function ScanOne(st: Scan, cands: seq<Candidate>, i: nat, now: string): Scan {
    if st.crashed then st
    else if RaisesAt(cands, i) then st.(crashed := true)
    else if !IsStopAt(cands, i) then st
    else if cands[i].id in st.stops then st.(found := true)
    else
      st.(stops := st.stops[cands[i].id := NewStop(cands[i], now)],
          created := InsertSorted(st.created, Entry(cands[i].id, now)))
  }

  /** The loop after its first `n` passes. */
  function ScanUpTo(st: Scan, cands: seq<Candidate>, n: nat, now: string): Scan {
    if n == 0 then st else ScanOne(ScanUpTo(st, cands, n - 1, now), cands, n - 1, now)
  }

  /** The number of passes: `for i in range(5)`. */
  const Window := 5

  function Initial(stops: map<int, Stop>): Scan {
    Scan(stops, [], false, false)
  }

  const InvalidMessage := "Your request is not valid."
  const NotFoundMessage := "This stop could not be found, try a different keyword."
  const UnavailableMessage := "Transport Service is not available now."
  const AlreadyStoredMessage := "This stop is already in the database."

  /** The answer once the scan is over: a raise, the flag, the created list, or nothing at all. */
  function Outcome(sc: Scan): Reply<seq<Created>> {
    if sc.crashed then Crashed
    else if sc.found then Message(200, AlreadyStoredMessage)
    else if sc.created != [] then Payload(201, sc.created)
    else NoBody(200)
  }

  /** The search passed every status check, so the scan runs. */
  predicate ScanRuns(query: string, resp: SearchResponse) {
    && resp.candidates.Some?
    && query != ""
    && 200 <= resp.status <= 299
    && |resp.candidates.value| > 0
    && resp.candidates.value[0].kind.Some?
  }

  /**
   * The whole import for `query` (empty when absent) against search response `resp`: the answer
   * and the new store.
   */
  function ImportSpec(stops: map<int, Stop>, query: string, resp: SearchResponse, now: string): (Reply<seq<Created>>, map<int, Stop>) {
    match resp.candidates
    case None =>
      var reply :=
        if resp.status == 400 then Message(400, InvalidMessage)
        else if resp.status == 404 then Message(404, NotFoundMessage)
        else Message(503, UnavailableMessage);
      (reply, stops)
    case Some(cands) =>
      if query == "" || resp.status == 400 then (Message(400, InvalidMessage), stops)
      else if IsHttpError(resp.status) || |cands| == 0 || cands[0].kind.None? || resp.status == 404 then
        (Message(404, NotFoundMessage), stops)
      else if resp.status < 200 || resp.status > 299 then (Message(503, UnavailableMessage), stops)
      else
        var sc := ScanUpTo(Initial(stops), cands, Window, now);
        (Outcome(sc), sc.stops)
  }

  // ---------------------------------------------------------------------------------------------
  // Properties of the scan

  /** Once raised, later passes change nothing. */
  lemma {:induction false} CrashedStays(st: Scan, cands: seq<Candidate>, i: nat, n: nat, now: string)
    requires i <= n
    requires ScanUpTo(st, cands, i, now).crashed
    ensures ScanUpTo(st, cands, n, now) == ScanUpTo(st, cands, i, now)
  {
    if n > i {
      CrashedStays(st, cands, i, n - 1, now);
    }
  }

  /** The ids of the `'stop'` candidates among the first `n`. */
  function StopIds(cands: seq<Candidate>, n: nat): set<int> {
    set i | 0 <= i < n && IsStopAt(cands, i) :: cands[i].id
  }

  /** The scan raises exactly when one of the indices it reaches is past the end or lacks `type`. */
  lemma {:induction false} ScanRaises(st: Scan, cands: seq<Candidate>, n: nat, now: string)
    ensures ScanUpTo(st, cands, n, now).crashed <==> st.crashed || exists i :: 0 <= i < n && RaisesAt(cands, i)
  {
    if n > 0 {
      ScanRaises(st, cands, n - 1, now);
    }
  }

  /** Every record stored before the scan is kept as it was. */
  lemma {:induction false} ScanKeeps(st: Scan, cands: seq<Candidate>, n: nat, now: string)
    ensures var r := ScanUpTo(st, cands, n, now);
      forall k :: k in st.stops ==> k in r.stops && r.stops[k] == st.stops[k]
  {
    if n > 0 {
      ScanKeeps(st, cands, n - 1, now);
    }
  }

  /** Each id the scan adds is a `'stop'` candidate among the first `n`, stored as `NewStop`. */
  lemma {:induction false} ScanAdds(st: Scan, cands: seq<Candidate>, n: nat, now: string)
    ensures var r := ScanUpTo(st, cands, n, now);
      forall k :: k in r.stops && k !in st.stops ==>
        exists i :: 0 <= i < n && IsStopAt(cands, i) && cands[i].id == k && r.stops[k] == NewStop(cands[i], now)
  {
    if n > 0 {
      ScanAdds(st, cands, n - 1, now);
      var p := ScanUpTo(st, cands, n - 1, now);
      var r := ScanUpTo(st, cands, n, now);
      if !p.crashed && !RaisesAt(cands, n - 1) && IsStopAt(cands, n - 1) && cands[n - 1].id !in p.stops {
        var k := cands[n - 1].id;
        assert r.stops == p.stops[k := NewStop(cands[n - 1], now)];
        forall j | j in r.stops && j !in st.stops
          ensures exists i :: 0 <= i < n && IsStopAt(cands, i) && cands[i].id == j && r.stops[j] == NewStop(cands[i], now)
        {
          if j == k {
            assert r.stops[j] == NewStop(cands[n - 1], now);
          } else {
            assert j in p.stops && r.stops[j] == p.stops[j];
          }
        }
      } else {
        assert r.stops == p.stops;
      }
    }
  }

  /** Without a raise, the store ends up holding every `'stop'` candidate among the first `n`. */
  lemma {:induction false} ScanKeys(st: Scan, cands: seq<Candidate>, n: nat, now: string)
    ensures var r := ScanUpTo(st, cands, n, now);
      !r.crashed ==> r.stops.Keys == st.stops.Keys + StopIds(cands, n)
  {
    if n > 0 {
      ScanKeys(st, cands, n - 1, now);
      var p := ScanUpTo(st, cands, n - 1, now);
      var r := ScanUpTo(st, cands, n, now);
      if !r.crashed {
        assert !p.crashed && !RaisesAt(cands, n - 1);
        StopIdsStep(cands, n);
        if IsStopAt(cands, n - 1) && cands[n - 1].id !in p.stops {
          assert r.stops == p.stops[cands[n - 1].id := NewStop(cands[n - 1], now)];
        } else {
          assert r.stops == p.stops;
        }
      }
    }
  }

  lemma StopIdsStep(cands: seq<Candidate>, n: nat)
    requires n > 0
    ensures StopIds(cands, n) == StopIds(cands, n - 1) + (if IsStopAt(cands, n - 1) then {cands[n - 1].id} else {})
  {
  }

  /** The flag is set exactly when a `'stop'` candidate reached without a raise was stored by then. */
  lemma {:induction false} ScanFlag(st: Scan, cands: seq<Candidate>, n: nat, now: string)
    requires !ScanUpTo(st, cands, n, now).crashed
    ensures ScanUpTo(st, cands, n, now).found <==>
      st.found || exists i :: 0 <= i < n && IsStopAt(cands, i) && cands[i].id in st.stops.Keys + StopIds(cands, i)
  {
    if n > 0 {
      var p := ScanUpTo(st, cands, n - 1, now);
      var r := ScanUpTo(st, cands, n, now);
      assert r == ScanOne(p, cands, n - 1, now);
      assert !p.crashed && !RaisesAt(cands, n - 1);
      ScanFlag(st, cands, n - 1, now);
      ScanKeys(st, cands, n - 1, now);
      assert p.stops.Keys == st.stops.Keys + StopIds(cands, n - 1);
      assert r.found <==> p.found || (IsStopAt(cands, n - 1) && cands[n - 1].id in p.stops.Keys);
    }
  }

  /** Every listed entry is a stop added since `base`, reported with time `now` and its link. */
  predicate EntriesNew(base: map<int, Stop>, stops: map<int, Stop>, created: seq<Created>, now: string) {
    forall e :: e in created ==> e.stopId in stops && e.stopId !in base && e == Entry(e.stopId, now)
  }

  /** Every stop added since `base` is listed. */
  predicate NewListed(base: map<int, Stop>, stops: map<int, Stop>, created: seq<Created>) {
    forall k :: k in stops && k !in base ==> Lists(created, k)
  }

  /** The invariant of the answer list relative to the store the scan started from. */
  predicate CreatedMatches(base: map<int, Stop>, st: Scan, now: string) {
    Ascending(st.created) && EntriesNew(base, st.stops, st.created, now) && NewListed(base, st.stops, st.created)
  }

  /** One pass keeps the answer list in step with the store. */
  lemma CreatedStep(base: map<int, Stop>, p: Scan, cands: seq<Candidate>, i: nat, now: string)
    requires CreatedMatches(base, p, now)
    requires forall k :: k in base ==> k in p.stops
    ensures CreatedMatches(base, ScanOne(p, cands, i, now), now)
  {
    var r := ScanOne(p, cands, i, now);
    if p.crashed || RaisesAt(cands, i) || !IsStopAt(cands, i) || cands[i].id in p.stops {
      assert r.stops == p.stops && r.created == p.created;
    } else {
      var c := Entry(cands[i].id, now);
      var stops := p.stops[c.stopId := NewStop(cands[i], now)];
      var created := InsertSorted(p.created, c);
      assert r.stops == stops && r.created == created;
      assert !Lists(p.created, c.stopId) by {
        forall j | 0 <= j < |p.created| ensures p.created[j].stopId != c.stopId {
          assert p.created[j] in p.created;
        }
      }
      InsertSortedAscending(p.created, c);
      InsertKeepsEntries(base, p.stops, p.created, c, NewStop(cands[i], now), now);
      InsertKeepsListed(base, p.stops, p.created, c, NewStop(cands[i], now));
    }
  }

  lemma InsertKeepsEntries(base: map<int, Stop>, stops: map<int, Stop>, created: seq<Created>, c: Created, rec: Stop, now: string)
    requires EntriesNew(base, stops, created, now)
    requires forall k :: k in base ==> k in stops
    requires c.stopId !in stops && c == Entry(c.stopId, now)
    ensures EntriesNew(base, stops[c.stopId := rec], InsertSorted(created, c), now)
  {
    var after := stops[c.stopId := rec];
    forall e | e in InsertSorted(created, c)
      ensures e.stopId in after && e.stopId !in base && e == Entry(e.stopId, now)
    {
      if e != c {
        assert e in created;
      }
    }
  }

  lemma InsertKeepsListed(base: map<int, Stop>, stops: map<int, Stop>, created: seq<Created>, c: Created, rec: Stop)
    requires NewListed(base, stops, created)
    ensures NewListed(base, stops[c.stopId := rec], InsertSorted(created, c))
  {
    var after := stops[c.stopId := rec];
    var list := InsertSorted(created, c);
    forall k | k in after && k !in base
      ensures Lists(list, k)
    {
      var e: Created;
      if k == c.stopId {
        e := c;
      } else {
        assert k in stops;
        var j :| 0 <= j < |created| && created[j].stopId == k;
        e := created[j];
      }
      assert e in list;
      var j :| 0 <= j < |list| && list[j] == e;
    }
  }

  /**
   * The answer list is in strictly ascending id order and reports exactly the ids the scan
   * inserted, each with time `now` and its stop link.
   */
  lemma {:induction false} ScanCreated(stops: map<int, Stop>, cands: seq<Candidate>, n: nat, now: string)
    ensures CreatedMatches(stops, ScanUpTo(Initial(stops), cands, n, now), now)
  {
    if n > 0 {
      ScanCreated(stops, cands, n - 1, now);
      ScanKeeps(Initial(stops), cands, n - 1, now);
      CreatedStep(stops, ScanUpTo(Initial(stops), cands, n - 1, now), cands, n - 1, now);
    }
  }

  /** Candidates past the first `n` are never looked at. */
  lemma {:induction false} ScanIgnoresRest(st: Scan, cands: seq<Candidate>, extra: seq<Candidate>, n: nat, now: string)
    requires n <= |cands|
    ensures ScanUpTo(st, cands + extra, n, now) == ScanUpTo(st, cands, n, now)
  {
    if n > 0 {
      ScanIgnoresRest(st, cands, extra, n - 1, now);
      assert (cands + extra)[n - 1] == cands[n - 1];
    }
  }

  // ---------------------------------------------------------------------------------------------
  // Properties of the import

  /**
   * A search that fails a status check, a missing query or an unusable list changes nothing, and
   * is answered as the handler's checks say, in their order.
   */
  lemma ImportRejected(stops: map<int, Stop>, query: string, resp: SearchResponse, now: string)
    requires !ScanRuns(query, resp)
    ensures ImportSpec(stops, query, resp, now).1 == stops
    ensures var reply := ImportSpec(stops, query, resp, now).0;
      reply.Message? && reply.status in {400, 404, 503}
    ensures resp.candidates.None? ==>
      ImportSpec(stops, query, resp, now).0 ==
        if resp.status == 400 then Message(400, InvalidMessage)
        else if resp.status == 404 then Message(404, NotFoundMessage)
        else Message(503, UnavailableMessage)
    ensures resp.candidates.Some? && (query == "" || resp.status == 400) ==>
      ImportSpec(stops, query, resp, now).0 == Message(400, InvalidMessage)
    ensures resp.candidates.Some? && query != "" && resp.status != 400 ==>
      var cands := resp.candidates.value;
      && (IsHttpError(resp.status) || |cands| == 0 || cands[0].kind.None? || resp.status == 404 ==>
            ImportSpec(stops, query, resp, now).0 == Message(404, NotFoundMessage))
      && (!IsHttpError(resp.status) && |cands| > 0 && cands[0].kind.Some? ==>
            ImportSpec(stops, query, resp, now).0 == Message(503, UnavailableMessage))
  {
  }

  /** Fewer than five candidates, or one of the first five without `type`, always raise. */
  lemma ImportShortListRaises(stops: map<int, Stop>, query: string, resp: SearchResponse, now: string)
    requires ScanRuns(query, resp)
    ensures var cands := resp.candidates.value;
      ImportSpec(stops, query, resp, now).0 == Crashed <==> exists i :: 0 <= i < Window && RaisesAt(cands, i)
  {
    ScanRaises(Initial(stops), resp.candidates.value, Window, now);
  }

  /**
   * A scan that runs keeps every stored record as it was and adds only new records built from
   * `'stop'` candidates among the first five.
   */
  lemma ImportKeepsStored(stops: map<int, Stop>, query: string, resp: SearchResponse, now: string)
    requires ScanRuns(query, resp)
    ensures var after := ImportSpec(stops, query, resp, now).1;
      var cands := resp.candidates.value;
      && (forall k :: k in stops ==> k in after && after[k] == stops[k])
      && (forall k :: k in after && k !in stops ==>
            exists i :: 0 <= i < Window && IsStopAt(cands, i) && cands[i].id == k && after[k] == NewStop(cands[i], now))
  {
    ScanKeeps(Initial(stops), resp.candidates.value, Window, now);
    ScanAdds(Initial(stops), resp.candidates.value, Window, now);
  }

  /**
   * The "already in the database" answer comes exactly when the scan did not raise and one of the
   * first five `'stop'` candidates was stored before it was reached; it takes precedence over creation.
   */
  lemma ImportAlreadyStored(stops: map<int, Stop>, query: string, resp: SearchResponse, now: string)
    requires ScanRuns(query, resp)
    ensures var reply := ImportSpec(stops, query, resp, now).0;
      var cands := resp.candidates.value;
      reply == Message(200, AlreadyStoredMessage) <==>
        && (forall i :: 0 <= i < Window ==> !RaisesAt(cands, i))
        && exists i :: 0 <= i < Window && IsStopAt(cands, i) && cands[i].id in stops.Keys + StopIds(cands, i)
  {
    var cands := resp.candidates.value;
    ScanRaises(Initial(stops), cands, Window, now);
    if !ScanUpTo(Initial(stops), cands, Window, now).crashed {
      ScanFlag(Initial(stops), cands, Window, now);
    }
  }

  /**
   * A 201 lists, in strictly ascending `stop_id` order, exactly the stops the import created, each
   * with the import time and its stop link; the store then holds every `'stop'` among the first five.
   */
  lemma ImportCreated(stops: map<int, Stop>, query: string, resp: SearchResponse, now: string)
    requires ScanRuns(query, resp)
    ensures var (reply, after) := ImportSpec(stops, query, resp, now);
      reply.Payload? ==>
        && reply.status == 201
        && Ascending(reply.body)
        && (forall e :: e in reply.body <==> e.stopId in after.Keys - stops.Keys && e == Entry(e.stopId, now))
        && after.Keys == stops.Keys + StopIds(resp.candidates.value, Window)
  {
    var cands := resp.candidates.value;
    ScanCreated(stops, cands, Window, now);
    ScanKeys(Initial(stops), cands, Window, now);
  }

  /** Without a raise, the answer list is empty exactly when every `'stop'` candidate reached was already stored. */
  lemma ScanCreatedEmpty(stops: map<int, Stop>, cands: seq<Candidate>, n: nat, now: string)
    requires !ScanUpTo(Initial(stops), cands, n, now).crashed
    ensures ScanUpTo(Initial(stops), cands, n, now).created == [] <==> StopIds(cands, n) - stops.Keys == {}
  {
    var sc := ScanUpTo(Initial(stops), cands, n, now);
    ScanCreated(stops, cands, n, now);
    ScanKeys(Initial(stops), cands, n, now);
    assert sc.stops.Keys == stops.Keys + StopIds(cands, n);
    if sc.created != [] {
      var e := sc.created[0];
      assert e in sc.created;
      assert e.stopId in StopIds(cands, n) - stops.Keys;
    }
  }

  /** No pass among the first five raises. */
  predicate RunsThrough(cands: seq<Candidate>) {
    forall i :: 0 <= i < Window ==> !RaisesAt(cands, i)
  }

  /** One of the first five `'stop'` candidates was stored before it was reached. */
  predicate MeetsStored(stops: map<int, Stop>, cands: seq<Candidate>) {
    exists i :: 0 <= i < Window && IsStopAt(cands, i) && cands[i].id in stops.Keys + StopIds(cands, i)
  }

  /**
   * Once the scan runs, a 201 comes exactly when no pass raised, no `'stop'` candidate was met
   * already stored, and some `'stop'` among the first five is new; the bare 200 exactly when
   * no pass raised, none was met already stored, and none is new.
   */
  lemma ImportOutcome(stops: map<int, Stop>, query: string, resp: SearchResponse, now: string)
    requires ScanRuns(query, resp)
    ensures var reply := ImportSpec(stops, query, resp, now).0;
      var cands := resp.candidates.value;
      && (reply.Payload? <==>
            RunsThrough(cands) && !MeetsStored(stops, cands) && StopIds(cands, Window) - stops.Keys != {})
      && (reply == NoBody(200) <==>
            RunsThrough(cands) && !MeetsStored(stops, cands) && StopIds(cands, Window) - stops.Keys == {})
  {
    var cands := resp.candidates.value;
    var sc := ScanUpTo(Initial(stops), cands, Window, now);
    ScanRaises(Initial(stops), cands, Window, now);
    if !sc.crashed {
      ScanFlag(Initial(stops), cands, Window, now);
      ScanCreatedEmpty(stops, cands, Window, now);
    }
  }

  /** The answer and the store depend only on the first five candidates. */
  lemma ImportReadsFirstFive(stops: map<int, Stop>, query: string, status: int, cands: seq<Candidate>, extra: seq<Candidate>, now: string)
    requires |cands| >= Window
    ensures ImportSpec(stops, query, SearchResponse(status, Some(cands + extra)), now)
         == ImportSpec(stops, query, SearchResponse(status, Some(cands)), now)
  {
    ScanIgnoresRest(Initial(stops), cands, extra, Window, now);
  }
}
