/**
 * The stop store and its six endpoints. The table is a map from `stop_id` to its row, updated in
 * place; each endpoint is a method proved to compute the corresponding specification function of
 * the endpoint and import modules, and to keep the store's invariant.
 */
module Registry {
  import opened Wrappers
  import Ordinal
  import Upstream
  import opened StopRecords
  import PatchRules
  import Importing
  import opened Endpoints

  class StopRegistry {
    /** The `stops` table, keyed by its primary key `stop_id`. */
    var stops: map<int, Stop>

    /** Every row's link names its own id. */
    ghost predicate Valid()
      reads this
    {
      WellFormed(stops)
    }

    /** `CREATE TABLE IF NOT EXISTS stops(...)` on a fresh database. */
    constructor()
      ensures stops == map[] && Valid()
    {
      stops := map[];
    }

    /**
     * `PUT /stops?query=...`: the search response `resp` and the formatted clock reading `now` are
     * inputs; `query` is empty when absent.
     */
    method Import(query: string, resp: Upstream.SearchResponse, now: string) returns (reply: Reply<seq<Importing.Created>>)
      requires Valid()
      modifies this
      ensures Valid()
      ensures (reply, stops) == Importing.ImportSpec(old(stops), query, resp, now)
    {
      var status := resp.status;
      if resp.candidates.None? {
        if status == 400 {
          return Message(400, Importing.InvalidMessage);
        }
        if status == 404 {
          return Message(404, Importing.NotFoundMessage);
        }
        return Message(503, Importing.UnavailableMessage);
      }
      var cands := resp.candidates.value;
      if query == "" || status == 400 {
        return Message(400, Importing.InvalidMessage);
      } else if Upstream.IsHttpError(status) || |cands| == 0 || cands[0].kind.None? || status == 404 {
        return Message(404, Importing.NotFoundMessage);
      } else if status < 200 || status > 299 {
        return Message(503, Importing.UnavailableMessage);
      }
      var table, created, found, crashed := ScanCandidates(stops, cands, now);
      stops := table;
      reply := Importing.Outcome(Importing.Scan(table, created, found, crashed));
    }

    /**
     * `GET /stops/{id}?include=...`: `fields` is the `include` argument (empty when absent);
     * the departure board and the clock reading are inputs.
     */
    method Read(id: int, fields: string, board: Upstream.BoardResponse, now: string) returns (reply: Reply<StopView>)
      requires Valid()
      modifies this
      ensures Valid()
      ensures (reply, stops) == ReadSpec(old(stops), id, fields, board, now)
      ensures reply.Payload? ==> reply.body.links.selfHref == StopLink(id)
    {
      ReadSelfLink(stops, id, fields, board, now);
      var table := stops;
      var items := IncludeItems(fields);
      if id == 0 {
        return Message(400, BadIdMessage);
      }
      if id !in table {
        return Message(404, NotStoredMessage);
      } else if "_links" in items || "stop_id" in items {
        return Message(400, ProtectedIncludeMessage);
      }
      var failure := Upstream.BoardStatusError(board.status);
      if failure.Some? {
        return Message(failure.value.0, failure.value.1);
      }
      if board.departures.None? {
        return Crashed;
      }
      var deps := board.departures.value;
      if |deps| == 0 {
        return Message(404, NoDepartureMessage);
      }
      var depa := Upstream.SelectDeparture(deps);
      if depa.None? {
        return Message(404, NoDepartureMessage);
      }
      var rec := Upserted(table[id], depa.value, now);
      assert RowOk(table, id);
      RewriteKeepsWellFormed(table, id, rec);
      table := table[id := rec];
      stops := table;
      var view := FullView(id, rec, depa.value, table.Keys);
      view := FilterFields(view, items);
      reply := Payload(200, view);
    }

    /** `DELETE /stops/{id}`. */
    method Delete(id: int) returns (reply: Reply<int>)
      requires Valid()
      modifies this
      ensures Valid()
      ensures (reply, stops) == DeleteSpec(old(stops), id)
    {
      if id == 0 {
        return Message(400, BadIdMessage);
      }
      if id !in stops {
        return Message(404, NotStoredMessage);
      }
      RemoveKeepsWellFormed(stops, id);
      stops := stops - {id};
      reply := Message(200, "The stop_id " + Decimal.IntToString(id) + " was removed from the database.");
    }

    /** `PATCH /stops/{id}` with JSON body `body`; the clock reading is an input. */
    method Patch(id: int, body: PatchRules.Body, now: string) returns (reply: Reply<Receipt>)
      requires Valid()
      modifies this
      ensures Valid()
      ensures (reply, stops) == PatchSpec(old(stops), id, body, now)
    {
      if id == 0 {
        return Message(400, BadIdMessage);
      }
      if id !in stops {
        return Message(404, NotStoredMessage);
      }
      var verdict := PatchRules.ValidatePatch(body, now);
      if verdict.Rejected? {
        return Message(400, verdict.message);
      }
      var diff := verdict.diff;
      var table := stops;
      var row := table[id];
      if diff.name.Some? {
        row := row.(name := diff.name.value);
      }
      if diff.depa.Some? {
        row := row.(depa := diff.depa);
      }
      if diff.latitude.Some? {
        row := row.(latitude := diff.latitude.value);
      }
      if diff.longitude.Some? {
        row := row.(longitude := diff.longitude.value);
      }
      row := row.(time := diff.time);
      assert RowOk(table, id);
      RewriteKeepsWellFormed(table, id, row);
      stops := table[id := row];
      reply := Payload(200, Receipt(id, diff.time, StopLink(id)));
    }

    /** `GET /operator-profiles/{id}` up to the collected names; the board is an input. */
    method Operators(id: int, board: Upstream.BoardResponse) returns (reply: Reply<seq<string>>)
      ensures reply == OperatorsSpec(stops, id, board)
    {
      if id !in stops {
        return Message(404, NotStoredMessage);
      }
      var failure := Upstream.BoardStatusError(board.status);
      if failure.Some? {
        return Message(failure.value.0, failure.value.1);
      }
      if board.departures.None? {
        return Crashed;
      }
      var deps := board.departures.value;
      if |deps| == 0 {
        return Message(404, NoDepartureMessage);
      }
      var ops := Upstream.CollectOperators(deps);
      if ops == [] {
        return Message(404, NoOperatorMessage);
      }
      reply := Payload(200, ops);
    }

    /** `GET /guide` up to the stop list handed to the text generator. */
    method Guide() returns (reply: Reply<seq<string>>)
      ensures reply == GuideSpec(stops)
    {
      var table := stops;
      var ids := Ordinal.Ascending(table.Keys);
      assert forall i :: 0 <= i < |ids| ==> ids[i] in table;
      var names := seq(|ids|, i requires 0 <= i < |ids| => table[ids[i]].name);
      if |ids| < 2 {
        return Message(400, TooFewStopsMessage);
      }
      reply := Payload(200, names);
    }
  }

  /**
   * The loop of the import over the first five candidates: the table after it, the answer list,
   * the "already stored" flag and whether a pass raised, as `ScanUpTo` gives them.
   */
  method ScanCandidates(stops: map<int, Stop>, cands: seq<Upstream.Candidate>, now: string)
    returns (table: map<int, Stop>, created: seq<Importing.Created>, found: bool, crashed: bool)
    requires WellFormed(stops)
    ensures WellFormed(table)
    ensures Importing.Scan(table, created, found, crashed) == Importing.ScanUpTo(Importing.Initial(stops), cands, Importing.Window, now)
  {
    table := stops;
    ghost var start := Importing.Initial(stops);
    created := [];
    found := false;
    crashed := false;
    var i := 0;
    while i < Importing.Window
      invariant 0 <= i <= Importing.Window
      invariant Importing.Scan(table, created, found, false) == Importing.ScanUpTo(start, cands, i, now)
      invariant WellFormed(table)
    {
      if i >= |cands| || cands[i].kind.None? {
        Importing.CrashedStays(start, cands, i + 1, Importing.Window, now);
        crashed := true;
        return;
      }
      if cands[i].kind == Some("stop") {
        var id := cands[i].id;
        if id in table {
          found := true;
        } else {
          var rec := Importing.NewStop(cands[i], now);
          RewriteKeepsWellFormed(table, id, rec);
          table := table[id := rec];
          created := Importing.InsertSorted(created, Importing.Entry(id, now));
        }
      }
      i := i + 1;
    }
  }
}
