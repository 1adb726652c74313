/**
 * The stop endpoints as functions of the store: the enriched read, the delete, the partial update,
 * the operator collection and the guide's stop list. Each gives the answer and, where the endpoint
 * writes, the new store; the registry's methods are proved to compute them.
 */
module Endpoints {
  import opened Wrappers
  import Decimal
  import Ordinal
  import Upstream
  import opened StopRecords
  import PatchRules
  import Text
  import Timestamp

  type Store = map<int, Stop>

  const BadIdMessage := "Input stop_id is not valid."
  const NotStoredMessage := "This stop is not in the database."
  const ProtectedIncludeMessage := "Your request is not valid, _links or stop_id is required."
  const NoDepartureMessage := "This stop has no valid next departure now."
  const NoOperatorMessage := "This stop has no valid departure operator now."
  const TooFewStopsMessage := "You have not put enough stops for a guide."

  // ---------------------------------------------------------------------------------------------
  // Enriched read

  /** `include` names a field that is always returned. */
  predicate ProtectedInclude(items: seq<string>) {
    "_links" in items || "stop_id" in items
  }

  /** The stored record with the chosen departure and the read time written over it. */
  function Upserted(rec: Stop, depa: string, now: string): Stop {
    rec.(depa := Some(depa), time := now)
  }

  /**
   * The enriched read of stop `id` with `fields`, the `include` argument (empty when absent), against
   * departure board `board`, at time `now`: the answer and the new store.
   */
  function ReadSpec(stops: Store, id: int, fields: string, board: Upstream.BoardResponse, now: string): (Reply<StopView>, Store) {
    var items := IncludeItems(fields);
    if id == 0 then (Message(400, BadIdMessage), stops)
    else if id !in stops then (Message(404, NotStoredMessage), stops)
    else if ProtectedInclude(items) then (Message(400, ProtectedIncludeMessage), stops)
    else match Upstream.BoardStatusError(board.status)
      case Some(e) => (Message(e.0, e.1), stops)
      case None =>
        match board.departures
        case None => (Crashed, stops)
        case Some(deps) =>
          if |deps| == 0 then (Message(404, NoDepartureMessage), stops)
          else match Upstream.NextDeparture(deps)
            case None => (Message(404, NoDepartureMessage), stops)
            case Some(d) =>
              var rec := Upserted(stops[id], d, now);
              var after := stops[id := rec];
              (Payload(200, ApplyInclude(FullView(id, rec, d, after.Keys), items)), after)
  }

  /** Every answer but a 200 leaves the store as it was. */
  lemma ReadFailureKeepsStore(stops: Store, id: int, fields: string, board: Upstream.BoardResponse, now: string)
    ensures var (reply, after) := ReadSpec(stops, id, fields, board, now);
      !reply.Payload? ==> after == stops
    ensures var (reply, after) := ReadSpec(stops, id, fields, board, now);
      reply.Payload? <==>
        && id != 0 && id in stops && !ProtectedInclude(IncludeItems(fields))
        && 200 <= board.status <= 299
        && board.departures.Some? && Upstream.NextDeparture(board.departures.value).Some?
    ensures var reply := ReadSpec(stops, id, fields, board, now).0;
      && (id == 0 ==> reply == Message(400, BadIdMessage))
      && (id != 0 && id !in stops ==> reply == Message(404, NotStoredMessage))
      && (id != 0 && id in stops && ProtectedInclude(IncludeItems(fields)) ==> reply == Message(400, ProtectedIncludeMessage))
      && (&& id != 0 && id in stops && !ProtectedInclude(IncludeItems(fields)) && 200 <= board.status <= 299
          && board.departures.Some? && Upstream.NextDeparture(board.departures.value).None?
          ==> reply == Message(404, NoDepartureMessage))
  {
  }

  /** A read that succeeds overwrites only `depa` and `time` of that one stop. */
  lemma ReadWritesDeparture(stops: Store, id: int, fields: string, board: Upstream.BoardResponse, now: string)
    ensures var (reply, after) := ReadSpec(stops, id, fields, board, now);
      reply.Payload? ==>
        && after.Keys == stops.Keys
        && (forall k :: k in stops && k != id ==> after[k] == stops[k])
        && after[id].depa == Upstream.NextDeparture(board.departures.value)
        && after[id].time == now
        && after[id].name == stops[id].name
        && after[id].latitude == stops[id].latitude
        && after[id].longitude == stops[id].longitude
        && after[id].link == stops[id].link
  {
  }

  /**
   * The links of a successful read: its own stored link, and for each side the link of the
   * nearest stored id strictly beyond it, or the boundary notice when there is none.
   */
  lemma ReadLinks(stops: Store, id: int, fields: string, board: Upstream.BoardResponse, now: string)
    ensures var (reply, after) := ReadSpec(stops, id, fields, board, now);
      reply.Payload? ==>
        var links := reply.body.links;
        && reply.body.stopId == id
        && links.selfHref == stops[id].link
        && ((forall k :: k in stops ==> k <= id) ==> links.nextHref == LastStopNote)
        && ((exists k :: k in stops && k > id) ==>
              exists n :: n in stops && n > id && links.nextHref == StopLink(n)
                && forall k :: k in stops && k > id ==> n <= k)
        && ((forall k :: k in stops ==> id <= k) ==> links.prevHref == FirstStopNote)
        && ((exists k :: k in stops && k < id) ==>
              exists p :: p in stops && p < id && links.prevHref == StopLink(p)
                && forall k :: k in stops && k < id ==> k <= p)
  {
    var (reply, after) := ReadSpec(stops, id, fields, board, now);
    if reply.Payload? {
      assert after.Keys == stops.Keys;
    }
  }

  /** On a well-formed store the self link of a read names the stop read. */
  lemma ReadSelfLink(stops: Store, id: int, fields: string, board: Upstream.BoardResponse, now: string)
    requires WellFormed(stops)
    ensures var reply := ReadSpec(stops, id, fields, board, now).0;
      reply.Payload? ==> reply.body.links.selfHref == StopLink(id)
  {
    ReadLinks(stops, id, fields, board, now);
    assert RowOk(stops, id);
  }

  /**
   * The fields of a successful read: each optional field is present exactly when `include` is
   * empty or lists it, and then holds the value just stored.
   */
  lemma ReadFields(stops: Store, id: int, fields: string, board: Upstream.BoardResponse, now: string)
    ensures var (reply, after) := ReadSpec(stops, id, fields, board, now);
      var items := IncludeItems(fields);
      reply.Payload? ==>
        var v := reply.body;
        && (v.lastUpdated.Some? <==> items == [] || "last_updated" in items)
        && (v.name.Some? <==> items == [] || "name" in items)
        && (v.latitude.Some? <==> items == [] || "latitude" in items)
        && (v.longitude.Some? <==> items == [] || "longitude" in items)
        && (v.nextDeparture.Some? <==> items == [] || "next_departure" in items)
        && (v.lastUpdated.Some? ==> v.lastUpdated.value == now)
        && (v.name.Some? ==> v.name.value == after[id].name)
        && (v.latitude.Some? ==> v.latitude.value == after[id].latitude)
        && (v.longitude.Some? ==> v.longitude.value == after[id].longitude)
        && (v.nextDeparture.Some? ==> v.nextDeparture == after[id].depa)
  {
    var (reply, after) := ReadSpec(stops, id, fields, board, now);
    if reply.Payload? {
      var d := Upstream.NextDeparture(board.departures.value).value;
      IncludeShowsListed(id, Upserted(stops[id], d, now), d, after.Keys, IncludeItems(fields));
    }
  }

  // ---------------------------------------------------------------------------------------------
  // Delete

  /** The answer to deleting `id`, and the new store. */
  function DeleteSpec(stops: Store, id: int): (Reply<int>, Store) {
    if id == 0 then (Message(400, BadIdMessage), stops)
    else if id !in stops then (Message(404, NotStoredMessage), stops)
    else (Message(200, "The stop_id " + Decimal.IntToString(id) + " was removed from the database."), stops - {id})
  }

  /** A delete removes exactly the stored id it names, and otherwise changes nothing. */
  lemma DeleteRemovesOne(stops: Store, id: int)
    ensures var (reply, after) := DeleteSpec(stops, id);
      && reply.Message?
      && (reply.status == 200 <==> id != 0 && id in stops)
      && (reply.status == 200 ==> after.Keys == stops.Keys - {id})
      && (reply.status != 200 ==> after == stops)
      && (id == 0 ==> reply == Message(400, BadIdMessage))
      && (id != 0 && id !in stops ==> reply == Message(404, NotStoredMessage))
      && (forall k :: k in after ==> k in stops && after[k] == stops[k])
  {
  }

  /** After a delete, reading that id answers 404 and its former neighbours become adjacent. */
  lemma DeleteThenRead(stops: Store, id: int, fields: string, board: Upstream.BoardResponse, now: string)
    requires id != 0 && id in stops
    ensures var after := DeleteSpec(stops, id).1;
      && ReadSpec(after, id, fields, board, now).0 == Message(404, NotStoredMessage)
      && (Ordinal.PrevId(stops.Keys, id).Some? ==>
            Ordinal.NextId(after.Keys, Ordinal.PrevId(stops.Keys, id).value) == Ordinal.NextId(stops.Keys, id))
  {
    var after := DeleteSpec(stops, id).1;
    assert after.Keys == stops.Keys - {id};
    if Ordinal.PrevId(stops.Keys, id).Some? {
      Ordinal.RemovalJoinsNeighbours(stops.Keys, id);
    }
  }

  // ---------------------------------------------------------------------------------------------
  // Partial update

  /** The 200 answer of an update: `stop_id`, `last_updated` and the self link. */
  datatype Receipt = Receipt(stopId: int, lastUpdated: string, selfHref: string)

  /**
   * The partial update of stop `id` with JSON body `body` at time `now`: the answer and the new
   * store. The body is validated by the corrected `ValidatePatch`, so a body without `name` is
   * not a crash here.
   */
  function PatchSpec(stops: Store, id: int, body: PatchRules.Body, now: string): (Reply<Receipt>, Store) {
    if id == 0 then (Message(400, BadIdMessage), stops)
    else if id !in stops then (Message(404, NotStoredMessage), stops)
    else match PatchRules.ValidatePatch(body, now)
      case Rejected(m) => (Message(400, m), stops)
      case Crash => (Crashed, stops)
      case Accepted(diff) =>
        (Payload(200, Receipt(id, diff.time, StopLink(id))), stops[id := PatchRules.Merge(stops[id], diff)])
  }

  /** Every validation answer precedes the first write: a rejected update leaves the store unchanged. */
  lemma PatchRejectedKeepsStore(stops: Store, id: int, body: PatchRules.Body, now: string)
    ensures var (reply, after) := PatchSpec(stops, id, body, now);
      && (!reply.Payload? ==> after == stops)
      && reply != Crashed
      && (id != 0 && id in stops && (PatchRules.HasForbiddenKey(body) || !PatchRules.HasAllowedKey(body)) ==>
            reply.Message? && reply.status == 400)
  {
  }

  /** A `last_updated` that is supplied, not blank, and not a timestamp is answered with 400. */
  lemma PatchRejectsBadTime(stops: Store, id: int, body: PatchRules.Body, now: string)
    requires id != 0 && id in stops
    requires "last_updated" in body && body["last_updated"].JString?
    requires var t := Text.Strip(body["last_updated"].text); t != "" && !Timestamp.CheckTime(t)
    ensures var (reply, after) := PatchSpec(stops, id, body, now);
      reply.Message? && reply.status == 400 && after == stops
  {
    PatchRules.BadTimeRejected(body, now);
  }

  /**
   * An update succeeds exactly when the stop is stored under a non-zero id, the body passes the
   * parser and the key-set guards, and the time is absent, blank or a timestamp.
   */
  lemma PatchSucceeds(stops: Store, id: int, body: PatchRules.Body, now: string)
    ensures PatchSpec(stops, id, body, now).0.Payload? <==>
      id != 0 && id in stops && PatchRules.Screen(body).Ok? && PatchRules.TimeAcceptable(PatchRules.Screen(body).value.lastUpdated)
  {
  }

  /** A successful update answers with the receipt and rewrites that one stop, keeping its link. */
  lemma PatchTouchesOneStop(stops: Store, id: int, body: PatchRules.Body, now: string)
    ensures var (reply, after) := PatchSpec(stops, id, body, now);
      reply.Payload? ==>
        && reply.status == 200
        && reply.body == Receipt(id, after[id].time, StopLink(id))
        && after.Keys == stops.Keys
        && (forall k :: k in stops && k != id ==> after[k] == stops[k])
        && after[id].link == stops[id].link
  {
  }

  /**
   * The fields a successful update writes: the parsed name or departure, a coordinate unless
   * it is 0.0, and always the time, which is the supplied non-blank timestamp or `now`.
   */
  lemma PatchWritesSupplied(stops: Store, id: int, body: PatchRules.Body, now: string)
    ensures var (reply, after) := PatchSpec(stops, id, body, now);
      reply.Payload? ==>
        var args := PatchRules.Screen(body).value;
        var before := stops[id];
        var written := after[id];
        && written.name == (if args.name.Given? then args.name.value else before.name)
        && written.depa == (if args.depa.Given? then Some(args.depa.value) else before.depa)
        && written.latitude ==
             (if args.latitude.Given? && args.latitude.value != 0.0 then args.latitude.value else before.latitude)
        && written.longitude ==
             (if args.longitude.Given? && args.longitude.value != 0.0 then args.longitude.value else before.longitude)
        && written.time ==
             (if args.lastUpdated.Given? && args.lastUpdated.value.text != "" then args.lastUpdated.value.text else now)
        && (written.time == now || Timestamp.CheckTime(written.time))
  {
    var verdict := PatchRules.ValidatePatch(body, now);
    if id != 0 && id in stops && verdict.Accepted? {
      var args := PatchRules.Screen(body).value;
      var written := PatchRules.Merge(stops[id], verdict.diff);
      assert PatchSpec(stops, id, body, now).1[id] == written;
      assert verdict.diff.latitude == (if args.latitude.Given? then PatchRules.Coordinate(Some(args.latitude.value)) else None);
      assert verdict.diff.longitude == (if args.longitude.Given? then PatchRules.Coordinate(Some(args.longitude.value)) else None);
    }
  }

  /**
   * For a body of plain values (no arrays), a successful update writes the trimmed name and
   * departure, a supplied coordinate `v` as `v` unless it is 0.0 (which leaves the stored one),
   * and the trimmed non-blank `last_updated`, or `now`.
   */
  lemma PatchWritesPlain(stops: Store, id: int, body: PatchRules.Body, now: string)
    requires forall key :: key in body ==> !body[key].JArray?
    ensures var (reply, after) := PatchSpec(stops, id, body, now);
      reply.Payload? ==>
        var before := stops[id];
        var written := after[id];
        && written.name == (if "name" in body then Text.Strip(body["name"].text) else before.name)
        && written.depa == (if "next_departure" in body then Some(Text.Strip(body["next_departure"].text)) else before.depa)
        && (forall v :: "latitude" in body && PatchRules.FloatValue(body["latitude"]) == Some(v) ==>
              written.latitude == (if v != 0.0 then v else before.latitude))
        && ("latitude" !in body ==> written.latitude == before.latitude)
        && (forall v :: "longitude" in body && PatchRules.FloatValue(body["longitude"]) == Some(v) ==>
              written.longitude == (if v != 0.0 then v else before.longitude))
        && ("longitude" !in body ==> written.longitude == before.longitude)
        && ("last_updated" in body ==>
              var t := Text.Strip(body["last_updated"].text); written.time == (if t == "" then now else t))
        && ("last_updated" !in body ==> written.time == now)
  {
    PatchRules.PlainBodyFields(body, now);
  }

  /** The store after an update: the merged row when the body is accepted, else the store as it was. */
  lemma PatchStore(stops: Store, id: int, body: PatchRules.Body, now: string)
    ensures var verdict := PatchRules.ValidatePatch(body, now);
      PatchSpec(stops, id, body, now).1 ==
        if id != 0 && id in stops && verdict.Accepted? then stops[id := PatchRules.Merge(stops[id], verdict.diff)] else stops
  {
  }

  /** Merging the same fields into the same row twice stores what merging once does. */
  lemma MergeTwice(stops: Store, id: int, diff: PatchRules.FieldDiff)
    requires id in stops
    ensures var after := stops[id := PatchRules.Merge(stops[id], diff)];
      after[id := PatchRules.Merge(after[id], diff)] == after
  {
    PatchRules.MergeIdempotent(stops[id], diff);
  }

  /** Sending the same update again at the same time changes nothing more. */
  lemma PatchIdempotent(stops: Store, id: int, body: PatchRules.Body, now: string)
    ensures var after := PatchSpec(stops, id, body, now).1;
      PatchSpec(after, id, body, now).1 == after
  {
    var verdict := PatchRules.ValidatePatch(body, now);
    PatchStore(stops, id, body, now);
    if id != 0 && id in stops && verdict.Accepted? {
      var after := stops[id := PatchRules.Merge(stops[id], verdict.diff)];
      PatchStore(after, id, body, now);
      MergeTwice(stops, id, verdict.diff);
    }
  }

  // ---------------------------------------------------------------------------------------------
  // Operators and guide

  /** The operator collection for stop `id` against board `board`: the names, before any profile is generated. */
  function OperatorsSpec(stops: Store, id: int, board: Upstream.BoardResponse): Reply<seq<string>> {
    if id !in stops then Message(404, NotStoredMessage)
    else match Upstream.BoardStatusError(board.status)
      case Some(e) => Message(e.0, e.1)
      case None =>
        match board.departures
        case None => Crashed
        case Some(deps) =>
          if |deps| == 0 then Message(404, NoDepartureMessage)
          else
            var ops := Upstream.Take(Upstream.Dedup(Upstream.OperatorNames(deps)), 5);
            if ops == [] then Message(404, NoOperatorMessage) else Payload(200, ops)
  }

  /**
   * A collection answers with one to five distinct operator names of the board, in board order;
   * it answers 404 exactly when no departure carries a name.
   */
  lemma OperatorsCollected(stops: Store, id: int, board: Upstream.BoardResponse)
    requires id in stops && 200 <= board.status <= 299 && board.departures.Some? && |board.departures.value| > 0
    ensures var reply := OperatorsSpec(stops, id, board);
      var names := Upstream.OperatorNames(board.departures.value);
      && (reply.Payload? <==> names != [])
      && (reply.Payload? ==>
            && 1 <= |reply.body| <= 5
            && Upstream.Distinct(reply.body)
            && (forall x :: x in reply.body ==> x in names)
            && (|reply.body| < 5 ==> forall x :: x in names ==> x in reply.body))
      && (!reply.Payload? ==> reply == Message(404, NoOperatorMessage))
    ensures var reply := OperatorsSpec(stops, id, board);
      var deps := board.departures.value;
      && (reply.Payload? <==> exists i :: 0 <= i < |deps| && deps[i].operator.Named?)
      && (reply.Payload? ==> forall x :: x in reply.body ==> exists i :: 0 <= i < |deps| && deps[i].operator == Upstream.Named(x))
  {
    var deps := board.departures.value;
    Upstream.CollectedOperators(deps);
    Upstream.OperatorNamesExact(deps);
    if exists i :: 0 <= i < |deps| && deps[i].operator.Named? {
      var i :| 0 <= i < |deps| && deps[i].operator.Named?;
      assert deps[i].operator.name in Upstream.OperatorNames(deps);
    }
    var names := Upstream.OperatorNames(deps);
    if names != [] {
      assert names[0] in names;
    }
    var reply := OperatorsSpec(stops, id, board);
    if reply.Payload? {
      forall x | x in reply.body
        ensures exists i :: 0 <= i < |deps| && deps[i].operator == Upstream.Named(x)
      {
        assert x in Upstream.OperatorNames(deps);
      }
    }
  }

  /** The guide's stop list: every stored name in ascending id order, given two stops or more. */
  function GuideSpec(stops: Store): (r: Reply<seq<string>>)
    ensures r.Payload? <==> |stops.Keys| >= 2
    ensures !r.Payload? ==> r == Message(400, TooFewStopsMessage)
    ensures r.Payload? ==>
      var ids := Ordinal.Ascending(stops.Keys);
      |r.body| == |stops.Keys| && forall i :: 0 <= i < |ids| ==> r.body[i] == stops[ids[i]].name
  {
    if |stops.Keys| < 2 then Message(400, TooFewStopsMessage)
    else
      var ids := Ordinal.Ascending(stops.Keys);
      Payload(200, seq(|ids|, i requires 0 <= i < |ids| => stops[ids[i]].name))
  }
}
