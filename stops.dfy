/**
 * Rows of the `stops` table, their self links, and the documents the enriched read returns,
 * including the `include` field filter.
 */
module StopRecords {
  import opened Wrappers
  import Decimal
  import Text
  import Ordinal

  /** The fixed base of every stop URI. */
  const LinkBase := "http://127.0.0.1:5000/stops/"

  /**
   * A row of `stops(stop_id INTEGER PRIMARY KEY, name, latitude, longitude, time, link, depa)`,
   * keyed by `stop_id` in the store; `depa` stays NULL until a next departure is stored.
   */
  datatype Stop = Stop(name: string, latitude: real, longitude: real, time: string, link: string, depa: Option<string>)

  /** `"http://127.0.0.1:5000/stops/" + str(id)`. */
  function StopLink(id: int): (link: string)
  {
    LinkBase + Decimal.IntToString(id)
  }

  /** A stop URI names exactly one id. */
  lemma StopLinkInjective(a: int, b: int)
    ensures StopLink(a) == StopLink(b) ==> a == b
  {
    if StopLink(a) == StopLink(b) {
      assert StopLink(a)[|LinkBase|..] == Decimal.IntToString(a);
      assert StopLink(b)[|LinkBase|..] == Decimal.IntToString(b);
      Decimal.IntToStringInjective(a, b);
    }
  }

  /** Row `k` of `stops`, if stored, carries the link of its own id. */
  predicate RowOk(stops: map<int, Stop>, k: int) {
    k in stops ==> stops[k].link == StopLink(k)
  }

  /** The invariant of the table that every endpoint keeps: every stored link names its row. */
  ghost predicate WellFormed(stops: map<int, Stop>) {
    forall k :: RowOk(stops, k)
  }

  /** Overwriting or adding a row that carries the link of its id keeps the table well formed. */
  lemma RewriteKeepsWellFormed(stops: map<int, Stop>, id: int, rec: Stop)
    requires WellFormed(stops) && rec.link == StopLink(id)
    ensures WellFormed(stops[id := rec])
  {
    var after := stops[id := rec];
    forall k
      ensures RowOk(after, k)
    {
      assert RowOk(stops, k);
    }
  }

  /** Removing a row keeps the table well formed. */
  lemma RemoveKeepsWellFormed(stops: map<int, Stop>, id: int)
    requires WellFormed(stops)
    ensures WellFormed(stops - {id})
  {
    var after := stops - {id};
    forall k
      ensures RowOk(after, k)
    {
      assert RowOk(stops, k);
    }
  }

  /** The `_links` of an enriched read: each `href` is a URI or, at a boundary, a notice. */
  datatype Links = Links(selfHref: string, nextHref: string, prevHref: string)

  /** The document an enriched read returns; a None field is one the `include` filter removed. */
  datatype StopView = StopView(
    stopId: int,
    lastUpdated: Option<string>,
    name: Option<string>,
    latitude: Option<real>,
    longitude: Option<real>,
    nextDeparture: Option<string>,
    links: Links)

  const LastStopNote := "This is the last stop, no next stop"
  const FirstStopNote := "This is the first stop, no prev stop."

  /** The `href` of a neighbour link: the neighbour's URI, or the boundary notice when there is none. */
  function NeighbourHref(neighbour: Option<int>, boundary: string): string {
    match neighbour
    case Some(n) => StopLink(n)
    case None => boundary
  }

  /** The full document for stop `id` with record `rec`, given the ids currently stored. */
  function FullView(id: int, rec: Stop, depa: string, ids: set<int>): StopView {
    StopView(id, Some(rec.time), Some(rec.name), Some(rec.latitude), Some(rec.longitude), Some(depa),
      Links(rec.link,
            NeighbourHref(Ordinal.NextId(ids, id), LastStopNote),
            NeighbourHref(Ordinal.PrevId(ids, id), FirstStopNote)))
  }

  /** The items of the `include` argument: none when it is absent or empty, else its comma-separated parts. */
  function IncludeItems(spec: string): (items: seq<string>)
    ensures spec == "" <==> items == []
  {
    if spec == "" then [] else Text.Split(spec, ',')
  }

  function Keep<T>(field: Option<T>, shown: bool): Option<T> {
    if shown then field else None
  }

  /** The `include` filter: with items, delete each optional field that is not listed. */
  function ApplyInclude(view: StopView, items: seq<string>): StopView {
    if items == [] then view
    else
      view.(lastUpdated := Keep(view.lastUpdated, "last_updated" in items),
            name := Keep(view.name, "name" in items),
            latitude := Keep(view.latitude, "latitude" in items),
            longitude := Keep(view.longitude, "longitude" in items),
            nextDeparture := Keep(view.nextDeparture, "next_departure" in items))
  }

  /** The filter as the handler applies it: delete, from a copy, each field `items` does not list. */
  method FilterFields(full: StopView, items: seq<string>) returns (view: StopView)
    ensures view == ApplyInclude(full, items)
  {
    view := full;
    if items != [] {
      if "last_updated" !in items {
        view := view.(lastUpdated := None);
      }
      if "name" !in items {
        view := view.(name := None);
      }
      if "latitude" !in items {
        view := view.(latitude := None);
      }
      if "longitude" !in items {
        view := view.(longitude := None);
      }
      if "next_departure" !in items {
        view := view.(nextDeparture := None);
      }
    }
  }

  /**
   * What the filter returns of a full document: the id and the links always; each optional field
   * exactly when `include` is empty or lists it, and then with its full value.
   */
  lemma IncludeShowsListed(id: int, rec: Stop, depa: string, ids: set<int>, items: seq<string>)
    ensures var full := FullView(id, rec, depa, ids);
      var v := ApplyInclude(full, items);
      && v.stopId == id && v.links == full.links
      && (v.lastUpdated.Some? <==> items == [] || "last_updated" in items)
      && (v.name.Some? <==> items == [] || "name" in items)
      && (v.latitude.Some? <==> items == [] || "latitude" in items)
      && (v.longitude.Some? <==> items == [] || "longitude" in items)
      && (v.nextDeparture.Some? <==> items == [] || "next_departure" in items)
      && (v.lastUpdated.Some? ==> v.lastUpdated == full.lastUpdated)
      && (v.name.Some? ==> v.name == full.name)
      && (v.latitude.Some? ==> v.latitude == full.latitude)
      && (v.longitude.Some? ==> v.longitude == full.longitude)
      && (v.nextDeparture.Some? ==> v.nextDeparture == full.nextDeparture)
  {
  }

  /** An item names a field only when it is exactly that field's key: `include=name,` still lists `name`. */
  lemma IncludeItemsExact(spec: string)
    requires spec != ""
    ensures forall item :: item in IncludeItems(spec) ==> ',' !in item
    ensures Text.Join(IncludeItems(spec), [',']) == spec
  {
    Text.JoinSplit(spec, ',');
  }
}
