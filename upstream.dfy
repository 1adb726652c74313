/**
 * What the endpoints receive from the transit-data provider, and the pure logic they apply to it:
 * the status mapping, the choice of the next departure and the collection of operator names.
 * The HTTP requests themselves are not modelled; each response is an input value.
 */
module Upstream {
  import opened Wrappers

  /** One location of a stop search (`/locations`); `kind` is its `type` key, absent if missing. */
  datatype Candidate = Candidate(kind: Option<string>, id: int, name: string, latitude: real, longitude: real)

  /** A stop-search response: the HTTP status and the parsed list, None when the body is not JSON. */
  datatype SearchResponse = SearchResponse(status: int, candidates: Option<seq<Candidate>>)

  /** The `line.operator.name` of a departure: a key on the way missing, a JSON null, or a name. */
  datatype OperatorName = KeyMissing | NullName | Named(name: string)

  /** One departure of a departure board; None stands for a JSON null. */
  datatype Departure = Departure(platform: Option<string>, direction: Option<string>, operator: OperatorName)

  /**
   * A departure-board response (`/stops/{id}/departures`): the HTTP status and the `departures`
   * list, None when the body is not JSON or has no `departures` key.
   */
  datatype BoardResponse = BoardResponse(status: int, departures: Option<seq<Departure>>)

  /**
   * `not r` for a response `r`: a response is falsy exactly when `raise_for_status` would raise,
   * that is for the client and server error ranges 400-599.
   */
  predicate IsHttpError(status: int) {
    400 <= status < 600
  }

  /**
   * The status checks the departure-board endpoints make before reading the body (shared by the
   * enriched read and the operator collection): the status and message to answer, or None to go on.
   */
  function BoardStatusError(status: int): (r: Option<(int, string)>)
    ensures r.None? <==> 200 <= status <= 299
    ensures r.Some? ==> r.value.0 in {400, 404, 503}
    ensures r.Some? && r.value.0 == 400 <==> status == 400
    ensures r.Some? && r.value.0 == 503 <==> status < 200 || 600 <= status || 300 <= status < 400
  {
    if status == 400 then Some((400, "Your request is not valid."))
    else if IsHttpError(status) || status == 404 then Some((404, "This stop could not be found, try a different stop id."))
    else if status < 200 || status > 299 then Some((503, "Transport Service is not available now."))
    else None
  }

  /** A departure usable as "next departure": both platform and direction are non-null. */
  predicate Qualifies(d: Departure) {
    d.platform.Some? && d.direction.Some?
  }

  /** The text stored as `depa`. */
  function Describe(d: Departure): string
    requires Qualifies(d)
  {
    "Platform " + d.platform.value + " towards " + d.direction.value
  }

  /** The index of the first qualifying departure, or `|deps|` when there is none. */
  function FirstQualifying(deps: seq<Departure>): (k: nat)
    ensures k <= |deps|
    ensures forall j :: 0 <= j < k ==> !Qualifies(deps[j])
    ensures k < |deps| ==> Qualifies(deps[k])
  {
    if |deps| == 0 || Qualifies(deps[0]) then 0 else 1 + FirstQualifying(deps[1..])
  }

  /** The description of the first qualifying departure, None when no departure qualifies. */
  function NextDeparture(deps: seq<Departure>): (r: Option<string>)
    ensures r.None? <==> forall j :: 0 <= j < |deps| ==> !Qualifies(deps[j])
  {
    var k := FirstQualifying(deps);
    if k == |deps| then None else Some(Describe(deps[k]))
  }

  /** The scan of the departure board for the first departure with a platform and a direction. */
  method SelectDeparture(deps: seq<Departure>) returns (depa: Option<string>)
    ensures depa == NextDeparture(deps)
  {
    depa := None;
    var i := 0;
    while i < |deps|
      invariant 0 <= i <= |deps|
      invariant forall j :: 0 <= j < i ==> !Qualifies(deps[j])
    {
      if deps[i].platform.Some? && deps[i].direction.Some? {
        depa := Some("Platform " + deps[i].platform.value + " towards " + deps[i].direction.value);
        return;
      }
      i := i + 1;
    }
  }

  /** The operator names the departures carry, in board order, skipping missing keys and nulls. */
  function OperatorNames(deps: seq<Departure>): (names: seq<string>)
    ensures |names| <= |deps|
  {
    if |deps| == 0 then []
    else
      var rest := OperatorNames(deps[..|deps| - 1]);
      match deps[|deps| - 1].operator
      case Named(n) => rest + [n]
      case _ => rest
  }

  /** The names are exactly the operators some departure names: missing keys and nulls add nothing. */
  lemma {:induction false} OperatorNamesExact(deps: seq<Departure>)
    ensures forall x :: x in OperatorNames(deps) <==> exists i :: 0 <= i < |deps| && deps[i].operator == Named(x)
  {
    if |deps| > 0 {
      var front := deps[..|deps| - 1];
      OperatorNamesExact(front);
      assert forall i :: 0 <= i < |front| ==> front[i] == deps[i];
    }
  }

  predicate Distinct(xs: seq<string>) {
    forall i, j :: 0 <= i < j < |xs| ==> xs[i] != xs[j]
  }

  /** Order-preserving de-duplication: each name once, at its first occurrence. */
  function Dedup(xs: seq<string>): (r: seq<string>)
    ensures forall x :: x in r <==> x in xs
    ensures Distinct(r)
  {
    if |xs| == 0 then []
    else
      var d := Dedup(xs[..|xs| - 1]);
      if xs[|xs| - 1] in d then d else d + [xs[|xs| - 1]]
  }

  lemma DedupSnoc(xs: seq<string>, x: string)
    ensures Dedup(xs + [x]) == if x in Dedup(xs) then Dedup(xs) else Dedup(xs) + [x]
  {
    assert (xs + [x])[..|xs|] == xs;
  }

  /** The index of the first occurrence of `x` in `xs`. */
  function FirstIndex(xs: seq<string>, x: string): (k: nat)
    requires x in xs
    ensures k < |xs| && xs[k] == x && x !in xs[..k]
  {
    if xs[0] == x then 0
    else
      var k := FirstIndex(xs[1..], x);
      assert xs[1..][..k] == xs[1..k + 1];
      1 + k
  }

  /** The first occurrence is the only index holding `x` with no `x` before it. */
  lemma FirstIndexUnique(xs: seq<string>, x: string, k: nat)
    requires k < |xs| && xs[k] == x && x !in xs[..k]
    ensures FirstIndex(xs, x) == k
  {
  }

  /** Appending never moves the first occurrence of a value already present. */
  lemma FirstIndexSnoc(xs: seq<string>, y: string, x: string)
    requires x in xs
    ensures FirstIndex(xs + [y], x) == FirstIndex(xs, x)
  {
    var k := FirstIndex(xs, x);
    assert (xs + [y])[..k] == xs[..k];
    FirstIndexUnique(xs + [y], x, k);
  }

  /** The values of `r` appear in the order of their first occurrence in `xs`. */
  predicate InFirstOrder(xs: seq<string>, r: seq<string>) {
    forall i, j :: 0 <= i < j < |r| && r[i] in xs && r[j] in xs ==> FirstIndex(xs, r[i]) < FirstIndex(xs, r[j])
  }

  /** Appending to `xs` keeps the order of values already in it, and a new value comes after all of them. */
  lemma InFirstOrderSnoc(xs: seq<string>, x: string, d: seq<string>)
    requires InFirstOrder(xs, d) && forall e :: e in d ==> e in xs
    ensures InFirstOrder(xs + [x], d)
    ensures x !in xs ==> InFirstOrder(xs + [x], d + [x])
  {
    var ys := xs + [x];
    forall i | 0 <= i < |d| ensures FirstIndex(ys, d[i]) == FirstIndex(xs, d[i]) {
      FirstIndexSnoc(xs, x, d[i]);
    }
    if x !in xs {
      var r := d + [x];
      FirstIndexUnique(ys, x, |xs|);
      forall i, j | 0 <= i < j < |r| && r[i] in ys && r[j] in ys ensures FirstIndex(ys, r[i]) < FirstIndex(ys, r[j]) {
        assert r[i] == d[i];
        if j < |d| {
          assert r[j] == d[j];
        } else {
          assert r[j] == x;
        }
      }
    }
  }

  /** De-duplication lists the values in the order of their first occurrence. */
  lemma {:induction false} DedupOrder(xs: seq<string>)
    ensures InFirstOrder(xs, Dedup(xs))
  {
    if |xs| > 0 {
      var init := xs[..|xs| - 1];
      var x := xs[|xs| - 1];
      assert xs == init + [x];
      DedupOrder(init);
      InFirstOrderSnoc(init, x, Dedup(init));
    }
  }

  /** At most the first `n` elements. */
  function Take(xs: seq<string>, n: nat): (r: seq<string>)
    ensures |r| == if |xs| <= n then |xs| else n
    ensures r <= xs
  {
    if |xs| <= n then xs else xs[..n]
  }

  lemma {:induction false} OperatorNamesAppend(deps: seq<Departure>, i: nat)
    requires i < |deps|
    ensures deps[i].operator.Named? ==> OperatorNames(deps[..i + 1]) == OperatorNames(deps[..i]) + [deps[i].operator.name]
    ensures !deps[i].operator.Named? ==> OperatorNames(deps[..i + 1]) == OperatorNames(deps[..i])
  {
    assert deps[..i + 1][..i] == deps[..i];
  }

  /** The names of a prefix of the board are a prefix of the names of the whole board. */
  lemma {:induction false} OperatorNamesPrefix(deps: seq<Departure>, i: nat)
    requires i <= |deps|
    ensures OperatorNames(deps[..i]) <= OperatorNames(deps)
    decreases |deps| - i
  {
    if i < |deps| {
      OperatorNamesPrefix(deps, i + 1);
      OperatorNamesAppend(deps, i);
    } else {
      assert deps[..i] == deps;
    }
  }

  /** De-duplicating a longer list only appends to the de-duplicated prefix. */
  lemma {:induction false} DedupPrefix(xs: seq<string>, ys: seq<string>)
    requires xs <= ys
    ensures Dedup(xs) <= Dedup(ys)
    decreases |ys|
  {
    if |xs| < |ys| {
      var init := ys[..|ys| - 1];
      assert xs <= init;
      DedupPrefix(xs, init);
    } else {
      assert xs == ys;
    }
  }

  /**
   * The loop of the operator-profile endpoint: collect distinct operator names in board order and
   * stop as soon as five are held.
   */
  method CollectOperators(deps: seq<Departure>) returns (ops: seq<string>)
    ensures ops == Take(Dedup(OperatorNames(deps)), 5)
  {
    ops := [];
    var i := 0;
    while i < |deps|
      invariant 0 <= i <= |deps|
      invariant ops == Dedup(OperatorNames(deps[..i]))
      invariant |ops| <= 4
    {
      CollectStep(deps, i);
      if deps[i].operator.Named? && deps[i].operator.name !in ops {
        ops := ops + [deps[i].operator.name];
      }
      if |ops| > 4 {
        FiveCollected(deps, i + 1);
        return;
      }
      i := i + 1;
    }
    assert deps[..i] == deps;
  }

  /** One more departure adds its operator name to the collected names when it is named and new. */
  lemma CollectStep(deps: seq<Departure>, i: nat)
    requires i < |deps|
    ensures var held := Dedup(OperatorNames(deps[..i]));
      Dedup(OperatorNames(deps[..i + 1])) ==
        if deps[i].operator.Named? && deps[i].operator.name !in held then held + [deps[i].operator.name] else held
  {
    OperatorNamesAppend(deps, i);
    if deps[i].operator.Named? {
      DedupSnoc(OperatorNames(deps[..i]), deps[i].operator.name);
    }
  }

  /** Once five names are held, later departures cannot change the first five. */
  lemma FiveCollected(deps: seq<Departure>, k: nat)
    requires k <= |deps| && |Dedup(OperatorNames(deps[..k]))| == 5
    ensures Take(Dedup(OperatorNames(deps)), 5) == Dedup(OperatorNames(deps[..k]))
  {
    OperatorNamesPrefix(deps, k);
    DedupPrefix(OperatorNames(deps[..k]), OperatorNames(deps));
  }

  /**
   * What the collected list holds: at most five distinct names, each carried by some departure,
   * in board order; fewer than five only when the board has no other name.
   */
  lemma CollectedOperators(deps: seq<Departure>)
    ensures var ops := Take(Dedup(OperatorNames(deps)), 5);
      && |ops| <= 5
      && Distinct(ops)
      && (forall x :: x in ops ==> x in OperatorNames(deps))
      && (|ops| < 5 ==> forall x :: x in OperatorNames(deps) ==> x in ops)
      && (ops == [] <==> OperatorNames(deps) == [])
  {
    var all := Dedup(OperatorNames(deps));
    var ops := Take(all, 5);
    assert ops <= all;
    forall x | x in ops ensures x in OperatorNames(deps) {
      assert x in all;
    }
    if OperatorNames(deps) != [] {
      assert OperatorNames(deps)[0] in all;
    }
  }

  /**
   * The collected names come in the order of their first departure, and no name whose first
   * departure precedes that of a collected one is left out.
   */
  lemma CollectedInOrder(deps: seq<Departure>)
    ensures var names := OperatorNames(deps);
      var ops := Take(Dedup(names), 5);
      && (forall i, j :: 0 <= i < j < |ops| ==> FirstIndex(names, ops[i]) < FirstIndex(names, ops[j]))
      && (forall x, y :: x in names && y in ops && FirstIndex(names, x) < FirstIndex(names, y) ==> x in ops)
  {
    var names := OperatorNames(deps);
    var all := Dedup(names);
    var ops := Take(all, 5);
    DedupOrder(names);
    forall i, j | 0 <= i < j < |ops| ensures FirstIndex(names, ops[i]) < FirstIndex(names, ops[j]) {
      assert ops[i] == all[i] && ops[j] == all[j];
      assert all[i] in names && all[j] in names;
    }
    forall x, y | x in names && y in ops && FirstIndex(names, x) < FirstIndex(names, y) ensures x in ops {
      FirstComesFirst(names, x, y, 5);
    }
  }

  /** A value whose first occurrence precedes that of one of the first `n` de-duplicated values is among them. */
  lemma FirstComesFirst(names: seq<string>, x: string, y: string, n: nat)
    requires x in names && y in Take(Dedup(names), n)
    requires FirstIndex(names, x) < FirstIndex(names, y)
    ensures x in Take(Dedup(names), n)
  {
    var all := Dedup(names);
    var ops := Take(all, n);
    DedupOrder(names);
    var q :| 0 <= q < |ops| && ops[q] == y;
    assert x in all;
    var p :| 0 <= p < |all| && all[p] == x;
    assert all[q] == y;
    assert p < |ops| && ops[p] == all[p];
  }
}
