/**
 * Ordinal navigation over the stored stop ids: the neighbours `next` and `prev`
 * are recomputed from the set of ids on every read and never stored.
 */
module Ordinal {
  import opened Wrappers

  predicate IsLeast(s: set<int>, m: int) {
    m in s && forall k :: k in s ==> m <= k
  }

  predicate IsGreatest(s: set<int>, m: int) {
    m in s && forall k :: k in s ==> k <= m
  }

  /** A set that is not empty has an element. */
  lemma NonEmptyHasElement(s: set<int>)
    requires s != {}
    ensures exists x :: x in s
  {
    if forall x :: x !in s {
      assert false;
    }
  }

  lemma {:induction false} LeastExists(s: set<int>)
    requires s != {}
    ensures exists m :: IsLeast(s, m)
    decreases |s|
  {
    NonEmptyHasElement(s);
    var x :| x in s;
    if !IsLeast(s, x) {
      var y :| y in s && y < x;
      var rest := s - {x};
      assert y in rest;
      LeastExists(rest);
      var m :| IsLeast(rest, m);
      forall k | k in s ensures m <= k {
        if k != x { assert k in rest; }
      }
      assert IsLeast(s, m);
    }
  }

  lemma {:induction false} GreatestExists(s: set<int>)
    requires s != {}
    ensures exists m :: IsGreatest(s, m)
    decreases |s|
  {
    NonEmptyHasElement(s);
    var x :| x in s;
    if !IsGreatest(s, x) {
      var y :| y in s && x < y;
      var rest := s - {x};
      assert y in rest;
      GreatestExists(rest);
      var m :| IsGreatest(rest, m);
      forall k | k in s ensures k <= m {
        if k != x { assert k in rest; }
      }
      assert IsGreatest(s, m);
    }
  }

  /** The smallest element of a non-empty finite set. */
  function Least(s: set<int>): (m: int)
    requires s != {}
    ensures IsLeast(s, m)
  {
    LeastExists(s);
    var m :| IsLeast(s, m); m
  }

  /** The largest element of a non-empty finite set. */
  function Greatest(s: set<int>): (m: int)
    requires s != {}
    ensures IsGreatest(s, m)
  {
    GreatestExists(s);
    var m :| IsGreatest(s, m); m
  }

  /**
   * `SELECT stop_id FROM stops WHERE stop_id > id ORDER BY stop_id LIMIT 1`:
   * the smallest stored id strictly above `id`, absent when there is none.
   */
  function NextId(ids: set<int>, id: int): (r: Option<int>)
    ensures r.None? <==> forall k :: k in ids ==> k <= id
    ensures r.Some? ==> r.value in ids && id < r.value && forall k :: k in ids && id < k ==> r.value <= k
  {
    var above := set k | k in ids && id < k;
    assert forall k :: k in ids && id < k ==> k in above;
    if above == {} then None else Some(Least(above))
  }

  /**
   * `SELECT stop_id FROM stops WHERE stop_id < id ORDER BY stop_id DESC LIMIT 1`:
   * the largest stored id strictly below `id`, absent when there is none.
   */
  function PrevId(ids: set<int>, id: int): (r: Option<int>)
    ensures r.None? <==> forall k :: k in ids ==> id <= k
    ensures r.Some? ==> r.value in ids && r.value < id && forall k :: k in ids && k < id ==> k <= r.value
  {
    var below := set k | k in ids && k < id;
    assert forall k :: k in ids && k < id ==> k in below;
    if below == {} then None else Some(Greatest(below))
  }

  /** Stepping forward and then back from a stored id returns to it. */
  lemma NextThenPrev(ids: set<int>, id: int)
    requires id in ids && NextId(ids, id).Some?
    ensures PrevId(ids, NextId(ids, id).value) == Some(id)
  {
    var n := NextId(ids, id).value;
    var p := PrevId(ids, n);
    assert p.Some? && id <= p.value;
  }

  /** Stepping back and then forward from a stored id returns to it. */
  lemma PrevThenNext(ids: set<int>, id: int)
    requires id in ids && PrevId(ids, id).Some?
    ensures NextId(ids, PrevId(ids, id).value) == Some(id)
  {
    var p := PrevId(ids, id).value;
    var n := NextId(ids, p);
    assert n.Some? && n.value <= id;
  }

  /**
   * Removing a stored id joins its neighbours: from its predecessor the next
   * stop is now its successor, so no navigation link can dangle.
   */
  lemma RemovalJoinsNeighbours(ids: set<int>, id: int)
    requires id in ids && PrevId(ids, id).Some?
    ensures NextId(ids - {id}, PrevId(ids, id).value) == NextId(ids, id)
  {
    var p := PrevId(ids, id).value;
    var r := NextId(ids - {id}, p);
    var n := NextId(ids, id);
    if n.Some? {
      assert n.value in ids - {id} && p < n.value;
      assert r.Some? && r.value <= n.value;
    }
  }

  /** The stored ids in ascending order (the order of a full scan of the table). */
  function Ascending(ids: set<int>): (r: seq<int>)
    ensures |r| == |ids|
    ensures forall k :: k in r <==> k in ids
    ensures forall i, j :: 0 <= i < j < |r| ==> r[i] < r[j]
    decreases |ids|
  {
    if ids == {} then []
    else
      var m := Least(ids);
      [m] + Ascending(ids - {m})
  }
}
