/**
 * The graph `findEventInfluence` searches: `eventMap` from id to row (a
 * later row with the same id replaces an earlier one) and `adjacency` from
 * id to the ids it links to, one link each way for every row whose parent
 * id is a known event. Walks over it and their node-weighted cost.
 */
module InfluenceGraph {
  import opened Wrappers
  import opened Events

  type Adjacency = map<string, seq<string>>

  /** `duration_minutes || 0`: a stored duration is a number, and `0 || 0` is 0. */
  function Weight(e: Event): int {
    e.duration
  }

  // ---------------------------------------------------------------------
  // adjacency
  // ---------------------------------------------------------------------

  /** Row `e` links `x` to `y`: its parent id is known and the link is parent to child or child to parent. */
  predicate Links(e: Event, known: set<string>, x: string, y: string) {
    && Truthy(e.parent) && e.parent.value in known
    && ((x == e.parent.value && y == e.id) || (x == e.id && y == e.parent.value))
  }

  /** The links of the graph built from `rows`. */
  ghost predicate Edge(rows: seq<Event>, x: string, y: string) {
    LinkedBy(rows, Ids(rows), x, y)
  }

  /** The first loop's adjacency: an empty list for every id. */
  function EmptyAdjacency(rows: seq<Event>): (a: Adjacency)
    ensures a.Keys == Ids(rows)
  {
    map id | id in Ids(rows) :: []
  }

  /**
   * One iteration of the second loop: for a known parent, the child is
   * pushed onto the parent's list, then the parent onto the child's.
   * `adjacency` and `eventMap` have the same keys, so the test for a known
   * parent is made on `adj`.
   */
  function AddLinks(adj: Adjacency, e: Event): (r: Adjacency)
    requires e.id in adj
    ensures r.Keys == adj.Keys
  {
    if Truthy(e.parent) && e.parent.value in adj then
      var p := e.parent.value;
      var pushed := adj[p := adj[p] + [e.id]];
      pushed[e.id := pushed[e.id] + [p]]
    else adj
  }

  /** The second loop over `rows`. */
  function LinksOf(adj: Adjacency, rows: seq<Event>): (r: Adjacency)
    requires Ids(rows) <= adj.Keys
    ensures r.Keys == adj.Keys
    decreases |rows|
  {
    if rows == [] then adj
    else
      assert Ids(rows) == Ids(Init(rows)) + {Last(rows).id} by { IdsSnoc(rows, |rows| - 1); }
      AddLinks(LinksOf(adj, Init(rows)), Last(rows))
  }

  function AdjacencyOf(rows: seq<Event>): (a: Adjacency)
    ensures a.Keys == Ids(rows)
  {
    LinksOf(EmptyAdjacency(rows), rows)
  }

  /** One row adds exactly its own links. */
  lemma AddLinksMember(adj: Adjacency, e: Event, x: string, y: string)
    requires e.id in adj && x in adj
    ensures y in AddLinks(adj, e)[x] <==> y in adj[x] || Links(e, adj.Keys, x, y)
  {
  }

  ghost predicate LinkedBy(rows: seq<Event>, known: set<string>, x: string, y: string) {
    exists k | 0 <= k < |rows| :: Links(rows[k], known, x, y)
  }

  /** The rows linking two ids, one row more. */
  lemma LinkedBySnoc(rows: seq<Event>, known: set<string>, x: string, y: string)
    requires rows != []
    ensures LinkedBy(rows, known, x, y) <==> LinkedBy(Init(rows), known, x, y) || Links(Last(rows), known, x, y)
  {
    var init := Init(rows);
    if LinkedBy(rows, known, x, y) {
      var k :| 0 <= k < |rows| && Links(rows[k], known, x, y);
      if k < |init| {
        assert init[k] == rows[k];
      }
    }
    if LinkedBy(init, known, x, y) {
      var k :| 0 <= k < |init| && Links(init[k], known, x, y);
      assert rows[k] == init[k];
    }
  }

  /** `y` is a neighbour of `x` after the second loop exactly when it was before or a row links them. */
  lemma {:induction false} LinksOfMember(adj: Adjacency, rows: seq<Event>, x: string, y: string)
    requires Ids(rows) <= adj.Keys && x in adj
    ensures y in LinksOf(adj, rows)[x] <==> y in adj[x] || LinkedBy(rows, adj.Keys, x, y)
    decreases |rows|
  {
    if rows != [] {
      var init := Init(rows);
      assert Ids(rows) == Ids(init) + {Last(rows).id} by { IdsSnoc(rows, |rows| - 1); }
      LinksOfMember(adj, init, x, y);
      AddLinksMember(LinksOf(adj, init), Last(rows), x, y);
      LinkedBySnoc(rows, adj.Keys, x, y);
    }
  }

  /** The neighbours of a known id are exactly the ids a row links it to. */
  lemma AdjacencyMember(rows: seq<Event>, x: string, y: string)
    requires x in Ids(rows)
    ensures y in AdjacencyOf(rows)[x] <==> Edge(rows, x, y)
  {
    LinksOfMember(EmptyAdjacency(rows), rows, x, y);
  }

  /** Links go both ways. */
  lemma EdgeSymmetric(rows: seq<Event>, x: string, y: string)
    requires Edge(rows, x, y)
    ensures Edge(rows, y, x)
  {
    var k :| 0 <= k < |rows| && Links(rows[k], Ids(rows), x, y);
    assert Links(rows[k], Ids(rows), y, x);
  }

  /** Both ends of a link are known events. */
  lemma EdgeKnown(rows: seq<Event>, x: string, y: string)
    requires Edge(rows, x, y)
    ensures x in Ids(rows) && y in Ids(rows)
  {
    var k :| 0 <= k < |rows| && Links(rows[k], Ids(rows), x, y);
    assert rows[k] in rows;
  }

  /** Every neighbour is itself a known id. */
  lemma NeighboursKnown(rows: seq<Event>)
    ensures var adj := AdjacencyOf(rows);
      forall x, y | x in adj && y in adj[x] :: y in adj
  {
    var adj := AdjacencyOf(rows);
    forall x, y | x in adj && y in adj[x] ensures y in adj {
      AdjacencyMember(rows, x, y);
      EdgeKnown(rows, x, y);
    }
  }

  lemma EmptySnoc(rows: seq<Event>, i: nat)
    requires i < |rows|
    ensures var a := EmptyAdjacency(rows[..i]);
      EmptyAdjacency(rows[..i + 1]) == if rows[i].id in a then a else a[rows[i].id := []]
  {
    IdsSnoc(rows, i);
  }

  /** The first loop: `eventMap.set` and an empty list for each id not yet seen. */
  method IndexRows(rows: seq<Event>) returns (eventMap: EventMap, adjacency: Adjacency)
    ensures eventMap == EventMapOf(rows) && adjacency == EmptyAdjacency(rows)
  {
    eventMap := map[];
    adjacency := map[];
    for i := 0 to |rows|
      invariant eventMap == EventMapOf(rows[..i])
      invariant adjacency == EmptyAdjacency(rows[..i])
    {
      var event := rows[i];
      assert Init(rows[..i + 1]) == rows[..i];
      EmptySnoc(rows, i);
      eventMap := eventMap[event.id := event];
      if event.id !in adjacency {
        adjacency := adjacency[event.id := []];
      }
    }
    assert rows[..|rows|] == rows;
  }

  /** The second loop: a link each way for every row whose parent is known. */
  method WireLinks(rows: seq<Event>, eventMap: EventMap, adj0: Adjacency) returns (adjacency: Adjacency)
    requires eventMap.Keys == adj0.Keys && Ids(rows) <= adj0.Keys
    ensures adjacency == LinksOf(adj0, rows)
  {
    adjacency := adj0;
    for i := 0 to |rows|
      invariant adjacency == LinksOf(adj0, rows[..i])
    {
      var event := rows[i];
      assert Init(rows[..i + 1]) == rows[..i];
      assert event.id in Ids(rows) by { assert event in rows; }
      if Truthy(event.parent) && event.parent.value in eventMap {
        var p := event.parent.value;
        adjacency := adjacency[p := adjacency[p] + [event.id]];
        adjacency := adjacency[event.id := adjacency[event.id] + [p]];
      }
    }
    assert rows[..|rows|] == rows;
  }

  /** The two loops that build `eventMap` and `adjacency`. */
  method BuildGraph(rows: seq<Event>) returns (eventMap: EventMap, adjacency: Adjacency)
    ensures eventMap == EventMapOf(rows) && adjacency == AdjacencyOf(rows)
  {
    var empty;
    eventMap, empty := IndexRows(rows);
    adjacency := WireLinks(rows, eventMap, empty);
  }

  // ---------------------------------------------------------------------
  // Walks and their cost
  // ---------------------------------------------------------------------

  /** A non-empty sequence of known ids, each a neighbour of the one before. */
  ghost predicate IsWalk(adj: Adjacency, w: seq<string>) {
    && w != []
    && w[0] in adj
    && forall k | 0 <= k < |w| - 1 :: w[k] in adj && w[k + 1] in adj[w[k]]
  }

  /** The weight of an id: its row's duration (ids outside the map weigh nothing). */
  function WeightOf(m: EventMap, id: string): int {
    if id in m then Weight(m[id]) else 0
  }

  /** The sum of the weights of the ids of `w`, each counted once per visit. */
  function Cost(m: EventMap, w: seq<string>): int
    decreases |w|
  {
    if w == [] then 0 else Cost(m, Init(w)) + WeightOf(m, Last(w))
  }

  ghost predicate NonNegative(m: EventMap) {
    forall id | id in m :: Weight(m[id]) >= 0
  }

  /** With no negative durations, a longer prefix never costs less. */
  lemma {:induction false} CostMonotone(m: EventMap, w: seq<string>, i: nat)
    requires NonNegative(m) && i <= |w|
    ensures Cost(m, w[..i]) <= Cost(m, w)
    decreases |w| - i
  {
    if i < |w| {
      assert w[..|w|] == w;
      CostMonotone(m, w[..|w| - 1], i);
      assert w[..|w| - 1][..i] == w[..i];
    } else {
      assert w[..i] == w;
    }
  }

  /** Appending one id adds its weight. */
  lemma CostSnoc(m: EventMap, w: seq<string>, id: string)
    ensures Cost(m, w + [id]) == Cost(m, w) + WeightOf(m, id)
  {
    assert Init(w + [id]) == w;
  }

  lemma CostSingle(m: EventMap, id: string)
    ensures Cost(m, [id]) == WeightOf(m, id)
  {
    CostSnoc(m, [], id);
  }
}
