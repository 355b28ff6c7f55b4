/**
 * `findEventInfluence`: Dijkstra's algorithm with lazy deletion over the
 * parent/child graph, each node weighing its event's duration, followed by
 * the walk back along `prev` from the target.
 *
 * The search keeps `dist`, `prev`, `visited` and a `MinHeap`. Its proof
 * adds a ghost `rank`, the order in which nodes were visited, under which
 * every `prev` link points to an earlier node, so that the walk back ends.
 */
module Influence {
  import opened Wrappers
  import opened Events
  import opened Heap
  import opened InfluenceGraph

  const NoEventsMessage: string := "No events found in the database."
  const NoPathMessage: string := "No temporal path found from source to target event."
  const PathFoundMessage: string := "Shortest temporal path found from source to target event."

  function SourceMissingMessage(id: string): string {
    "Source event '" + id + "' not found."
  }

  function TargetMissingMessage(id: string): string {
    "Target event '" + id + "' not found."
  }

  /** One entry of `shortestPath`. */
  datatype PathStep = PathStep(id: string, name: string, duration: int)

  datatype InfluenceResult = InfluenceResult(
    sourceEventId: string,
    targetEventId: string,
    shortestPath: seq<PathStep>,
    totalDurationMinutes: int,
    message: string)

  function StepOf(e: Event): PathStep {
    PathStep(e.id, e.name, Weight(e))
  }

  // ---------------------------------------------------------------------
  // The search invariant
  // ---------------------------------------------------------------------

  type Dist = map<string, int>
  type Prev = map<string, string>

  /** The graph the search runs on: every neighbour is a known event, stored under its own id. */
  ghost predicate GraphShape(m: EventMap, adj: Adjacency) {
    && m.Keys == adj.Keys
    && (forall id | id in m :: m[id].id == id)
    && (forall x, y | x in adj && y in adj[x] :: y in adj)
  }

  /** Every queued item names a reached node and costs at least that node's distance. */
  ghost predicate QueueSound(heap: seq<HeapItem>, dist: Dist) {
    forall x | x in heap :: x.nodeId in dist && x.cost >= dist[x.nodeId]
  }

  /** Every reached node not yet visited has its current distance queued. */
  ghost predicate QueueComplete(heap: seq<HeapItem>, dist: Dist, visited: set<string>) {
    forall v | v in dist && v !in visited :: HeapItem(dist[v], v) in heap
  }

  /** A `prev` link leads from a visited neighbour whose distance plus this node's weight is this node's distance. */
  ghost predicate PrevLinks(m: EventMap, adj: Adjacency, dist: Dist, prev: Prev, visited: set<string>) {
    forall v | v in prev ::
      && v in dist && prev[v] in visited && prev[v] in dist && prev[v] in adj && v in adj[prev[v]]
      && dist[v] == dist[prev[v]] + WeightOf(m, v)
  }

  /**
   * The source has its own weight as distance and no `prev` link; every other
   * reached node has one. Until the source is visited nothing else is queued.
   */
  ghost predicate Rooted(m: EventMap, dist: Dist, prev: Prev, visited: set<string>, heap: seq<HeapItem>, source: string) {
    && source in dist && dist[source] == WeightOf(m, source) && source !in prev
    && (forall v | v in dist && v != source :: v in prev)
    && (source !in visited ==> prev == map[] && visited == {} && forall x | x in heap :: x.nodeId == source)
  }

  /** `rank` numbers the visited nodes below `clock`; a `prev` link of a visited node points to an earlier one. */
  ghost predicate Ranked(prev: Prev, visited: set<string>, rank: map<string, nat>, clock: nat) {
    && rank.Keys == visited
    && (forall v | v in rank :: rank[v] < clock)
    && (forall v | v in prev && v in visited :: prev[v] in rank && rank[prev[v]] < rank[v])
  }

  /** Every edge out of a visited node has been relaxed. */
  ghost predicate Relaxed(m: EventMap, adj: Adjacency, dist: Dist, visited: set<string>) {
    forall x, y | x in visited && x in dist && x in adj && y in adj[x] && y !in visited ::
      y in dist && dist[y] <= dist[x] + WeightOf(m, y)
  }

  /** A walk from the source. */
  ghost predicate FromSource(adj: Adjacency, w: seq<string>, source: string) {
    IsWalk(adj, w) && w[0] == source
  }

  /** The distance of a visited node is no more than the cost of any walk from the source to it. */
  ghost predicate Settled(m: EventMap, adj: Adjacency, dist: Dist, visited: set<string>, source: string) {
    forall w | FromSource(adj, w, source) && Last(w) in visited :: Last(w) in dist && dist[Last(w)] <= Cost(m, w)
  }

  /** The shape of the search state: what is reached, queued and linked. */
  ghost predicate Reach(m: EventMap, adj: Adjacency, source: string, target: string,
                        dist: Dist, prev: Prev, visited: set<string>, heap: seq<HeapItem>)
  {
    && GraphShape(m, adj) && target in m
    && dist.Keys <= m.Keys && visited <= dist.Keys && target !in visited
    && QueueSound(heap, dist)
    && QueueComplete(heap, dist, visited)
    && PrevLinks(m, adj, dist, prev, visited)
    && Rooted(m, dist, prev, visited, heap, source)
  }

  /** The order of the visits, and what it guarantees about distances. */
  ghost predicate Order(m: EventMap, adj: Adjacency, source: string,
                        dist: Dist, prev: Prev, visited: set<string>, rank: map<string, nat>, clock: nat)
  {
    && Ranked(prev, visited, rank, clock)
    && Relaxed(m, adj, dist, visited)
    && (NonNegative(m) ==> Settled(m, adj, dist, visited, source))
  }

  /** The invariant of the search loop. */
  ghost predicate Inv(m: EventMap, adj: Adjacency, source: string, target: string,
                      dist: Dist, prev: Prev, visited: set<string>, heap: seq<HeapItem>,
                      rank: map<string, nat>, clock: nat)
  {
    Reach(m, adj, source, target, dist, prev, visited, heap) && Order(m, adj, source, dist, prev, visited, rank, clock)
  }

  // ---------------------------------------------------------------------
  // Walks
  // ---------------------------------------------------------------------

  lemma WalkPrefix(adj: Adjacency, w: seq<string>, j: nat)
    requires IsWalk(adj, w) && 0 < j <= |w|
    ensures IsWalk(adj, w[..j])
  {
  }

  /** A walk that starts inside `visited` and ends outside it crosses out of it somewhere. */
  lemma {:induction false} CrossingOut(w: seq<string>, visited: set<string>) returns (j: nat)
    requires w != [] && w[0] in visited && Last(w) !in visited
    ensures 0 < j < |w| && w[j - 1] in visited && w[j] !in visited
    decreases |w|
  {
    if Init(w)[|w| - 2] in visited {
      j := |w| - 1;
    } else {
      j := CrossingOut(Init(w), visited);
    }
  }

  /** With no negative weights, a walk from the source costs at least the source's weight. */
  lemma SourceBound(m: EventMap, adj: Adjacency, w: seq<string>, source: string)
    requires NonNegative(m) && FromSource(adj, w, source)
    ensures WeightOf(m, source) <= Cost(m, w)
  {
    CostMonotone(m, w, 1);
    assert w[..1] == [source];
    CostSingle(m, source);
  }

  /**
   * The cheapest queued item is no costlier than any walk from the (visited)
   * source to a node not yet visited: such a walk crosses out of `visited`
   * along a relaxed edge to a node whose distance is queued.
   */
  lemma PopBound(m: EventMap, adj: Adjacency, dist: Dist, visited: set<string>, heap: seq<HeapItem>,
                 source: string, c: int, w: seq<string>)
    requires NonNegative(m) && source in visited && visited <= dist.Keys
    requires Relaxed(m, adj, dist, visited) && Settled(m, adj, dist, visited, source)
    requires QueueComplete(heap, dist, visited)
    requires forall x | x in heap :: c <= x.cost
    requires FromSource(adj, w, source) && Last(w) !in visited
    ensures c <= Cost(m, w)
  {
    var j := CrossingOut(w, visited);
    var x, y := w[j - 1], w[j];
    WalkPrefix(adj, w, j);
    WalkPrefix(adj, w, j + 1);
    assert Last(w[..j]) == x && w[..j][0] == source;
    assert dist[x] <= Cost(m, w[..j]);
    assert y in adj[x];
    assert w[..j + 1] == w[..j] + [y];
    CostSnoc(m, w[..j], y);
    CostMonotone(m, w, j + 1);
    assert HeapItem(dist[y], y) in heap;
  }

  /**
   * The popped item: when its node is not yet visited, its cost is that
   * node's distance and, with no negative weights, no walk from the source to
   * it is cheaper.
   */
  lemma PopFacts(m: EventMap, adj: Adjacency, source: string, target: string,
                 dist: Dist, prev: Prev, visited: set<string>, heap: seq<HeapItem>,
                 rank: map<string, nat>, clock: nat, top: HeapItem)
    requires Inv(m, adj, source, target, dist, prev, visited, heap, rank, clock)
    requires top in heap && forall x | x in heap :: top.cost <= x.cost
    requires top.nodeId !in visited
    ensures top.nodeId in dist && top.cost == dist[top.nodeId]
    ensures Cheapest(m, adj, source, top.nodeId, top.cost)
  {
    assert HeapItem(dist[top.nodeId], top.nodeId) in heap;
    if NonNegative(m) {
      forall w | FromSource(adj, w, source) && Last(w) == top.nodeId ensures top.cost <= Cost(m, w) {
        if source in visited {
          PopBound(m, adj, dist, visited, heap, source, top.cost, w);
        } else {
          SourceBound(m, adj, w, source);
        }
      }
    }
  }


  // ---------------------------------------------------------------------
  // Popping
  // ---------------------------------------------------------------------

  /** The queue facts after a pop, once the popped node counts as visited. */
  lemma PopQueue(heap: seq<HeapItem>, rest: seq<HeapItem>, top: HeapItem, dist: Dist, visited: set<string>)
    requires QueueSound(heap, dist) && QueueComplete(heap, dist, visited)
    requires multiset(rest) == multiset(heap) - multiset{top}
    ensures QueueSound(rest, dist) && QueueComplete(rest, dist, visited + {top.nodeId})
  {
    forall x | x in rest ensures x.nodeId in dist && x.cost >= dist[x.nodeId] {
      assert x in multiset(rest);
      assert x in multiset(heap);
    }
    forall v | v in dist && v !in visited + {top.nodeId} ensures HeapItem(dist[v], v) in rest {
      var x := HeapItem(dist[v], v);
      assert x in multiset(heap);
      assert x in multiset(rest);
    }
  }

  /** Popping an item of a node already visited keeps the invariant. */
  lemma SkipInv(m: EventMap, adj: Adjacency, source: string, target: string,
                dist: Dist, prev: Prev, visited: set<string>, heap: seq<HeapItem>, rest: seq<HeapItem>,
                rank: map<string, nat>, clock: nat, top: HeapItem)
    requires Inv(m, adj, source, target, dist, prev, visited, heap, rank, clock)
    requires multiset(rest) == multiset(heap) - multiset{top} && top.nodeId in visited
    ensures Inv(m, adj, source, target, dist, prev, visited, rest, rank, clock)
  {
    PopQueue(heap, rest, top, dist, visited);
    assert visited + {top.nodeId} == visited;
  }

  // ---------------------------------------------------------------------
  // Relaxing the edges of one node
  // ---------------------------------------------------------------------

  /** A `prev` link left as it was, with its node's distance. */
  ghost predicate KeptLink(dist0: Dist, prev0: Prev, dist: Dist, prev: Prev, v: string) {
    v in prev && v in prev0 && prev[v] == prev0[v] && v in dist0 && v in dist && dist[v] == dist0[v]
  }

  /** A `prev` link set by the relaxation from `u` to an unvisited neighbour. */
  ghost predicate NewLink(m: EventMap, adj: Adjacency, u: string, cost: int, visited: set<string>,
                          dist: Dist, prev: Prev, v: string)
  {
    v in prev && prev[v] == u && v !in visited && u in adj && v in adj[u] && v in dist && dist[v] == cost + WeightOf(m, v)
  }

  /**
   * The state of the relaxation from `u` at cost `cost` once the neighbours
   * in `done` have been handled: distances only fall, and not for visited
   * nodes; each `prev` link is kept or new; every unvisited neighbour handled
   * costs no more than through `u`; the queue still covers the distances.
   */
  ghost predicate Partial(m: EventMap, adj: Adjacency, u: string, cost: int, visited: set<string>,
                          dist0: Dist, prev0: Prev, dist: Dist, prev: Prev, heap: seq<HeapItem>, done: seq<string>)
  {
    && dist.Keys <= adj.Keys
    && (forall v | v in dist0 :: v in dist && dist[v] <= dist0[v])
    && (forall v | v in visited && v in dist0 :: dist[v] == dist0[v])
    && (forall v | v in dist :: v in dist0 || v in prev)
    && (forall v | v in prev0 :: v in prev)
    && (forall v | v in prev :: KeptLink(dist0, prev0, dist, prev, v) || NewLink(m, adj, u, cost, visited, dist, prev, v))
    && (forall y | y in done && y !in visited :: y in dist && dist[y] <= cost + WeightOf(m, y))
    && QueueSound(heap, dist)
    && QueueComplete(heap, dist, visited)
  }

  /** The relaxation from `u` is over: every neighbour has been handled. */
  ghost predicate Expanded(m: EventMap, adj: Adjacency, u: string, cost: int, visited: set<string>,
                           dist0: Dist, prev0: Prev, dist: Dist, prev: Prev, heap: seq<HeapItem>)
  {
    u in adj && Partial(m, adj, u, cost, visited, dist0, prev0, dist, prev, heap, adj[u])
  }

  /** Nothing handled yet. */
  lemma PartialStart(m: EventMap, adj: Adjacency, u: string, cost: int, visited: set<string>,
                     dist0: Dist, prev0: Prev, heap: seq<HeapItem>)
    requires dist0.Keys <= adj.Keys && prev0.Keys <= dist0.Keys
    requires QueueSound(heap, dist0) && QueueComplete(heap, dist0, visited)
    ensures Partial(m, adj, u, cost, visited, dist0, prev0, dist0, prev0, heap, [])
  {
    assert forall v | v in prev0 :: KeptLink(dist0, prev0, dist0, prev0, v);
  }

  /** A neighbour that is visited, or already no costlier than through `u`, is left alone. */
  lemma SkipNeighbour(m: EventMap, adj: Adjacency, u: string, cost: int, visited: set<string>,
                      dist0: Dist, prev0: Prev, dist: Dist, prev: Prev, heap: seq<HeapItem>, done: seq<string>, y: string)
    requires Partial(m, adj, u, cost, visited, dist0, prev0, dist, prev, heap, done)
    requires y in visited || (y in dist && dist[y] <= cost + WeightOf(m, y))
    ensures Partial(m, adj, u, cost, visited, dist0, prev0, dist, prev, heap, done + [y])
  {
  }

  /** Giving an unvisited neighbour the cost through `u`, with `u` as its link and a queued item. */
  lemma RelaxNeighbour(m: EventMap, adj: Adjacency, u: string, cost: int, visited: set<string>,
                       dist0: Dist, prev0: Prev, dist: Dist, prev: Prev, heap: seq<HeapItem>, heap': seq<HeapItem>,
                       done: seq<string>, y: string)
    requires Partial(m, adj, u, cost, visited, dist0, prev0, dist, prev, heap, done)
    requires u in adj && y in adj[u] && y in adj && y !in visited
    requires y !in dist || cost + WeightOf(m, y) < dist[y]
    requires multiset(heap') == multiset(heap) + multiset{HeapItem(cost + WeightOf(m, y), y)}
    ensures Partial(m, adj, u, cost, visited, dist0, prev0,
                    dist[y := cost + WeightOf(m, y)], prev[y := u], heap', done + [y])
  {
    var d := dist[y := cost + WeightOf(m, y)];
    QueuePushed(heap, heap', dist, visited, HeapItem(d[y], y));
    RelaxLinks(m, adj, u, cost, visited, dist0, prev0, dist, prev, y);
  }

  /** The links after setting the link of `y` to `u`: each is kept or new. */
  lemma RelaxLinks(m: EventMap, adj: Adjacency, u: string, cost: int, visited: set<string>,
                   dist0: Dist, prev0: Prev, dist: Dist, prev: Prev, y: string)
    requires forall v | v in prev :: KeptLink(dist0, prev0, dist, prev, v) || NewLink(m, adj, u, cost, visited, dist, prev, v)
    requires u in adj && y in adj[u] && y !in visited
    ensures var d, p := dist[y := cost + WeightOf(m, y)], prev[y := u];
      forall v | v in p :: KeptLink(dist0, prev0, d, p, v) || NewLink(m, adj, u, cost, visited, d, p, v)
  {
    var d, p := dist[y := cost + WeightOf(m, y)], prev[y := u];
    forall v | v in p ensures KeptLink(dist0, prev0, d, p, v) || NewLink(m, adj, u, cost, visited, d, p, v) {
      if v != y {
        LinkKept(m, adj, u, cost, visited, dist0, prev0, dist, prev, v, y, cost + WeightOf(m, y));
      } else {
        assert NewLink(m, adj, u, cost, visited, d, p, v);
      }
    }
  }

  /** Setting another node's distance and link leaves the link of `v` as it was. */
  lemma LinkKept(m: EventMap, adj: Adjacency, u: string, cost: int, visited: set<string>,
                 dist0: Dist, prev0: Prev, dist: Dist, prev: Prev, v: string, y: string, d: int)
    requires v != y
    requires KeptLink(dist0, prev0, dist, prev, v) || NewLink(m, adj, u, cost, visited, dist, prev, v)
    ensures KeptLink(dist0, prev0, dist[y := d], prev[y := u], v) || NewLink(m, adj, u, cost, visited, dist[y := d], prev[y := u], v)
  {
  }

  /** Lowering one unvisited node's distance to that of a newly queued item keeps the queue facts. */
  lemma QueuePushed(heap: seq<HeapItem>, heap': seq<HeapItem>, dist: Dist, visited: set<string>, item: HeapItem)
    requires multiset(heap') == multiset(heap) + multiset{item}
    requires QueueSound(heap, dist) && QueueComplete(heap, dist, visited)
    requires item.nodeId !in visited
    requires item.nodeId !in dist || item.cost < dist[item.nodeId]
    ensures QueueSound(heap', dist[item.nodeId := item.cost])
    ensures QueueComplete(heap', dist[item.nodeId := item.cost], visited)
  {
    var d := dist[item.nodeId := item.cost];
    forall x | x in heap' ensures x.nodeId in d && x.cost >= d[x.nodeId] {
      assert x in multiset(heap');
      if x != item {
        assert x in multiset(heap);
      }
    }
    forall v | v in d && v !in visited ensures HeapItem(d[v], v) in heap' {
      if v != item.nodeId {
        assert HeapItem(dist[v], v) in multiset(heap);
        assert HeapItem(d[v], v) in multiset(heap');
      } else {
        assert item in multiset(heap');
      }
    }
  }

  /**
   * The inner `for` loop over `adjacency.get(nodeId)`: each neighbour not
   * yet visited gets the cost through `u` when it has none or a higher one,
   * with `u` as its `prev` and a queued item.
   */
  method Expand(m: EventMap, adj: Adjacency, u: string, cost: int, visited: set<string>,
                dist0: Dist, prev0: Prev, pq: MinHeap)
    returns (dist: Dist, prev: Prev)
    requires GraphShape(m, adj) && u in adj && dist0.Keys <= adj.Keys && prev0.Keys <= dist0.Keys
    requires pq.Valid() && QueueSound(pq.heap, dist0) && QueueComplete(pq.heap, dist0, visited)
    modifies pq
    ensures pq.Valid()
    ensures Expanded(m, adj, u, cost, visited, dist0, prev0, dist, prev, pq.heap)
  {
    dist, prev := dist0, prev0;
    var neighbors := adj[u];
    PartialStart(m, adj, u, cost, visited, dist0, prev0, pq.heap);
    for j := 0 to |neighbors|
      invariant pq.Valid()
      invariant Partial(m, adj, u, cost, visited, dist0, prev0, dist, prev, pq.heap, neighbors[..j])
    {
      var neighborId := neighbors[j];
      assert neighbors[..j + 1] == neighbors[..j] + [neighborId];
      if neighborId in visited {
        SkipNeighbour(m, adj, u, cost, visited, dist0, prev0, dist, prev, pq.heap, neighbors[..j], neighborId);
        continue;
      }
      var neighborEvent := m[neighborId];
      var newCost := cost + Weight(neighborEvent);
      if neighborId !in dist || newCost < dist[neighborId] {
        ghost var heap := pq.heap;
        pq.Push(HeapItem(newCost, neighborId));
        RelaxNeighbour(m, adj, u, cost, visited, dist0, prev0, dist, prev, heap, pq.heap, neighbors[..j], neighborId);
        dist := dist[neighborId := newCost];
        prev := prev[neighborId := u];
      } else {
        SkipNeighbour(m, adj, u, cost, visited, dist0, prev0, dist, prev, pq.heap, neighbors[..j], neighborId);
      }
    }
    assert neighbors[..|neighbors|] == neighbors;
  }

  // ---------------------------------------------------------------------
  // Visiting keeps the invariant
  // ---------------------------------------------------------------------

  lemma VisitPrev(m: EventMap, adj: Adjacency, u: string, cost: int, visited0: set<string>,
                  dist0: Dist, prev0: Prev, dist: Dist, prev: Prev, heap: seq<HeapItem>)
    requires PrevLinks(m, adj, dist0, prev0, visited0)
    requires u in dist0 && dist0[u] == cost
    requires Expanded(m, adj, u, cost, visited0 + {u}, dist0, prev0, dist, prev, heap)
    ensures PrevLinks(m, adj, dist, prev, visited0 + {u})
  {
    var visited := visited0 + {u};
    forall v | v in prev
      ensures v in dist && prev[v] in visited && prev[v] in dist && prev[v] in adj && v in adj[prev[v]]
      ensures dist[v] == dist[prev[v]] + WeightOf(m, v)
    {
      if KeptLink(dist0, prev0, dist, prev, v) {
        assert prev0[v] in visited0;
      } else {
        assert NewLink(m, adj, u, cost, visited, dist, prev, v);
      }
    }
  }

  lemma VisitRooted(m: EventMap, adj: Adjacency, u: string, cost: int, visited0: set<string>,
                    dist0: Dist, prev0: Prev, heap0: seq<HeapItem>, dist: Dist, prev: Prev, heap: seq<HeapItem>,
                    source: string)
    requires Rooted(m, dist0, prev0, visited0, heap0, source)
    requires HeapItem(cost, u) in heap0
    requires Expanded(m, adj, u, cost, visited0 + {u}, dist0, prev0, dist, prev, heap)
    ensures Rooted(m, dist, prev, visited0 + {u}, heap, source)
  {
    var visited := visited0 + {u};
    assert source in visited;
    assert !NewLink(m, adj, u, cost, visited, dist, prev, source);
    assert !KeptLink(dist0, prev0, dist, prev, source);
    forall v | v in dist && v != source ensures v in prev {
      if v in dist0 {
        assert v in prev0;
      }
    }
  }

  lemma VisitRanked(m: EventMap, adj: Adjacency, u: string, cost: int, visited0: set<string>,
                    dist0: Dist, prev0: Prev, dist: Dist, prev: Prev, heap: seq<HeapItem>,
                    rank: map<string, nat>, clock: nat)
    requires PrevLinks(m, adj, dist0, prev0, visited0) && Ranked(prev0, visited0, rank, clock)
    requires u !in visited0
    requires Expanded(m, adj, u, cost, visited0 + {u}, dist0, prev0, dist, prev, heap)
    ensures Ranked(prev, visited0 + {u}, rank[u := clock], clock + 1)
  {
    var visited := visited0 + {u};
    var rank' := rank[u := clock];
    forall v | v in prev && v in visited ensures prev[v] in rank' && rank'[prev[v]] < rank'[v] {
      assert KeptLink(dist0, prev0, dist, prev, v);
      assert prev0[v] in visited0;
    }
  }

  lemma VisitRelaxed(m: EventMap, adj: Adjacency, u: string, cost: int, visited0: set<string>,
                     dist0: Dist, prev0: Prev, dist: Dist, prev: Prev, heap: seq<HeapItem>)
    requires Relaxed(m, adj, dist0, visited0) && visited0 <= dist0.Keys
    requires u in dist0 && dist0[u] == cost
    requires Expanded(m, adj, u, cost, visited0 + {u}, dist0, prev0, dist, prev, heap)
    ensures Relaxed(m, adj, dist, visited0 + {u})
  {
    var visited := visited0 + {u};
    forall x, y | x in visited && x in dist && x in adj && y in adj[x] && y !in visited
      ensures y in dist && dist[y] <= dist[x] + WeightOf(m, y)
    {
      if x != u {
        assert y in dist0 && dist0[y] <= dist0[x] + WeightOf(m, y);
      }
    }
  }

  lemma VisitSettled(m: EventMap, adj: Adjacency, u: string, cost: int, visited0: set<string>,
                     dist0: Dist, prev0: Prev, dist: Dist, prev: Prev, heap: seq<HeapItem>, source: string)
    requires Settled(m, adj, dist0, visited0, source) && visited0 <= dist0.Keys
    requires u in dist0 && dist0[u] == cost
    requires NonNegative(m) && Cheapest(m, adj, source, u, cost)
    requires Expanded(m, adj, u, cost, visited0 + {u}, dist0, prev0, dist, prev, heap)
    ensures Settled(m, adj, dist, visited0 + {u}, source)
  {
    forall w | FromSource(adj, w, source) && Last(w) in visited0 + {u} ensures Last(w) in dist && dist[Last(w)] <= Cost(m, w) {
      if Last(w) != u {
        assert dist0[Last(w)] <= Cost(m, w);
      }
    }
  }

  /** Visiting the popped node keeps the shape of the state. */
  lemma VisitReach(m: EventMap, adj: Adjacency, source: string, target: string,
                   dist0: Dist, prev0: Prev, visited0: set<string>, heap0: seq<HeapItem>, top: HeapItem,
                   dist: Dist, prev: Prev, heap: seq<HeapItem>)
    requires Reach(m, adj, source, target, dist0, prev0, visited0, heap0)
    requires top in heap0 && top.nodeId in dist0 && top.cost == dist0[top.nodeId]
    requires top.nodeId !in visited0 && top.nodeId != target
    requires Expanded(m, adj, top.nodeId, top.cost, visited0 + {top.nodeId}, dist0, prev0, dist, prev, heap)
    ensures Reach(m, adj, source, target, dist, prev, visited0 + {top.nodeId}, heap)
  {
    var u, cost := top.nodeId, top.cost;
    VisitPrev(m, adj, u, cost, visited0, dist0, prev0, dist, prev, heap);
    VisitRooted(m, adj, u, cost, visited0, dist0, prev0, heap0, dist, prev, heap, source);
  }

  /** Visiting the popped node keeps the order facts. */
  lemma VisitOrder(m: EventMap, adj: Adjacency, source: string,
                   dist0: Dist, prev0: Prev, visited0: set<string>, rank: map<string, nat>, clock: nat, top: HeapItem,
                   dist: Dist, prev: Prev, heap: seq<HeapItem>)
    requires Order(m, adj, source, dist0, prev0, visited0, rank, clock)
    requires PrevLinks(m, adj, dist0, prev0, visited0) && visited0 <= dist0.Keys
    requires top.nodeId in dist0 && top.cost == dist0[top.nodeId] && top.nodeId !in visited0
    requires Cheapest(m, adj, source, top.nodeId, top.cost)
    requires Expanded(m, adj, top.nodeId, top.cost, visited0 + {top.nodeId}, dist0, prev0, dist, prev, heap)
    ensures Order(m, adj, source, dist, prev, visited0 + {top.nodeId}, rank[top.nodeId := clock], clock + 1)
  {
    var u, cost := top.nodeId, top.cost;
    VisitRanked(m, adj, u, cost, visited0, dist0, prev0, dist, prev, heap, rank, clock);
    VisitRelaxed(m, adj, u, cost, visited0, dist0, prev0, dist, prev, heap);
    if NonNegative(m) {
      VisitSettled(m, adj, u, cost, visited0, dist0, prev0, dist, prev, heap, source);
    }
  }

  /** Visiting the popped node and relaxing its edges keeps the invariant. */
  lemma VisitInv(m: EventMap, adj: Adjacency, source: string, target: string,
                 dist0: Dist, prev0: Prev, visited0: set<string>, heap0: seq<HeapItem>,
                 rank: map<string, nat>, clock: nat, top: HeapItem,
                 dist: Dist, prev: Prev, heap: seq<HeapItem>)
    requires Inv(m, adj, source, target, dist0, prev0, visited0, heap0, rank, clock)
    requires top in heap0 && (forall x | x in heap0 :: top.cost <= x.cost)
    requires top.nodeId !in visited0 && top.nodeId != target
    requires Expanded(m, adj, top.nodeId, top.cost, visited0 + {top.nodeId}, dist0, prev0, dist, prev, heap)
    ensures Inv(m, adj, source, target, dist, prev, visited0 + {top.nodeId}, heap, rank[top.nodeId := clock], clock + 1)
  {
    PopFacts(m, adj, source, target, dist0, prev0, visited0, heap0, rank, clock, top);
    VisitReach(m, adj, source, target, dist0, prev0, visited0, heap0, top, dist, prev, heap);
    VisitOrder(m, adj, source, dist0, prev0, visited0, rank, clock, top, dist, prev, heap);
  }

  // ---------------------------------------------------------------------
  // The search
  // ---------------------------------------------------------------------

  /** A set of nodes that no edge leaves contains every walk that starts in it. */
  lemma {:induction false} ClosedWalk(adj: Adjacency, visited: set<string>, w: seq<string>)
    requires IsWalk(adj, w) && w[0] in visited
    requires forall x, y | x in visited && x in adj && y in adj[x] :: y in visited
    ensures Last(w) in visited
    decreases |w|
  {
    if |w| > 1 {
      WalkPrefix(adj, w, |w| - 1);
      ClosedWalk(adj, visited, Init(w));
      assert w[|w| - 1] in adj[w[|w| - 2]];
    }
  }

  /** With the queue empty, every reached node is visited and no edge leaves them: no walk from the source reaches the target. */
  lemma Exhausted(m: EventMap, adj: Adjacency, source: string, target: string, dist: Dist, visited: set<string>)
    requires QueueComplete([], dist, visited) && Relaxed(m, adj, dist, visited)
    requires visited <= dist.Keys && source in dist && target !in visited
    ensures source in visited
    ensures Unreachable(adj, source, target)
  {
    assert dist.Keys <= visited;
    forall x, y | x in visited && x in adj && y in adj[x] ensures y in visited {
      assert x in dist;
    }
    forall w | FromSource(adj, w, source) ensures Last(w) != target {
      ClosedWalk(adj, visited, w);
    }
  }

  /** The starting state: the source at its own weight, queued alone. */
  lemma StartInv(m: EventMap, adj: Adjacency, source: string, target: string)
    requires GraphShape(m, adj) && source in m && target in m
    ensures var dist := map[source := Weight(m[source])];
      Inv(m, adj, source, target, dist, map[], {}, [HeapItem(Weight(m[source]), source)], map[], 0)
  {
  }

  /**
   * The loop body for a popped node not yet visited: it joins `visited` and
   * its edges are relaxed at the popped cost.
   */
  method VisitNode(m: EventMap, adj: Adjacency, source: string, target: string, top: HeapItem,
                   dist0: Dist, prev0: Prev, visited0: set<string>, pq: MinHeap,
                   ghost heap0: seq<HeapItem>, ghost rank: map<string, nat>, ghost clock: nat)
    returns (dist: Dist, prev: Prev, visited: set<string>)
    requires Inv(m, adj, source, target, dist0, prev0, visited0, heap0, rank, clock)
    requires top in heap0 && (forall x | x in heap0 :: top.cost <= x.cost)
    requires top.nodeId !in visited0 && top.nodeId != target
    requires pq.Valid() && multiset(pq.heap) == multiset(heap0) - multiset{top}
    modifies pq
    ensures pq.Valid()
    ensures visited == visited0 + {top.nodeId} && top.nodeId in m
    ensures Inv(m, adj, source, target, dist, prev, visited, pq.heap, rank[top.nodeId := clock], clock + 1)
  {
    var u := top.nodeId;
    PopFacts(m, adj, source, target, dist0, prev0, visited0, heap0, rank, clock, top);
    PopQueue(heap0, pq.heap, top, dist0, visited0);
    visited := visited0 + {u};
    dist, prev := Expand(m, adj, u, top.cost, visited, dist0, prev0, pq);
    VisitInv(m, adj, source, target, dist0, prev0, visited0, heap0, rank, clock, top, dist, prev, pq.heap);
  }

  /** What the search reports when the target is popped. */
  lemma FoundFacts(m: EventMap, adj: Adjacency, source: string, target: string,
                   dist: Dist, prev: Prev, visited: set<string>, heap: seq<HeapItem>,
                   rank: map<string, nat>, clock: nat, top: HeapItem)
    requires Inv(m, adj, source, target, dist, prev, visited, heap, rank, clock)
    requires top in heap && (forall x | x in heap :: top.cost <= x.cost) && top.nodeId == target
    ensures PrevLinks(m, adj, dist, prev, visited) && Ranked(prev, visited, rank, clock) && dist.Keys <= m.Keys
    ensures target in dist && target !in visited && top.cost == dist[target]
    ensures source in dist && dist[source] == WeightOf(m, source) && source !in prev
    ensures forall v | v in dist && v != source :: v in prev
    ensures Cheapest(m, adj, source, target, top.cost)
    ensures source == target ==> top.cost == WeightOf(m, source) && prev == map[]
  {
    PopFacts(m, adj, source, target, dist, prev, visited, heap, rank, clock, top);
  }

  /** What the search reports when the queue runs dry. */
  lemma EndFacts(m: EventMap, adj: Adjacency, source: string, target: string,
                 dist: Dist, prev: Prev, visited: set<string>, rank: map<string, nat>, clock: nat)
    requires Inv(m, adj, source, target, dist, prev, visited, [], rank, clock)
    ensures PrevLinks(m, adj, dist, prev, visited) && Ranked(prev, visited, rank, clock) && dist.Keys <= m.Keys
    ensures source != target && Unreachable(adj, source, target)
  {
    Exhausted(m, adj, source, target, dist, visited);
  }

  /** Visiting one more known node leaves fewer to visit. */
  lemma Shrinks(keys: set<string>, visited: set<string>, u: string)
    requires u in keys && u !in visited
    ensures |keys - (visited + {u})| < |keys - visited|
  {
    var rest := keys - (visited + {u});
    assert keys - visited == rest + {u} && u !in rest;
  }

  /**
   * The `while (pq.size > 0)` loop. It gives the popped cost of the target,
   * or none once the queue runs dry, with the final `dist` and `prev`.
   */
  method Search(m: EventMap, adj: Adjacency, source: string, target: string)
    returns (cost: Option<int>, dist: Dist, prev: Prev,
             visited: set<string>, ghost rank: map<string, nat>, ghost clock: nat)
    requires GraphShape(m, adj) && source in m && target in m
    ensures PrevLinks(m, adj, dist, prev, visited) && Ranked(prev, visited, rank, clock) && dist.Keys <= m.Keys
    ensures cost.None? ==> source != target && Unreachable(adj, source, target)
    ensures cost.Some? ==>
      && target in dist && target !in visited && cost.value == dist[target]
      && source in dist && dist[source] == WeightOf(m, source) && source !in prev
      && (forall v | v in dist && v != source :: v in prev)
      && Cheapest(m, adj, source, target, cost.value)
    ensures source == target ==> cost == Some(WeightOf(m, source)) && prev == map[]
  {
    var sourceDuration := Weight(m[source]);
    dist := map[source := sourceDuration];
    prev := map[];
    visited := {};
    rank := map[];
    clock := 0;
    var pq := new MinHeap();
    pq.Push(HeapItem(sourceDuration, source));
    assert pq.heap == [HeapItem(sourceDuration, source)] by {
      assert HeapItem(sourceDuration, source) in multiset(pq.heap);
    }
    StartInv(m, adj, source, target);
    while pq.Size() > 0
      invariant fresh(pq) && pq.Valid()
      invariant Inv(m, adj, source, target, dist, prev, visited, pq.heap, rank, clock)
      decreases |m.Keys - visited|, pq.Size()
    {
      ghost var heap0 := pq.heap;
      var popped := pq.Pop();
      var top := popped.value;
      if top.nodeId == target {
        FoundFacts(m, adj, source, target, dist, prev, visited, heap0, rank, clock, top);
        cost := Some(top.cost);
        return;
      }
      if top.nodeId in visited {
        SkipInv(m, adj, source, target, dist, prev, visited, heap0, pq.heap, rank, clock, top);
        continue;
      }
      ghost var visited0 := visited;
      dist, prev, visited := VisitNode(m, adj, source, target, top, dist, prev, visited, pq, heap0, rank, clock);
      Shrinks(m.Keys, visited0, top.nodeId);
      rank := rank[top.nodeId := clock];
      clock := clock + 1;
    }
    EndFacts(m, adj, source, target, dist, prev, visited, rank, clock);
    cost := None;
  }

  // ---------------------------------------------------------------------
  // The walk back
  // ---------------------------------------------------------------------

  /**
   * The state of the walk back from `target`: `path` shows the events of
   * `ids`, which is empty exactly before the first step; after it, `ids` is
   * a walk ending at the target whose cost plus the distance before its first
   * node is the target's distance, and `current` is that node's link.
   */
  ghost predicate Trail(m: EventMap, adj: Adjacency, dist: Dist, prev: Prev, target: string,
                        path: seq<PathStep>, ids: seq<string>, current: Option<string>)
  {
    && (current.Some? ==> current.value in dist)
    && |path| == |ids| && (forall k | 0 <= k < |ids| :: ids[k] in m && path[k] == StepOf(m[ids[k]]))
    && (ids == [] <==> current == Some(target))
    && (ids != [] ==>
      && target != "" && target in dist
      && IsWalk(adj, ids) && Last(ids) == target && ids[0] in dist
      && Cost(m, ids) + dist[ids[0]] - WeightOf(m, ids[0]) == dist[target]
      && (current.Some? ==> ids[0] in prev && prev[ids[0]] == current.value)
      && (current.None? ==> ids[0] !in prev || prev[ids[0]] == ""))
    && (target !in prev && ids != [] ==> ids == [target] && current.None?)
  }

  /** Walking back ends: each step goes to a node visited earlier. */
  function Remaining(rank: map<string, nat>, clock: nat, current: Option<string>): nat {
    if !Truthy(current) then 0
    else if current.value in rank then rank[current.value] + 1
    else clock + 1
  }

  /** Putting an id in front adds its weight. */
  lemma {:induction false} CostCons(m: EventMap, a: string, w: seq<string>)
    ensures Cost(m, [a] + w) == WeightOf(m, a) + Cost(m, w)
    decreases |w|
  {
    if w == [] {
      assert [a] + w == [a];
      CostSingle(m, a);
    } else {
      assert Init([a] + w) == [a] + Init(w);
      CostCons(m, a, Init(w));
    }
  }

  /** A node in front of a walk starting at one of its neighbours. */
  lemma WalkCons(adj: Adjacency, here: string, ids: seq<string>)
    requires IsWalk(adj, ids) && here in adj && ids[0] in adj[here]
    ensures IsWalk(adj, [here] + ids) && Last([here] + ids) == Last(ids)
  {
    var ids' := [here] + ids;
    assert forall k | 0 < k < |ids'| :: ids'[k] == ids[k - 1];
  }

  /** A step of the walk back goes to a node visited earlier, or ends. */
  lemma RemainingFalls(m: EventMap, adj: Adjacency, dist: Dist, prev: Prev,
                       visited: set<string>, rank: map<string, nat>, clock: nat, here: string)
    requires PrevLinks(m, adj, dist, prev, visited) && Ranked(prev, visited, rank, clock)
    requires here != ""
    ensures var next := if here in prev && prev[here] != "" then Some(prev[here]) else None;
      Remaining(rank, clock, next) < Remaining(rank, clock, Some(here))
  {
    if here in prev {
      assert prev[here] in visited;
    }
  }

  /** One step of the walk back keeps the trail. */
  lemma TrailStep(m: EventMap, adj: Adjacency, dist: Dist, prev: Prev, target: string, visited: set<string>,
                  path: seq<PathStep>, ids: seq<string>, here: string)
    requires GraphShape(m, adj) && dist.Keys <= m.Keys
    requires PrevLinks(m, adj, dist, prev, visited)
    requires Trail(m, adj, dist, prev, target, path, ids, Some(here)) && here != "" && target !in visited
    ensures var next := if here in prev && prev[here] != "" then Some(prev[here]) else None;
      Trail(m, adj, dist, prev, target, [StepOf(m[here])] + path, [here] + ids, next)
  {
    var ids' := [here] + ids;
    assert ids'[0] == here;
    if ids != [] {
      CostCons(m, here, ids);
      WalkCons(adj, here, ids);
    } else {
      assert ids' == [target];
      CostSingle(m, target);
    }
  }

  /**
   * The walk back of `while (current)` from the target along `prev`, which
   * stops at a node without a link or with an empty one.
   */
  method Reconstruct(m: EventMap, adj: Adjacency, dist: Dist, prev: Prev, target: string,
                     visited: set<string>, ghost rank: map<string, nat>, ghost clock: nat)
    returns (path: seq<PathStep>, ghost ids: seq<string>)
    requires GraphShape(m, adj) && dist.Keys <= m.Keys && target in dist && target !in visited
    requires PrevLinks(m, adj, dist, prev, visited) && Ranked(prev, visited, rank, clock)
    ensures |path| == |ids| && forall k | 0 <= k < |ids| :: ids[k] in m && path[k] == StepOf(m[ids[k]])
    ensures target == "" <==> ids == []
    ensures ids != [] ==>
      && IsWalk(adj, ids) && Last(ids) == target && ids[0] in dist
      && Cost(m, ids) + dist[ids[0]] - WeightOf(m, ids[0]) == dist[target]
      && (ids[0] !in prev || prev[ids[0]] == "")
    ensures target != "" && target !in prev ==> ids == [target]
    ensures target == "" <==> path == []
    ensures target != "" ==> Last(path) == StepOf(m[target])
  {
    path := [];
    ids := [];
    var current: Option<string> := Some(target);
    while Truthy(current)
      invariant Trail(m, adj, dist, prev, target, path, ids, current)
      decreases Remaining(rank, clock, current)
    {
      var here := current.value;
      TrailStep(m, adj, dist, prev, target, visited, path, ids, here);
      RemainingFalls(m, adj, dist, prev, visited, rank, clock, here);
      var evt := m[here];
      path := [StepOf(evt)] + path;
      ids := [here] + ids;
      current := if here in prev && prev[here] != "" then Some(prev[here]) else None;
    }
  }

  // ---------------------------------------------------------------------
  // findEventInfluence
  // ---------------------------------------------------------------------

  function Empty(sourceId: string, targetId: string, message: string): InfluenceResult {
    InfluenceResult(sourceId, targetId, [], 0, message)
  }

  /** The two outcomes of a search carry different messages. */
  lemma OutcomesDistinct()
    ensures NoPathMessage != PathFoundMessage
  {
    assert |NoPathMessage| == 51 && |PathFoundMessage| == 57;
  }

  /** No walk of the graph leads from `source` to `target`. */
  ghost predicate Unreachable(adj: Adjacency, source: string, target: string) {
    forall w | FromSource(adj, w, source) :: Last(w) != target
  }

  /** `path` shows the events of `ids`, one step each. */
  ghost predicate Shows(m: EventMap, path: seq<PathStep>, ids: seq<string>) {
    |ids| == |path| && forall k | 0 <= k < |ids| :: ids[k] in m && path[k] == StepOf(m[ids[k]])
  }

  /** With no negative durations, no walk from `source` to `target` costs less than `total`. */
  ghost predicate Cheapest(m: EventMap, adj: Adjacency, source: string, target: string, total: int) {
    NonNegative(m) ==> forall w | FromSource(adj, w, source) && Last(w) == target :: total <= Cost(m, w)
  }

  /**
   * A found path: it shows the nodes of a walk of the graph ending at the
   * target; when no event has an empty id the walk starts at the source and
   * the total is its cost; with no negative durations no walk is cheaper.
   */
  ghost predicate FoundPath(m: EventMap, adj: Adjacency, source: string, target: string,
                            r: InfluenceResult, ids: seq<string>)
  {
    && r == InfluenceResult(source, target, r.shortestPath, r.totalDurationMinutes, PathFoundMessage)
    && Shows(m, r.shortestPath, ids)
    && (target != "" ==> IsWalk(adj, ids) && Last(ids) == target)
    && ("" !in m ==> ids != [] && ids[0] == source && r.totalDurationMinutes == Cost(m, ids))
    && Cheapest(m, adj, source, target, r.totalDurationMinutes)
  }

  /**
   * Dijkstra from `sourceId` and the walk back from `targetId`, both known
   * events: either no path, when no walk leads from the source to the
   * target, or a found path. From an event to itself the path is that event
   * alone, at its own duration.
   */
  method ShortestPath(m: EventMap, adj: Adjacency, sourceId: string, targetId: string)
    returns (r: InfluenceResult, ghost ids: seq<string>)
    requires GraphShape(m, adj) && sourceId in m && targetId in m
    ensures r == Empty(sourceId, targetId, NoPathMessage) <==> Unreachable(adj, sourceId, targetId)
    ensures !Unreachable(adj, sourceId, targetId) ==> FoundPath(m, adj, sourceId, targetId, r, ids)
    ensures sourceId == targetId ==>
      && r.totalDurationMinutes == WeightOf(m, sourceId)
      && (sourceId != "" ==> r.shortestPath == [StepOf(m[sourceId])])
  {
    OutcomesDistinct();
    var cost, dist, prev, visited, rank, clock := Search(m, adj, sourceId, targetId);
    if cost.None? {
      return Empty(sourceId, targetId, NoPathMessage), [];
    }
    ghost var w := PrevChain(m, adj, dist, prev, visited, rank, clock, sourceId, targetId);
    var path;
    path, ids := Reconstruct(m, adj, dist, prev, targetId, visited, rank, clock);
    r := InfluenceResult(sourceId, targetId, path, cost.value, PathFoundMessage);
    if "" !in m && ids != [] {
      assert ids[0] !in prev by {
        assert forall v | v in prev :: prev[v] != "";
      }
    }
  }

  /** A walk ending in a neighbour of its last node. */
  lemma WalkSnoc(adj: Adjacency, w: seq<string>, v: string)
    requires IsWalk(adj, w) && Last(w) in adj && v in adj[Last(w)]
    ensures IsWalk(adj, w + [v]) && (w + [v])[0] == w[0] && Last(w + [v]) == v
  {
    var w' := w + [v];
    assert forall k | 0 <= k < |w| :: w'[k] == w[k];
  }

  /** Following `prev` back from a reached node leads to the source: every reached node is reachable. */
  lemma {:induction false} PrevChain(m: EventMap, adj: Adjacency, dist: Dist, prev: Prev,
                                     visited: set<string>, rank: map<string, nat>, clock: nat,
                                     source: string, v: string)
    returns (w: seq<string>)
    requires GraphShape(m, adj) && dist.Keys <= m.Keys
    requires PrevLinks(m, adj, dist, prev, visited) && Ranked(prev, visited, rank, clock)
    requires source in dist && source !in prev && forall u | u in dist && u != source :: u in prev
    requires v in dist
    ensures FromSource(adj, w, source) && Last(w) == v
    decreases if v in rank then rank[v] else clock
  {
    if v == source {
      w := [source];
    } else {
      var p := prev[v];
      assert p in rank && rank[p] < clock;
      var w0 := PrevChain(m, adj, dist, prev, visited, rank, clock, source, p);
      WalkSnoc(adj, w0, v);
      w := w0 + [v];
    }
  }

  /**
   * `findEventInfluence` over the rows `getAllForGraph` returns: the early
   * exits for no rows, an unknown source and then an unknown target, and
   * otherwise the shortest path over the graph built from the rows.
   */
  method FindEventInfluence(allEvents: seq<Event>, sourceId: string, targetId: string)
    returns (r: InfluenceResult, ghost ids: seq<string>)
    ensures allEvents == [] ==> r == Empty(sourceId, targetId, NoEventsMessage)
    ensures allEvents != [] && sourceId !in Ids(allEvents) ==>
      r == Empty(sourceId, targetId, SourceMissingMessage(sourceId))
    ensures allEvents != [] && sourceId in Ids(allEvents) && targetId !in Ids(allEvents) ==>
      r == Empty(sourceId, targetId, TargetMissingMessage(targetId))
    ensures allEvents != [] && sourceId in Ids(allEvents) && targetId in Ids(allEvents) ==>
      var m, adj := EventMapOf(allEvents), AdjacencyOf(allEvents);
      && (r == Empty(sourceId, targetId, NoPathMessage) <==> Unreachable(adj, sourceId, targetId))
      && (!Unreachable(adj, sourceId, targetId) ==> FoundPath(m, adj, sourceId, targetId, r, ids))
      && (sourceId == targetId ==>
            && r.totalDurationMinutes == Weight(m[sourceId])
            && (sourceId != "" ==> r.shortestPath == [StepOf(m[sourceId])]))
  {
    if |allEvents| == 0 {
      return Empty(sourceId, targetId, NoEventsMessage), [];
    }
    var eventMap, adjacency := BuildGraph(allEvents);
    if sourceId !in eventMap {
      return Empty(sourceId, targetId, SourceMissingMessage(sourceId)), [];
    }
    if targetId !in eventMap {
      return Empty(sourceId, targetId, TargetMissingMessage(targetId)), [];
    }
    NeighboursKnown(allEvents);
    r, ids := ShortestPath(eventMap, adjacency, sourceId, targetId);
  }
}
