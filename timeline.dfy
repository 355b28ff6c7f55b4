/**
 * `buildTree` of the timeline service: every row becomes a node holding
 * seven of its columns and a list of children, and each row whose parent id
 * is a known id is appended to that parent's children. The nodes are shared
 * objects in the source; here a node lists its children by id and the tree
 * is read through the map from id to node.
 */
module Timeline {
  import opened Wrappers
  import opened Events

  /** A node of the tree: the seven copied columns and the ids of its children. */
  datatype TreeNode = TreeNode(
    id: string,
    name: string,
    description: Option<string>,
    start: int,
    end: int,
    duration: int,
    parent: Option<string>,
    children: seq<string>)

  type Nodes = map<string, TreeNode>

  /** The node the first loop stores for a row: its columns without `metadata`, and no children. */
  function NodeOf(e: Event): (n: TreeNode)
    ensures n.children == []
    ensures Event(n.id, n.name, n.description, n.start, n.end, n.duration, n.parent, e.metadata) == e
  {
    TreeNode(e.id, e.name, e.description, e.start, e.end, e.duration, e.parent, [])
  }

  /** Row `e` is pushed onto the children of `p`. */
  predicate ChildOf(e: Event, p: string) {
    Truthy(e.parent) && e.parent.value == p
  }

  /** The ids of the rows naming `p` as parent, in row order. */
  function ChildIds(rows: seq<Event>, p: string): seq<string>
    decreases |rows|
  {
    if rows == [] then []
    else ChildIds(Init(rows), p) + (if ChildOf(Last(rows), p) then [Last(rows).id] else [])
  }

  /** The finished tree: a node per id, from the last row with that id, with its children. */
  function Tree(rows: seq<Event>): (t: Nodes)
    ensures t.Keys == Ids(rows)
  {
    var m := EventMapOf(rows);
    map id | id in m :: NodeOf(m[id]).(children := ChildIds(rows, id))
  }

  // ---------------------------------------------------------------------
  // The two loops
  // ---------------------------------------------------------------------

  lemma ChildIdsSnoc(rows: seq<Event>, i: nat, p: string)
    requires i < |rows|
    ensures ChildIds(rows[..i + 1], p) == ChildIds(rows[..i], p) + (if ChildOf(rows[i], p) then [rows[i].id] else [])
  {
    assert Init(rows[..i + 1]) == rows[..i];
  }

  /** The first loop: `eventMap.set` of a fresh node for each row. */
  method IndexNodes(rows: seq<Event>) returns (nodes: Nodes)
    ensures nodes.Keys == Ids(rows)
    ensures forall id | id in nodes :: nodes[id] == NodeOf(EventMapOf(rows)[id])
  {
    nodes := map[];
    for i := 0 to |rows|
      invariant nodes.Keys == Ids(rows[..i])
      invariant forall id | id in nodes :: nodes[id] == NodeOf(EventMapOf(rows[..i])[id])
    {
      var event := rows[i];
      assert Init(rows[..i + 1]) == rows[..i];
      IdsSnoc(rows, i);
      nodes := nodes[event.id := NodeOf(event)];
    }
    assert rows[..|rows|] == rows;
  }

  /** The nodes after the push for row `e`: its id goes onto the children of its parent, when that is a known id. */
  function Pushed(nodes: Nodes, e: Event): Nodes {
    if Truthy(e.parent) && e.parent.value in nodes then
      var p := e.parent.value;
      nodes[p := nodes[p].(children := nodes[p].children + [e.id])]
    else nodes
  }

  /** One push keeps every node's children equal to those of the rows so far. */
  lemma WireStep(rows: seq<Event>, i: nat, nodes0: Nodes, nodes: Nodes)
    requires i < |rows| && nodes.Keys == nodes0.Keys
    requires forall id | id in nodes :: nodes[id] == nodes0[id].(children := nodes0[id].children + ChildIds(rows[..i], id))
    ensures var next := Pushed(nodes, rows[i]);
      next.Keys == nodes0.Keys && forall id | id in next :: next[id] == nodes0[id].(children := nodes0[id].children + ChildIds(rows[..i + 1], id))
  {
    forall id | id in nodes ensures Pushed(nodes, rows[i])[id] == nodes0[id].(children := nodes0[id].children + ChildIds(rows[..i + 1], id)) {
      ChildIdsSnoc(rows, i, id);
    }
  }

  /** The second loop: each row with a known parent is pushed onto the end of that parent's children. */
  method WireChildren(rows: seq<Event>, nodes0: Nodes) returns (nodes: Nodes)
    requires nodes0.Keys == Ids(rows)
    ensures nodes.Keys == nodes0.Keys
    ensures forall id | id in nodes :: nodes[id] == nodes0[id].(children := nodes0[id].children + ChildIds(rows, id))
  {
    nodes := nodes0;
    assert forall id | id in nodes0 :: nodes0[id].children + ChildIds(rows[..0], id) == nodes0[id].children;
    for i := 0 to |rows|
      invariant nodes.Keys == nodes0.Keys
      invariant forall id | id in nodes :: nodes[id] == nodes0[id].(children := nodes0[id].children + ChildIds(rows[..i], id))
    {
      var event := rows[i];
      WireStep(rows, i, nodes0, nodes);
      ghost var before := nodes;
      if Truthy(event.parent) && event.parent.value in nodes {
        var p := event.parent.value;
        var parent := nodes[p];
        nodes := nodes[p := parent.(children := parent.children + [event.id])];
      }
      assert nodes == Pushed(before, event);
    }
    assert rows[..|rows|] == rows;
  }

  /**
   * `buildTree(flatEvents, rootId)`: the tree, and the node of `rootId`, or
   * none when no row carries that id (an empty list included).
   */
  method BuildTree(flatEvents: seq<Event>, rootId: string) returns (nodes: Nodes, root: Option<TreeNode>)
    ensures nodes == Tree(flatEvents)
    ensures root.None? <==> rootId !in Ids(flatEvents)
    ensures root.Some? ==> rootId in nodes && root.value == nodes[rootId]
  {
    var indexed := IndexNodes(flatEvents);
    nodes := WireChildren(flatEvents, indexed);
    forall id | id in nodes ensures nodes[id] == Tree(flatEvents)[id] {
      assert indexed[id].children + ChildIds(flatEvents, id) == ChildIds(flatEvents, id);
    }
    root := if rootId in nodes then Some(nodes[rootId]) else None;
  }

  // ---------------------------------------------------------------------
  // What the tree says
  // ---------------------------------------------------------------------

  /** An id is a child of `p` exactly when some row with that id names `p` as parent. */
  lemma {:induction false} ChildIdsMember(rows: seq<Event>, p: string, c: string)
    ensures c in ChildIds(rows, p) <==> exists k | 0 <= k < |rows| :: rows[k].id == c && ChildOf(rows[k], p)
    decreases |rows|
  {
    if rows != [] {
      var init := Init(rows);
      ChildIdsMember(init, p, c);
      if exists k | 0 <= k < |rows| :: rows[k].id == c && ChildOf(rows[k], p) {
        var k :| 0 <= k < |rows| && rows[k].id == c && ChildOf(rows[k], p);
        if k < |init| {
          assert init[k] == rows[k];
        }
      }
      if exists k | 0 <= k < |init| :: init[k].id == c && ChildOf(init[k], p) {
        var k :| 0 <= k < |init| && init[k].id == c && ChildOf(init[k], p);
        assert rows[k] == init[k];
      }
    }
  }

  /** Children keep the order of the rows: those of a prefix come first. */
  lemma {:induction false} ChildIdsAppend(a: seq<Event>, b: seq<Event>, p: string)
    ensures ChildIds(a + b, p) == ChildIds(a, p) + ChildIds(b, p)
    decreases |b|
  {
    if b == [] {
      assert a + b == a;
    } else {
      assert Init(a + b) == a + Init(b);
      assert Last(a + b) == Last(b);
      ChildIdsAppend(a, Init(b), p);
    }
  }

  /** A single row contributes its own id when it names `p` as parent, and nothing otherwise. */
  lemma ChildIdsSingle(e: Event, p: string)
    ensures ChildIds([e], p) == if ChildOf(e, p) then [e.id] else []
  {
    assert Init([e]) == [];
  }

  /** Each node copies the columns of the last row with its id, and lists exactly its children in row order. */
  lemma NodeContents(rows: seq<Event>, k: nat)
    requires k < |rows| && forall j | k < j < |rows| :: rows[j].id != rows[k].id
    ensures var n := Tree(rows)[rows[k].id];
      && n.id == rows[k].id && n.name == rows[k].name && n.description == rows[k].description
      && n.start == rows[k].start && n.end == rows[k].end && n.duration == rows[k].duration
      && n.parent == rows[k].parent
      && n.children == ChildIds(rows, rows[k].id)
  {
    EventMapLastWins(rows, k);
    assert rows[k] in rows;
  }

  /** With distinct ids, a row whose parent is a known id appears exactly once among that parent's children. */
  lemma {:induction false} ChildOnce(rows: seq<Event>, k: nat)
    requires UniqueIds(rows) && k < |rows| && Truthy(rows[k].parent)
    ensures var p := rows[k].parent.value;
      multiset(ChildIds(rows, p))[rows[k].id] == 1
    decreases |rows|
  {
    var p, c := rows[k].parent.value, rows[k].id;
    var init := Init(rows);
    if k == |rows| - 1 {
      ChildIdsMember(init, p, c);
      assert c !in ChildIds(init, p);
    } else {
      ChildOnce(init, k);
      assert Last(rows).id != c;
    }
  }

  /** The same, read as a fact of the finished tree. */
  lemma AttachedOnce(rows: seq<Event>, k: nat)
    requires UniqueIds(rows) && k < |rows| && Truthy(rows[k].parent) && rows[k].parent.value in Ids(rows)
    ensures var t := Tree(rows);
      rows[k].parent.value in t && multiset(t[rows[k].parent.value].children)[rows[k].id] == 1
  {
    ChildOnce(rows, k);
  }

  /** With distinct ids, a row with no parent, or with a parent id that no row carries, is nobody's child. */
  lemma Unattached(rows: seq<Event>, k: nat)
    requires UniqueIds(rows) && k < |rows|
    requires !Truthy(rows[k].parent) || rows[k].parent.value !in Ids(rows)
    ensures forall p | p in Tree(rows) :: rows[k].id !in Tree(rows)[p].children
  {
    forall p | p in Tree(rows) ensures rows[k].id !in Tree(rows)[p].children {
      ChildIdsMember(rows, p, rows[k].id);
    }
  }

  /** A list of nodes each the child of the one before, starting at `root`. */
  ghost predicate Nested(t: Nodes, root: string, ids: seq<string>) {
    && ids != [] && ids[0] == root && ids[0] in t
    && forall k | 0 <= k < |ids| - 1 :: ids[k] in t && ids[k + 1] in t[ids[k]].children
  }

  /**
   * Nesting follows parent links through any number of levels: rows whose
   * ids form a chain, each naming the one before as parent, form a chain of
   * nodes from the first, each a child of the one before.
   */
  lemma NestingFollowsParents(rows: seq<Event>, ids: seq<string>, rowOf: seq<nat>)
    requires |ids| == |rowOf| > 0
    requires forall k | 0 <= k < |ids| :: rowOf[k] < |rows| && rows[rowOf[k]].id == ids[k]
    requires forall k | 0 < k < |ids| :: ChildOf(rows[rowOf[k]], ids[k - 1])
    ensures Nested(Tree(rows), ids[0], ids)
  {
    var t := Tree(rows);
    assert rows[rowOf[0]] in rows;
    forall k | 0 <= k < |ids| - 1 ensures ids[k] in t && ids[k + 1] in t[ids[k]].children {
      assert rows[rowOf[k]] in rows;
      ChildIdsMember(rows, ids[k], ids[k + 1]);
    }
  }
}
