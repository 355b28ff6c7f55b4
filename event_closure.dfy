/**
 * The recursive queries `getSubtree` and `getAncestors`: a `WITH RECURSIVE`
 * union that starts from the rows with a given id and repeatedly joins the
 * table on the parent link, downwards (children) or upwards (parents).
 *
 * The result is computed level by level, one level per round of the
 * recursion, for `|table|` rounds: on a table whose parent links have no
 * cycle no chain is longer than that, so the bound is never reached there
 * (`SubtreeComplete`, `AncestorsComplete`).
 */
module EventClosure {
  import opened Wrappers
  import opened Events

  datatype Direction = Down | Up

  /** `e` is joined to the frontier row `f`: its child (downwards) or its parent (upwards). */
  predicate Linked(dir: Direction, f: Event, e: Event) {
    match dir
    case Down => e.parent == Some(f.id)
    case Up => f.parent == Some(e.id)
  }

  /** The rows of `table` joined to `f`, in table order. */
  function Next(table: seq<Event>, f: Event, dir: Direction): seq<Event> {
    if table == [] then []
    else (if Linked(dir, f, table[0]) then [table[0]] else []) + Next(table[1..], f, dir)
  }

  /** One round of the recursive join (`UNION ALL` keeps one row per joined pair). */
  function Step(table: seq<Event>, frontier: seq<Event>, dir: Direction): seq<Event> {
    if frontier == [] then [] else Next(table, frontier[0], dir) + Step(table, frontier[1..], dir)
  }

  /** The anchor of the recursion: the rows with the requested id. */
  function Seeds(table: seq<Event>, id: string): seq<Event> {
    if table == [] then []
    else (if table[0].id == id then [table[0]] else []) + Seeds(table[1..], id)
  }

  lemma {:induction false} NextMember(table: seq<Event>, f: Event, dir: Direction, e: Event)
    ensures e in Next(table, f, dir) <==> e in table && Linked(dir, f, e)
  {
    if table != [] {
      NextMember(table[1..], f, dir, e);
      assert e in table <==> e == table[0] || e in table[1..];
    }
  }

  lemma {:induction false} StepMember(table: seq<Event>, frontier: seq<Event>, dir: Direction, e: Event)
    ensures e in Step(table, frontier, dir) <==> e in table && exists f :: f in frontier && Linked(dir, f, e)
  {
    if frontier != [] {
      NextMember(table, frontier[0], dir, e);
      StepMember(table, frontier[1..], dir, e);
      assert forall f :: f in frontier <==> f == frontier[0] || f in frontier[1..];
    }
  }

  lemma {:induction false} SeedsMember(table: seq<Event>, id: string, e: Event)
    ensures e in Seeds(table, id) <==> e in table && e.id == id
  {
    if table != [] {
      SeedsMember(table[1..], id, e);
      assert e in table <==> e == table[0] || e in table[1..];
    }
  }

  /** The rows produced by round `n` of the recursion. */
  function Level(table: seq<Event>, id: string, dir: Direction, n: nat): seq<Event> {
    if n == 0 then Seeds(table, id) else Step(table, Level(table, id, dir, n - 1), dir)
  }

  /** The rows of the first `n` rounds. */
  function Closure(table: seq<Event>, id: string, dir: Direction, n: nat): seq<Event> {
    if n == 0 then [] else Closure(table, id, dir, n - 1) + Level(table, id, dir, n - 1)
  }

  /** A row of the closure comes from one of its rounds, and that round is returned. */
  lemma {:induction false} ClosureSound(table: seq<Event>, id: string, dir: Direction, n: nat, e: Event) returns (k: nat)
    requires e in Closure(table, id, dir, n)
    ensures k < n && e in Level(table, id, dir, k)
  {
    if e in Level(table, id, dir, n - 1) {
      k := n - 1;
    } else {
      k := ClosureSound(table, id, dir, n - 1, e);
    }
  }

  lemma {:induction false} ClosureComplete(table: seq<Event>, id: string, dir: Direction, n: nat, e: Event, k: nat)
    requires k < n && e in Level(table, id, dir, k)
    ensures e in Closure(table, id, dir, n)
  {
    var before, last := Closure(table, id, dir, n - 1), Level(table, id, dir, n - 1);
    assert Closure(table, id, dir, n) == before + last;
    if k < n - 1 {
      ClosureComplete(table, id, dir, n - 1, e, k);
      assert e in before;
    } else {
      assert e in last;
    }
  }

  lemma ClosureMember(table: seq<Event>, id: string, dir: Direction, n: nat, e: Event)
    ensures e in Closure(table, id, dir, n) <==> exists k :: 0 <= k < n && e in Level(table, id, dir, k)
  {
    if e in Closure(table, id, dir, n) {
      var k := ClosureSound(table, id, dir, n, e);
    }
    if exists k :: 0 <= k < n && e in Level(table, id, dir, k) {
      var k: nat :| k < n && e in Level(table, id, dir, k);
      ClosureComplete(table, id, dir, n, e, k);
    }
  }

  function Subtree(table: seq<Event>, rootId: string): seq<Event> {
    Closure(table, rootId, Down, |table|)
  }

  function Ancestors(table: seq<Event>, eventId: string): seq<Event> {
    Closure(table, eventId, Up, |table|)
  }

  // ---------------------------------------------------------------------------
  // Chains of parent links

  /** `c` is a parent-to-child chain of rows of the table: each row's parent is the one before it. */
  predicate IsChain(table: seq<Event>, c: seq<Event>) {
    && |c| > 0
    && (forall k | 0 <= k < |c| :: c[k] in table)
    && (forall k | 0 <= k < |c| - 1 :: c[k + 1].parent == Some(c[k].id))
  }

  /** `x` descends in `n` steps from a row with id `top`. */
  ghost predicate DescendsFrom(table: seq<Event>, top: string, x: Event, n: nat) {
    exists c: seq<Event> :: IsChain(table, c) && |c| == n + 1 && c[0].id == top && c[n] == x
  }

  /** `x` is, `n` steps up, an ancestor of a row with id `bottom`. */
  ghost predicate AncestorOf(table: seq<Event>, x: Event, bottom: string, n: nat) {
    exists c: seq<Event> :: IsChain(table, c) && |c| == n + 1 && c[0] == x && c[n].id == bottom
  }

  /** No chain of one or more links comes back to where it started. */
  ghost predicate Acyclic(table: seq<Event>) {
    forall c: seq<Event> | IsChain(table, c) && |c| > 1 :: c[0] != c[|c| - 1]
  }

  lemma ChainSnoc(table: seq<Event>, c: seq<Event>, x: Event)
    requires IsChain(table, c) && x in table && x.parent == Some(c[|c| - 1].id)
    ensures IsChain(table, c + [x])
  {
    var d := c + [x];
    forall k | 0 <= k < |d| - 1 ensures d[k + 1].parent == Some(d[k].id) {
      if k + 1 < |c| { assert d[k + 1] == c[k + 1] && d[k] == c[k]; }
    }
    forall k | 0 <= k < |d| ensures d[k] in table {
      if k < |c| { assert d[k] == c[k]; }
    }
  }

  lemma ChainCons(table: seq<Event>, x: Event, c: seq<Event>)
    requires IsChain(table, c) && x in table && c[0].parent == Some(x.id)
    ensures IsChain(table, [x] + c)
  {
    var d := [x] + c;
    forall k | 0 <= k < |d| - 1 ensures d[k + 1].parent == Some(d[k].id) {
      if k > 0 { assert d[k + 1] == c[k] && d[k] == c[k - 1]; }
    }
    forall k | 0 <= k < |d| ensures d[k] in table {
      if k > 0 { assert d[k] == c[k - 1]; }
    }
  }

  /** Any run of consecutive rows of a chain is a chain. */
  lemma ChainSlice(table: seq<Event>, c: seq<Event>, i: nat, j: nat)
    requires IsChain(table, c) && i < j <= |c|
    ensures IsChain(table, c[i..j])
  {
    var d := c[i..j];
    forall k | 0 <= k < |d| - 1 ensures d[k + 1].parent == Some(d[k].id) {
      assert d[k + 1] == c[i + k + 1] && d[k] == c[i + k];
    }
    forall k | 0 <= k < |d| ensures d[k] in table {
      assert d[k] == c[i + k];
    }
  }

  lemma {:induction false} LevelDown(table: seq<Event>, top: string, x: Event, n: nat)
    ensures x in Level(table, top, Down, n) <==> DescendsFrom(table, top, x, n)
    decreases n
  {
    if n == 0 {
      SeedsMember(table, top, x);
      if x in Level(table, top, Down, 0) {
        assert IsChain(table, [x]);
      }
    } else {
      var prev := Level(table, top, Down, n - 1);
      StepMember(table, prev, Down, x);
      if x in Level(table, top, Down, n) {
        var f :| f in prev && Linked(Down, f, x);
        LevelDown(table, top, f, n - 1);
        var c: seq<Event> :| IsChain(table, c) && |c| == n && c[0].id == top && c[n - 1] == f;
        ChainSnoc(table, c, x);
        var d := c + [x];
        assert d[0] == c[0] && d[n] == x;
      }
      if DescendsFrom(table, top, x, n) {
        var c: seq<Event> :| IsChain(table, c) && |c| == n + 1 && c[0].id == top && c[n] == x;
        ChainSlice(table, c, 0, n);
        var d := c[..n];
        assert d[0] == c[0] && d[n - 1] == c[n - 1];
        LevelDown(table, top, c[n - 1], n - 1);
        assert c[n] == x && c[n].parent == Some(c[n - 1].id);
        assert Linked(Down, c[n - 1], x);
      }
    }
  }

  lemma {:induction false} LevelUpSound(table: seq<Event>, bottom: string, x: Event, n: nat)
    requires x in Level(table, bottom, Up, n)
    ensures AncestorOf(table, x, bottom, n)
    decreases n
  {
    if n == 0 {
      SeedsMember(table, bottom, x);
      assert IsChain(table, [x]);
    } else {
      var prev := Level(table, bottom, Up, n - 1);
      StepMember(table, prev, Up, x);
      var f :| f in prev && Linked(Up, f, x);
      LevelUpSound(table, bottom, f, n - 1);
      var c: seq<Event> :| IsChain(table, c) && |c| == n && c[0] == f && c[n - 1].id == bottom;
      ChainCons(table, x, c);
      var d := [x] + c;
      assert d[n] == c[n - 1];
      assert IsChain(table, d) && |d| == n + 1 && d[0] == x && d[n].id == bottom;
    }
  }

  lemma {:induction false} LevelUpComplete(table: seq<Event>, bottom: string, x: Event, n: nat)
    requires AncestorOf(table, x, bottom, n)
    ensures x in Level(table, bottom, Up, n)
    decreases n
  {
    var c: seq<Event> :| IsChain(table, c) && |c| == n + 1 && c[0] == x && c[n].id == bottom;
    if n == 0 {
      SeedsMember(table, bottom, x);
    } else {
      var prev := Level(table, bottom, Up, n - 1);
      ChainSlice(table, c, 1, n + 1);
      var d := c[1..];
      assert d[0] == c[1] && d[n - 1] == c[n];
      assert AncestorOf(table, c[1], bottom, n - 1);
      LevelUpComplete(table, bottom, c[1], n - 1);
      assert c[1].parent == Some(c[0].id);
      StepMember(table, prev, Up, x);
    }
  }

  lemma LevelUp(table: seq<Event>, bottom: string, x: Event, n: nat)
    ensures x in Level(table, bottom, Up, n) <==> AncestorOf(table, x, bottom, n)
  {
    if x in Level(table, bottom, Up, n) {
      LevelUpSound(table, bottom, x, n);
    }
    if AncestorOf(table, x, bottom, n) {
      LevelUpComplete(table, bottom, x, n);
    }
  }

  /** The subtree holds exactly the rows that descend from the root within `|table|` rounds. */
  lemma SubtreeMember(table: seq<Event>, rootId: string, x: Event)
    ensures x in Subtree(table, rootId) <==> exists k :: 0 <= k < |table| && DescendsFrom(table, rootId, x, k)
  {
    ClosureMember(table, rootId, Down, |table|, x);
    if x in Subtree(table, rootId) {
      var k :| 0 <= k < |table| && x in Level(table, rootId, Down, k);
      LevelDown(table, rootId, x, k);
    }
    if exists k :: 0 <= k < |table| && DescendsFrom(table, rootId, x, k) {
      var k :| 0 <= k < |table| && DescendsFrom(table, rootId, x, k);
      LevelDown(table, rootId, x, k);
    }
  }

  /** The ancestors are exactly the rows above the event within `|table|` rounds. */
  lemma AncestorsMember(table: seq<Event>, eventId: string, x: Event)
    ensures x in Ancestors(table, eventId) <==> exists k :: 0 <= k < |table| && AncestorOf(table, x, eventId, k)
  {
    ClosureMember(table, eventId, Up, |table|, x);
    if x in Ancestors(table, eventId) {
      var k :| 0 <= k < |table| && x in Level(table, eventId, Up, k);
      LevelUp(table, eventId, x, k);
    }
    if exists k :: 0 <= k < |table| && AncestorOf(table, x, eventId, k) {
      var k :| 0 <= k < |table| && AncestorOf(table, x, eventId, k);
      LevelUp(table, eventId, x, k);
    }
  }

  /** An id that is not in the table gives no rows at all. */
  lemma SubtreeOfAbsent(table: seq<Event>, rootId: string)
    requires rootId !in Ids(table)
    ensures Subtree(table, rootId) == []
    ensures Ancestors(table, rootId) == []
  {
    var sub, anc := Subtree(table, rootId), Ancestors(table, rootId);
    if sub != [] {
      var x := sub[0];
      SubtreeMember(table, rootId, x);
      assert false;
    }
    if anc != [] {
      var x := anc[0];
      AncestorsMember(table, rootId, x);
      assert false;
    }
  }

  /** The root row itself is part of its subtree, and a row is one of its own ancestors. */
  lemma ClosureHasSeed(table: seq<Event>, x: Event)
    requires x in table
    ensures x in Subtree(table, x.id) && x in Ancestors(table, x.id)
  {
    assert IsChain(table, [x]);
    SubtreeMember(table, x.id, x);
    AncestorsMember(table, x.id, x);
    assert DescendsFrom(table, x.id, x, 0);
    assert AncestorOf(table, x, x.id, 0);
  }

  // ---------------------------------------------------------------------------
  // Acyclic tables: the bound is never reached

  /** On an acyclic table a chain never visits a row twice. */
  lemma ChainDistinct(table: seq<Event>, c: seq<Event>, i: nat, j: nat)
    requires Acyclic(table) && IsChain(table, c)
    requires i < j < |c|
    ensures c[i] != c[j]
  {
    var d := c[i..j + 1];
    assert IsChain(table, d) by {
      forall k | 0 <= k < |d| - 1 ensures d[k + 1].parent == Some(d[k].id) {
        assert d[k + 1] == c[i + k + 1] && d[k] == c[i + k];
      }
    }
    assert d[0] == c[i] && d[|d| - 1] == c[j];
  }

  /** A sequence without repeats, drawn from `s`, is no longer than `s` has elements. */
  lemma {:induction false} DistinctBound(c: seq<Event>, s: set<Event>)
    requires forall k | 0 <= k < |c| :: c[k] in s
    requires forall i, j | 0 <= i < j < |c| :: c[i] != c[j]
    ensures |c| <= |s|
  {
    if c != [] {
      var last := c[|c| - 1];
      var c' := c[..|c| - 1];
      forall k | 0 <= k < |c'| ensures c'[k] in s - {last} {
        assert c'[k] == c[k];
      }
      DistinctBound(c', s - {last});
    }
  }

  lemma {:induction false} RowsBound(table: seq<Event>)
    ensures |set e | e in table| <= |table|
  {
    if table != [] {
      var t' := table[..|table| - 1];
      RowsBound(t');
      assert (set e | e in table) == (set e | e in t') + {table[|table| - 1]} by {
        assert forall e :: e in table <==> e in t' || e == table[|table| - 1];
      }
    }
  }

  /** On an acyclic table every chain has at most `|table|` rows. */
  lemma ChainBound(table: seq<Event>, c: seq<Event>)
    requires Acyclic(table) && IsChain(table, c)
    ensures |c| <= |table|
  {
    forall i, j | 0 <= i < j < |c| ensures c[i] != c[j] {
      ChainDistinct(table, c, i, j);
    }
    DistinctBound(c, set e | e in table);
    RowsBound(table);
  }

  /** `getSubtree(r)` on an acyclic table: the root and every descendant. */
  lemma SubtreeComplete(table: seq<Event>, rootId: string, x: Event)
    requires Acyclic(table)
    ensures x in Subtree(table, rootId) <==> exists k: nat :: DescendsFrom(table, rootId, x, k)
  {
    SubtreeMember(table, rootId, x);
    if exists k: nat :: DescendsFrom(table, rootId, x, k) {
      var k: nat :| DescendsFrom(table, rootId, x, k);
      var c: seq<Event> :| IsChain(table, c) && |c| == k + 1 && c[0].id == rootId && c[k] == x;
      ChainBound(table, c);
      assert 0 <= k < |table| && DescendsFrom(table, rootId, x, k);
    }
  }

  /** `getAncestors(e)` on an acyclic table: the event and its whole parent chain. */
  lemma AncestorsComplete(table: seq<Event>, eventId: string, x: Event)
    requires Acyclic(table)
    ensures x in Ancestors(table, eventId) <==> exists k: nat :: AncestorOf(table, x, eventId, k)
  {
    AncestorsMember(table, eventId, x);
    if exists k: nat :: AncestorOf(table, x, eventId, k) {
      var k: nat :| AncestorOf(table, x, eventId, k);
      var c: seq<Event> :| IsChain(table, c) && |c| == k + 1 && c[0] == x && c[k].id == eventId;
      ChainBound(table, c);
      assert 0 <= k < |table| && AncestorOf(table, x, eventId, k);
    }
  }

  /** With unique ids, `x` is an ancestor of `y` exactly when `y` is in the subtree of `x`. */
  lemma AncestorSubtreeDual(table: seq<Event>, x: Event, y: Event)
    requires UniqueIds(table) && x in table && y in table
    ensures x in Ancestors(table, y.id) <==> y in Subtree(table, x.id)
  {
    AncestorsMember(table, y.id, x);
    SubtreeMember(table, x.id, y);
    if x in Ancestors(table, y.id) {
      var k :| 0 <= k < |table| && AncestorOf(table, x, y.id, k);
      var c: seq<Event> :| IsChain(table, c) && |c| == k + 1 && c[0] == x && c[k].id == y.id;
      SameIdSameRow(table, c[k], y);
      assert DescendsFrom(table, x.id, y, k);
    }
    if y in Subtree(table, x.id) {
      var k :| 0 <= k < |table| && DescendsFrom(table, x.id, y, k);
      var c: seq<Event> :| IsChain(table, c) && |c| == k + 1 && c[0].id == x.id && c[k] == y;
      SameIdSameRow(table, c[0], x);
      assert AncestorOf(table, x, y.id, k);
    }
  }

  lemma SameIdSameRow(table: seq<Event>, a: Event, b: Event)
    requires UniqueIds(table) && a in table && b in table && a.id == b.id
    ensures a == b
  {
    var i :| 0 <= i < |table| && table[i] == a;
    var j :| 0 <= j < |table| && table[j] == b;
    assert table[i].id == table[j].id;
  }
}
