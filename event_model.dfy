/**
 * The relational contracts of the event store's queries, stated over the
 * table as a sequence of rows: insert-if-absent, the overlap self-join, the
 * range query and the search plan.
 */
module EventModel {
  import opened Wrappers
  import opened Timing
  import opened Text
  import opened Events
  import opened Sorting

  // ---------------------------------------------------------------------------
  // batchInsert: INSERT ... ON CONFLICT (event_id) DO NOTHING

  /**
   * The row the table holds for an inserted event. `duration_minutes` is a
   * generated column and is never written: the store computes it from the
   * two timestamps, whatever the event carried.
   */
  function Stored(e: Event): Event {
    e.(duration := RoundMin(e.end - e.start))
  }

  lemma StoredIgnoresDuration(e: Event, d: int)
    ensures Stored(e.(duration := d)) == Stored(e)
    ensures Stored(e).duration == RoundMin(e.end - e.start)
  {
  }

  /** One row of the insert: added at the end unless its id is taken. */
  function InsertIfAbsent(table: seq<Event>, e: Event): seq<Event> {
    if e.id in Ids(table) then table else table + [Stored(e)]
  }

  /** The whole batch, row by row in batch order. */
  function BatchInsert(table: seq<Event>, batch: seq<Event>): (r: seq<Event>)
    ensures table <= r
    ensures Ids(r) == Ids(table) + Ids(batch)
    ensures UniqueIds(table) ==> UniqueIds(r)
    decreases |batch|
  {
    if batch == [] then table
    else
      var next := InsertIfAbsent(table, batch[0]);
      var r := BatchInsert(next, batch[1..]);
      BatchInsertStep(table, batch, r);
      r
  }

  /** The contract of `BatchInsert` for a batch, from the one for the rest of it after its first row. */
  lemma BatchInsertStep(table: seq<Event>, batch: seq<Event>, r: seq<Event>)
    requires batch != []
    requires var next := InsertIfAbsent(table, batch[0]);
      && next <= r && Ids(r) == Ids(next) + Ids(batch[1..]) && (UniqueIds(next) ==> UniqueIds(r))
    ensures table <= r && Ids(r) == Ids(table) + Ids(batch) && (UniqueIds(table) ==> UniqueIds(r))
  {
    InsertIfAbsentFacts(table, batch[0]);
    assert Ids(batch) == {batch[0].id} + Ids(batch[1..]) by {
      assert batch == [batch[0]] + batch[1..];
      IdsConcat([batch[0]], batch[1..]);
    }
  }

  /** Every row the batch adds is the stored form of a batch row with a new id. */
  lemma {:induction false} BatchInsertNewRows(table: seq<Event>, batch: seq<Event>, i: nat)
    requires |table| <= i < |BatchInsert(table, batch)|
    ensures exists b | b in batch :: BatchInsert(table, batch)[i] == Stored(b) && b.id !in Ids(table)
    decreases |batch|
  {
    var next := InsertIfAbsent(table, batch[0]);
    InsertIfAbsentFacts(table, batch[0]);
    if i < |next| {
      assert BatchInsert(table, batch)[i] == next[i] == Stored(batch[0]);
    } else {
      BatchInsertNewRows(next, batch[1..], i);
      var b :| b in batch[1..] && BatchInsert(next, batch[1..])[i] == Stored(b) && b.id !in Ids(next);
      assert b in batch;
    }
  }

  lemma InsertIfAbsentFacts(table: seq<Event>, e: Event)
    ensures var next := InsertIfAbsent(table, e);
      && table <= next
      && Ids(next) == Ids(table) + {e.id}
      && (UniqueIds(table) ==> UniqueIds(next))
      && (e.id !in Ids(table) ==> next == table + [Stored(e)])
      && (e.id in Ids(table) ==> next == table)
  {
    if e.id !in Ids(table) {
      IdsConcat(table, [Stored(e)]);
    }
  }

  lemma IdsConcat(a: seq<Event>, b: seq<Event>)
    ensures Ids(a + b) == Ids(a) + Ids(b)
  {
    assert forall e :: e in a + b <==> e in a || e in b;
  }

  /** Re-inserting rows whose ids are all present changes nothing. */
  lemma {:induction false} BatchInsertKnown(table: seq<Event>, batch: seq<Event>)
    requires Ids(batch) <= Ids(table)
    ensures BatchInsert(table, batch) == table
    decreases |batch|
  {
    if batch != [] {
      assert batch[0].id in Ids(batch);
      assert Ids(batch[1..]) <= Ids(batch) by {
        forall x | x in Ids(batch[1..]) ensures x in Ids(batch) {
          var i :| 0 <= i < |batch[1..]| && batch[1..][i].id == x;
          assert batch[i + 1].id == x;
        }
      }
      BatchInsertKnown(table, batch[1..]);
    }
  }

  /** Inserting the same batch twice is the same as inserting it once. */
  lemma BatchInsertIdempotent(table: seq<Event>, batch: seq<Event>)
    ensures BatchInsert(BatchInsert(table, batch), batch) == BatchInsert(table, batch)
  {
    BatchInsertKnown(BatchInsert(table, batch), batch);
  }

  /**
   * The first row of the batch that carries a new id is the one stored:
   * later rows with the same id are skipped.
   */
  lemma {:induction false} BatchInsertFirstWins(table: seq<Event>, batch: seq<Event>, i: nat)
    requires i < |batch| && batch[i].id !in Ids(table)
    requires forall j | 0 <= j < i :: batch[j].id != batch[i].id
    ensures Stored(batch[i]) in BatchInsert(table, batch)
    decreases |batch|
  {
    var next := InsertIfAbsent(table, batch[0]);
    if i == 0 {
      assert next[|table|] == Stored(batch[0]);
      assert next <= BatchInsert(next, batch[1..]);
      assert Stored(batch[i]) in next;
    } else {
      InsertIfAbsentFacts(table, batch[0]);
      assert batch[1..][i - 1] == batch[i];
      BatchInsertFirstWins(next, batch[1..], i - 1);
    }
  }

  // ---------------------------------------------------------------------------
  // findOverlappingEvents: the self-join on a.event_id < b.event_id

  /** One result row: the pair and the overlap `LEAST(ends) - GREATEST(starts)`, in ms. */
  datatype OverlapRow = OverlapRow(a: Event, b: Event, overlapMs: int)

  /** The join condition: ids ordered, intervals intersect, both inside [from, to]. */
  predicate IsOverlapPair(a: Event, b: Event, from: int, to: int) {
    && LexLess(a.id, b.id)
    && a.start < b.end && b.start < a.end
    && a.start >= from && a.end <= to
    && b.start >= from && b.end <= to
  }

  function Pair(a: Event, b: Event): OverlapRow {
    OverlapRow(a, b, Min(a.end, b.end) - Max(a.start, b.start))
  }

  /** The joined rows with `a` on the left, in table order. */
  function PairsWith(a: Event, rows: seq<Event>, from: int, to: int): seq<OverlapRow> {
    if rows == [] then []
    else
      (if IsOverlapPair(a, rows[0], from, to) then [Pair(a, rows[0])] else [])
      + PairsWith(a, rows[1..], from, to)
  }

  /** The nested-loop join of `outer` with the whole table. */
  function JoinRows(outer: seq<Event>, table: seq<Event>, from: int, to: int): seq<OverlapRow> {
    if outer == [] then [] else PairsWith(outer[0], table, from, to) + JoinRows(outer[1..], table, from, to)
  }

  function OverlapDesc(r: OverlapRow): int {
    -r.overlapMs
  }

  /** `ORDER BY overlap_duration_minutes DESC` of the joined rows. */
  function FindOverlapping(table: seq<Event>, from: int, to: int): (rows: seq<OverlapRow>)
    ensures forall i, j | 0 <= i < j < |rows| :: rows[i].overlapMs >= rows[j].overlapMs
    ensures multiset(rows) == multiset(JoinRows(table, table, from, to))
  {
    var rows := SortBy(JoinRows(table, table, from, to), OverlapDesc);
    assert forall i, j | 0 <= i < j < |rows| :: OverlapDesc(rows[i]) <= OverlapDesc(rows[j]);
    rows
  }

  lemma {:induction false} PairsWithSound(a: Event, rows: seq<Event>, from: int, to: int, x: OverlapRow)
    returns (j: nat)
    requires x in PairsWith(a, rows, from, to)
    ensures j < |rows| && x == Pair(a, rows[j]) && IsOverlapPair(a, rows[j], from, to)
  {
    if x in PairsWith(a, rows[1..], from, to) {
      var k := PairsWithSound(a, rows[1..], from, to, x);
      j := k + 1;
      assert rows[j] == rows[1..][k];
    } else {
      j := 0;
    }
  }

  lemma {:induction false} PairsWithComplete(a: Event, rows: seq<Event>, from: int, to: int, j: nat)
    requires j < |rows| && IsOverlapPair(a, rows[j], from, to)
    ensures Pair(a, rows[j]) in PairsWith(a, rows, from, to)
  {
    if j > 0 {
      PairsWithComplete(a, rows[1..], from, to, j - 1);
      assert rows[1..][j - 1] == rows[j];
    }
  }

  lemma PairsWithMember(a: Event, rows: seq<Event>, from: int, to: int, x: OverlapRow)
    ensures x in PairsWith(a, rows, from, to) <==>
      exists j :: 0 <= j < |rows| && x == Pair(a, rows[j]) && IsOverlapPair(a, rows[j], from, to)
  {
    if x in PairsWith(a, rows, from, to) {
      var j := PairsWithSound(a, rows, from, to, x);
    }
    if exists j :: 0 <= j < |rows| && x == Pair(a, rows[j]) && IsOverlapPair(a, rows[j], from, to) {
      var j: nat :| j < |rows| && x == Pair(a, rows[j]) && IsOverlapPair(a, rows[j], from, to);
      PairsWithComplete(a, rows, from, to, j);
    }
  }

  lemma {:induction false} JoinRowsSound(outer: seq<Event>, table: seq<Event>, from: int, to: int, x: OverlapRow)
    returns (i: nat, j: nat)
    requires x in JoinRows(outer, table, from, to)
    ensures i < |outer| && j < |table| && x == Pair(outer[i], table[j]) && IsOverlapPair(outer[i], table[j], from, to)
  {
    if x in PairsWith(outer[0], table, from, to) {
      i := 0;
      j := PairsWithSound(outer[0], table, from, to, x);
    } else {
      var k;
      k, j := JoinRowsSound(outer[1..], table, from, to, x);
      i := k + 1;
      assert outer[i] == outer[1..][k];
    }
  }

  lemma {:induction false} JoinRowsComplete(outer: seq<Event>, table: seq<Event>, from: int, to: int, i: nat, j: nat)
    requires i < |outer| && j < |table| && IsOverlapPair(outer[i], table[j], from, to)
    ensures Pair(outer[i], table[j]) in JoinRows(outer, table, from, to)
  {
    if i == 0 {
      PairsWithComplete(outer[0], table, from, to, j);
    } else {
      JoinRowsComplete(outer[1..], table, from, to, i - 1, j);
      assert outer[1..][i - 1] == outer[i];
    }
  }

  lemma JoinRowsMember(outer: seq<Event>, table: seq<Event>, from: int, to: int, x: OverlapRow)
    ensures x in JoinRows(outer, table, from, to) <==>
      exists i, j :: 0 <= i < |outer| && 0 <= j < |table|
        && x == Pair(outer[i], table[j]) && IsOverlapPair(outer[i], table[j], from, to)
  {
    if x in JoinRows(outer, table, from, to) {
      var i, j := JoinRowsSound(outer, table, from, to, x);
    }
    if exists i, j :: 0 <= i < |outer| && 0 <= j < |table|
        && x == Pair(outer[i], table[j]) && IsOverlapPair(outer[i], table[j], from, to) {
      var i: nat, j: nat :| i < |outer| && j < |table|
        && x == Pair(outer[i], table[j]) && IsOverlapPair(outer[i], table[j], from, to);
      JoinRowsComplete(outer, table, from, to, i, j);
    }
  }

  /** A pair of rows is returned exactly when it meets the join condition. */
  lemma OverlapMember(table: seq<Event>, from: int, to: int, x: OverlapRow)
    ensures x in FindOverlapping(table, from, to) <==>
      exists i, j :: 0 <= i < |table| && 0 <= j < |table|
        && x == Pair(table[i], table[j]) && IsOverlapPair(table[i], table[j], from, to)
  {
    JoinRowsMember(table, table, from, to, x);
    assert x in FindOverlapping(table, from, to) <==> x in multiset(JoinRows(table, table, from, to));
  }

  /** No event is paired with itself, and no pair is also returned the other way round. */
  lemma OverlapOneOrientation(table: seq<Event>, from: int, to: int, x: OverlapRow, y: OverlapRow)
    requires x in FindOverlapping(table, from, to) && y in FindOverlapping(table, from, to)
    ensures x.a.id != x.b.id
    ensures !(x.a.id == y.b.id && x.b.id == y.a.id)
  {
    OverlapMember(table, from, to, x);
    OverlapMember(table, from, to, y);
    LexLessIrreflexive(x.a.id);
    LexLessAsymmetric(x.a.id, x.b.id);
  }

  lemma {:induction false} UniqueCount(t: seq<Event>, e: Event)
    requires UniqueIds(t)
    ensures multiset(t)[e] <= 1
  {
    if t != [] {
      assert t == [t[0]] + t[1..];
      assert UniqueIds(t[1..]) by {
        forall i, j | 0 <= i < j < |t[1..]| ensures t[1..][i].id != t[1..][j].id {
          assert t[1..][i] == t[i + 1] && t[1..][j] == t[j + 1];
        }
      }
      UniqueCount(t[1..], e);
      if t[0] == e {
        assert e !in t[1..] by {
          forall k | 0 <= k < |t[1..]| ensures t[1..][k] != e { assert t[1..][k] == t[k + 1]; }
        }
      }
    }
  }

  lemma {:induction false} PairsWithCount(a: Event, rows: seq<Event>, from: int, to: int, x: OverlapRow)
    ensures multiset(PairsWith(a, rows, from, to))[x] <= if x.a == a then multiset(rows)[x.b] else 0
  {
    if rows != [] {
      assert rows == [rows[0]] + rows[1..];
      PairsWithCount(a, rows[1..], from, to, x);
    }
  }

  lemma {:induction false} JoinRowsCount(outer: seq<Event>, table: seq<Event>, from: int, to: int, x: OverlapRow)
    requires multiset(table)[x.b] <= 1
    ensures multiset(JoinRows(outer, table, from, to))[x] <= multiset(outer)[x.a]
  {
    if outer != [] {
      assert outer == [outer[0]] + outer[1..];
      PairsWithCount(outer[0], table, from, to, x);
      JoinRowsCount(outer[1..], table, from, to, x);
    }
  }

  /** On a table with unique ids every result row occurs at most once. */
  lemma OverlapAtMostOnce(table: seq<Event>, from: int, to: int, x: OverlapRow)
    requires UniqueIds(table)
    ensures multiset(FindOverlapping(table, from, to))[x] <= 1
  {
    UniqueCount(table, x.a);
    UniqueCount(table, x.b);
    JoinRowsCount(table, table, from, to, x);
  }

  /** The overlap of a returned pair of events with `start <= end` is never negative. */
  lemma OverlapNonNegative(table: seq<Event>, from: int, to: int, x: OverlapRow)
    requires x in FindOverlapping(table, from, to)
    requires x.a.start <= x.a.end && x.b.start <= x.b.end
    ensures x.overlapMs >= 0
    ensures x.a.start < x.a.end && x.b.start < x.b.end ==> x.overlapMs > 0
  {
    OverlapMember(table, from, to, x);
  }

  /**
   * A zero-length event strictly inside another one is returned with an
   * overlap of 0: the strict comparisons of the join do not exclude it.
   */
  lemma OverlapOfInstant(outer: Event, instant: Event)
    requires outer.start < instant.start == instant.end < outer.end
    requires LexLess(outer.id, instant.id)
    ensures var rows := FindOverlapping([outer, instant], outer.start, outer.end);
      Pair(outer, instant) in rows && Pair(outer, instant).overlapMs == 0
  {
    var table := [outer, instant];
    assert IsOverlapPair(table[0], table[1], outer.start, outer.end);
    OverlapMember(table, outer.start, outer.end, Pair(outer, instant));
  }

  // ---------------------------------------------------------------------------
  // getEventsInRange: start_date >= from AND end_date <= to ORDER BY start_date

  predicate InRange(e: Event, from: int, to: int) {
    e.start >= from && e.end <= to
  }

  function Within(table: seq<Event>, from: int, to: int): (r: seq<Event>)
    ensures forall e :: e in r <==> e in table && InRange(e, from, to)
  {
    if table == [] then []
    else
      assert forall e | e in table :: e == table[0] || e in table[1..];
      (if InRange(table[0], from, to) then [table[0]] else []) + Within(table[1..], from, to)
  }

  function StartKey(e: Event): int {
    e.start
  }

  /** The events lying inside [from, to], by ascending start. */
  function EventsInRange(table: seq<Event>, from: int, to: int): (rows: seq<Event>)
    ensures forall i, j | 0 <= i < j < |rows| :: rows[i].start <= rows[j].start
    ensures forall e :: e in rows <==> e in table && InRange(e, from, to)
    ensures multiset(rows) == multiset(Within(table, from, to))
  {
    var rows := SortBy(Within(table, from, to), StartKey);
    assert forall i, j | 0 <= i < j < |rows| :: StartKey(rows[i]) <= StartKey(rows[j]);
    assert forall e :: e in rows <==> e in multiset(Within(table, from, to));
    rows
  }

  // ---------------------------------------------------------------------------
  // search: offset and the sort whitelist

  const SortColumns: seq<string> := ["start_date", "end_date", "event_name", "duration_minutes"]
  const DefaultSortColumn: string := "start_date"

  datatype SortOrder = Asc | Desc

  datatype SearchPlan = SearchPlan(offset: int, limit: int, column: string, order: SortOrder)

  /** The paging and ordering `search` sends to the database. */
  function Plan(page: int, limit: int, sortBy: string, sortOrder: string): (p: SearchPlan)
    ensures p.limit == limit
    ensures p.offset + limit == page * limit
    ensures p.column in SortColumns
    ensures sortBy in SortColumns ==> p.column == sortBy
    ensures sortBy !in SortColumns ==> p.column == DefaultSortColumn
    ensures p.order == Desc <==> sortOrder == "desc"
  {
    var column := if sortBy in SortColumns then sortBy else DefaultSortColumn;
    SearchPlan((page - 1) * limit, limit, column, if sortOrder == "desc" then Desc else Asc)
  }

  /** Consecutive pages are adjacent windows: page `n + 1` starts where page `n` ends. */
  lemma PlanPagesTile(page: int, limit: int, sortBy: string, sortOrder: string)
    ensures Plan(page + 1, limit, sortBy, sortOrder).offset == Plan(page, limit, sortBy, sortOrder).offset + limit
    ensures page >= 1 && limit >= 1 ==> Plan(page, limit, sortBy, sortOrder).offset >= 0
  {
    var p := Plan(page, limit, sortBy, sortOrder);
    var q := Plan(page + 1, limit, sortBy, sortOrder);
    assert q.offset + limit == (page + 1) * limit == page * limit + limit;
    if page >= 1 && limit >= 1 {
      assert (page - 1) * limit >= 0;
    }
  }
}
