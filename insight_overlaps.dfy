/**
 * `findOverlappingEvents` of the analytics service: every row of the
 * overlap self-join becomes one result, in the same order, holding the two
 * events and the overlap rounded to whole minutes.
 */
module InsightOverlaps {
  import opened Timing
  import opened Text
  import opened Events
  import opened EventModel

  /** The four columns of an event that a result shows. */
  datatype EventSummary = EventSummary(id: string, name: string, start: int, end: int)

  /** `{ overlappingEventPairs: [a, b], overlap_duration_minutes }`. */
  datatype OverlapResult = OverlapResult(pair: seq<EventSummary>, minutes: int)

  function Summary(e: Event): EventSummary {
    EventSummary(e.id, e.name, e.start, e.end)
  }

  /** One row of the join as a result; the minutes are `Math.round` of the exact overlap. */
  function ResultOf(row: OverlapRow): OverlapResult {
    OverlapResult([Summary(row.a), Summary(row.b)], RoundMin(row.overlapMs))
  }

  /** `rows.map(...)`: one result per row, in row order. */
  function ToResults(rows: seq<OverlapRow>): (r: seq<OverlapResult>)
    ensures |r| == |rows|
    ensures forall i | 0 <= i < |r| :: r[i] == ResultOf(rows[i])
  {
    seq(|rows|, i requires 0 <= i < |rows| => ResultOf(rows[i]))
  }

  /** The results for the events of `table` within [from, to]. */
  function FindOverlappingEvents(table: seq<Event>, from: int, to: int): seq<OverlapResult> {
    ToResults(FindOverlapping(table, from, to))
  }

  /** Rounding keeps the order of the rows: the results are by descending overlap minutes. */
  lemma ResultsDescending(table: seq<Event>, from: int, to: int)
    ensures var r := FindOverlappingEvents(table, from, to);
      forall i, j | 0 <= i < j < |r| :: r[i].minutes >= r[j].minutes
  {
    var rows := FindOverlapping(table, from, to);
    var r := FindOverlappingEvents(table, from, to);
    forall i, j | 0 <= i < j < |r| ensures r[i].minutes >= r[j].minutes {
      RoundMinMonotone(rows[j].overlapMs, rows[i].overlapMs);
    }
  }

  /**
   * Each result shows two events of the table that form a joined pair: the
   * one with the smaller id first, their intervals intersecting inside
   * [from, to], with the rounded length of the intersection as minutes.
   */
  lemma ResultMeaning(table: seq<Event>, from: int, to: int, k: nat)
    returns (i: nat, j: nat)
    requires k < |FindOverlappingEvents(table, from, to)|
    ensures i < |table| && j < |table| && IsOverlapPair(table[i], table[j], from, to)
    ensures FindOverlappingEvents(table, from, to)[k] == ResultOf(Pair(table[i], table[j]))
  {
    var rows := FindOverlapping(table, from, to);
    var x := rows[k];
    OverlapMember(table, from, to, x);
    i, j :| 0 <= i < |table| && 0 <= j < |table| && x == Pair(table[i], table[j]) && IsOverlapPair(table[i], table[j], from, to);
  }

  /** The two events of a result are distinct, the smaller id first. */
  lemma ResultIdsOrdered(table: seq<Event>, from: int, to: int, k: nat)
    requires k < |FindOverlappingEvents(table, from, to)|
    ensures var res := FindOverlappingEvents(table, from, to)[k];
      |res.pair| == 2 && LexLess(res.pair[0].id, res.pair[1].id) && res.pair[0].id != res.pair[1].id
  {
    var i, j := ResultMeaning(table, from, to, k);
    LexLessIrreflexive(table[i].id);
  }

  /** For events that do not end before they start, no result has negative minutes. */
  lemma ResultNonNegative(table: seq<Event>, from: int, to: int, k: nat)
    requires k < |FindOverlappingEvents(table, from, to)|
    requires forall e | e in table :: e.start <= e.end
    ensures FindOverlappingEvents(table, from, to)[k].minutes >= 0
  {
    var rows := FindOverlapping(table, from, to);
    var x := rows[k];
    var i, j := ResultMeaning(table, from, to, k);
    assert table[i] in table && table[j] in table;
    RoundMinNonNegative(Pair(table[i], table[j]).overlapMs);
  }

  /** Every joined pair of the table is reported by some result. */
  lemma ResultComplete(table: seq<Event>, from: int, to: int, i: nat, j: nat) returns (k: nat)
    requires i < |table| && j < |table| && IsOverlapPair(table[i], table[j], from, to)
    ensures k < |FindOverlappingEvents(table, from, to)|
    ensures FindOverlappingEvents(table, from, to)[k] == ResultOf(Pair(table[i], table[j]))
  {
    var rows := FindOverlapping(table, from, to);
    OverlapMember(table, from, to, Pair(table[i], table[j]));
    k :| 0 <= k < |rows| && rows[k] == Pair(table[i], table[j]);
  }
}
