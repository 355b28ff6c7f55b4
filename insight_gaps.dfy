/**
 * `findTemporalGaps`: a sweep over the events of a range, by ascending
 * start, that keeps a coverage frontier (the latest end seen so far) and
 * reports the largest stretch of time that no event covers.
 *
 * The source compares a new gap, exactly in milliseconds, with the ROUNDED
 * minutes of the best gap so far. `Comparison` names that rule (`AsWritten`)
 * and the exact one it stands for (`Exact`); the sweep is written once over
 * both.
 */
module InsightGaps {
  import opened Wrappers
  import opened Timing
  import opened Events
  import opened EventModel

  const NoGapMessage: string := "No significant temporal gaps found within the specified range, or too few events."
  const GapFoundMessage: string := "Largest temporal gap identified."

  datatype PrecedingSummary = PrecedingSummary(id: string, name: string, end: int)
  datatype SucceedingSummary = SucceedingSummary(id: string, name: string, start: int)

  /** A reported gap; `null` neighbours are `None`. */
  datatype Gap = Gap(
    startOfGap: int,
    endOfGap: int,
    durationMinutes: int,
    preceding: Option<PrecedingSummary>,
    succeeding: Option<SucceedingSummary>)

  datatype GapResult = GapResult(largestGap: Option<Gap>, message: string)

  /** How a new gap is compared with the best one so far. */
  datatype Comparison =
    | AsWritten  // the new gap in ms against the best gap's rounded minutes
    | Exact      // the new gap in ms against the best gap's length in ms

  /** The sweep's variables: `frontier`, `largestGap`, `precedingEvent`. */
  datatype Scan = Scan(frontier: int, best: Option<Gap>, preceding: Option<Event>)

  function Length(g: Gap): int {
    g.endOfGap - g.startOfGap
  }

  function PrecedingOf(p: Option<Event>): Option<PrecedingSummary> {
    if p.Some? then Some(PrecedingSummary(p.value.id, p.value.name, p.value.end)) else None
  }

  function SucceedingOf(e: Event): SucceedingSummary {
    SucceedingSummary(e.id, e.name, e.start)
  }

  function GapOf(start: int, end: int, preceding: Option<Event>, succeeding: Option<SucceedingSummary>): Gap {
    Gap(start, end, RoundMin(end - start), PrecedingOf(preceding), succeeding)
  }

  /** `!largestGap || gapDuration > largestGap.durationMinutes`, or its exact counterpart. */
  predicate Replaces(best: Option<Gap>, gapMs: int, cmp: Comparison) {
    || best.None?
    || (cmp == AsWritten && gapMs > best.value.durationMinutes * MsPerMinute)
    || (cmp == Exact && gapMs > Length(best.value))
  }

  /** One iteration of the sweep: a gap before `e` may become the best, then `e` may advance the frontier. */
  function ScanStep(s: Scan, e: Event, cmp: Comparison): Scan {
    var best :=
      if e.start > s.frontier && Replaces(s.best, e.start - s.frontier, cmp)
      then Some(GapOf(s.frontier, e.start, s.preceding, Some(SucceedingOf(e))))
      else s.best;
    if e.end > s.frontier then Scan(e.end, best, Some(e)) else Scan(s.frontier, best, s.preceding)
  }

  /** The sweep over `events`, starting with the frontier at `from`. */
  function ScanAll(from: int, events: seq<Event>, cmp: Comparison): Scan
    decreases |events|
  {
    if events == [] then Scan(from, None, None)
    else ScanStep(ScanAll(from, events[..|events| - 1], cmp), events[|events| - 1], cmp)
  }

  /** The trailing gap between the frontier and `to`, considered last. */
  function Trailing(s: Scan, to: int, cmp: Comparison): Option<Gap> {
    if to > s.frontier && Replaces(s.best, to - s.frontier, cmp)
    then Some(GapOf(s.frontier, to, s.preceding, None))
    else s.best
  }

  function Verdict(best: Option<Gap>): GapResult {
    if best.None? || best.value.durationMinutes <= 0 then GapResult(None, NoGapMessage)
    else GapResult(best, GapFoundMessage)
  }

  /** What the gap finder answers for the sorted events of its range. */
  function GapsOf(events: seq<Event>, from: int, to: int, cmp: Comparison): GapResult {
    if events == [] then GapResult(None, NoGapMessage)
    else Verdict(Trailing(ScanAll(from, events, cmp), to, cmp))
  }

  /** One more event extends the sweep by one step. */
  lemma ScanSnoc(from: int, events: seq<Event>, i: nat, cmp: Comparison)
    requires i < |events|
    ensures ScanAll(from, events[..i + 1], cmp) == ScanStep(ScanAll(from, events[..i], cmp), events[i], cmp)
  {
    assert events[..i + 1][..i] == events[..i];
  }

  /** The loop of `findTemporalGaps` over the events of the range, comparing gaps by `cmp`. */
  method Sweep(from: int, events: seq<Event>, cmp: Comparison) returns (frontier: int, largestGap: Option<Gap>, precedingEvent: Option<Event>)
    ensures Scan(frontier, largestGap, precedingEvent) == ScanAll(from, events, cmp)
  {
    frontier := from;
    largestGap := None;
    precedingEvent := None;
    for i := 0 to |events|
      invariant Scan(frontier, largestGap, precedingEvent) == ScanAll(from, events[..i], cmp)
    {
      ScanSnoc(from, events, i, cmp);
      var event := events[i];
      if event.start > frontier {
        var gapMs := event.start - frontier;
        if Replaces(largestGap, gapMs, cmp) {
          largestGap := Some(Gap(frontier, event.start, RoundMin(gapMs), PrecedingOf(precedingEvent),
            Some(SucceedingSummary(event.id, event.name, event.start))));
        }
      }
      if event.end > frontier {
        frontier := event.end;
        precedingEvent := Some(event);
      }
    }
    assert events[..|events|] == events;
  }

  /**
   * `findTemporalGaps(startDate, endDate)`, with the stored events as
   * `table`. The source's behaviour is `cmp == AsWritten`; `Exact` is the
   * comparison it evidently intends (`ExactGapLargest`).
   */
  method FindTemporalGaps(table: seq<Event>, from: int, to: int, cmp: Comparison) returns (r: GapResult)
    ensures r == GapsOf(EventsInRange(table, from, to), from, to, cmp)
  {
    var events := EventsInRange(table, from, to);
    if |events| == 0 {
      return GapResult(None, NoGapMessage);
    }
    var frontier, largestGap, precedingEvent := Sweep(from, events, cmp);
    if to > frontier {
      var gapMs := to - frontier;
      if Replaces(largestGap, gapMs, cmp) {
        largestGap := Some(Gap(frontier, to, RoundMin(gapMs), PrecedingOf(precedingEvent), None));
      }
    }
    if largestGap.None? || largestGap.value.durationMinutes <= 0 {
      return GapResult(None, NoGapMessage);
    }
    r := GapResult(largestGap, GapFoundMessage);
  }

  // ---------------------------------------------------------------------
  // The frontier
  // ---------------------------------------------------------------------

  /**
   * The frontier is the maximum of `from` and every end seen: it is at least
   * each of them and, unless it is still `from`, it is the end of the
   * preceding event, which is one of the events.
   */
  lemma {:induction false} ScanFrontier(from: int, events: seq<Event>, cmp: Comparison)
    ensures var s := ScanAll(from, events, cmp);
      && s.frontier >= from
      && (forall k | 0 <= k < |events| :: events[k].end <= s.frontier)
      && (s.preceding.None? ==> s.frontier == from)
      && (s.preceding.Some? ==> s.preceding.value in events && s.preceding.value.end == s.frontier)
    decreases |events|
  {
    if events != [] {
      var n := |events| - 1;
      var init := events[..n];
      ScanFrontier(from, init, cmp);
      assert forall k | 0 <= k < n :: events[k] == init[k];
      var s := ScanAll(from, init, cmp);
      if s.preceding.Some? {
        assert s.preceding.value in events by {
          var k :| 0 <= k < n && init[k] == s.preceding.value;
          assert events[k] == s.preceding.value;
        }
      }
    }
  }

  /** The frontier never moves back. */
  lemma {:induction false} FrontierMonotone(from: int, events: seq<Event>, i: nat, j: nat, cmp: Comparison)
    requires i <= j <= |events|
    ensures ScanAll(from, events[..i], cmp).frontier <= ScanAll(from, events[..j], cmp).frontier
    decreases j - i
  {
    if i < j {
      FrontierMonotone(from, events, i, j - 1, cmp);
      assert events[..j][..j - 1] == events[..j - 1];
    }
  }

  // ---------------------------------------------------------------------
  // The shape of the best gap
  // ---------------------------------------------------------------------

  /**
   * A gap starts at the frontier, never before `from`, and ends where an
   * event starts or at `to`:
   * a preceding neighbour ends exactly at the gap's start (none means the
   * gap starts at `from`), a succeeding neighbour starts exactly at its end
   * (none means it runs to `to`).
   */
  predicate WellFormed(g: Gap, from: int, to: int) {
    && from <= g.startOfGap < g.endOfGap
    && g.durationMinutes == RoundMin(Length(g))
    && (g.preceding.None? ==> g.startOfGap == from)
    && (g.preceding.Some? ==> g.preceding.value.end == g.startOfGap)
    && (g.succeeding.None? ==> g.endOfGap == to)
    && (g.succeeding.Some? ==> g.succeeding.value.start == g.endOfGap)
  }

  lemma {:induction false} ScanWellFormed(from: int, to: int, events: seq<Event>, cmp: Comparison)
    ensures var s := ScanAll(from, events, cmp);
      s.best.Some? ==> WellFormed(s.best.value, from, to) && s.best.value.succeeding.Some?
    decreases |events|
  {
    if events != [] {
      var n := |events| - 1;
      ScanWellFormed(from, to, events[..n], cmp);
      ScanFrontier(from, events[..n], cmp);
    }
  }

  lemma TrailingWellFormed(from: int, to: int, events: seq<Event>, cmp: Comparison)
    ensures var b := Trailing(ScanAll(from, events, cmp), to, cmp);
      b.Some? ==> WellFormed(b.value, from, to)
  {
    ScanWellFormed(from, to, events, cmp);
    ScanFrontier(from, events, cmp);
  }

  // ---------------------------------------------------------------------
  // A reported gap is empty
  // ---------------------------------------------------------------------

  /** `e` does not cover any instant strictly inside `g`. */
  predicate Apart(e: Event, g: Gap) {
    e.end <= g.startOfGap || e.start >= g.endOfGap
  }

  predicate SortedByStart(events: seq<Event>) {
    forall i, j | 0 <= i < j < |events| :: events[i].start <= events[j].start
  }

  /** What the sweep knows about sorted input after `i` events. */
  predicate EmptySoFar(s: Scan, events: seq<Event>, i: nat)
    requires i <= |events|
  {
    && (forall k | 0 <= k < i :: events[k].end <= s.frontier)
    && (s.best.Some? ==>
      && (forall k | 0 <= k < i :: Apart(events[k], s.best.value))
      && (forall k | i <= k < |events| :: s.best.value.endOfGap <= events[k].start))
  }

  lemma EmptyStep(s: Scan, events: seq<Event>, i: nat, cmp: Comparison)
    requires SortedByStart(events) && i < |events| && EmptySoFar(s, events, i)
    ensures EmptySoFar(ScanStep(s, events[i], cmp), events, i + 1)
  {
  }

  /**
   * On sorted input, after `i` events the best gap lies apart from every
   * event seen, and ends no later than every event still to come.
   */
  lemma {:induction false} ScanGapEmpty(from: int, events: seq<Event>, i: nat, cmp: Comparison)
    requires SortedByStart(events) && i <= |events|
    ensures EmptySoFar(ScanAll(from, events[..i], cmp), events, i)
  {
    if i > 0 {
      ScanGapEmpty(from, events, i - 1, cmp);
      ScanSnoc(from, events, i - 1, cmp);
      EmptyStep(ScanAll(from, events[..i - 1], cmp), events, i - 1, cmp);
    } else {
      assert events[..0] == [];
    }
  }

  /** The trailing gap, too, lies apart from every event. */
  lemma TrailingGapEmpty(from: int, to: int, events: seq<Event>, cmp: Comparison)
    requires SortedByStart(events)
    ensures var b := Trailing(ScanAll(from, events, cmp), to, cmp);
      b.Some? ==> forall k | 0 <= k < |events| :: Apart(events[k], b.value)
  {
    ScanGapEmpty(from, events, |events|, cmp);
    assert events[..|events|] == events;
    ScanFrontier(from, events, cmp);
  }

  /**
   * No gap is reported for an empty range; a reported gap rounds to at
   * least one minute and comes with the found message, and no gap comes
   * with the other message.
   */
  lemma GapsOfVerdict(events: seq<Event>, from: int, to: int, cmp: Comparison)
    ensures var r := GapsOf(events, from, to, cmp);
      && (events == [] ==> r == GapResult(None, NoGapMessage))
      && (r.largestGap.None? <==> r.message == NoGapMessage)
      && (r.largestGap.Some? ==> r.message == GapFoundMessage && r.largestGap.value.durationMinutes > 0)
  {
  }

  /**
   * The gap reported for a range lasts at least half a minute, is shaped as `WellFormed` says, and no event of the
   * table lying inside the range covers any instant of it.
   */
  lemma GapsOfEmpty(table: seq<Event>, from: int, to: int, cmp: Comparison)
    ensures var r := GapsOf(EventsInRange(table, from, to), from, to, cmp);
      r.largestGap.Some? ==>
        && Length(r.largestGap.value) >= 30000
        && WellFormed(r.largestGap.value, from, to)
        && forall e | e in table && InRange(e, from, to) :: Apart(e, r.largestGap.value)
  {
    var events := EventsInRange(table, from, to);
    var r := GapsOf(events, from, to, cmp);
    if r.largestGap.Some? {
      var g := r.largestGap.value;
      assert Trailing(ScanAll(from, events, cmp), to, cmp) == Some(g);
      TrailingWellFormed(from, to, events, cmp);
      TrailingGapEmpty(from, to, events, cmp);
      RoundMinPositive(Length(g));
      ScanFrontier(from, events, cmp);
      forall e | e in table && InRange(e, from, to) ensures Apart(e, g) {
        var k :| 0 <= k < |events| && events[k] == e;
      }
    }
  }

  // ---------------------------------------------------------------------
  // Which gap is the best
  // ---------------------------------------------------------------------

  /** Whether the sweep meets a gap before event `k`. */
  predicate IsCandidate(from: int, events: seq<Event>, k: nat, cmp: Comparison)
    requires k < |events|
  {
    events[k].start > ScanAll(from, events[..k], cmp).frontier
  }

  /** The length of the gap before event `k`. */
  function CandidateMs(from: int, events: seq<Event>, k: nat, cmp: Comparison): int
    requires k < |events|
  {
    events[k].start - ScanAll(from, events[..k], cmp).frontier
  }

  /**
   * `best` is at least as good as a gap of `gapMs`: as long exactly, or,
   * under the source's rule, at least as many rounded minutes.
   */
  predicate Dominates(best: Option<Gap>, gapMs: int, cmp: Comparison) {
    && best.Some?
    && (cmp == Exact ==> Length(best.value) >= gapMs)
    && (cmp == AsWritten ==> best.value.durationMinutes >= RoundMin(gapMs))
  }

  /** One comparison: the winner dominates the new gap and whatever the old best dominated. */
  lemma ReplaceDominates(best: Option<Gap>, g: Gap, cmp: Comparison, c: int)
    requires best.Some? ==> best.value.durationMinutes == RoundMin(Length(best.value))
    requires g.durationMinutes == RoundMin(Length(g))
    ensures var next := if Replaces(best, Length(g), cmp) then Some(g) else best;
      && Dominates(next, Length(g), cmp)
      && (Dominates(best, c, cmp) ==> Dominates(next, c, cmp))
  {
    if best.Some? && cmp == AsWritten {
      var m := best.value.durationMinutes;
      RoundMinUnique(m * MsPerMinute, m);
      if Replaces(best, Length(g), cmp) {
        RoundMinMonotone(m * MsPerMinute, Length(g));
      } else {
        RoundMinMonotone(Length(g), m * MsPerMinute);
      }
    }
  }

  /** After `i` events, the best gap dominates every gap met so far. */
  lemma {:induction false} ScanDominates(from: int, to: int, events: seq<Event>, i: nat, cmp: Comparison)
    requires i <= |events|
    ensures forall k | 0 <= k < i && IsCandidate(from, events, k, cmp) ::
      Dominates(ScanAll(from, events[..i], cmp).best, CandidateMs(from, events, k, cmp), cmp)
  {
    if i > 0 {
      var p := events[..i - 1];
      ScanDominates(from, to, events, i - 1, cmp);
      ScanWellFormed(from, to, p, cmp);
      assert events[..i][..i - 1] == p;
      var s := ScanAll(from, p, cmp);
      var e := events[i - 1];
      var next := ScanAll(from, events[..i], cmp);
      assert next == ScanStep(s, e, cmp);
      if e.start > s.frontier {
        var g := GapOf(s.frontier, e.start, s.preceding, Some(SucceedingOf(e)));
        assert next.best == if Replaces(s.best, Length(g), cmp) then Some(g) else s.best;
        forall k | 0 <= k < i && IsCandidate(from, events, k, cmp)
          ensures Dominates(next.best, CandidateMs(from, events, k, cmp), cmp)
        {
          ReplaceDominates(s.best, g, cmp, CandidateMs(from, events, k, cmp));
        }
      } else {
        assert next.best == s.best;
      }
    }
  }

  /** The trailing comparison keeps every domination and adds the trailing gap's. */
  lemma TrailingDominates(from: int, to: int, events: seq<Event>, cmp: Comparison)
    ensures var s := ScanAll(from, events, cmp);
      var b := Trailing(s, to, cmp);
      && (to > s.frontier ==> Dominates(b, to - s.frontier, cmp))
      && forall k | 0 <= k < |events| && IsCandidate(from, events, k, cmp) ::
        Dominates(b, CandidateMs(from, events, k, cmp), cmp)
  {
    var s := ScanAll(from, events, cmp);
    ScanDominates(from, to, events, |events|, cmp);
    assert events[..|events|] == events;
    ScanWellFormed(from, to, events, cmp);
    if to > s.frontier {
      var g := GapOf(s.frontier, to, s.preceding, None);
      ReplaceDominates(s.best, g, cmp, 0);
      forall k | 0 <= k < |events| && IsCandidate(from, events, k, cmp)
        ensures Dominates(Trailing(s, to, cmp), CandidateMs(from, events, k, cmp), cmp)
      {
        ReplaceDominates(s.best, g, cmp, CandidateMs(from, events, k, cmp));
      }
    }
  }

  /**
   * Under the source's rule the reported minutes are the largest rounded
   * minutes of any gap met, including the trailing one; when no gap is
   * reported for a non-empty range, every gap rounds to 0 minutes or less.
   */
  lemma AsWrittenMinutesLargest(events: seq<Event>, from: int, to: int)
    ensures var s := ScanAll(from, events, AsWritten);
      var r := GapsOf(events, from, to, AsWritten);
      && (forall k | 0 <= k < |events| && IsCandidate(from, events, k, AsWritten) ::
        if r.largestGap.Some? then r.largestGap.value.durationMinutes >= RoundMin(CandidateMs(from, events, k, AsWritten))
        else RoundMin(CandidateMs(from, events, k, AsWritten)) <= 0)
      && (events != [] && to > s.frontier ==>
        if r.largestGap.Some? then r.largestGap.value.durationMinutes >= RoundMin(to - s.frontier)
        else RoundMin(to - s.frontier) <= 0)
  {
    TrailingDominates(from, to, events, AsWritten);
  }

  /**
   * Compared exactly, the reported gap is at least as long as every gap met,
   * including the trailing one; when no gap is reported for a non-empty
   * range, every gap is shorter than half a minute. Ties keep the earliest
   * gap, from the strict `>` of the comparison: a reported gap that ends at
   * an event is the gap met before some event `j`, and every gap met before
   * it is strictly shorter; a reported trailing gap is strictly longer than
   * every gap met before it.
   */
  lemma ExactGapLargest(events: seq<Event>, from: int, to: int) returns (j: nat)
    ensures var r := GapsOf(events, from, to, Exact);
      && (r.largestGap.Some? && r.largestGap.value.succeeding.Some? ==>
        && j < |events| && IsCandidate(from, events, j, Exact)
        && r.largestGap.value == CandidateGap(from, events, j, Exact)
        && forall k | 0 <= k < j && IsCandidate(from, events, k, Exact) ::
          CandidateMs(from, events, k, Exact) < Length(r.largestGap.value))
      && (r.largestGap.Some? && r.largestGap.value.succeeding.None? ==>
        forall k | 0 <= k < |events| && IsCandidate(from, events, k, Exact) ::
          CandidateMs(from, events, k, Exact) < Length(r.largestGap.value))
    ensures var s := ScanAll(from, events, Exact);
      var r := GapsOf(events, from, to, Exact);
      && (forall k | 0 <= k < |events| && IsCandidate(from, events, k, Exact) ::
        if r.largestGap.Some? then Length(r.largestGap.value) >= CandidateMs(from, events, k, Exact)
        else CandidateMs(from, events, k, Exact) < 30000)
      && (events != [] && to > s.frontier ==>
        if r.largestGap.Some? then Length(r.largestGap.value) >= to - s.frontier
        else to - s.frontier < 30000)
  {
    var s := ScanAll(from, events, Exact);
    var b := Trailing(s, to, Exact);
    TrailingDominates(from, to, events, Exact);
    TrailingWellFormed(from, to, events, Exact);
    if b.Some? {
      RoundMinPositive(Length(b.value));
    }
    j := ScanEarliest(from, to, events, |events|);
    assert events[..|events|] == events;
    ScanDominates(from, to, events, |events|, Exact);
    ScanWellFormed(from, to, events, Exact);
  }

  /** The gap the sweep meets before event `j`. */
  function CandidateGap(from: int, events: seq<Event>, j: nat, cmp: Comparison): Gap
    requires j < |events|
  {
    var s := ScanAll(from, events[..j], cmp);
    GapOf(s.frontier, events[j].start, s.preceding, Some(SucceedingOf(events[j])))
  }

  /**
   * Compared exactly, after `i` events the best gap is the gap met before
   * some event `j`, and every gap met before that one is strictly shorter:
   * of several longest gaps the sweep keeps the first. With no best gap, no
   * gap has been met.
   */
  lemma {:induction false} ScanEarliest(from: int, to: int, events: seq<Event>, i: nat) returns (j: nat)
    requires i <= |events|
    ensures var s := ScanAll(from, events[..i], Exact);
      && (s.best.None? ==> forall k | 0 <= k < i :: !IsCandidate(from, events, k, Exact))
      && (s.best.Some? ==>
        && j < i && IsCandidate(from, events, j, Exact)
        && s.best.value == CandidateGap(from, events, j, Exact)
        && forall k | 0 <= k < j && IsCandidate(from, events, k, Exact) ::
          CandidateMs(from, events, k, Exact) < Length(s.best.value))
  {
    if i == 0 {
      assert events[..0] == [];
      return 0;
    }
    var p := events[..i - 1];
    j := ScanEarliest(from, to, events, i - 1);
    ScanDominates(from, to, events, i - 1, Exact);
    assert events[..i][..i - 1] == p;
    var s := ScanAll(from, p, Exact);
    var e := events[i - 1];
    var next := ScanAll(from, events[..i], Exact);
    assert next == ScanStep(s, e, Exact);
    if e.start > s.frontier && Replaces(s.best, e.start - s.frontier, Exact) {
      assert next.best == Some(CandidateGap(from, events, i - 1, Exact));
      j := i - 1;
    } else {
      assert next.best == s.best;
    }
  }

  // ---------------------------------------------------------------------
  // The source's rule can report a shorter gap than the longest one
  // ---------------------------------------------------------------------

  const EarlyEvent: Event := Event("a", "A", None, 5424000, 6000000, 10, None, NoMetadata)
  const LateEvent: Event := Event("b", "B", None, 11418000, 12000000, 10, None, NoMetadata)

  /**
   * Over [0, 12000000] with events at [5424000, 6000000] and
   * [11418000, 12000000], the first gap lasts 5424000 ms (90.4 minutes,
   * stored as 90) and the second 5418000 ms (90.3 minutes). The second is
   * more than 90 minutes, so the source's rule reports it although the
   * first is longer; the exact rule reports the first.
   */
  lemma AsWrittenMissesLongest()
    ensures var events := [EarlyEvent, LateEvent];
      && SortedByStart(events)
      && IsCandidate(0, events, 0, AsWritten) && CandidateMs(0, events, 0, AsWritten) == 5424000
      && GapsOf(events, 0, 12000000, AsWritten).largestGap.Some?
      && Length(GapsOf(events, 0, 12000000, AsWritten).largestGap.value) == 5418000
      && GapsOf(events, 0, 12000000, Exact).largestGap.Some?
      && Length(GapsOf(events, 0, 12000000, Exact).largestGap.value) == 5424000
  {
    var events := [EarlyEvent, LateEvent];
    var s0 := Scan(0, None, None);
    assert events[..1] == [EarlyEvent] && events[..0] == [] && [EarlyEvent][..0] == [];
    assert ScanAll(0, [EarlyEvent], AsWritten) == ScanStep(s0, EarlyEvent, AsWritten);
    assert ScanAll(0, [EarlyEvent], Exact) == ScanStep(s0, EarlyEvent, Exact);
    assert RoundMin(5424000) == 90 && RoundMin(5418000) == 90;
    var first := GapOf(0, 5424000, None, Some(SucceedingOf(EarlyEvent)));
    var s1 := Scan(6000000, Some(first), Some(EarlyEvent));
    assert ScanStep(s0, EarlyEvent, AsWritten) == s1 && ScanStep(s0, EarlyEvent, Exact) == s1;
    var second := GapOf(6000000, 11418000, Some(EarlyEvent), Some(SucceedingOf(LateEvent)));
    assert ScanAll(0, events, AsWritten) == ScanStep(s1, LateEvent, AsWritten) == Scan(12000000, Some(second), Some(LateEvent));
    assert ScanAll(0, events, Exact) == ScanStep(s1, LateEvent, Exact) == Scan(12000000, Some(first), Some(LateEvent));
  }
}
