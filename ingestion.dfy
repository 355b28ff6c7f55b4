/**
 * The batch ingestor: reads the lines of a file, parses each one, collects
 * valid events into batches of 500, inserts each full batch (falling back to
 * one insert per row when the batch insert fails), publishes progress to
 * the job registry after every full batch, and ends the job as COMPLETED or,
 * when the file cannot be read to its end, as FAILED.
 *
 * The database is the `insert` function of the context: for the current
 * table and a batch it gives None when the insert succeeds (the table then
 * becomes `BatchInsert(table, batch)`) or the error message.
 */
module Ingestion {
  import opened Wrappers
  import opened Text
  import opened Events
  import opened LineParser
  import opened EventModel
  import opened JobStore

  const BatchSize: nat := 500
  const ErrorCap: nat := 100

  datatype Context = Context(
    sourceFile: string,
    dates: string -> Option<int>,
    insert: (seq<Event>, seq<Event>) -> Option<string>)

  /**
   * The lines the stream delivers, and the error it raises after them, if
   * any (a file that cannot be opened delivers no line and then fails).
   */
  datatype Source = Source(lines: seq<string>, failure: Option<string>)

  /** What inserting changes: the counters, the error log and the table (and, for the proofs, the insert errors). */
  datatype Tally = Tally(processed: nat, errorLines: nat, errors: seq<string>, table: seq<Event>, dbErrors: nat)

  /** The scan state after some lines; the last two fields record history for the proofs. */
  datatype Progress = Progress(
    lineNumber: nat,
    tally: Tally,
    batch: seq<Event>,
    parseErrors: nat,
    flushed: seq<Event>,
    published: seq<JobUpdate>)

  function RowError(id: string, message: string): string {
    "DB insert error for event '" + id + "': " + message
  }

  /** The prefix of insert errors reported while reading (`Line ~N: `). */
  function MidLabel(lineNumber: nat): string {
    "Line ~" + NatToString(lineNumber) + ": "
  }

  /** The event with its provenance: the file name and the line it came from. */
  function Stamp(e: Event, sourceFile: string, lineNumber: nat): Event {
    e.(metadata := Provenance(sourceFile, lineNumber))
  }

  /** `errors.slice(0, 100)`. */
  function Cap(errors: seq<string>): (r: seq<string>)
    ensures |r| <= ErrorCap && r <= errors
    ensures |r| == if |errors| <= ErrorCap then |errors| else ErrorCap
  {
    if |errors| <= ErrorCap then errors else errors[..ErrorCap]
  }

  /** One row of the fallback: inserted on its own, or logged after the prefix `tag`. */
  function InsertRow(ctx: Context, t: Tally, row: Event, tag: string): Tally {
    match ctx.insert(t.table, [row])
    case None => t.(processed := t.processed + 1, table := BatchInsert(t.table, [row]))
    case Some(msg) =>
      t.(errorLines := t.errorLines + 1, errors := t.errors + [tag + RowError(row.id, msg)], dbErrors := t.dbErrors + 1)
  }

  /** The fallback over the rows of a failed batch, in batch order. */
  function Fallback(ctx: Context, t: Tally, rows: seq<Event>, tag: string): Tally {
    if rows == [] then t
    else InsertRow(ctx, Fallback(ctx, t, rows[..|rows| - 1], tag), rows[|rows| - 1], tag)
  }

  /** One flush: the batch insert, or the row-by-row fallback when it fails. */
  function Flush(ctx: Context, t: Tally, batch: seq<Event>, tag: string): Tally {
    match ctx.insert(t.table, batch)
    case None => t.(processed := t.processed + |batch|, table := BatchInsert(t.table, batch))
    case Some(_) => Fallback(ctx, t, batch, tag)
  }

  function ProgressUpdate(lineNumber: nat, processed: nat, errorLines: nat, errors: seq<string>): JobUpdate {
    JobUpdate(None, Some(processed), Some(errorLines), Some(lineNumber), Some(Cap(errors)), None, None)
  }

  function StartUpdate(startTime: string): JobUpdate {
    JobUpdate(Some(Processing), None, None, None, None, Some(startTime), None)
  }

  function Start(table: seq<Event>): Progress {
    Progress(0, Tally(0, 0, [], table, 0), [], 0, [], [])
  }

  /**
   * What the parser says about each line, with 1-based line numbers. The
   * outcome of a line depends on nothing but its text and its number, so the
   * loop below is stated over these outcomes.
   */
  function Outcomes(ctx: Context, lines: seq<string>): (os: seq<ParseOutcome>)
    ensures |os| == |lines|
  {
    seq(|lines|, i requires 0 <= i < |lines| => ParseLine(lines[i], i + 1, ctx.dates))
  }

  lemma OutcomesSnoc(ctx: Context, lines: seq<string>, i: nat)
    requires i < |lines|
    ensures Outcomes(ctx, lines[..i + 1]) == Outcomes(ctx, lines[..i]) + [ParseLine(lines[i], i + 1, ctx.dates)]
  {
  }

  /** One line of the loop, given what the parser said about it. */
  function Step(ctx: Context, p: Progress, o: ParseOutcome): Progress {
    var n := p.lineNumber + 1;
    match o
    case Blank => p.(lineNumber := n)
    case Rejected(err) =>
      var t := p.tally.(errorLines := p.tally.errorLines + 1, errors := p.tally.errors + [Message(err)]);
      p.(lineNumber := n, tally := t, parseErrors := p.parseErrors + 1)
    case Parsed(e) =>
      var ev := Stamp(e, ctx.sourceFile, n);
      var batch := p.batch + [ev];
      if |batch| >= BatchSize then
        var t := Flush(ctx, p.tally, batch, MidLabel(n));
        Progress(n, t, [], p.parseErrors, p.flushed + batch, p.published + [ProgressUpdate(n, t.processed, t.errorLines, t.errors)])
      else
        p.(lineNumber := n, batch := batch)
  }

  /** The state after the lines with outcomes `os`. */
  function RunOn(ctx: Context, table: seq<Event>, os: seq<ParseOutcome>): Progress {
    if os == [] then Start(table)
    else Step(ctx, RunOn(ctx, table, os[..|os| - 1]), os[|os| - 1])
  }

  /** The state after reading `lines`. */
  function Run(ctx: Context, table: seq<Event>, lines: seq<string>): Progress {
    RunOn(ctx, table, Outcomes(ctx, lines))
  }

  /** After the last line: the partial batch is flushed, with unprefixed insert errors. */
  function Finish(ctx: Context, p: Progress): Tally {
    if |p.batch| > 0 then Flush(ctx, p.tally, p.batch, "") else p.tally
  }

  function CompletedUpdate(lineNumber: nat, processed: nat, errorLines: nat, errors: seq<string>, endTime: string): JobUpdate {
    JobUpdate(Some(Completed), Some(processed), Some(errorLines), Some(lineNumber), Some(Cap(errors)), None, Some(endTime))
  }

  function FailedUpdate(lineNumber: nat, processed: nat, errorLines: nat, errors: seq<string>, message: string, endTime: string): JobUpdate {
    JobUpdate(Some(Failed), Some(processed), Some(errorLines), Some(lineNumber),
      Some(errors + ["Fatal error: " + message]), None, Some(endTime))
  }

  /** The last update the job receives. */
  function FinalUpdate(ctx: Context, source: Source, table: seq<Event>, endTime: string): JobUpdate {
    var p := Run(ctx, table, source.lines);
    var t := p.tally;
    if source.failure.Some? then FailedUpdate(p.lineNumber, t.processed, t.errorLines, t.errors, source.failure.value, endTime)
    else
      var f := Finish(ctx, p);
      CompletedUpdate(p.lineNumber, f.processed, f.errorLines, f.errors, endTime)
  }

  /** The job record at the end, from the record it had before the run. */
  function FinalJob(ctx: Context, source: Source, table: seq<Event>, before: Job, startTime: string, endTime: string): Job {
    Apply(Apply(before, StartUpdate(startTime)), FinalUpdate(ctx, source, table, endTime))
  }

  /** The table at the end: a failed read loses the partial batch. */
  function FinalTable(ctx: Context, source: Source, table: seq<Event>): seq<Event> {
    var p := Run(ctx, table, source.lines);
    if source.failure.Some? then p.tally.table else Finish(ctx, p).table
  }

  // ---------------------------------------------------------------------------
  // The reference: what the lines contain, independently of batching

  /** The valid events among the outcomes, stamped with their line numbers. */
  function ValidOf(sourceFile: string, os: seq<ParseOutcome>): seq<Event> {
    if os == [] then []
    else
      var n := |os|;
      ValidOf(sourceFile, os[..n - 1]) + if os[n - 1].Parsed? then [Stamp(os[n - 1].event, sourceFile, n)] else []
  }

  /** The number of rejected lines among the outcomes. */
  function RejectedOf(os: seq<ParseOutcome>): nat {
    if os == [] then 0
    else RejectedOf(os[..|os| - 1]) + if os[|os| - 1].Rejected? then 1 else 0
  }

  /** The valid events of the lines, stamped with their line numbers. */
  function ValidEvents(ctx: Context, lines: seq<string>): seq<Event> {
    ValidOf(ctx.sourceFile, Outcomes(ctx, lines))
  }

  /** The number of lines the parser rejects. */
  function RejectedLines(ctx: Context, lines: seq<string>): nat {
    RejectedOf(Outcomes(ctx, lines))
  }

  /** The valid events are exactly the parsed lines, each stamped with its file and line number. */
  lemma {:induction false} ValidOfMember(sourceFile: string, os: seq<ParseOutcome>, e: Event)
    ensures e in ValidOf(sourceFile, os) <==>
      exists i | 0 <= i < |os| :: os[i].Parsed? && e == Stamp(os[i].event, sourceFile, i + 1)
  {
    if os != [] {
      var n := |os|;
      ValidOfMember(sourceFile, os[..n - 1], e);
      if e in ValidOf(sourceFile, os[..n - 1]) {
        var i :| 0 <= i < n - 1 && os[..n - 1][i].Parsed? && e == Stamp(os[..n - 1][i].event, sourceFile, i + 1);
        assert os[i] == os[..n - 1][i];
      }
      if exists i | 0 <= i < n :: os[i].Parsed? && e == Stamp(os[i].event, sourceFile, i + 1) {
        var i :| 0 <= i < n && os[i].Parsed? && e == Stamp(os[i].event, sourceFile, i + 1);
        if i < n - 1 {
          assert os[..n - 1][i] == os[i];
        }
      }
    }
  }

  /** The rejected-line count never exceeds the number of lines. */
  lemma {:induction false} RejectedOfBound(os: seq<ParseOutcome>)
    ensures RejectedOf(os) <= |os|
    ensures RejectedOf(os) == |os| <==> forall i | 0 <= i < |os| :: os[i].Rejected?
  {
    if os != [] {
      var n := |os|;
      var prefix := os[..n - 1];
      RejectedOfBound(prefix);
      if forall i | 0 <= i < n - 1 :: prefix[i].Rejected? {
        if os[n - 1].Rejected? {
          forall i | 0 <= i < n ensures os[i].Rejected? {
            if i < n - 1 { assert prefix[i] == os[i]; }
          }
        }
      } else {
        var i :| 0 <= i < n - 1 && !prefix[i].Rejected?;
        assert os[i] == prefix[i];
      }
    }
  }

  /** Each row of a fallback ends up either inserted or logged, exactly once. */
  lemma {:induction false} FallbackAccounts(ctx: Context, t: Tally, rows: seq<Event>, tag: string)
    ensures var f := Fallback(ctx, t, rows, tag);
      && f.processed + f.dbErrors == t.processed + t.dbErrors + |rows|
      && f.errorLines - t.errorLines == f.dbErrors - t.dbErrors >= 0
      && t.errors <= f.errors && |f.errors| - |t.errors| == f.dbErrors - t.dbErrors
  {
    if rows != [] {
      FallbackAccounts(ctx, t, rows[..|rows| - 1], tag);
    }
  }

  /** A flush of k rows adds exactly k to processed plus insert errors. */
  lemma FlushAccounts(ctx: Context, t: Tally, batch: seq<Event>, tag: string)
    ensures var f := Flush(ctx, t, batch, tag);
      && f.processed + f.dbErrors == t.processed + t.dbErrors + |batch|
      && f.errorLines - t.errorLines == f.dbErrors - t.dbErrors >= 0
      && t.errors <= f.errors && |f.errors| - |t.errors| == f.dbErrors - t.dbErrors
      && (ctx.insert(t.table, batch).None? ==> f.processed == t.processed + |batch| && f.errors == t.errors)
  {
    FallbackAccounts(ctx, t, batch, tag);
  }

  /** What holds after every line. */
  predicate Accounted(ctx: Context, os: seq<ParseOutcome>, p: Progress) {
    && p.lineNumber == |os|
    && |p.batch| < BatchSize
    && p.flushed + p.batch == ValidOf(ctx.sourceFile, os)
    && p.parseErrors == RejectedOf(os)
    && p.tally.processed + p.tally.dbErrors == |p.flushed|
    && p.tally.errorLines == p.parseErrors + p.tally.dbErrors
    && |p.tally.errors| == p.tally.errorLines
    && |p.flushed| == |p.published| * BatchSize
  }

  /** A rejected or blank line keeps the accounting. */
  lemma AccountedNotParsed(ctx: Context, os: seq<ParseOutcome>, p: Progress, o: ParseOutcome)
    requires Accounted(ctx, os, p) && !o.Parsed?
    ensures Accounted(ctx, os + [o], Step(ctx, p, o))
  {
    assert (os + [o])[..|os|] == os;
  }

  /** A parsed line joins the batch, and a full batch is flushed, keeping the accounting. */
  lemma AccountedParsed(ctx: Context, os: seq<ParseOutcome>, p: Progress, o: ParseOutcome)
    requires Accounted(ctx, os, p) && o.Parsed?
    ensures Accounted(ctx, os + [o], Step(ctx, p, o))
  {
    var n := |os| + 1;
    assert (os + [o])[..|os|] == os;
    var batch := p.batch + [Stamp(o.event, ctx.sourceFile, n)];
    assert ValidOf(ctx.sourceFile, os + [o]) == p.flushed + batch;
    if |batch| >= BatchSize {
      FlushAccounts(ctx, p.tally, batch, MidLabel(n));
    }
  }

  /**
   * The loop invariant: the line counter counts every line, the batch stays
   * below 500, every valid event so far is in exactly one flushed batch or
   * in the pending batch, and every error is counted and logged once.
   */
  lemma {:induction false} RunAccounted(ctx: Context, table: seq<Event>, os: seq<ParseOutcome>)
    ensures Accounted(ctx, os, RunOn(ctx, table, os))
  {
    if os != [] {
      var n := |os|;
      var prefix := os[..n - 1];
      RunAccounted(ctx, table, prefix);
      assert prefix + [os[n - 1]] == os;
      if os[n - 1].Parsed? {
        AccountedParsed(ctx, prefix, RunOn(ctx, table, prefix), os[n - 1]);
      } else {
        AccountedNotParsed(ctx, prefix, RunOn(ctx, table, prefix), os[n - 1]);
      }
    }
  }

  /** One line never takes anything out of the log: the log after it extends the log before it. */
  lemma StepErrorsGrow(ctx: Context, p: Progress, o: ParseOutcome)
    ensures p.tally.errors <= Step(ctx, p, o).tally.errors
  {
    if o.Parsed? && |p.batch + [Stamp(o.event, ctx.sourceFile, p.lineNumber + 1)]| >= BatchSize {
      FlushAccounts(ctx, p.tally, p.batch + [Stamp(o.event, ctx.sourceFile, p.lineNumber + 1)], MidLabel(p.lineNumber + 1));
    }
  }

  /** The log after the first `k` lines is a prefix of the log after all of them. */
  lemma {:induction false} ErrorsGrow(ctx: Context, table: seq<Event>, os: seq<ParseOutcome>, k: nat)
    requires k <= |os|
    ensures RunOn(ctx, table, os[..k]).tally.errors <= RunOn(ctx, table, os).tally.errors
    decreases |os|
  {
    if k < |os| {
      var n := |os|;
      ErrorsGrow(ctx, table, os[..n - 1], k);
      assert os[..n - 1][..k] == os[..k];
      StepErrorsGrow(ctx, RunOn(ctx, table, os[..n - 1]), os[n - 1]);
    } else {
      assert os[..k] == os;
    }
  }

  /**
   * Every progress update is published after the line `k + 1` that filled a
   * batch, and carries the counters after that flush.
   */
  lemma {:induction false} PublishedAfterFlush(ctx: Context, table: seq<Event>, os: seq<ParseOutcome>, i: nat) returns (k: nat)
    requires i < |RunOn(ctx, table, os).published|
    ensures k < |os| && os[k].Parsed?
    ensures var q := RunOn(ctx, table, os[..k + 1]);
      && q.lineNumber == k + 1 && q.batch == []
      && RunOn(ctx, table, os).published[i] == ProgressUpdate(k + 1, q.tally.processed, q.tally.errorLines, q.tally.errors)
  {
    var n := |os|;
    var r := RunOn(ctx, table, os);
    var p := RunOn(ctx, table, os[..n - 1]);
    PublishedKept(ctx, table, os);
    if i < |p.published| {
      k := PublishedAfterFlush(ctx, table, os[..n - 1], i);
      assert os[..n - 1][..k + 1] == os[..k + 1];
      var q := RunOn(ctx, table, os[..k + 1]);
      assert RunOn(ctx, table, os[..n - 1][..k + 1]) == q;
      assert r.published[i] == p.published[i];
    } else {
      k := n - 1;
      assert os[..k + 1] == os;
      PublishedLast(ctx, table, os);
    }
  }

  /**
   * So every progress update leaves the status alone, and its log is the
   * first 100 entries of the log at that point (`errors.slice(0, 100)`),
   * which is a prefix of the log of the whole run.
   */
  lemma PublishedCapped(ctx: Context, table: seq<Event>, os: seq<ParseOutcome>, i: nat) returns (k: nat)
    requires i < |RunOn(ctx, table, os).published|
    ensures k < |os| && os[k].Parsed?
    ensures var u := RunOn(ctx, table, os).published[i];
      && u.status.None? && u.errors.Some? && |u.errors.value| <= ErrorCap
      && u.errors.value == Cap(RunOn(ctx, table, os[..k + 1]).tally.errors)
      && u.errors.value <= RunOn(ctx, table, os).tally.errors
      && u.processedLines.Some? && u.errorLines.Some? && u.totalLines == Some(k + 1)
  {
    k := PublishedAfterFlush(ctx, table, os, i);
    ErrorsGrow(ctx, table, os, k + 1);
  }

  /** The last line keeps the updates published before it and adds at most one. */
  lemma PublishedKept(ctx: Context, table: seq<Event>, os: seq<ParseOutcome>)
    requires os != []
    ensures var p, r := RunOn(ctx, table, os[..|os| - 1]), RunOn(ctx, table, os);
      p.published <= r.published && |r.published| <= |p.published| + 1
  {
    StepPublished(ctx, RunOn(ctx, table, os[..|os| - 1]), os[|os| - 1]);
  }

  /** An update the last line adds comes after a flush at that line. */
  lemma PublishedLast(ctx: Context, table: seq<Event>, os: seq<ParseOutcome>)
    requires os != []
    requires |RunOn(ctx, table, os[..|os| - 1]).published| < |RunOn(ctx, table, os).published|
    ensures os[|os| - 1].Parsed?
    ensures var r := RunOn(ctx, table, os);
      && r.lineNumber == |os| && r.batch == []
      && r.published[|RunOn(ctx, table, os[..|os| - 1]).published|] == ProgressUpdate(|os|, r.tally.processed, r.tally.errorLines, r.tally.errors)
  {
    StepPublishedNew(ctx, RunOn(ctx, table, os[..|os| - 1]), os[|os| - 1]);
    LineCount(ctx, table, os[..|os| - 1]);
  }

  /** One line keeps the updates published before it and adds at most one. */
  lemma StepPublished(ctx: Context, p: Progress, o: ParseOutcome)
    ensures var q := Step(ctx, p, o);
      p.published <= q.published && |q.published| <= |p.published| + 1
  {
    if o.Parsed? && |p.batch + [Stamp(o.event, ctx.sourceFile, p.lineNumber + 1)]| >= BatchSize {
      StepFlushed(ctx, p, o.event);
    }
  }

  /** A line adds an update only when it fills a batch, and the update carries the counters after the flush. */
  lemma StepPublishedNew(ctx: Context, p: Progress, o: ParseOutcome)
    requires |p.published| < |Step(ctx, p, o).published|
    ensures o.Parsed?
    ensures var q := Step(ctx, p, o);
      && q.batch == [] && q.lineNumber == p.lineNumber + 1
      && q.published[|p.published|] == ProgressUpdate(p.lineNumber + 1, q.tally.processed, q.tally.errorLines, q.tally.errors)
  {
    if o.Parsed? && |p.batch + [Stamp(o.event, ctx.sourceFile, p.lineNumber + 1)]| >= BatchSize {
      StepFlushed(ctx, p, o.event);
    }
  }

  /** The step of a line that fills a batch. */
  lemma StepFlushed(ctx: Context, p: Progress, e: Event)
    requires |p.batch + [Stamp(e, ctx.sourceFile, p.lineNumber + 1)]| >= BatchSize
    ensures var n, batch := p.lineNumber + 1, p.batch + [Stamp(e, ctx.sourceFile, p.lineNumber + 1)];
      var q := Step(ctx, p, Parsed(e));
      && q.lineNumber == n && q.batch == [] && q.tally == Flush(ctx, p.tally, batch, MidLabel(n))
      && q.published == p.published + [ProgressUpdate(n, q.tally.processed, q.tally.errorLines, q.tally.errors)]
  {
  }

  /** The line counter after the lines with outcomes `os` is their number. */
  lemma {:induction false} LineCount(ctx: Context, table: seq<Event>, os: seq<ParseOutcome>)
    ensures RunOn(ctx, table, os).lineNumber == |os|
  {
    if os != [] {
      LineCount(ctx, table, os[..|os| - 1]);
    }
  }

  /** The counters at the end of a normal run: every valid event went through exactly one flush. */
  lemma FinishAccounted(ctx: Context, table: seq<Event>, lines: seq<string>)
    ensures var p := Run(ctx, table, lines);
      var t := Finish(ctx, p);
      && t.processed + t.dbErrors == |ValidEvents(ctx, lines)|
      && t.errorLines == RejectedLines(ctx, lines) + t.dbErrors
      && |t.errors| == t.errorLines
      && (t.dbErrors == 0 ==> t.processed == |ValidEvents(ctx, lines)|)
  {
    var p := Run(ctx, table, lines);
    RunAccounted(ctx, table, Outcomes(ctx, lines));
    if |p.batch| > 0 {
      FlushAccounts(ctx, p.tally, p.batch, "");
    }
  }

  /**
   * The end state of the job: COMPLETED with the capped log after a full
   * read, FAILED with the whole log and the fatal error otherwise; the
   * line total counts every line read, blank ones included.
   */
  lemma FinalJobState(ctx: Context, source: Source, table: seq<Event>, before: Job, startTime: string, endTime: string)
    ensures var j := FinalJob(ctx, source, table, before, startTime, endTime);
      var p := Run(ctx, table, source.lines);
      && j.jobId == before.jobId
      && j.totalLines == |source.lines|
      && j.startTime == Some(startTime) && j.endTime == Some(endTime)
      && (source.failure.None? ==>
            && j.status == Completed && |j.errors| <= ErrorCap && j.errors == Cap(Finish(ctx, p).errors)
            && j.processedLines == Finish(ctx, p).processed && j.errorLines == Finish(ctx, p).errorLines)
      && (source.failure.Some? ==>
            && j.status == Failed
            && j.errors == p.tally.errors + ["Fatal error: " + source.failure.value]
            && j.errorLines == p.tally.errorLines && j.processedLines == p.tally.processed)
  {
    RunAccounted(ctx, table, Outcomes(ctx, source.lines));
  }

  /** A blank line moves the line counter and nothing else. */
  lemma StepBlank(ctx: Context, p: Progress, line: string)
    requires AllWhitespace(line)
    ensures Step(ctx, p, ParseLine(line, p.lineNumber + 1, ctx.dates)) == p.(lineNumber := p.lineNumber + 1)
  {
  }

  /** A rejected line adds one to the error count and exactly its diagnostic to the log. */
  lemma StepRejected(ctx: Context, p: Progress, err: ParseError)
    ensures var q := Step(ctx, p, Rejected(err));
      && q.tally.errorLines == p.tally.errorLines + 1
      && q.tally.errors == p.tally.errors + [Message(err)]
      && q.batch == p.batch && q.tally.processed == p.tally.processed && q.tally.table == p.tally.table
  {
  }

  // ---------------------------------------------------------------------------
  // The procedure

  /** The registry during the run: only `jobId` changes, and it keeps its id and start time. */
  ghost predicate Tracks(jobs: map<string, Job>, jobs0: map<string, Job>, jobId: string, startTime: string) {
    && (jobId !in jobs0 ==> jobs == jobs0)
    && (jobId in jobs0 ==> jobId in jobs && jobs == jobs0[jobId := jobs[jobId]])
    && (jobId in jobs0 ==> jobs[jobId].jobId == jobs0[jobId].jobId == jobId && jobs[jobId].startTime == Some(startTime))
  }

  /** An update that does not set the start time keeps `Tracks`. */
  lemma TracksUpdate(jobs: map<string, Job>, jobs0: map<string, Job>, jobId: string, startTime: string, u: JobUpdate)
    requires Tracks(jobs, jobs0, jobId, startTime) && u.startTime.None?
    ensures Tracks(if jobId in jobs then jobs[jobId := Apply(jobs[jobId], u)] else jobs, jobs0, jobId, startTime)
  {
  }

  /** The registry after one more progress update holds the record with every update so far merged in. */
  lemma PublishedRecord(jobsIn: map<string, Job>, jobs: map<string, Job>, jobId: string, us: seq<JobUpdate>, u: JobUpdate)
    requires jobId !in jobsIn ==> jobs == jobsIn
    requires jobId in jobsIn ==> jobs == jobsIn[jobId := ApplyAll(jobsIn[jobId], us)]
    ensures var after := if jobId in jobs then jobs[jobId := Apply(jobs[jobId], u)] else jobs;
      && (jobId !in jobsIn ==> after == jobsIn)
      && (jobId in jobsIn ==> after == jobsIn[jobId := ApplyAll(jobsIn[jobId], us + [u])])
  {
    if jobId in jobsIn {
      ApplyAllSnoc(jobsIn[jobId], us, u);
    }
  }

  lemma RunOnSnoc(ctx: Context, table: seq<Event>, os: seq<ParseOutcome>, o: ParseOutcome)
    ensures RunOn(ctx, table, os + [o]) == Step(ctx, RunOn(ctx, table, os), o)
  {
    assert (os + [o])[..|os|] == os;
  }

  /** The last update and the final table, read off the state after the last line. */
  lemma FinalOf(ctx: Context, source: Source, table: seq<Event>, endTime: string, p: Progress, t: Tally, u: JobUpdate)
    requires p == Run(ctx, table, source.lines)
    requires source.failure.Some? ==>
      t == p.tally && u == FailedUpdate(p.lineNumber, t.processed, t.errorLines, t.errors, source.failure.value, endTime)
    requires source.failure.None? ==>
      t == Finish(ctx, p) && u == CompletedUpdate(p.lineNumber, t.processed, t.errorLines, t.errors, endTime)
    ensures u == FinalUpdate(ctx, source, table, endTime) && t.table == FinalTable(ctx, source, table)
  {
  }

  /** The registry after the last update is the one `processFile` promises. */
  lemma FinalRegistry(jobs0: map<string, Job>, jobs: map<string, Job>, jobId: string, startTime: string, u: JobUpdate)
    requires Tracks(jobs, jobs0, jobId, startTime)
    requires u.status.Some? && u.processedLines.Some? && u.errorLines.Some? && u.totalLines.Some?
    requires u.errors.Some? && u.endTime.Some?
    ensures jobId in jobs0 ==>
      jobs[jobId := Apply(jobs[jobId], u)] == jobs0[jobId := Apply(Apply(jobs0[jobId], StartUpdate(startTime)), u)]
  {
    if jobId in jobs0 {
      FinalUpdateDecides(jobs[jobId], Apply(jobs0[jobId], StartUpdate(startTime)), u);
    }
  }

  /** The last update sets every field but the id and the start time, so only those matter before it. */
  lemma FinalUpdateDecides(j: Job, k: Job, u: JobUpdate)
    requires j.jobId == k.jobId && j.startTime == k.startTime
    requires u.status.Some? && u.processedLines.Some? && u.errorLines.Some? && u.totalLines.Some?
    requires u.errors.Some? && u.endTime.Some?
    ensures Apply(j, u) == Apply(k, u)
  {
  }

  /** One flush: the batch insert, falling back to `InsertEach` when it fails. */
  method FlushBatch(ctx: Context, processed: nat, errorLines: nat, errors: seq<string>, table: seq<Event>,
                    ghost dbErrors: nat, batch: seq<Event>, tag: string)
    returns (processed': nat, errorLines': nat, errors': seq<string>, table': seq<Event>, ghost dbErrors': nat)
    ensures Tally(processed', errorLines', errors', table', dbErrors')
         == Flush(ctx, Tally(processed, errorLines, errors, table, dbErrors), batch, tag)
    ensures processed' + errorLines' == processed + errorLines + |batch|
    ensures errors <= errors' && |errors'| - |errors| == errorLines' - errorLines
    ensures ctx.insert(table, batch).None? ==> processed' == processed + |batch| && errors' == errors
  {
    FlushAccounts(ctx, Tally(processed, errorLines, errors, table, dbErrors), batch, tag);
    var failure := ctx.insert(table, batch);
    if failure.None? {
      processed', errorLines', errors', table', dbErrors' := processed + |batch|, errorLines, errors, BatchInsert(table, batch), dbErrors;
    } else {
      processed', errorLines', errors', table', dbErrors' := InsertEach(ctx, processed, errorLines, errors, table, dbErrors, batch, tag);
    }
  }

  /** The fallback after a failed batch insert: each row inserted on its own, in batch order. */
  method InsertEach(ctx: Context, processed: nat, errorLines: nat, errors: seq<string>, table: seq<Event>,
                    ghost dbErrors: nat, batch: seq<Event>, tag: string)
    returns (processed': nat, errorLines': nat, errors': seq<string>, table': seq<Event>, ghost dbErrors': nat)
    ensures Tally(processed', errorLines', errors', table', dbErrors')
         == Fallback(ctx, Tally(processed, errorLines, errors, table, dbErrors), batch, tag)
  {
    ghost var t0 := Tally(processed, errorLines, errors, table, dbErrors);
    processed', errorLines', errors', table', dbErrors' := processed, errorLines, errors, table, dbErrors;
    for k := 0 to |batch|
      invariant Tally(processed', errorLines', errors', table', dbErrors') == Fallback(ctx, t0, batch[..k], tag)
    {
      assert batch[..k + 1][..k] == batch[..k];
      var evt := batch[k];
      ghost var before := Tally(processed', errorLines', errors', table', dbErrors');
      assert Fallback(ctx, t0, batch[..k + 1], tag) == InsertRow(ctx, before, evt, tag);
      var result := ctx.insert(table', [evt]);
      if result.None? {
        processed' := processed' + 1;
        table' := BatchInsert(table', [evt]);
      } else {
        errorLines' := errorLines' + 1;
        errors' := errors' + [tag + RowError(evt.id, result.value)];
        dbErrors' := dbErrors' + 1;
      }
      assert Tally(processed', errorLines', errors', table', dbErrors') == InsertRow(ctx, before, evt, tag);
    }
    assert batch[..|batch|] == batch;
  }

  /**
   * One pass of the loop body: the line is parsed and counted, a valid event
   * is buffered, and a full batch is flushed and its progress published.
   */
  method ReadLine(registry: JobRegistry, jobId: string, ctx: Context, outcome: ParseOutcome,
                  lineNumber: nat, processed: nat, errorLines: nat, errors: seq<string>, batch: seq<Event>,
                  table: seq<Event>, ghost dbErrors: nat, startTime: string,
                  ghost p: Progress, ghost jobs0: map<string, Job>, ghost jobsIn: map<string, Job>)
    returns (lineNumber': nat, processed': nat, errorLines': nat, errors': seq<string>, batch': seq<Event>,
             table': seq<Event>, ghost dbErrors': nat)
    requires p.lineNumber == lineNumber && p.batch == batch
    requires p.tally == Tally(processed, errorLines, errors, table, dbErrors)
    requires registry.Valid() && Tracks(registry.jobs, jobs0, jobId, startTime)
    requires jobId !in jobsIn ==> registry.jobs == jobsIn
    requires jobId in jobsIn ==> registry.jobs == jobsIn[jobId := ApplyAll(jobsIn[jobId], p.published)]
    modifies registry
    ensures lineNumber' == lineNumber + 1
    ensures var q := Step(ctx, p, outcome);
      && q.lineNumber == lineNumber' && q.batch == batch'
      && q.tally == Tally(processed', errorLines', errors', table', dbErrors')
      && (jobId !in jobsIn ==> registry.jobs == jobsIn)
      && (jobId in jobsIn ==> registry.jobs == jobsIn[jobId := ApplyAll(jobsIn[jobId], q.published)])
    ensures registry.Valid() && Tracks(registry.jobs, jobs0, jobId, startTime)
  {
    lineNumber', processed', errorLines', errors', batch', table', dbErrors' :=
      lineNumber + 1, processed, errorLines, errors, batch, table, dbErrors;
    if outcome.Rejected? {
      errorLines' := errorLines' + 1;
      errors' := errors' + [Message(outcome.error)];
    } else if outcome.Parsed? {
      batch' := batch' + [Stamp(outcome.event, ctx.sourceFile, lineNumber')];
      if |batch'| >= BatchSize {
        StepFlushed(ctx, p, outcome.event);
        processed', errorLines', errors', table', dbErrors' :=
          FlushBatch(ctx, processed', errorLines', errors', table', dbErrors', batch', MidLabel(lineNumber'));
        batch' := [];
        var u := ProgressUpdate(lineNumber', processed', errorLines', errors');
        TracksUpdate(registry.jobs, jobs0, jobId, startTime, u);
        PublishedRecord(jobsIn, registry.jobs, jobId, p.published, u);
        var _ := registry.UpdateJob(jobId, u);
      }
    }
  }

  /**
   * The `for await` loop of `processFile`: reads every line, keeps the
   * counters, flushes every full batch and publishes progress after it.
   * Its state at the end is the state `Run` gives.
   */
  method ReadLines(registry: JobRegistry, jobId: string, ctx: Context, lines: seq<string>, table0: seq<Event>,
                   startTime: string, ghost jobs0: map<string, Job>)
    returns (lineNumber: nat, processed: nat, errorLines: nat, errors: seq<string>, batch: seq<Event>,
             table: seq<Event>, ghost dbErrors: nat)
    requires registry.Valid() && Tracks(registry.jobs, jobs0, jobId, startTime)
    modifies registry
    ensures registry.Valid() && Tracks(registry.jobs, jobs0, jobId, startTime)
    ensures jobId !in old(registry.jobs) ==> registry.jobs == old(registry.jobs)
    ensures jobId in old(registry.jobs) ==>
      registry.jobs == old(registry.jobs)[jobId := ApplyAll(old(registry.jobs)[jobId], Run(ctx, table0, lines).published)]
    ensures var p := Run(ctx, table0, lines);
      && p.lineNumber == lineNumber && p.batch == batch
      && p.tally == Tally(processed, errorLines, errors, table, dbErrors)
  {
    lineNumber, processed, errorLines, errors, batch, table, dbErrors := 0, 0, 0, [], [], table0, 0;
    ghost var p := Start(table0);
    ghost var os: seq<ParseOutcome> := [];
    ghost var jobsIn := registry.jobs;

    for i := 0 to |lines|
      invariant os == Outcomes(ctx, lines[..i])
      invariant p == RunOn(ctx, table0, os)
      invariant p.lineNumber == lineNumber == i && p.batch == batch
      invariant p.tally == Tally(processed, errorLines, errors, table, dbErrors)
      invariant registry.Valid() && Tracks(registry.jobs, jobs0, jobId, startTime)
      invariant jobId !in jobsIn ==> registry.jobs == jobsIn
      invariant jobId in jobsIn ==> registry.jobs == jobsIn[jobId := ApplyAll(jobsIn[jobId], p.published)]
    {
      var outcome := ParseLine(lines[i], lineNumber + 1, ctx.dates);
      OutcomesSnoc(ctx, lines, i);
      RunOnSnoc(ctx, table0, os, outcome);
      ghost var q := Step(ctx, p, outcome);
      lineNumber, processed, errorLines, errors, batch, table, dbErrors :=
        ReadLine(registry, jobId, ctx, outcome, lineNumber, processed, errorLines, errors, batch, table, dbErrors,
          startTime, p, jobs0, jobsIn);
      os := os + [outcome];
      p := q;
    }
    assert lines[..|lines|] == lines;
  }

  /**
   * `processFile`: the job record ends as `FinalJob` and the table as
   * `FinalTable`; an unknown job id leaves the registry untouched.
   * The clock readings are parameters.
   */
  method ProcessFile(registry: JobRegistry, jobId: string, ctx: Context, source: Source, table0: seq<Event>,
                     startTime: string, endTime: string)
    returns (table: seq<Event>)
    requires registry.Valid()
    modifies registry
    ensures registry.Valid()
    ensures table == FinalTable(ctx, source, table0)
    ensures jobId !in old(registry.jobs) ==> registry.jobs == old(registry.jobs)
    ensures jobId in old(registry.jobs) ==>
      registry.jobs == old(registry.jobs)[jobId := FinalJob(ctx, source, table0, old(registry.jobs[jobId]), startTime, endTime)]
  {
    ghost var jobs0 := registry.jobs;
    var _ := registry.UpdateJob(jobId, StartUpdate(startTime));
    var lineNumber, processed, errorLines, errors, batch, t, dbErrors :=
      ReadLines(registry, jobId, ctx, source.lines, table0, startTime, jobs0);
    table := t;

    ghost var p := Run(ctx, table0, source.lines);
    ghost var current := registry.jobs;
    var u: JobUpdate;
    if source.failure.Some? {
      u := FailedUpdate(lineNumber, processed, errorLines, errors, source.failure.value, endTime);
    } else {
      if |batch| > 0 {
        processed, errorLines, errors, table, dbErrors :=
          FlushBatch(ctx, processed, errorLines, errors, table, dbErrors, batch, "");
      }
      u := CompletedUpdate(lineNumber, processed, errorLines, errors, endTime);
    }
    FinalOf(ctx, source, table0, endTime, p, Tally(processed, errorLines, errors, table, dbErrors), u);
    FinalRegistry(jobs0, current, jobId, startTime, u);
    var _ := registry.UpdateJob(jobId, u);
  }
}
