/**
 * The in-memory registry of ingestion jobs: a map from job id to job record,
 * with create, get and a merge-update that overwrites exactly the supplied
 * fields (`Object.assign`).
 */
module JobStore {
  import opened Wrappers

  datatype Status = Pending | Processing | Completed | Failed

  datatype Job = Job(
    jobId: string,
    status: Status,
    processedLines: int,
    errorLines: int,
    totalLines: int,
    errors: seq<string>,
    startTime: Option<string>,
    endTime: Option<string>)

  /**
   * The fields an update object may carry; `None` means the key is absent.
   * The timestamps are set to a value, never back to `null`.
   */
  datatype JobUpdate = JobUpdate(
    status: Option<Status>,
    processedLines: Option<int>,
    errorLines: Option<int>,
    totalLines: Option<int>,
    errors: Option<seq<string>>,
    startTime: Option<string>,
    endTime: Option<string>)

  const JobIdPrefix: string := "ingest-job-"

  const NoChange: JobUpdate := JobUpdate(None, None, None, None, None, None, None)

  /** The record `createJob` stores under `jobId`. */
  function NewJob(jobId: string): Job {
    Job(jobId, Pending, 0, 0, 0, [], None, None)
  }

  /** `Object.assign(job, updates)`. */
  function Apply(j: Job, u: JobUpdate): Job {
    Job(
      j.jobId,
      u.status.GetOr(j.status),
      u.processedLines.GetOr(j.processedLines),
      u.errorLines.GetOr(j.errorLines),
      u.totalLines.GetOr(j.totalLines),
      u.errors.GetOr(j.errors),
      if u.startTime.Some? then u.startTime else j.startTime,
      if u.endTime.Some? then u.endTime else j.endTime)
  }

  /** The later of two updates wins, key by key. */
  function Then(u: JobUpdate, v: JobUpdate): JobUpdate {
    JobUpdate(
      if v.status.Some? then v.status else u.status,
      if v.processedLines.Some? then v.processedLines else u.processedLines,
      if v.errorLines.Some? then v.errorLines else u.errorLines,
      if v.totalLines.Some? then v.totalLines else u.totalLines,
      if v.errors.Some? then v.errors else u.errors,
      if v.startTime.Some? then v.startTime else u.startTime,
      if v.endTime.Some? then v.endTime else u.endTime)
  }

  /** A supplied key takes the supplied value; an absent key keeps the old one. */
  lemma ApplyFields(j: Job, u: JobUpdate)
    ensures Apply(j, u).jobId == j.jobId
    ensures u.status.Some? ==> Apply(j, u).status == u.status.value
    ensures u.status.None? ==> Apply(j, u).status == j.status
    ensures u.processedLines.Some? ==> Apply(j, u).processedLines == u.processedLines.value
    ensures u.processedLines.None? ==> Apply(j, u).processedLines == j.processedLines
    ensures u.errorLines.Some? ==> Apply(j, u).errorLines == u.errorLines.value
    ensures u.errorLines.None? ==> Apply(j, u).errorLines == j.errorLines
    ensures u.totalLines.Some? ==> Apply(j, u).totalLines == u.totalLines.value
    ensures u.totalLines.None? ==> Apply(j, u).totalLines == j.totalLines
    ensures u.errors.Some? ==> Apply(j, u).errors == u.errors.value
    ensures u.errors.None? ==> Apply(j, u).errors == j.errors
    ensures u.startTime.Some? ==> Apply(j, u).startTime == u.startTime
    ensures u.startTime.None? ==> Apply(j, u).startTime == j.startTime
    ensures u.endTime.Some? ==> Apply(j, u).endTime == u.endTime
    ensures u.endTime.None? ==> Apply(j, u).endTime == j.endTime
  {
  }

  /** Two updates in a row are one merged update. */
  lemma ApplyThen(j: Job, u: JobUpdate, v: JobUpdate)
    ensures Apply(Apply(j, u), v) == Apply(j, Then(u, v))
  {
  }

  /** Applying an update twice is the same as applying it once; an empty update changes nothing. */
  lemma ApplyIdempotent(j: Job, u: JobUpdate)
    ensures Apply(Apply(j, u), u) == Apply(j, u)
    ensures Apply(j, NoChange) == j
  {
  }

  /**
   * Updates merged into one record in order, as successive `updateJob`
   * calls: the id never changes, a key no update supplies keeps its old
   * value, and a key the last update supplies takes that value.
   */
  function ApplyAll(j: Job, us: seq<JobUpdate>): (r: Job)
    ensures r.jobId == j.jobId
    ensures (forall k | 0 <= k < |us| :: us[k].status.None?) ==> r.status == j.status
    ensures (forall k | 0 <= k < |us| :: us[k].startTime.None?) ==> r.startTime == j.startTime
    ensures (forall k | 0 <= k < |us| :: us[k].endTime.None?) ==> r.endTime == j.endTime
    ensures us != [] && us[|us| - 1].processedLines.Some? ==> r.processedLines == us[|us| - 1].processedLines.value
    ensures us != [] && us[|us| - 1].errorLines.Some? ==> r.errorLines == us[|us| - 1].errorLines.value
    ensures us != [] && us[|us| - 1].totalLines.Some? ==> r.totalLines == us[|us| - 1].totalLines.value
    ensures us != [] && us[|us| - 1].errors.Some? ==> r.errors == us[|us| - 1].errors.value
  {
    if us == [] then j
    else
      var before := ApplyAll(j, us[..|us| - 1]);
      ApplyFields(before, us[|us| - 1]);
      Apply(before, us[|us| - 1])
  }

  /** One more `updateJob` call extends the sequence of merged updates. */
  lemma ApplyAllSnoc(j: Job, us: seq<JobUpdate>, u: JobUpdate)
    ensures ApplyAll(j, us + [u]) == Apply(ApplyAll(j, us), u)
  {
    assert (us + [u])[..|us|] == us;
  }

  class JobRegistry {
    var jobs: map<string, Job>

    /** Every stored record carries the key it is stored under. */
    ghost predicate Valid()
      reads this
    {
      forall id | id in jobs :: jobs[id].jobId == id
    }

    constructor()
      ensures jobs == map[] && Valid()
    {
      jobs := map[];
    }

    /** `createJob`, with the fresh UUID passed in. */
    method CreateJob(uuid: string) returns (job: Job)
      requires Valid()
      modifies this
      ensures Valid()
      ensures job.jobId == JobIdPrefix + uuid && JobIdPrefix <= job.jobId
      ensures job.status == Pending && job.processedLines == 0 && job.errorLines == 0 && job.totalLines == 0
      ensures job.errors == [] && job.startTime == None && job.endTime == None
      ensures jobs == old(jobs)[job.jobId := job]
      ensures GetJob(job.jobId) == Some(job)
    {
      var jobId := JobIdPrefix + uuid;
      job := NewJob(jobId);
      jobs := jobs[jobId := job];
    }

    /** `getJob`: the stored record, or `null` for an unknown id. */
    function GetJob(jobId: string): (r: Option<Job>)
      reads this
      ensures r.None? <==> jobId !in jobs
      ensures r.Some? ==> r.value == jobs[jobId]
    {
      if jobId in jobs then Some(jobs[jobId]) else None
    }

    /** `updateJob`: merges the update into a known job and returns it; `null` and no change otherwise. */
    method UpdateJob(jobId: string, u: JobUpdate) returns (r: Option<Job>)
      requires Valid()
      modifies this
      ensures Valid()
      ensures jobId !in old(jobs) ==> r == None && jobs == old(jobs)
      ensures jobId in old(jobs) ==> r == Some(Apply(old(jobs)[jobId], u)) && jobs == old(jobs)[jobId := r.value]
    {
      if jobId !in jobs {
        return None;
      }
      var job := Apply(jobs[jobId], u);
      jobs := jobs[jobId := job];
      r := Some(job);
    }
  }
}
