/** The job record of the status command and the enumeration of the jobs named
    in the output of `aurora config list`. */
module Jobs {
  import opened Brackets
  import opened Fields

  /** What is known about the pending update of one job.
      `foundHeader` is parse state of the classifier; `diff` holds raw lines kept
      as a fallback; `remove`, `add` and `update` hold instance ranges such as
      "[0-2]", or "" when none was read. */
  datatype JobUpdate = JobUpdate(
    jobIndex: nat,
    job: string,
    dirty: bool,
    diff: seq<string>,
    foundHeader: bool,
    update: string,
    add: string,
    remove: string)

  /** A record on which no line has been read yet. */
  predicate IsBlank(j: JobUpdate) {
    && !j.dirty
    && !j.foundHeader
    && j.diff == []
    && j.update == ""
    && j.add == ""
    && j.remove == ""
  }

  /** The record a job starts from: its name and position, nothing else. */
  function NewJobUpdate(job: string, jobIndex: nat): (j: JobUpdate)
    ensures j.job == job && j.jobIndex == jobIndex
    ensures IsBlank(j)
  {
    JobUpdate(jobIndex, job, false, [], false, "", "", "")
  }

  /** The characters that separate job names: `[`, `]`, comma and space. */
  predicate IsJobSeparator(c: char) {
    c in "[], "
  }

  /** The job names in the output of `aurora config list`: the first bracket group
      of the output, split at separators, empty pieces dropped. */
  function EnumerateJobs(output: string): (jobs: seq<string>)
    ensures !HasGroup(output) ==> jobs == []
    ensures forall i :: 0 <= i < |jobs| ==> |jobs[i]| > 0
    ensures forall i, c :: 0 <= i < |jobs| && c in jobs[i] ==> !IsJobSeparator(c)
  {
    FieldsFunc(FindString(output), IsJobSeparator)
  }

  /** The names are, in order, the maximal separator-free pieces of the first
      bracket group of the output, and nothing else. */
  lemma EnumerateJobsSplitsFirstGroup(output: string, jobs: seq<string>)
    ensures jobs == EnumerateJobs(output) <==>
      exists spans :: SplitsAs(FindString(output), IsJobSeparator, spans, jobs)
  {
    FieldsFuncIsRuns(FindString(output), IsJobSeparator, jobs);
  }

  /** The records the jobs are processed from: the job at position i gets index i. */
  function StartJobs(jobs: seq<string>): (r: seq<JobUpdate>)
    ensures |r| == |jobs|
    ensures forall i :: 0 <= i < |r| ==> r[i].jobIndex == i && r[i].job == jobs[i] && IsBlank(r[i])
  {
    seq(|jobs|, i requires 0 <= i < |jobs| => NewJobUpdate(jobs[i], i))
  }
}
