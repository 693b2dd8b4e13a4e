/** The status command end to end, with the external `aurora` tool replaced by
    its outputs: the text of `aurora config list` and, for every job name, the
    lines of `aurora job diff` for that job. Jobs are classified one after the
    other, in the order in which they were enumerated. */
module Status {
  import opened Jobs
  import opened Classifier

  /** What the status command reports for job `job` at position `jobIndex` whose
      diff output is `lines`, stated without the scan. */
  ghost predicate Reports(r: JobUpdate, job: string, jobIndex: nat, lines: seq<string>) {
    && r.job == job
    && r.jobIndex == jobIndex
    && (r.foundHeader <==> exists k :: 0 <= k < |lines| && IsHeader(lines[k]))
    && r.diff == Preamble(lines)
    && (r.dirty <==> (exists k :: 0 <= k < |lines| && IsChange(lines[k])) || r.diff != [])
    && LastWriteWins(lines, IsRemove, "", r.remove)
    && LastWriteWins(lines, IsAdd, "", r.add)
    && LastWriteWins(lines, IsUpdate, "", r.update)
  }

  /** `Reports` leaves no freedom: at most one record satisfies it. */
  lemma ReportsUnique(x: JobUpdate, y: JobUpdate, job: string, jobIndex: nat, lines: seq<string>)
    requires Reports(x, job, jobIndex, lines)
    requires Reports(y, job, jobIndex, lines)
    ensures x == y
  {
    LastWriteWinsUnique(lines, IsRemove, "", x.remove, y.remove);
    LastWriteWinsUnique(lines, IsAdd, "", x.add, y.add);
    LastWriteWinsUnique(lines, IsUpdate, "", x.update, y.update);
  }

  /** The record of one job: its diff lines read into the blank record it starts from. */
  function ReportJob(start: JobUpdate, lines: seq<string>): (r: JobUpdate)
    requires IsBlank(start)
    ensures Reports(r, start.job, start.jobIndex, lines)
  {
    ClassifyNew(start.job, start.jobIndex, lines);
    assert start == NewJobUpdate(start.job, start.jobIndex);
    Classify(start, lines)
  }

  /** The loop over the jobs: each starting record, in order, reads the diff
      output of its own job. */
  function ReportAll(jobs: seq<string>, diffOf: string -> seq<string>): (r: seq<JobUpdate>)
    ensures |r| == |jobs|
    ensures forall i :: 0 <= i < |r| ==> Reports(r[i], jobs[i], i, diffOf(jobs[i]))
  {
    var start := StartJobs(jobs);
    seq(|jobs|, i requires 0 <= i < |jobs| => ReportJob(start[i], diffOf(jobs[i])))
  }

  /** One record per enumerated job, in enumeration order. */
  function Summarize(listOutput: string, diffOf: string -> seq<string>): (r: seq<JobUpdate>)
    ensures |r| == |EnumerateJobs(listOutput)|
    ensures forall i :: 0 <= i < |r| ==>
      Reports(r[i], EnumerateJobs(listOutput)[i], i, diffOf(EnumerateJobs(listOutput)[i]))
  {
    ReportAll(EnumerateJobs(listOutput), diffOf)
  }

  /** The contract of `Summarize` characterises the summary completely: any list
      of records with one reported record per enumerated job is the summary. */
  lemma SummaryUnique(listOutput: string, diffOf: string -> seq<string>, s: seq<JobUpdate>)
    requires |s| == |EnumerateJobs(listOutput)|
    requires forall i :: 0 <= i < |s| ==>
      Reports(s[i], EnumerateJobs(listOutput)[i], i, diffOf(EnumerateJobs(listOutput)[i]))
    ensures s == Summarize(listOutput, diffOf)
  {
    var jobs, r := EnumerateJobs(listOutput), Summarize(listOutput, diffOf);
    forall i | 0 <= i < |s|
      ensures s[i] == r[i]
    {
      ReportsUnique(s[i], r[i], jobs[i], i, diffOf(jobs[i]));
    }
  }
}
