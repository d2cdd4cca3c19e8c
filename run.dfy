/**
 * The bookkeeping of an ingest run: the shared state each finished dataset is added to, and the
 * submission loop that stops handing out datasets once the running total reaches the cap.
 * Downloads are not performed here: each dataset's outcome is an input.
 */
module Run {
  import opened Wrappers
  import Naming

  /** Size cap of one run, in gigabytes. */
  const MAX_TOTAL_GB: real := 10.0

  /** Why processing a dataset raised. */
  datatype Failure =
    | ConversionTimeout
    | ConversionFailed(returnCode: int)
    | OtherError(error: Naming.Error)

  /**
   * What `download_table` produced for a dataset: the parquet size in MB and, in the
   * catalog-driven ingest, the file path under `data/`; or a skip; or an exception.
   */
  datatype Outcome =
    | Completed(sizeMb: real, filePath: Option<string>)
    | Skipped
    | Raised(failure: Failure)

  /** A dataset handed to a worker; the catalog's title may be null. */
  datatype Job = Job(productId: int, title: Option<string>)

  /** One row of `ingested.csv`. */
  datatype ManifestEntry = ManifestEntry(productId: int, title: string, sizeMb: real, filePath: Option<string>)

  /**
   * Formatting the display title takes `len(title)`, which raises `TypeError` on a null title.
   * `download_table` does it before anything else, so a job with a null title never downloads.
   */
  const NULL_TITLE: Failure := OtherError(Naming.Error("TypeError", "object of type 'NoneType' has no len()"))

  /** What `download_table` produces for a job whose download would have ended in `outcome`. */
  function Effective(jobs: seq<Job>, outcomes: seq<Outcome>): (eff: seq<Outcome>)
    requires |jobs| == |outcomes|
    ensures |eff| == |jobs|
    ensures forall k :: 0 <= k < |jobs| ==> eff[k] == if jobs[k].title.None? then Raised(NULL_TITLE) else outcomes[k]
  {
    seq(|jobs|, k requires 0 <= k < |jobs| => if jobs[k].title.None? then Raised(NULL_TITLE) else outcomes[k])
  }

  /** The records a sequence of jobs leaves in the manifest: one per completed job with a title, in order. */
  function Entries(jobs: seq<Job>, outcomes: seq<Outcome>): seq<ManifestEntry>
    requires |jobs| == |outcomes|
    decreases |jobs|
  {
    if jobs == [] then []
    else
      var n := |jobs| - 1;
      Entries(jobs[..n], outcomes[..n]) +
        (match (jobs[n].title, outcomes[n])
         case (Some(title), Completed(sizeMb, filePath)) => [ManifestEntry(jobs[n].productId, title, sizeMb, filePath)]
         case _ => [])
  }

  /** The megabytes a sequence of outcomes adds to the running total. */
  function Total(outcomes: seq<Outcome>): real
    decreases |outcomes|
  {
    if outcomes == [] then 0.0
    else
      var n := |outcomes| - 1;
      Total(outcomes[..n]) + (if outcomes[n].Completed? then outcomes[n].sizeMb else 0.0)
  }

  /** `total_size_mb / 1000 >= MAX_TOTAL_GB`. */
  predicate CapReached(totalSizeMb: real)
  {
    totalSizeMb / 1000.0 >= MAX_TOTAL_GB
  }

  /** The `shared_state` dictionary the workers update under the lock. */
  class SharedState {
    var totalSizeMb: real
    var ingested: seq<ManifestEntry>

    constructor()
      ensures totalSizeMb == 0.0 && ingested == []
    {
      totalSizeMb := 0.0;
      ingested := [];
    }

    /**
     * `process_dataset`: a completed dataset adds its size to the total and one record to the
     * manifest and returns its size; a skip or any exception leaves the state as it was and
     * returns `None`. A null title makes `download_table` raise, and the handler raises again
     * when it formats the same title, so the call itself fails, with the state unchanged.
     */
    method ProcessDataset(job: Job, outcome: Outcome) returns (r: Result<Option<real>, Failure>)
      modifies this
      ensures job.title.None? ==>
        totalSizeMb == old(totalSizeMb) && ingested == old(ingested) && r == Failure(NULL_TITLE)
      ensures job.title.Some? && outcome.Completed? ==>
        && totalSizeMb == old(totalSizeMb) + outcome.sizeMb
        && ingested == old(ingested) + [ManifestEntry(job.productId, job.title.value, outcome.sizeMb, outcome.filePath)]
        && r == Success(Some(outcome.sizeMb))
      ensures job.title.Some? && !outcome.Completed? ==>
        totalSizeMb == old(totalSizeMb) && ingested == old(ingested) && r == Success(None)
    {
      if job.title.None? {
        return Failure(NULL_TITLE);
      }
      match outcome {
        case Completed(sizeMb, filePath) =>
          totalSizeMb := totalSizeMb + sizeMb;
          ingested := ingested + [ManifestEntry(job.productId, job.title.value, sizeMb, filePath)];
          r := Success(Some(sizeMb));
        case Skipped =>
          r := Success(None);
        case Raised(_) =>
          r := Success(None);
      }
    }
  }

  /**
   * The submission loop of `main` as written. `executor.submit` returns without waiting, so the
   * cap check before job `k` sees only the jobs that have finished by then: `finishedBefore[k]`
   * of them, taken in submission order (one worker runs them in that order). The loop stops at
   * the first job whose check finds the cap reached; every job submitted before it still runs.
   */
  method SubmitAsWritten(outcomes: seq<Outcome>, finishedBefore: seq<nat>) returns (submitted: nat)
    requires |finishedBefore| == |outcomes|
    requires forall k :: 0 <= k < |outcomes| ==> finishedBefore[k] <= k
    ensures submitted <= |outcomes|
    ensures forall k :: 0 <= k < submitted ==> !CapReached(Total(outcomes[..finishedBefore[k]]))
    ensures submitted < |outcomes| ==> CapReached(Total(outcomes[..finishedBefore[submitted]]))
  {
    submitted := 0;
    while submitted < |outcomes|
      invariant submitted <= |outcomes|
      invariant forall k :: 0 <= k < submitted ==> !CapReached(Total(outcomes[..finishedBefore[k]]))
      decreases |outcomes| - submitted
    {
      if CapReached(Total(outcomes[..finishedBefore[submitted]])) {
        break;
      }
      submitted := submitted + 1;
    }
  }

  /**
   * When no download has finished by the time the loop runs its checks, which is the usual case
   * since submitting takes no time, the cap never stops the loop: every job is submitted.
   */
  lemma CapIneffective(outcomes: seq<Outcome>, finishedBefore: seq<nat>, submitted: nat)
    requires |finishedBefore| == |outcomes| && submitted <= |outcomes|
    requires forall k :: 0 <= k < |outcomes| ==> finishedBefore[k] == 0
    requires submitted < |outcomes| ==> CapReached(Total(outcomes[..finishedBefore[submitted]]))
    ensures submitted == |outcomes|
  {
    forall k | 0 <= k < |outcomes|
      ensures !CapReached(Total(outcomes[..finishedBefore[k]]))
    {
      assert outcomes[..finishedBefore[k]] == [];
    }
  }

  /**
   * Three datasets of 6000 MB each, all submitted before any finishes, total 18000 MB: more than
   * the cap plus one dataset, the bound the sequential loop keeps (`CapOvershoot`).
   */
  lemma UnboundedOvershoot()
    ensures var outcomes := seq(3, _ => Completed(6000.0, None));
            && !CapReached(Total(outcomes[..0]))
            && Total(outcomes) == 18000.0
            && Total(outcomes) >= 1000.0 * MAX_TOTAL_GB + 6000.0
  {
    var outcomes: seq<Outcome> := seq(3, _ => Completed(6000.0, None));
    assert outcomes[..0] == [];
    assert outcomes[..1][..0] == [];
    assert Total(outcomes[..1]) == 6000.0;
    assert outcomes[..2][..1] == outcomes[..1];
    assert Total(outcomes[..2]) == 12000.0;
    assert outcomes[..2] == outcomes[..|outcomes| - 1];
  }

  /** What `main` raises when a worker raised: its handler formats the job's null title. */
  const MAIN_RAISED: string := "TypeError: object of type 'NoneType' has no len()"

  /**
   * The submission loop of `main`, with each job finished before the next check: before each job
   * the cap is checked, and the loop stops at the first job that finds it reached. The jobs
   * processed are a prefix of the list; none of them found the cap reached; if the loop stopped
   * early the cap was reached; the total is that of the processed prefix. The manifest is written
   * with the records of the processed prefix, unless a processed job had a null title: then the
   * handler that reports the worker's exception raises in turn, and `main` ends before writing it.
   */
  method IngestAll(jobs: seq<Job>, outcomes: seq<Outcome>)
    returns (manifest: Result<seq<ManifestEntry>, string>, totalSizeMb: real, submitted: nat)
    requires |outcomes| == |jobs|
    ensures submitted <= |jobs|
    ensures forall k :: 0 <= k < submitted ==> !CapReached(Total(Effective(jobs, outcomes)[..k]))
    ensures submitted < |jobs| ==> CapReached(Total(Effective(jobs, outcomes)[..submitted]))
    ensures totalSizeMb == Total(Effective(jobs, outcomes)[..submitted])
    ensures manifest.Failure? <==> exists k :: 0 <= k < submitted && jobs[k].title.None?
    ensures manifest.Failure? ==> manifest.error == MAIN_RAISED
    ensures manifest.Success? ==> manifest.value == Entries(jobs[..submitted], outcomes[..submitted])
  {
    ghost var eff := Effective(jobs, outcomes);
    var state := new SharedState();
    var crashed := false;
    submitted := 0;
    while submitted < |jobs|
      invariant submitted <= |jobs|
      invariant forall k :: 0 <= k < submitted ==> !CapReached(Total(eff[..k]))
      invariant state.ingested == Entries(jobs[..submitted], outcomes[..submitted])
      invariant state.totalSizeMb == Total(eff[..submitted])
      invariant crashed <==> exists k :: 0 <= k < submitted && jobs[k].title.None?
      decreases |jobs| - submitted
    {
      if CapReached(state.totalSizeMb) {
        break;
      }
      PrefixStep(jobs, outcomes, submitted);
      var r := state.ProcessDataset(jobs[submitted], outcomes[submitted]);
      if r.Failure? {
        crashed := true;
      }
      submitted := submitted + 1;
    }
    totalSizeMb := state.totalSizeMb;
    if crashed {
      manifest := Failure(MAIN_RAISED);
    } else {
      manifest := Success(state.ingested);
    }
  }

  /** Processing job `n` extends the records and the total of the first `n` jobs by that job's share. */
  lemma PrefixStep(jobs: seq<Job>, outcomes: seq<Outcome>, n: nat)
    requires |jobs| == |outcomes| && n < |jobs|
    ensures Entries(jobs[..n + 1], outcomes[..n + 1]) == Entries(jobs[..n], outcomes[..n]) +
      (if jobs[n].title.Some? && outcomes[n].Completed?
       then [ManifestEntry(jobs[n].productId, jobs[n].title.value, outcomes[n].sizeMb, outcomes[n].filePath)]
       else [])
    ensures var eff := Effective(jobs, outcomes);
      Total(eff[..n + 1]) == Total(eff[..n]) +
        (if jobs[n].title.Some? && outcomes[n].Completed? then outcomes[n].sizeMb else 0.0)
  {
    assert jobs[..n + 1][..n] == jobs[..n];
    assert outcomes[..n + 1][..n] == outcomes[..n];
    var eff := Effective(jobs, outcomes);
    assert eff[..n + 1][..n] == eff[..n];
  }

  /** One manifest record per completed job, never more records than jobs. */
  lemma {:induction false} EntriesCount(jobs: seq<Job>, outcomes: seq<Outcome>)
    requires |jobs| == |outcomes|
    ensures |Entries(jobs, outcomes)| <= |jobs|
    ensures (forall k :: 0 <= k < |outcomes| ==> outcomes[k].Completed? && jobs[k].title.Some?) ==> |Entries(jobs, outcomes)| == |jobs|
    ensures (forall k :: 0 <= k < |outcomes| ==> !outcomes[k].Completed?) ==> Entries(jobs, outcomes) == []
    decreases |jobs|
  {
    if jobs != [] {
      EntriesCount(jobs[..|jobs| - 1], outcomes[..|jobs| - 1]);
    }
  }

  /** Every record names a processed job and carries that job's outcome. */
  lemma {:induction false} EntriesFromJobs(jobs: seq<Job>, outcomes: seq<Outcome>, m: ManifestEntry)
    requires |jobs| == |outcomes|
    requires m in Entries(jobs, outcomes)
    ensures exists k :: 0 <= k < |jobs| && m.productId == jobs[k].productId && jobs[k].title == Some(m.title)
                        && outcomes[k] == Completed(m.sizeMb, m.filePath)
    decreases |jobs|
  {
    var n := |jobs| - 1;
    if m in Entries(jobs[..n], outcomes[..n]) {
      EntriesFromJobs(jobs[..n], outcomes[..n], m);
      var k :| 0 <= k < n && m.productId == jobs[..n][k].productId && jobs[..n][k].title == Some(m.title)
                && outcomes[..n][k] == Completed(m.sizeMb, m.filePath);
      assert jobs[k] == jobs[..n][k] && outcomes[k] == outcomes[..n][k];
    } else {
      assert outcomes[n] == Completed(m.sizeMb, m.filePath);
    }
  }

  /** With no negative sizes the running total never decreases, so once reached the cap stays reached. */
  lemma {:induction false} TotalMonotone(outcomes: seq<Outcome>, i: nat, j: nat)
    requires i <= j <= |outcomes|
    requires forall k :: 0 <= k < |outcomes| && outcomes[k].Completed? ==> outcomes[k].sizeMb >= 0.0
    ensures Total(outcomes[..i]) <= Total(outcomes[..j])
    decreases j - i
  {
    if i < j {
      TotalMonotone(outcomes, i, j - 1);
      assert outcomes[..j][..j - 1] == outcomes[..j - 1];
    }
  }

  /**
   * A run overshoots the cap by less than one dataset: when every dataset is at most `maxSize`
   * MB, the total of the processed prefix stays below `1000 * MAX_TOTAL_GB + maxSize`.
   */
  lemma CapOvershoot(outcomes: seq<Outcome>, submitted: nat, maxSize: real)
    requires 0 < submitted <= |outcomes|
    requires !CapReached(Total(outcomes[..submitted - 1]))
    requires forall k :: 0 <= k < |outcomes| && outcomes[k].Completed? ==> outcomes[k].sizeMb <= maxSize
    requires maxSize >= 0.0
    ensures Total(outcomes[..submitted]) < 1000.0 * MAX_TOTAL_GB + maxSize
  {
    assert outcomes[..submitted][..submitted - 1] == outcomes[..submitted - 1];
  }
}
