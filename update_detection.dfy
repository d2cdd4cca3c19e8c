/**
 * Update detection: a refresh interval per frequency name, the "is it due" test, the
 * classification of fresh catalog ids into `new` / `update_due`, and the limit that caps
 * only the `new` rows.
 */
module UpdateDetection {
  import opened Wrappers
  import opened Seqs
  import opened Datasets

  const NEW: string := "new"
  const UPDATE_DUE: string := "update_due"

  /** Interval used for any name the table does not know. */
  const DEFAULT_INTERVAL_DAYS: nat := 180

  /** The refresh interval, in days, of each frequency name the catalog API uses. */
  const FREQUENCY_DAYS: map<string, nat> := map[
    "Daily" := 1,
    "Weekly" := 7,
    "Bi-weekly" := 14,
    "Monthly" := 30,
    "Quarterly" := 90,
    "Semi-annual" := 180,
    "Annual" := 365,
    "Occasional" := 180]

  /** A frequency cell that looks up as `name` (a string cell equal to it). */
  predicate IsLabel(frequency: Option<Scalar>, name: string)
  {
    frequency == Some(Str(name))
  }

  /** Days to wait before a dataset of this frequency is checked again; unknown labels wait 180. */
  function ParseFrequencyToDays(frequency: Option<Scalar>): (days: nat)
    ensures IsLabel(frequency, "Daily") ==> days == 1
    ensures IsLabel(frequency, "Weekly") ==> days == 7
    ensures IsLabel(frequency, "Bi-weekly") ==> days == 14
    ensures IsLabel(frequency, "Monthly") ==> days == 30
    ensures IsLabel(frequency, "Quarterly") ==> days == 90
    ensures IsLabel(frequency, "Semi-annual") ==> days == 180
    ensures IsLabel(frequency, "Annual") ==> days == 365
    ensures IsLabel(frequency, "Occasional") ==> days == 180
    ensures !(frequency.Some? && frequency.value.Str? && frequency.value.s in FREQUENCY_DAYS) ==> days == DEFAULT_INTERVAL_DAYS
    ensures 1 <= days <= 365
  {
    match frequency
    case Some(Str(name)) => if name in FREQUENCY_DAYS then FREQUENCY_DAYS[name] else DEFAULT_INTERVAL_DAYS
    case _ => DEFAULT_INTERVAL_DAYS
  }

  /** `(current - last).days`: whole days elapsed, rounded towards minus infinity. */
  function DaysBetween(last: Timestamp, current: Timestamp): int
  {
    (current - last) / SECONDS_PER_DAY
  }

  /** Whether enough whole days have passed since the last ingestion to check for an update. */
  predicate ShouldCheckForUpdate(frequency: Option<Scalar>, last: Timestamp, current: Timestamp)
  {
    DaysBetween(last, current) >= ParseFrequencyToDays(frequency)
  }

  /** The whole-day test is the same as comparing elapsed seconds with the interval in seconds. */
  lemma ShouldCheckIff(frequency: Option<Scalar>, last: Timestamp, current: Timestamp)
    ensures ShouldCheckForUpdate(frequency, last, current)
        <==> current - last >= ParseFrequencyToDays(frequency) * SECONDS_PER_DAY
  {
    var d := ParseFrequencyToDays(frequency);
    var x := current - last;
    var q := x / SECONDS_PER_DAY;
    assert x == q * SECONDS_PER_DAY + x % SECONDS_PER_DAY;
    if q >= d {
      assert q * SECONDS_PER_DAY >= d * SECONDS_PER_DAY;
    } else {
      assert q * SECONDS_PER_DAY <= (d - 1) * SECONDS_PER_DAY;
    }
  }

  /** The boundary is inclusive: exactly the interval is due, one second less is not. */
  lemma ShouldCheckBoundary(frequency: Option<Scalar>, last: Timestamp)
    ensures ShouldCheckForUpdate(frequency, last, last + ParseFrequencyToDays(frequency) * SECONDS_PER_DAY)
    ensures !ShouldCheckForUpdate(frequency, last, last + ParseFrequencyToDays(frequency) * SECONDS_PER_DAY - 1)
  {
    ShouldCheckIff(frequency, last, last + ParseFrequencyToDays(frequency) * SECONDS_PER_DAY);
    ShouldCheckIff(frequency, last, last + ParseFrequencyToDays(frequency) * SECONDS_PER_DAY - 1);
  }

  /** One row of the result of `identify_datasets_for_processing`. */
  datatype Decision = Decision(productId: int, title: Option<string>, frequency: Option<Scalar>, reason: string)

  function DecisionIds(ds: seq<Decision>): set<int>
  {
    set d | d in ds :: d.productId
  }

  lemma DecisionIdsAppend(ds: seq<Decision>, d: Decision)
    ensures DecisionIds(ds + [d]) == DecisionIds(ds) + {d.productId}
  {
    assert forall x :: x in ds + [d] <==> x in ds || x == d;
  }

  /**
   * The reason a fresh id is to be processed, or `None` when it is left alone: absent from the
   * existing catalog or never ingested gives `new`; otherwise `update_due` when the check is due.
   */
  function Classify(freshRows: seq<Entry>, existing: seq<Entry>, now: Timestamp, pid: int): Option<string>
    requires pid in Ids(freshRows)
  {
    if pid !in Ids(existing) then Some(NEW)
    else
      var e := First(existing, pid);
      if e.lastIngestion.None? then Some(NEW)
      else if ShouldCheckForUpdate(First(freshRows, pid).meta.frequency, e.lastIngestion.value, now) then Some(UPDATE_DUE)
      else None
  }

  /** The row emitted for `pid`: title and frequency come from the first fresh row with that id. */
  function DecisionFor(freshRows: seq<Entry>, pid: int, reason: string): Decision
    requires pid in Ids(freshRows)
  {
    var row := First(freshRows, pid);
    Decision(pid, row.meta.title, row.meta.frequency, reason)
  }

  /** Every row is the classification of a fresh id. */
  ghost predicate Sound(freshRows: seq<Entry>, existing: seq<Entry>, now: Timestamp, ds: seq<Decision>)
  {
    forall d :: d in ds ==>
      && d.productId in Ids(freshRows)
      && Classify(freshRows, existing, now, d.productId) == Some(d.reason)
      && d == DecisionFor(freshRows, d.productId, d.reason)
  }

  predicate DistinctIds(ds: seq<Decision>)
  {
    forall i, j :: 0 <= i < j < |ds| ==> ds[i].productId != ds[j].productId
  }

  /** The selected fresh ids. */
  ghost function Selected(freshRows: seq<Entry>, existing: seq<Entry>, now: Timestamp, ids: set<int>): set<int>
  {
    set pid | pid in ids && pid in Ids(freshRows) && Classify(freshRows, existing, now, pid).Some?
  }

  /**
   * Classifies the fresh ids against the existing catalog. The result is `Failure` exactly when
   * an id is in both catalogs and the existing one has no `last_ingestion_date` column (the
   * column lookup raises). Otherwise it holds one row per selected fresh id and no other, and
   * every id found only in the fresh catalog comes before every id found in both. The order
   * within each group is the iteration order of a Python set, which is not specified.
   */
  method IdentifyDatasetsForProcessing(freshRows: seq<Entry>, existing: Catalog, now: Timestamp)
    returns (r: Result<seq<Decision>, string>)
    ensures r.Failure? <==> !existing.hasIngestionDate && Ids(freshRows) * Ids(existing.rows) != {}
    ensures r.Success? ==> Sound(freshRows, existing.rows, now, r.value)
    ensures r.Success? ==> DecisionIds(r.value) == Selected(freshRows, existing.rows, now, Ids(freshRows))
    ensures r.Success? ==> DistinctIds(r.value)
    ensures existing.rows == [] ==> r.Success? && DecisionIds(r.value) == Ids(freshRows)
                                    && forall d :: d in r.value ==> d.reason == NEW
    ensures r.Success? ==> forall i, j :: 0 <= i < j < |r.value| && r.value[j].productId !in Ids(existing.rows)
                             ==> r.value[i].productId !in Ids(existing.rows)
  {
    var freshIds := Ids(freshRows);
    var existingIds: set<int> := if |existing.rows| > 0 then Ids(existing.rows) else {};
    assert existingIds == Ids(existing.rows);
    var results := NewDecisions(freshRows, existing.rows, now, freshIds - existingIds);
    var both := freshIds * existingIds;
    if both != {} && !existing.hasIngestionDate {
      return Failure("KeyError: 'last_ingestion_date'");
    }
    var all := SharedDecisions(freshRows, existing.rows, now, both, results);
    if existing.rows == [] {
      assert forall pid :: pid in freshIds ==> Classify(freshRows, existing.rows, now, pid) == Some(NEW);
    }
    assert Selected(freshRows, existing.rows, now, freshIds) ==
           (freshIds - existingIds) + Selected(freshRows, existing.rows, now, both);
    return Success(all);
  }

  /** The first loop: one `new` row per id found only in the fresh catalog. */
  method NewDecisions(freshRows: seq<Entry>, existing: seq<Entry>, now: Timestamp, onlyFresh: set<int>)
    returns (results: seq<Decision>)
    requires onlyFresh <= Ids(freshRows) - Ids(existing)
    ensures DecisionIds(results) == onlyFresh
    ensures Sound(freshRows, existing, now, results)
    ensures DistinctIds(results)
    ensures forall d :: d in results ==> d.productId !in Ids(existing) && d.reason == NEW
  {
    results := [];
    var todo := onlyFresh;
    while todo != {}
      invariant todo <= onlyFresh
      invariant DecisionIds(results) == onlyFresh - todo
      invariant Sound(freshRows, existing, now, results)
      invariant DistinctIds(results)
      invariant forall d :: d in results ==> d.productId !in Ids(existing) && d.reason == NEW
      decreases todo
    {
      var pid :| pid in todo;
      var row := First(freshRows, pid);
      DecisionIdsAppend(results, Decision(pid, row.meta.title, row.meta.frequency, NEW));
      results := results + [Decision(pid, row.meta.title, row.meta.frequency, NEW)];
      todo := todo - {pid};
    }
  }

  /**
   * The second loop: for each id in both catalogs, a `new` row when the stored date is null, an
   * `update_due` row when an update is due, and nothing otherwise; appended after `results0`.
   */
  method SharedDecisions(freshRows: seq<Entry>, existing: seq<Entry>, now: Timestamp, both: set<int>, results0: seq<Decision>)
    returns (results: seq<Decision>)
    requires both <= Ids(freshRows) * Ids(existing)
    requires DecisionIds(results0) !! both
    requires Sound(freshRows, existing, now, results0)
    requires DistinctIds(results0)
    ensures |results| >= |results0| && results[..|results0|] == results0
    ensures forall k :: |results0| <= k < |results| ==> results[k].productId in both
    ensures DecisionIds(results) == DecisionIds(results0) + Selected(freshRows, existing, now, both)
    ensures Sound(freshRows, existing, now, results)
    ensures DistinctIds(results)
  {
    results := results0;
    var todo := both;
    ghost var done: set<int> := {};
    while todo != {}
      invariant todo !! done && todo + done == both
      invariant |results| >= |results0| && results[..|results0|] == results0
      invariant forall k :: |results0| <= k < |results| ==> results[k].productId in done
      invariant DecisionIds(results) == DecisionIds(results0) + Selected(freshRows, existing, now, done)
      invariant Sound(freshRows, existing, now, results)
      invariant DistinctIds(results)
      decreases todo
    {
      var pid :| pid in todo;
      ghost var before := results;
      results := DecideShared(freshRows, existing, now, pid, results);
      assert Selected(freshRows, existing, now, done + {pid}) ==
        Selected(freshRows, existing, now, done) + (if Classify(freshRows, existing, now, pid).Some? then {pid} else {});
      assert results[..|results0|] == before[..|results0|];
      todo := todo - {pid};
      done := done + {pid};
    }
  }

  /** One step of the second loop: the row for `pid`, if any, appended to `results0`. */
  method DecideShared(freshRows: seq<Entry>, existing: seq<Entry>, now: Timestamp, pid: int, results0: seq<Decision>)
    returns (results: seq<Decision>)
    requires pid in Ids(freshRows) && pid in Ids(existing)
    requires pid !in DecisionIds(results0)
    requires Sound(freshRows, existing, now, results0)
    requires DistinctIds(results0)
    ensures results == results0 ||
      (|results| == |results0| + 1 && results[..|results0|] == results0 && results[|results0|].productId == pid)
    ensures DecisionIds(results) == DecisionIds(results0) + (if Classify(freshRows, existing, now, pid).Some? then {pid} else {})
    ensures Sound(freshRows, existing, now, results)
    ensures DistinctIds(results)
  {
    var freshRow := First(freshRows, pid);
    var existingRow := First(existing, pid);
    results := results0;
    var reason: Option<string> := None;
    if existingRow.lastIngestion.None? {
      reason := Some(NEW);
    } else if ShouldCheckForUpdate(freshRow.meta.frequency, existingRow.lastIngestion.value, now) {
      reason := Some(UPDATE_DUE);
    }
    assert reason == Classify(freshRows, existing, now, pid);
    if reason.Some? {
      var d := Decision(pid, freshRow.meta.title, freshRow.meta.frequency, reason.value);
      DecisionIdsAppend(results0, d);
      results := results0 + [d];
    }
  }

  predicate IsNew(d: Decision) { d.reason == NEW }

  predicate IsUpdateDue(d: Decision) { d.reason == UPDATE_DUE }

  /** What selecting on `datasets_df['reason']` raises when the frame has no such column. */
  const MISSING_REASON: string := "KeyError: 'reason'"

  /**
   * Caps the `new` rows at `limit` (pandas `head`) and keeps every `update_due` row after them.
   * An empty decision list stands for the frame built from no rows at all, which has no
   * `reason` column: without a limit it is returned as it is, with one the selection raises.
   */
  function ApplyLimitToNewDatasets(ds: seq<Decision>, limit: Option<int>): (r: Result<seq<Decision>, string>)
    ensures r.Failure? <==> limit.Some? && ds == []
    ensures r.Failure? ==> r.error == MISSING_REASON
  {
    match limit
    case None => Success(ds)
    case Some(n) =>
      if ds == [] then Failure(MISSING_REASON)
      else Success(Head(Filter(ds, IsNew), n) + Filter(ds, IsUpdateDue))
  }

  /**
   * With a limit `n >= 0` on a non-empty result: the `new` rows kept are the first `n` of the
   * input's `new` rows, in input order, and every one of them comes before every `update_due` row.
   */
  lemma ApplyLimitOrder(ds: seq<Decision>, n: nat)
    ensures var r := ApplyLimitToNewDatasets(ds, Some(n));
      r.Success? ==>
      && Filter(r.value, IsNew) == Head(Filter(ds, IsNew), n)
      && (forall i, j :: 0 <= i < j < |r.value| && IsNew(r.value[j]) ==> IsNew(r.value[i]))
  {
    if ds != [] {
      var kept := Head(Filter(ds, IsNew), n);
      var ups := Filter(ds, IsUpdateDue);
      assert forall d :: d in kept ==> d in Filter(ds, IsNew);
      FilterAppend(kept, ups, IsNew);
      FilterAll(kept, IsNew);
      FilterNone(ups, IsNew);
      NewRowsFirst(kept, ups);
    }
  }

  /** Rows that are all `new`, followed by rows none of which is, keep the `new` rows in front. */
  lemma NewRowsFirst(kept: seq<Decision>, rest: seq<Decision>)
    requires forall d :: d in kept ==> IsNew(d)
    requires forall d :: d in rest ==> !IsNew(d)
    ensures forall i, j :: 0 <= i < j < |kept + rest| && IsNew((kept + rest)[j]) ==> IsNew((kept + rest)[i])
  {
    var r := kept + rest;
    forall k | |kept| <= k < |r|
      ensures !IsNew(r[k])
    {
      assert r[k] == rest[k - |kept|] && rest[k - |kept|] in rest;
    }
    forall i, j | 0 <= i < j < |r| && IsNew(r[j])
      ensures IsNew(r[i])
    {
      assert j < |kept|;
      assert r[i] == kept[i] && kept[i] in kept;
    }
  }

  /**
   * With a limit `n >= 0` on a non-empty result: the number of `new` rows becomes
   * `min(n, #new)`, every `update_due` row survives, and every other reason is dropped.
   */
  lemma ApplyLimitCounts(ds: seq<Decision>, n: nat)
    ensures var r := ApplyLimitToNewDatasets(ds, Some(n));
      r.Success? ==>
      && Count(r.value, IsNew) == (if n < Count(ds, IsNew) then n else Count(ds, IsNew))
      && Count(r.value, IsUpdateDue) == Count(ds, IsUpdateDue)
      && (forall d :: d in r.value ==> d in ds && (IsNew(d) || IsUpdateDue(d)))
      && |r.value| == Count(r.value, IsNew) + Count(ds, IsUpdateDue)
  {
    if ds != [] {
      var kept := Head(Filter(ds, IsNew), n);
      var ups := Filter(ds, IsUpdateDue);
      var r := kept + ups;
      assert ApplyLimitToNewDatasets(ds, Some(n)) == Success(r);
      assert Count(r, IsNew) == |kept| by {
        ApplyLimitOrder(ds, n);
        FilterCount(r, IsNew);
      }
      assert Count(r, IsUpdateDue) == Count(ds, IsUpdateDue) == |ups| by {
        LimitKeepsUpdates(ds, n);
        FilterCount(r, IsUpdateDue);
        FilterCount(ds, IsUpdateDue);
      }
      assert |kept| == (if n < Count(ds, IsNew) then n else Count(ds, IsNew)) by {
        FilterCount(ds, IsNew);
      }
      forall d | d in r
        ensures d in ds && (IsNew(d) || IsUpdateDue(d))
      {
        if d in kept {
          assert d in Filter(ds, IsNew);
        } else {
          assert d in ups;
        }
      }
    }
  }

  /** Without a limit nothing is dropped or reordered, and nothing raises. */
  lemma ApplyLimitNone(ds: seq<Decision>)
    ensures ApplyLimitToNewDatasets(ds, None) == Success(ds)
  {
  }

  /** A limit never drops or reorders an `update_due` row. */
  lemma LimitKeepsUpdates(ds: seq<Decision>, n: int)
    ensures var r := ApplyLimitToNewDatasets(ds, Some(n));
      r.Success? ==> Filter(r.value, IsUpdateDue) == Filter(ds, IsUpdateDue)
  {
    if ds != [] {
      var kept := Head(Filter(ds, IsNew), n);
      var ups := Filter(ds, IsUpdateDue);
      FilterAppend(kept, ups, IsUpdateDue);
      assert forall d :: d in kept ==> d in Filter(ds, IsNew);
      FilterNone(kept, IsUpdateDue);
      FilterAll(ups, IsUpdateDue);
    }
  }

  /** A run with nothing new and nothing due raises as soon as a limit is set. */
  lemma NothingDueWithLimit(n: int)
    ensures ApplyLimitToNewDatasets([], Some(n)) == Failure(MISSING_REASON)
    ensures ApplyLimitToNewDatasets([], None) == Success([])
  {
  }
}
