/**
 * Catalog reconciliation: the `available` flag recomputed from the ids listed in S3, the
 * `last_ingestion_date` column (initialised, stamped, carried forward by a left join), and the
 * order in which the catalog job applies them.
 */
module CatalogSync {
  import opened Wrappers
  import opened Datasets

  /** Sets `available` on every row to whether its id is listed in S3; nothing else changes. */
  function EnhanceCatalog(c: Catalog, existingIds: set<int>): (r: Catalog)
    ensures |r.rows| == |c.rows| && r.hasAvailable && r.hasIngestionDate == c.hasIngestionDate
    ensures forall i :: 0 <= i < |c.rows| ==>
      r.rows[i].available == (c.rows[i].productId in existingIds) &&
      r.rows[i].(available := false) == c.rows[i].(available := false)
    ensures WellFormed(c) ==> WellFormed(r)
  {
    Catalog(seq(|c.rows|, i requires 0 <= i < |c.rows| => c.rows[i].(available := c.rows[i].productId in existingIds)),
            true, c.hasIngestionDate)
  }

  /** Recomputing the flags with the same listing changes nothing more. */
  lemma EnhanceIdempotent(c: Catalog, existingIds: set<int>)
    ensures EnhanceCatalog(EnhanceCatalog(c, existingIds), existingIds) == EnhanceCatalog(c, existingIds)
  {
    var once := EnhanceCatalog(c, existingIds);
    var twice := EnhanceCatalog(once, existingIds);
    assert forall i :: 0 <= i < |c.rows| ==> twice.rows[i] == once.rows[i];
  }

  /** The new flags depend only on the listing: whatever flags the input carried are forgotten. */
  lemma EnhanceForgetsOldFlags(c: Catalog, d: Catalog, existingIds: set<int>)
    requires |c.rows| == |d.rows| && c.hasIngestionDate == d.hasIngestionDate
    requires forall i :: 0 <= i < |c.rows| ==> c.rows[i].(available := false) == d.rows[i].(available := false)
    ensures EnhanceCatalog(c, existingIds) == EnhanceCatalog(d, existingIds)
  {
    var a := EnhanceCatalog(c, existingIds);
    var b := EnhanceCatalog(d, existingIds);
    forall i | 0 <= i < |c.rows|
      ensures a.rows[i] == b.rows[i]
    {
      assert c.rows[i].productId == c.rows[i].(available := false).productId;
      assert d.rows[i].productId == d.rows[i].(available := false).productId;
    }
  }

  /** An empty listing marks every row unavailable; a listing holding every id marks all available. */
  lemma EnhanceExtremes(c: Catalog, existingIds: set<int>)
    ensures existingIds == {} ==> forall e :: e in EnhanceCatalog(c, existingIds).rows ==> !e.available
    ensures Ids(c.rows) <= existingIds ==> forall e :: e in EnhanceCatalog(c, existingIds).rows ==> e.available
  {
    var r := EnhanceCatalog(c, existingIds);
    forall e | e in r.rows
      ensures existingIds == {} ==> !e.available
      ensures Ids(c.rows) <= existingIds ==> e.available
    {
      var i :| 0 <= i < |r.rows| && r.rows[i] == e;
      assert c.rows[i] in c.rows;
    }
  }

  /** Adds an all-null `last_ingestion_date` column when it is missing; otherwise an equal copy. */
  function InitializeIngestionDates(c: Catalog): (r: Catalog)
    ensures r.hasIngestionDate && r.hasAvailable == c.hasAvailable && |r.rows| == |c.rows|
    ensures c.hasIngestionDate ==> r == c
    ensures !c.hasIngestionDate ==> forall i :: 0 <= i < |c.rows| ==> r.rows[i] == c.rows[i].(lastIngestion := None)
    ensures WellFormed(c) ==> WellFormed(r)
  {
    if c.hasIngestionDate then c
    else Catalog(seq(|c.rows|, i requires 0 <= i < |c.rows| => c.rows[i].(lastIngestion := None)), c.hasAvailable, true)
  }

  lemma InitializeIdempotent(c: Catalog)
    ensures InitializeIngestionDates(InitializeIngestionDates(c)) == InitializeIngestionDates(c)
  {
  }

  /**
   * Stamps `at` on every row whose id is among the ingested ids, overwriting any earlier date.
   * The other rows keep their date; if the column did not exist it is created null for them.
   */
  function UpdateIngestionDates(c: Catalog, ingested: seq<int>, at: Timestamp): (r: Catalog)
    ensures r.hasIngestionDate && r.hasAvailable == c.hasAvailable && |r.rows| == |c.rows|
    ensures forall i :: 0 <= i < |c.rows| ==>
      && r.rows[i].(lastIngestion := None) == c.rows[i].(lastIngestion := None)
      && (c.rows[i].productId in ingested ==> r.rows[i].lastIngestion == Some(at))
      && (c.rows[i].productId !in ingested && c.hasIngestionDate ==> r.rows[i].lastIngestion == c.rows[i].lastIngestion)
      && (c.rows[i].productId !in ingested && !c.hasIngestionDate ==> r.rows[i].lastIngestion == None)
    ensures WellFormed(c) ==> WellFormed(r)
  {
    Catalog(seq(|c.rows|, i requires 0 <= i < |c.rows| =>
              if c.rows[i].productId in ingested then c.rows[i].(lastIngestion := Some(at))
              else if c.hasIngestionDate then c.rows[i]
              else c.rows[i].(lastIngestion := None)),
            c.hasAvailable, true)
  }

  /** The `last_ingestion_date` values of the existing rows carrying `pid`, in existing order. */
  function Matches(existing: seq<Entry>, pid: int): (dates: seq<Option<Timestamp>>)
    ensures |dates| <= |existing|
    ensures pid !in Ids(existing) ==> dates == []
    decreases |existing|
  {
    if existing == [] then []
    else
      (if existing[0].productId == pid then [existing[0].lastIngestion] else []) + Matches(existing[1..], pid)
  }

  /** The rows a left join emits for one fresh row: one per match, or one null-dated row. */
  function JoinRow(f: Entry, dates: seq<Option<Timestamp>>): (rows: seq<Entry>)
    ensures |rows| == if dates == [] then 1 else |dates|
    ensures dates == [] ==> rows == [f.(lastIngestion := None)]
    ensures forall k :: 0 <= k < |dates| ==> rows[k] == f.(lastIngestion := dates[k])
  {
    if dates == [] then [f.(lastIngestion := None)]
    else seq(|dates|, k requires 0 <= k < |dates| => f.(lastIngestion := dates[k]))
  }

  /** `latest.merge(existing[['productId', 'last_ingestion_date']], on='productId', how='left')`. */
  function LeftJoin(latest: seq<Entry>, existing: seq<Entry>): (r: seq<Entry>)
    ensures |r| >= |latest|
    ensures forall e :: e in r ==> e.productId in Ids(latest)
    decreases |latest|
  {
    if latest == [] then [] else JoinRow(latest[0], Matches(existing, latest[0].productId)) + LeftJoin(latest[1..], existing)
  }

  /**
   * Carries `last_ingestion_date` from the existing catalog onto the fresh one. When the existing
   * catalog is empty or has no such column, every row gets a null date.
   */
  function MergeCatalogMetadata(latest: Catalog, existing: Catalog): (r: Catalog)
    ensures r.hasIngestionDate && r.hasAvailable == latest.hasAvailable
    ensures |existing.rows| == 0 || !existing.hasIngestionDate ==>
      |r.rows| == |latest.rows| && forall i :: 0 <= i < |latest.rows| ==> r.rows[i] == latest.rows[i].(lastIngestion := None)
  {
    if |existing.rows| > 0 && existing.hasIngestionDate then
      Catalog(LeftJoin(latest.rows, existing.rows), latest.hasAvailable, true)
    else
      Catalog(seq(|latest.rows|, i requires 0 <= i < |latest.rows| => latest.rows[i].(lastIngestion := None)), latest.hasAvailable, true)
  }

  /** The date the existing catalog records for `pid`, or null when it has no row for it. */
  function DateOf(existing: seq<Entry>, pid: int): Option<Timestamp>
  {
    if pid in Ids(existing) then First(existing, pid).lastIngestion else None
  }

  lemma {:induction false} MatchesUnique(existing: seq<Entry>, pid: int)
    requires UniqueIds(existing)
    ensures Matches(existing, pid) == if pid in Ids(existing) then [DateOf(existing, pid)] else []
    decreases |existing|
  {
    if existing != [] {
      var tail := existing[1..];
      assert UniqueIds(tail);
      MatchesUnique(tail, pid);
      if existing[0].productId == pid {
        forall e | e in tail
          ensures e.productId != pid
        {
          var j :| 0 <= j < |tail| && tail[j] == e;
          assert existing[j + 1] == e;
        }
      } else if pid in Ids(existing) {
        var e :| e in existing && e.productId == pid;
        assert e in tail;
        assert First(existing, pid) == First(tail, pid);
      } else {
        assert forall e :: e in tail ==> e in existing;
      }
    }
  }

  /** With unique existing ids the join keeps one row per fresh row, in fresh order. */
  lemma {:induction false} LeftJoinUnique(latest: seq<Entry>, existing: seq<Entry>)
    requires UniqueIds(existing)
    ensures |LeftJoin(latest, existing)| == |latest|
    ensures forall i :: 0 <= i < |latest| ==>
      LeftJoin(latest, existing)[i] == latest[i].(lastIngestion := DateOf(existing, latest[i].productId))
    decreases |latest|
  {
    if latest != [] {
      MatchesUnique(existing, latest[0].productId);
      LeftJoinUnique(latest[1..], existing);
    }
  }

  /**
   * Given unique ids in the existing catalog, the merge has one row per fresh row, in fresh
   * order, with the fresh descriptive fields and the existing date for that id (null if none).
   */
  lemma MergeUnique(latest: Catalog, existing: Catalog)
    requires UniqueIds(existing.rows)
    ensures var r := MergeCatalogMetadata(latest, existing);
      && |r.rows| == |latest.rows|
      && forall i :: 0 <= i < |latest.rows| ==>
           r.rows[i] == latest.rows[i].(lastIngestion := if existing.hasIngestionDate then DateOf(existing.rows, latest.rows[i].productId) else None)
  {
    if |existing.rows| > 0 && existing.hasIngestionDate {
      LeftJoinUnique(latest.rows, existing.rows);
    }
  }

  /** Re-merging the fresh catalog with a previous merge result reproduces the same dates. */
  lemma Remerge(latest: Catalog, existing: Catalog)
    requires UniqueIds(latest.rows) && UniqueIds(existing.rows)
    ensures MergeCatalogMetadata(latest, MergeCatalogMetadata(latest, existing)) == MergeCatalogMetadata(latest, existing)
  {
    var m := MergeCatalogMetadata(latest, existing);
    MergeUnique(latest, existing);
    assert UniqueIds(m.rows) by {
      forall i, j | 0 <= i < j < |m.rows|
        ensures m.rows[i].productId != m.rows[j].productId
      {
        assert m.rows[i].productId == latest.rows[i].productId;
        assert m.rows[j].productId == latest.rows[j].productId;
      }
    }
    MergeUnique(latest, m);
    var mm := MergeCatalogMetadata(latest, m);
    forall i | 0 <= i < |latest.rows|
      ensures mm.rows[i] == m.rows[i]
    {
      FirstUnique(latest.rows, i);
      assert m.rows[i].productId == latest.rows[i].productId;
      FirstUnique(m.rows, i);
      assert DateOf(m.rows, latest.rows[i].productId) == m.rows[i].lastIngestion;
    }
  }

  /** What the catalog job's `main` raises when `ingested.csv` has no columns to parse. */
  const EMPTY_MANIFEST: string := "EmptyDataError: No columns to parse from file"

  /**
   * The catalog job's core steps in order: merge, initialise, stamp the ingested ids with the
   * current time (only when `ingested.csv` exists), then recompute `available` from the S3
   * listing. A failed download of the existing catalog is passed as an empty catalog. A manifest
   * written by a run in which no dataset completed has no columns, and reading it raises before
   * anything is stored.
   */
  function UpdateCatalog(latest: Catalog, existing: Catalog, manifest: ManifestRead<int>, now: Timestamp, s3Ids: set<int>)
    : (r: Result<Catalog, string>)
    ensures r.Failure? <==> manifest.NoData?
    ensures r.Failure? ==> r.error == EMPTY_MANIFEST
    ensures r.Success? ==> r.value.hasAvailable && r.value.hasIngestionDate
    ensures r.Success? ==> forall i :: 0 <= i < |r.value.rows| ==> r.value.rows[i].available == (r.value.rows[i].productId in s3Ids)
    ensures r.Success? ==> forall i :: 0 <= i < |r.value.rows| ==> r.value.rows[i].productId in Ids(latest.rows)
  {
    var merged := InitializeIngestionDates(MergeCatalogMetadata(latest, existing));
    match manifest
    case NoData => Failure(EMPTY_MANIFEST)
    case NoFile => Success(EnhanceCatalog(merged, s3Ids))
    case Frame(ingested) => Success(EnhanceCatalog(UpdateIngestionDates(merged, ingested, now), s3Ids))
  }

  /**
   * Unless the manifest has no columns, the stored catalog has one row per fresh row (unique
   * existing ids); `available` reflects only the S3 listing; the date is now for manifest ids
   * and the carried-forward date otherwise.
   */
  lemma UpdateCatalogRows(latest: Catalog, existing: Catalog, manifest: ManifestRead<int>, now: Timestamp, s3Ids: set<int>)
    requires UniqueIds(existing.rows)
    ensures var r := UpdateCatalog(latest, existing, manifest, now, s3Ids);
      && (r.Failure? <==> manifest.NoData?)
      && (r.Success? ==>
      && r.value.hasAvailable && r.value.hasIngestionDate
      && |r.value.rows| == |latest.rows|
      && forall i :: 0 <= i < |latest.rows| ==>
           var pid := latest.rows[i].productId;
           && r.value.rows[i].productId == pid
           && r.value.rows[i].meta == latest.rows[i].meta
           && r.value.rows[i].available == (pid in s3Ids)
           && r.value.rows[i].lastIngestion ==
                if manifest.Frame? && pid in manifest.rows then Some(now)
                else if existing.hasIngestionDate then DateOf(existing.rows, pid)
                else None)
  {
    MergeUnique(latest, existing);
  }
}
