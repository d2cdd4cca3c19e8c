/**
 * The enhanced catalog published for browsing: the `available` flag from the S3 listing, a
 * human-readable frequency label, and a projection onto five columns.
 */
module RegenerateCatalog {
  import opened Wrappers
  import opened Datasets
  import CatalogSync

  /** The label of each numeric frequency code of the catalog API. */
  const FREQUENCY_LABELS: map<int, string> := map[
    1 := "Occasional", 2 := "Biannual", 6 := "Monthly", 9 := "Quarterly",
    11 := "Bimonthly", 12 := "Annual", 13 := "Biennial", 14 := "Triennial",
    15 := "Quinquennial", 16 := "Decennial", 17 := "Every 3 years",
    18 := "Census", 19 := "Every 4 years", 20 := "Every 6 years"]

  const UNKNOWN: string := "Unknown"

  /** The label of a frequency cell: the table entry for an integer code, "Unknown" for anything else. */
  function DecodeFrequency(code: Option<Scalar>): (name: string)
    ensures code.Some? && code.value.Int? && code.value.i in FREQUENCY_LABELS ==> name == FREQUENCY_LABELS[code.value.i]
    ensures name == UNKNOWN <==> !(code.Some? && code.value.Int? && code.value.i in FREQUENCY_LABELS)
  {
    match code
    case Some(Int(k)) => if k in FREQUENCY_LABELS then FREQUENCY_LABELS[k] else UNKNOWN
    case _ => UNKNOWN
  }

  /** Exactly the fourteen codes 1, 2, 6, 9 and 11 to 20 have a label, and no two share one. */
  lemma DecodeFrequencyCodes(k: int, m: int)
    ensures DecodeFrequency(Some(Int(k))) != UNKNOWN <==> k in {1, 2, 6, 9} || 11 <= k <= 20
    ensures DecodeFrequency(Some(Int(k))) != UNKNOWN && DecodeFrequency(Some(Int(k))) == DecodeFrequency(Some(Int(m))) ==> k == m
  {
  }

  /** A code stored as text is never decoded: the table's keys are integers. */
  lemma DecodeFrequencyText(s: string)
    ensures DecodeFrequency(Some(Str(s))) == UNKNOWN
  {
  }

  /** A row of the enhanced catalog, with its columns in published order. */
  datatype EnhancedRow = EnhancedRow(
    productId: int,
    title: Option<string>,
    frequencyLabel: string,
    releaseTime: Option<string>,
    available: bool)

  function Project(e: Entry): EnhancedRow
  {
    EnhancedRow(e.productId, e.meta.title, DecodeFrequency(e.meta.frequency), e.meta.releaseTime, e.available)
  }

  /**
   * One enhanced row per catalog row, in order: the same id, title and release time, the label
   * of its frequency code, and `available` exactly when the id is listed in S3.
   */
  function EnhanceCatalog(c: Catalog, existingIds: set<int>): (r: seq<EnhancedRow>)
    ensures |r| == |c.rows|
    ensures forall i :: 0 <= i < |c.rows| ==>
      && r[i].productId == c.rows[i].productId
      && r[i].title == c.rows[i].meta.title
      && r[i].releaseTime == c.rows[i].meta.releaseTime
      && r[i].frequencyLabel == DecodeFrequency(c.rows[i].meta.frequency)
      && r[i].available == (c.rows[i].productId in existingIds)
  {
    var flagged := CatalogSync.EnhanceCatalog(c, existingIds).rows;
    seq(|flagged|, i requires 0 <= i < |flagged| => Project(flagged[i]))
  }

  /** The published rows do not depend on the flags, dates or other columns the input carried. */
  lemma EnhanceDependsOnListing(c: Catalog, d: Catalog, existingIds: set<int>)
    requires |c.rows| == |d.rows|
    requires forall i :: 0 <= i < |c.rows| ==>
      c.rows[i].productId == d.rows[i].productId &&
      c.rows[i].meta.(subject := None, dimensions := 0, nbDatapoints := None) ==
      d.rows[i].meta.(subject := None, dimensions := 0, nbDatapoints := None)
    ensures EnhanceCatalog(c, existingIds) == EnhanceCatalog(d, existingIds)
  {
    var a := EnhanceCatalog(c, existingIds);
    var b := EnhanceCatalog(d, existingIds);
    forall i | 0 <= i < |a|
      ensures a[i] == b[i]
    {
      var x := c.rows[i].meta.(subject := None, dimensions := 0, nbDatapoints := None);
      var y := d.rows[i].meta.(subject := None, dimensions := 0, nbDatapoints := None);
      assert x.title == y.title && x.frequency == y.frequency && x.releaseTime == y.releaseTime;
    }
  }
}
