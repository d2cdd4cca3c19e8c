/**
 * The catalog's rows. A catalog DataFrame becomes a sequence of `Entry` values plus a
 * record of which optional columns it carries; a null (`None`, `NaN`, `NaT`) becomes `None`.
 */
module Datasets {
  import opened Wrappers

  /** A scalar cell whose Python type varies between stages: an integer code or a string. */
  datatype Scalar = Int(i: int) | Str(s: string)

  /** A point in time, in whole seconds. */
  type Timestamp = int

  const SECONDS_PER_DAY: int := 86400

  /** The descriptive columns that the catalog API provides for one table. */
  datatype Meta = Meta(
    title: Option<string>,
    subject: Option<string>,
    frequency: Option<Scalar>,
    releaseTime: Option<string>,
    dimensions: nat,
    nbDatapoints: Option<int>)

  /** One catalog row: the id, the descriptive columns, and the two bookkeeping columns. */
  datatype Entry = Entry(
    productId: int,
    meta: Meta,
    available: bool,
    lastIngestion: Option<Timestamp>)

  /**
   * A catalog frame. `hasAvailable` and `hasIngestionDate` say whether the `available` and
   * `last_ingestion_date` columns exist; when one does not, the matching field of every row
   * carries no information.
   */
  datatype Catalog = Catalog(rows: seq<Entry>, hasAvailable: bool, hasIngestionDate: bool)

  /**
   * What reading `ingested.csv` gives: no file, a file with nothing to parse (the frame built
   * from no records has no columns, so `read_csv` raises `EmptyDataError`), or a frame of rows.
   */
  datatype ManifestRead<T> = NoFile | NoData | Frame(rows: seq<T>)

  /** A missing column carries no values: no row is flagged available, no row has a date. */
  predicate WellFormed(c: Catalog)
  {
    && (!c.hasAvailable ==> forall e :: e in c.rows ==> !e.available)
    && (!c.hasIngestionDate ==> forall e :: e in c.rows ==> e.lastIngestion.None?)
  }

  /** `set(df['productId'])`. */
  function Ids(rows: seq<Entry>): set<int>
  {
    set e | e in rows :: e.productId
  }

  predicate UniqueIds(rows: seq<Entry>)
  {
    forall i, j :: 0 <= i < j < |rows| ==> rows[i].productId != rows[j].productId
  }

  /** `df[df['productId'] == pid].iloc[0]`: the first row carrying `pid`. */
  function First(rows: seq<Entry>, pid: int): (e: Entry)
    requires pid in Ids(rows)
    ensures e in rows && e.productId == pid
    ensures exists i :: 0 <= i < |rows| && rows[i] == e && forall j :: 0 <= j < i ==> rows[j].productId != pid
    decreases |rows|
  {
    if rows[0].productId == pid then rows[0]
    else
      assert pid in Ids(rows[1..]) by {
        var e :| e in rows && e.productId == pid;
        assert e in rows[1..];
      }
      var e := First(rows[1..], pid);
      ghost var i :| 0 <= i < |rows[1..]| && rows[1..][i] == e && forall j :: 0 <= j < i ==> rows[1..][j].productId != pid;
      assert rows[i + 1] == e;
      e
  }

  /** With unique ids, the row at position `i` is the first row carrying its id. */
  lemma FirstUnique(rows: seq<Entry>, i: nat)
    requires UniqueIds(rows) && i < |rows|
    ensures rows[i].productId in Ids(rows)
    ensures First(rows, rows[i].productId) == rows[i]
  {
    assert rows[i] in rows;
  }
}
