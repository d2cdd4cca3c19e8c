/**
 * Choosing which catalog rows an ingest run works on: rows already in S3 and rows whose title
 * marks them INVISIBLE are dropped, then the list is cut to an optional limit (catalog-driven
 * and pipeline ingests) or ordered by score (top-level script).
 */
module Selection {
  import opened Wrappers
  import opened Seqs
  import opened Text
  import opened Datasets
  import Ranking

  const INVISIBLE: string := "INVISIBLE"

  /** `~title.str.contains('INVISIBLE', na=False)`: a null title is kept. */
  predicate IsVisible(e: Entry)
  {
    e.meta.title.None? || !Contains(e.meta.title.value, INVISIBLE)
  }

  /** The rows whose id is not in S3 yet, and, when `skipInvisible`, whose title is not marked. */
  function Candidates(rows: seq<Entry>, existingIds: set<int>, skipInvisible: bool): (r: seq<Entry>)
    ensures forall e :: e in r <==> e in rows && Qualifies(e, existingIds, skipInvisible)
  {
    var absent := Filter(rows, (e: Entry) => e.productId !in existingIds);
    if skipInvisible then Filter(absent, IsVisible) else absent
  }

  /** A row is a candidate exactly when it is absent from S3 and, if asked, visible. */
  predicate Qualifies(e: Entry, existingIds: set<int>, skipInvisible: bool)
  {
    e.productId !in existingIds && (skipInvisible ==> IsVisible(e))
  }

  /**
   * `filter_catalog`: the candidates, cut by `head(limit)` only when the limit is truthy, so
   * both a missing limit and 0 mean no limit (a negative limit drops rows from the end).
   * Every row returned is an input row that qualifies; with no limit every qualifying row is returned.
   */
  function FilterCatalog(rows: seq<Entry>, existingIds: set<int>, skipInvisible: bool, limit: Option<int>): (r: seq<Entry>)
    ensures forall e :: e in r ==> e in rows && Qualifies(e, existingIds, skipInvisible)
    ensures limit.None? || limit == Some(0) ==>
      forall e :: e in rows && Qualifies(e, existingIds, skipInvisible) ==> e in r
  {
    var c := Candidates(rows, existingIds, skipInvisible);
    match limit
    case Some(n) => if n != 0 then Head(c, n) else c
    case None => c
  }

  /** The kept rows keep their input order: the result is a subsequence of the catalog. */
  lemma FilterCatalogSubsequence(rows: seq<Entry>, existingIds: set<int>, skipInvisible: bool, limit: Option<int>)
    ensures IsSubsequence(FilterCatalog(rows, existingIds, skipInvisible, limit), rows)
  {
    var isNew := (e: Entry) => e.productId !in existingIds;
    var absent := Filter(rows, isNew);
    FilterIsSubsequence(rows, isNew);
    var c := Candidates(rows, existingIds, skipInvisible);
    if skipInvisible {
      FilterIsSubsequence(absent, IsVisible);
      SubsequenceTrans(c, absent, rows);
    }
    var r := FilterCatalog(rows, existingIds, skipInvisible, limit);
    if r != c {
      PrefixIsSubsequence(c, |r|);
      SubsequenceTrans(r, c, rows);
    }
  }

  /**
   * A truthy limit `n > 0` keeps the first `min(n, #candidates)` candidates, a negative one drops
   * `-n` candidates from the end, and no limit or 0 keeps them all.
   */
  lemma FilterCatalogLimit(rows: seq<Entry>, existingIds: set<int>, skipInvisible: bool, limit: Option<int>)
    ensures var c := FilterCatalog(rows, existingIds, skipInvisible, None);
      var r := FilterCatalog(rows, existingIds, skipInvisible, limit);
      && r == c[..|r|]
      && (limit.Some? && limit.value > 0 ==> |r| == if limit.value < |c| then limit.value else |c|)
      && (limit.Some? && limit.value < 0 ==> |r| == if |c| + limit.value > 0 then |c| + limit.value else 0)
      && (limit.None? || limit == Some(0) ==> r == c)
  {
  }

  /** Without the INVISIBLE switch only the S3 test applies, so a marked title can be selected. */
  lemma InvisibleKeptWhenNotSkipping(rows: seq<Entry>, existingIds: set<int>)
    ensures FilterCatalog(rows, existingIds, false, None) == Filter(rows, (e: Entry) => e.productId !in existingIds)
  {
  }

  /** A row of the top-level script's catalog: the dataset and its interest score. */
  datatype Ranked = Ranked(entry: Entry, score: int)

  function Score(r: Ranked): int { r.score }

  /**
   * The top-level script's selection: drop rows already in S3, drop INVISIBLE titles, then order
   * by non-increasing score. The result holds exactly the qualifying rows, each as often as in
   * the input, highest score first.
   */
  function RootSelection(rows: seq<Ranked>, existingIds: set<int>): (r: seq<Ranked>)
    ensures multiset(r) == multiset(Filter(Filter(rows, (x: Ranked) => x.entry.productId !in existingIds),
                                         (x: Ranked) => IsVisible(x.entry)))
    ensures Ranking.NonIncreasing(r, Score)
  {
    var absent := Filter(rows, (x: Ranked) => x.entry.productId !in existingIds);
    var visible := Filter(absent, (x: Ranked) => IsVisible(x.entry));
    Ranking.SortDesc(visible, Score)
  }

  /** A row is selected exactly when it is in the catalog, absent from S3 and not marked INVISIBLE. */
  lemma RootSelectionMembers(rows: seq<Ranked>, existingIds: set<int>, x: Ranked)
    ensures x in RootSelection(rows, existingIds) <==> x in rows && Qualifies(x.entry, existingIds, true)
  {
    var absent := Filter(rows, (x: Ranked) => x.entry.productId !in existingIds);
    var visible := Filter(absent, (x: Ranked) => IsVisible(x.entry));
    var r := RootSelection(rows, existingIds);
    assert x in r <==> x in multiset(r);
    assert x in visible <==> x in multiset(visible);
  }
}
