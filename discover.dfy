/**
 * Discovery: turning the StatsCan cube list into catalog rows (`extract_catalog_metadata`),
 * scoring each cube by how interesting it is (`score_dataset`), and ranking the rows by score.
 * The age of a release in days is an input: `None` when the release time is missing, empty or
 * does not parse.
 */
module Discover {
  import opened Wrappers
  import Datasets
  import Ranking

  /** One dimension of a cube; only how many there are matters here. */
  datatype Dimension = Dimension(nameEn: Option<string>)

  /** A cube of the `getAllCubesList` answer; each key may be absent. */
  datatype Cube = Cube(
    productId: Option<int>,
    cubeTitleEn: Option<string>,
    subjectEn: Option<string>,
    frequencyCode: Option<Datasets.Scalar>,
    releaseTime: Option<string>,
    dimensions: Option<seq<Dimension>>,
    nbDatapointsCube: Option<int>)

  /** A row of the catalog frame before the bookkeeping columns exist. */
  datatype Row = Row(productId: Option<int>, meta: Datasets.Meta)

  /** A row of the ranked catalog: the metadata row and its score. */
  datatype ScoredRow = ScoredRow(row: Row, score: int)

  /** `len(cube.get('dimensions', []))`. */
  function DimensionCount(c: Cube): nat
  {
    match c.dimensions
    case None => 0
    case Some(ds) => |ds|
  }

  /** The row for one cube: absent keys stay absent, present values are copied, and the dimension list becomes its length. */
  function RowOf(c: Cube): (r: Row)
    ensures r.productId == c.productId && r.meta.title == c.cubeTitleEn && r.meta.subject == c.subjectEn
    ensures r.meta.frequency == c.frequencyCode && r.meta.releaseTime == c.releaseTime
    ensures r.meta.nbDatapoints == c.nbDatapointsCube
    ensures c.dimensions.None? ==> r.meta.dimensions == 0
    ensures c.dimensions.Some? ==> r.meta.dimensions == |c.dimensions.value|
  {
    Row(c.productId, Datasets.Meta(c.cubeTitleEn, c.subjectEn, c.frequencyCode, c.releaseTime,
                                    DimensionCount(c), c.nbDatapointsCube))
  }

  /** `extract_catalog_metadata`: one row per cube, in the order of the cubes. */
  method ExtractCatalogMetadata(cubes: seq<Cube>) returns (rows: seq<Row>)
    ensures |rows| == |cubes|
    ensures forall k :: 0 <= k < |cubes| ==> rows[k] == RowOf(cubes[k])
  {
    rows := [];
    for i := 0 to |cubes|
      invariant |rows| == i
      invariant forall k :: 0 <= k < i ==> rows[k] == RowOf(cubes[k])
    {
      rows := rows + [RowOf(cubes[i])];
    }
  }

  const BASE_SCORE: int := 50

  /** The frequency bonus as written: only the string codes '6', '7', '1' and '2' earn it. */
  function FrequencyBonusAsWritten(freq: Option<Datasets.Scalar>): int
  {
    match freq
    case Some(Str(s)) => if s == "6" || s == "7" then 20 else if s == "1" || s == "2" then 10 else 0
    case _ => 0
  }

  /** The frequency bonus for the codes as the API sends them: integers, or their string forms. */
  function FrequencyBonus(freq: Option<Datasets.Scalar>): int
  {
    match freq
    case Some(Int(i)) => if i == 6 || i == 7 then 20 else if i == 1 || i == 2 then 10 else 0
    case _ => FrequencyBonusAsWritten(freq)
  }

  /** The recency bonus: a release under 30 days old earns 20, under 90 days 10, anything else nothing. */
  function RecencyBonus(daysOld: Option<int>): int
  {
    match daysOld
    case None => 0
    case Some(d) => if d < 30 then 20 else if d < 90 then 10 else 0
  }

  /** `min(len(dims) * 3, 30)`. */
  function DimensionTerm(n: nat): int
  {
    if n * 3 < 30 then n * 3 else 30
  }

  /** The score `score_dataset` computes as written. */
  function ScoreAsWritten(c: Cube, daysOld: Option<int>): int
  {
    BASE_SCORE + FrequencyBonusAsWritten(c.frequencyCode) + RecencyBonus(daysOld) + DimensionTerm(DimensionCount(c))
  }

  /**
   * The corrected score: the frequency bonus applies to integer codes too. `main` ranks by the
   * score as written, so this one only states what the bonus was evidently meant to reward.
   */
  function Score(c: Cube, daysOld: Option<int>): int
  {
    BASE_SCORE + FrequencyBonus(c.frequencyCode) + RecencyBonus(daysOld) + DimensionTerm(DimensionCount(c))
  }

  /** `score_dataset` as written, accumulating the score term by term. */
  method ScoreDataset(c: Cube, daysOld: Option<int>) returns (score: int)
    ensures score == ScoreAsWritten(c, daysOld)
    ensures 50 <= score <= 120
  {
    score := BASE_SCORE;
    match c.frequencyCode {
      case Some(Str(freq)) =>
        if freq == "6" || freq == "7" {
          score := score + 20;
        } else if freq == "1" || freq == "2" {
          score := score + 10;
        }
      case _ =>
    }
    if daysOld.Some? {
      if daysOld.value < 30 {
        score := score + 20;
      } else if daysOld.value < 90 {
        score := score + 10;
      }
    }
    var dims := DimensionCount(c);
    score := score + (if dims * 3 < 30 then dims * 3 else 30);
  }

  /** Every score lies between 50 and 120, and both ends are reached: the range is wider than 0-100 and never below 50. */
  lemma ScoreRange(c: Cube, daysOld: Option<int>)
    ensures 50 <= Score(c, daysOld) <= 120
    ensures 50 <= ScoreAsWritten(c, daysOld) <= 120
    ensures var top := Cube(None, None, None, Some(Datasets.Int(6)), None, Some(seq(10, _ => Dimension(None))), None);
            Score(top, Some(0)) == 120
    ensures Score(Cube(None, None, None, None, None, None, None), None) == 50
  {
  }

  /** The dimension term never decreases with more dimensions and stops growing at 10. */
  lemma DimensionTermMonotone(m: nat, n: nat)
    ensures m <= n ==> DimensionTerm(m) <= DimensionTerm(n)
    ensures n >= 10 <==> DimensionTerm(n) == 30
    ensures n < 10 ==> DimensionTerm(n) == 3 * n
  {
  }

  /** A newer release never scores less than an older one with the same other columns. */
  lemma RecencyMonotone(c: Cube, newer: int, older: int)
    requires newer <= older
    ensures Score(c, Some(older)) <= Score(c, Some(newer))
    ensures Score(c, None) <= Score(c, Some(older))
  {
  }

  /**
   * As written, the API's integer code 6 (monthly) earns no frequency bonus while the string
   * '6' earns 20; with the correction both earn 20.
   */
  lemma IntegerCodeMissed(c: Cube, daysOld: Option<int>)
    requires c.frequencyCode == Some(Datasets.Int(6))
    ensures ScoreAsWritten(c, daysOld) == ScoreAsWritten(c.(frequencyCode := Some(Datasets.Str("6"))), daysOld) - 20
    ensures Score(c, daysOld) == Score(c.(frequencyCode := Some(Datasets.Str("6"))), daysOld)
  {
  }

  /** The correction changes nothing for string codes or a missing code, and only adds a bonus for integer codes. */
  lemma CorrectionConservative(c: Cube, daysOld: Option<int>)
    ensures !(c.frequencyCode.Some? && c.frequencyCode.value.Int?) ==> Score(c, daysOld) == ScoreAsWritten(c, daysOld)
    ensures ScoreAsWritten(c, daysOld) <= Score(c, daysOld)
  {
  }

  /**
   * The miss changes the ranking: a monthly table sent with the integer code 6 and nothing else
   * ranks below a table of unknown frequency with five dimensions, and above it once corrected.
   */
  lemma IntegerCodeRanksLower()
    ensures var monthly := Cube(None, None, None, Some(Datasets.Int(6)), None, None, None);
            var other := Cube(None, None, None, Some(Datasets.Str("x")), None, Some(seq(5, _ => Dimension(None))), None);
            && ScoreAsWritten(monthly, None) == 50 && ScoreAsWritten(other, None) == 65
            && Score(monthly, None) == 70 && Score(other, None) == 65
  {
  }

  function ScoreKey(r: ScoredRow): int
  {
    r.score
  }

  /** The unsorted rows of `main`: each cube's row with the score `score_dataset` gives it as written. */
  function Scored(cubes: seq<Cube>, daysOld: seq<Option<int>>): seq<ScoredRow>
    requires |daysOld| == |cubes|
  {
    seq(|cubes|, k requires 0 <= k < |cubes| => ScoredRow(RowOf(cubes[k]), ScoreAsWritten(cubes[k], daysOld[k])))
  }

  /**
   * `main`: one row per cube scored by `score_dataset` as written, then the rows ordered by
   * non-increasing score. The result is a permutation of the scored rows.
   */
  method RankCatalog(cubes: seq<Cube>, daysOld: seq<Option<int>>) returns (ranked: seq<ScoredRow>)
    requires |daysOld| == |cubes|
    ensures multiset(ranked) == multiset(Scored(cubes, daysOld))
    ensures Ranking.NonIncreasing(ranked, ScoreKey)
  {
    var rows: seq<ScoredRow> := [];
    for i := 0 to |cubes|
      invariant rows == Scored(cubes[..i], daysOld[..i])
    {
      var score := ScoreDataset(cubes[i], daysOld[i]);
      rows := rows + [ScoredRow(RowOf(cubes[i]), score)];
    }
    assert cubes[..|cubes|] == cubes && daysOld[..|cubes|] == daysOld;
    ranked := Ranking.SortDesc(rows, ScoreKey);
  }

  /** Every ranked row carries a score between 50 and 120, and the first row has the highest score. */
  lemma RankedScores(cubes: seq<Cube>, daysOld: seq<Option<int>>, ranked: seq<ScoredRow>)
    requires |daysOld| == |cubes|
    requires multiset(ranked) == multiset(Scored(cubes, daysOld))
    requires Ranking.NonIncreasing(ranked, ScoreKey)
    ensures forall r :: r in ranked ==> 50 <= r.score <= 120
    ensures forall k :: 0 <= k < |ranked| ==> ranked[k].score <= ranked[0].score
  {
    forall r | r in ranked
      ensures 50 <= r.score <= 120
    {
      assert r in multiset(Scored(cubes, daysOld));
      var k :| 0 <= k < |cubes| && Scored(cubes, daysOld)[k] == r;
      ScoreRange(cubes[k], daysOld[k]);
    }
  }
}
