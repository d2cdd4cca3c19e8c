/**
 * The download progress throttle: the percentage reached after each chunk, and the loop that
 * prints it only when it has advanced by at least ten points since the last print.
 */
module Progress {

  /** Python's `int(a / b)` for a positive `b`: the quotient rounded toward zero. */
  function TruncDiv(a: int, b: int): (q: int)
    requires b > 0
    ensures a >= 0 ==> q * b <= a < (q + 1) * b
    ensures a < 0 ==> q <= 0 && -q * b <= -a < (-q + 1) * b
  {
    if a >= 0 then a / b else -((-a) / b)
  }

  /** `int(100 * downloaded / total)`, or 0 when the total is unknown (zero or negative). */
  function CalculateDownloadProgress(downloaded: int, total: int): (pct: int)
    ensures total <= 0 ==> pct == 0
    ensures total > 0 && downloaded >= 0 ==> pct * total <= 100 * downloaded < (pct + 1) * total
    ensures total > 0 && 0 <= downloaded <= total ==> 0 <= pct <= 100
  {
    if total <= 0 then 0
    else
      var q := TruncDiv(100 * downloaded, total);
      PercentBounds(q, downloaded, total);
      q
  }

  /** A quotient of `100 * d` by `t` lies in 0..100 while `d` does not exceed `t`. */
  lemma PercentBounds(q: int, d: int, t: int)
    requires t > 0
    requires d >= 0 ==> q * t <= 100 * d < (q + 1) * t
    ensures 0 <= d <= t ==> 0 <= q <= 100
  {
    if 0 <= d <= t {
      ProductSign(q + 1, t);
      assert (q - 100) * t <= 0;
      ProductSign(q - 100, t);
    }
  }

  /** With a positive factor `t`, a product is positive exactly when the other factor is. */
  lemma ProductSign(a: int, t: int)
    requires t > 0
    ensures a * t > 0 <==> a > 0
  {
  }

  /** The print interval the download loops use. */
  const INTERVAL: int := 10

  /** True once the percentage has moved at least `interval` points past the last one printed. */
  predicate ShouldPrintProgress(current: int, lastPrinted: int, interval: int)
  {
    current >= lastPrinted + interval
  }

  /**
   * The percentages printed while the remaining `chunks` arrive, when `downloaded` bytes are
   * already in and `lastPct` was printed last.
   */
  function Printed(chunks: seq<nat>, downloaded: int, lastPct: int, total: int): seq<int>
    decreases |chunks|
  {
    if chunks == [] then []
    else
      var d := downloaded + chunks[0];
      var pct := CalculateDownloadProgress(d, total);
      if ShouldPrintProgress(pct, lastPct, INTERVAL) then [pct] + Printed(chunks[1..], d, pct, total)
      else Printed(chunks[1..], d, lastPct, total)
  }

  /** The loop of the variants that test `total_size > 0` before computing the percentage. */
  function PrintedGuarded(chunks: seq<nat>, downloaded: int, lastPct: int, total: int): seq<int>
    decreases |chunks|
  {
    if chunks == [] then []
    else
      var d := downloaded + chunks[0];
      if total > 0 && TruncDiv(100 * d, total) >= lastPct + INTERVAL then
        [TruncDiv(100 * d, total)] + PrintedGuarded(chunks[1..], d, TruncDiv(100 * d, total), total)
      else PrintedGuarded(chunks[1..], d, lastPct, total)
  }

  function Sum(chunks: seq<nat>): nat
    decreases |chunks|
  {
    if chunks == [] then 0 else chunks[0] + Sum(chunks[1..])
  }

  /** The chunk loop of the catalog-driven ingest: returns what it printed and the bytes received. */
  method DownloadProgress(chunks: seq<nat>, total: int) returns (printed: seq<int>, downloaded: int)
    ensures printed == Printed(chunks, 0, -1, total)
    ensures downloaded == Sum(chunks)
  {
    printed := [];
    downloaded := 0;
    var lastPct := -1;
    for i := 0 to |chunks|
      invariant printed + Printed(chunks[i..], downloaded, lastPct, total) == Printed(chunks, 0, -1, total)
      invariant downloaded + Sum(chunks[i..]) == Sum(chunks)
    {
      assert chunks[i..][1..] == chunks[i + 1..];
      downloaded := downloaded + chunks[i];
      var currentPct := CalculateDownloadProgress(downloaded, total);
      if ShouldPrintProgress(currentPct, lastPct, INTERVAL) {
        printed := printed + [currentPct];
        lastPct := currentPct;
      }
    }
  }

  /** The chunk loop of the other two ingest variants, which compute a percentage only when the total is known. */
  method DownloadProgressGuarded(chunks: seq<nat>, total: int) returns (printed: seq<int>, downloaded: int)
    ensures printed == PrintedGuarded(chunks, 0, -1, total)
    ensures downloaded == Sum(chunks)
  {
    printed := [];
    downloaded := 0;
    var lastPct := -1;
    for i := 0 to |chunks|
      invariant printed + PrintedGuarded(chunks[i..], downloaded, lastPct, total) == PrintedGuarded(chunks, 0, -1, total)
      invariant downloaded + Sum(chunks[i..]) == Sum(chunks)
    {
      assert chunks[i..][1..] == chunks[i + 1..];
      downloaded := downloaded + chunks[i];
      if total > 0 {
        var pct := TruncDiv(100 * downloaded, total);
        if pct >= lastPct + INTERVAL {
          printed := printed + [pct];
          lastPct := pct;
        }
      }
    }
  }

  /**
   * Each printed percentage is at least ten points above the one before it, and the first is at
   * least ten above `lastPct` (so at least 9 when the loop starts from -1).
   */
  lemma {:induction false} PrintedIncreasing(chunks: seq<nat>, downloaded: int, lastPct: int, total: int)
    ensures var p := Printed(chunks, downloaded, lastPct, total);
      && (|p| > 0 ==> p[0] >= lastPct + INTERVAL)
      && forall k :: 0 <= k < |p| - 1 ==> p[k] + INTERVAL <= p[k + 1]
    decreases |chunks|
  {
    if chunks != [] {
      var d := downloaded + chunks[0];
      var pct := CalculateDownloadProgress(d, total);
      if ShouldPrintProgress(pct, lastPct, INTERVAL) {
        PrintedIncreasing(chunks[1..], d, pct, total);
      } else {
        PrintedIncreasing(chunks[1..], d, lastPct, total);
      }
    }
  }

  /** With no usable total nothing is printed: the percentage stays 0, short of the first threshold. */
  lemma {:induction false} PrintedNothingWithoutTotal(chunks: seq<nat>, downloaded: int, lastPct: int, total: int)
    requires total <= 0 && lastPct > -INTERVAL
    ensures Printed(chunks, downloaded, lastPct, total) == []
    ensures PrintedGuarded(chunks, downloaded, lastPct, total) == []
    decreases |chunks|
  {
    if chunks != [] {
      PrintedNothingWithoutTotal(chunks[1..], downloaded + chunks[0], lastPct, total);
    }
  }

  /** While no more than `total` bytes arrive, every printed percentage is between 0 and 100. */
  lemma {:induction false} PrintedAtMost100(chunks: seq<nat>, downloaded: int, lastPct: int, total: int)
    requires 0 <= downloaded && downloaded + Sum(chunks) <= total
    ensures forall k :: 0 <= k < |Printed(chunks, downloaded, lastPct, total)| ==>
      0 <= Printed(chunks, downloaded, lastPct, total)[k] <= 100
    decreases |chunks|
  {
    if chunks != [] {
      var d := downloaded + chunks[0];
      var pct := CalculateDownloadProgress(d, total);
      assert 0 <= pct <= 100;
      if ShouldPrintProgress(pct, lastPct, INTERVAL) {
        PrintedAtMost100(chunks[1..], d, pct, total);
      } else {
        PrintedAtMost100(chunks[1..], d, lastPct, total);
      }
    }
  }

  /** Both loops print the same percentages from any state reachable from the start (`lastPct >= -1`). */
  lemma {:induction false} GuardedAgrees(chunks: seq<nat>, downloaded: int, lastPct: int, total: int)
    requires lastPct > -INTERVAL
    ensures PrintedGuarded(chunks, downloaded, lastPct, total) == Printed(chunks, downloaded, lastPct, total)
    decreases |chunks|
  {
    if chunks != [] {
      var d := downloaded + chunks[0];
      if total > 0 && TruncDiv(100 * d, total) >= lastPct + INTERVAL {
        GuardedAgrees(chunks[1..], d, TruncDiv(100 * d, total), total);
      } else {
        GuardedAgrees(chunks[1..], d, lastPct, total);
      }
    }
  }
}
