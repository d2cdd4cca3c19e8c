/**
 * The exponential backoff schedule of the query tool: each delay is the previous one times a
 * multiplier, capped at a maximum. Delays are modelled as exact reals, not binary floats.
 */
module Retry {

  function Min(a: real, b: real): real
  {
    if a < b then a else b
  }

  function Pow(b: real, k: nat): real
  {
    if k == 0 then 1.0 else Pow(b, k - 1) * b
  }

  /** The k-th delay: the start scaled k times, capped. */
  function Delay(initialDelay: real, multiplier: real, maxDelay: real, k: nat): real
  {
    Min(initialDelay * Pow(multiplier, k), maxDelay)
  }

  /** The schedule: `max(maxRetries, 0)` delays, the k-th being `min(initial * multiplier^k, maxDelay)`. */
  function RetryDelays(maxRetries: int, initialDelay: real, multiplier: real, maxDelay: real): (r: seq<real>)
    ensures |r| == if maxRetries > 0 then maxRetries else 0
    ensures forall k :: 0 <= k < |r| ==> r[k] == Delay(initialDelay, multiplier, maxDelay, k)
  {
    seq(if maxRetries > 0 then maxRetries else 0, k requires 0 <= k => Delay(initialDelay, multiplier, maxDelay, k))
  }

  /** `generate_retry_delays`: the loop that appends the capped delay and then multiplies it. */
  method GenerateRetryDelays(maxRetries: int, initialDelay: real, multiplier: real, maxDelay: real) returns (delays: seq<real>)
    ensures delays == RetryDelays(maxRetries, initialDelay, multiplier, maxDelay)
  {
    delays := [];
    var delay := initialDelay;
    var i := 0;
    while i < maxRetries
      invariant 0 <= i <= (if maxRetries > 0 then maxRetries else 0)
      invariant |delays| == i
      invariant delay == initialDelay * Pow(multiplier, i)
      invariant forall k :: 0 <= k < i ==> delays[k] == Delay(initialDelay, multiplier, maxDelay, k)
      decreases maxRetries - i
    {
      delays := delays + [Min(delay, maxDelay)];
      ScaleStep(initialDelay, multiplier, i);
      delay := delay * multiplier;
      i := i + 1;
    }
  }

  lemma ScaleStep(a: real, b: real, k: nat)
    ensures a * Pow(b, k) * b == a * Pow(b, k + 1)
  {
    var p := Pow(b, k);
    assert Pow(b, k + 1) == p * b;
    assert a * p * b == a * (p * b);
  }

  lemma MulLeft(a: real, x: real, y: real)
    requires a >= 0.0 && x <= y
    ensures a * x <= a * y
  {
    assert a * y - a * x == a * (y - x);
  }

  /** No delay exceeds the cap; with a start at or above the cap and a growing multiplier, every delay is the cap. */
  lemma DelaysCapped(maxRetries: int, initialDelay: real, multiplier: real, maxDelay: real)
    ensures var delays := RetryDelays(maxRetries, initialDelay, multiplier, maxDelay);
      forall k :: 0 <= k < |delays| ==> delays[k] <= maxDelay
    ensures var delays := RetryDelays(maxRetries, initialDelay, multiplier, maxDelay);
      0.0 <= initialDelay && maxDelay <= initialDelay && multiplier >= 1.0 ==>
      forall k :: 0 <= k < |delays| ==> delays[k] == maxDelay
  {
    var delays := RetryDelays(maxRetries, initialDelay, multiplier, maxDelay);
    if 0.0 <= initialDelay && maxDelay <= initialDelay && multiplier >= 1.0 {
      forall k | 0 <= k < |delays|
        ensures delays[k] == maxDelay
      {
        PowAtLeastOne(multiplier, k);
        MulLeft(initialDelay, 1.0, Pow(multiplier, k));
      }
    }
  }

  lemma {:induction false} PowAtLeastOne(b: real, k: nat)
    requires b >= 1.0
    ensures Pow(b, k) >= 1.0
  {
    if k > 0 {
      PowAtLeastOne(b, k - 1);
      assert Pow(b, k - 1) * b >= Pow(b, k - 1) * 1.0;
    }
  }

  lemma {:induction false} PowMonotone(b: real, i: nat, j: nat)
    requires b >= 1.0 && i <= j
    ensures Pow(b, i) <= Pow(b, j)
    decreases j - i
  {
    if i < j {
      PowMonotone(b, i, j - 1);
      PowAtLeastOne(b, j - 1);
      assert Pow(b, j - 1) * b >= Pow(b, j - 1) * 1.0;
    }
  }

  /** With a non-negative start and a multiplier of at least 1 the delays never decrease. */
  lemma DelaysNonDecreasing(maxRetries: int, initialDelay: real, multiplier: real, maxDelay: real, i: nat, j: nat)
    requires 0.0 <= initialDelay && multiplier >= 1.0
    requires i <= j < |RetryDelays(maxRetries, initialDelay, multiplier, maxDelay)|
    ensures RetryDelays(maxRetries, initialDelay, multiplier, maxDelay)[i] <= RetryDelays(maxRetries, initialDelay, multiplier, maxDelay)[j]
  {
    PowMonotone(multiplier, i, j);
    MulLeft(initialDelay, Pow(multiplier, i), Pow(multiplier, j));
  }

  function Sum(s: seq<real>): real
    decreases |s|
  {
    if s == [] then 0.0 else s[0] + Sum(s[1..])
  }

  lemma {:induction false} SumConstant(n: nat, c: real)
    ensures Sum(seq(n, _ => c)) == n as real * c
  {
    if n > 0 {
      var s := seq(n, _ => c);
      assert s[1..] == seq(n - 1, _ => c);
      SumConstant(n - 1, c);
      assert Sum(s) == s[0] + Sum(s[1..]);
      assert (n - 1) as real * c + c == n as real * c;
    }
  }

  lemma {:induction false} SumAppend(a: seq<real>, b: seq<real>)
    ensures Sum(a + b) == Sum(a) + Sum(b)
    decreases |a|
  {
    if a == [] {
      assert a + b == b;
    } else {
      assert (a + b)[1..] == a[1..] + b;
      SumAppend(a[1..], b);
    }
  }

  /** The default schedule is 1, 2, 4, 8, 16 seconds and then fifteen times 30: 481 seconds in all. */
  lemma DefaultSchedule()
    ensures RetryDelays(20, 1.0, 2.0, 30.0) == [1.0, 2.0, 4.0, 8.0, 16.0] + seq(15, _ => 30.0)
    ensures Sum(RetryDelays(20, 1.0, 2.0, 30.0)) == 481.0
  {
    var delays := RetryDelays(20, 1.0, 2.0, 30.0);
    assert Pow(2.0, 5) == 32.0;
    forall k: nat | 5 <= k < 20
      ensures delays[k] == 30.0
    {
      PowMonotone(2.0, 5, k);
    }
    assert delays == [1.0, 2.0, 4.0, 8.0, 16.0] + seq(15, _ => 30.0);
    SumAppend([1.0, 2.0, 4.0, 8.0, 16.0], seq(15, _ => 30.0));
    SumConstant(15, 30.0);
  }
}
