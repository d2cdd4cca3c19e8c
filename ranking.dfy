/** Ordering rows by a numeric score, highest first, as `sort_values(..., ascending=False)` does. */
module Ranking {

  /** Scores never increase along `s`. */
  predicate NonIncreasing<T>(s: seq<T>, key: T -> int)
  {
    forall i, j :: 0 <= i < j < |s| ==> key(s[i]) >= key(s[j])
  }

  /** Puts `x` before the first element of the sorted `s` whose score is not above its own. */
  function InsertDesc<T>(x: T, s: seq<T>, key: T -> int): (r: seq<T>)
    requires NonIncreasing(s, key)
    ensures multiset(r) == multiset(s) + multiset{x}
    ensures NonIncreasing(r, key)
    decreases |s|
  {
    if s == [] then [x]
    else if key(x) >= key(s[0]) then [x] + s
    else
      var rest := InsertDesc(x, s[1..], key);
      assert s == [s[0]] + s[1..];
      TopBoundsInsert(x, s, rest, key);
      [s[0]] + rest
  }

  /** The head of a sorted `s` outranks `x` and everything in `s[1..]`, so it can lead their merge. */
  lemma TopBoundsInsert<T>(x: T, s: seq<T>, rest: seq<T>, key: T -> int)
    requires s != [] && NonIncreasing(s, key) && key(x) < key(s[0])
    requires multiset(rest) == multiset(s[1..]) + multiset{x}
    requires NonIncreasing(rest, key)
    ensures NonIncreasing([s[0]] + rest, key)
  {
    forall k | 0 <= k < |rest|
      ensures key(s[0]) >= key(rest[k])
    {
      assert rest[k] in multiset(rest);
      if rest[k] != x {
        assert rest[k] in multiset(s[1..]);
        var m :| 0 <= m < |s[1..]| && s[1..][m] == rest[k];
        assert s[m + 1] == rest[k];
      }
    }
    var r := [s[0]] + rest;
    forall i, j | 0 <= i < j < |r|
      ensures key(r[i]) >= key(r[j])
    {
      if i > 0 {
        assert r[i] == rest[i - 1] && r[j] == rest[j - 1];
      } else {
        assert r[j] == rest[j - 1];
      }
    }
  }

  /**
   * The rows ordered by non-increasing score, the same rows with the same multiplicities. Rows
   * with equal scores come in an order the source leaves unspecified; this one is one of them.
   */
  function SortDesc<T>(s: seq<T>, key: T -> int): (r: seq<T>)
    ensures multiset(r) == multiset(s)
    ensures NonIncreasing(r, key)
    decreases |s|
  {
    if s == [] then []
    else
      assert s == [s[0]] + s[1..];
      InsertDesc(s[0], SortDesc(s[1..], key), key)
  }
}
