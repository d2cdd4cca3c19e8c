/** Sequence operations that stand in for DataFrame row masks, `head` and list flattening. */
module Seqs {

  /** Rows of `s` that satisfy `p`, in their original order (a boolean mask). */
  function Filter<T>(s: seq<T>, p: T -> bool): (r: seq<T>)
    ensures |r| <= |s|
    ensures forall x {:trigger x in r} :: x in r ==> x in s && p(x)
    ensures forall x {:trigger x in r} :: x in s && p(x) ==> x in r
    decreases |s|
  {
    if s == [] then []
    else Filter(s[..|s| - 1], p) + (if p(s[|s| - 1]) then [s[|s| - 1]] else [])
  }

  /** `idx` lists, in increasing order, the positions of `b` that hold the elements of `a`. */
  ghost predicate Embeds<T>(a: seq<T>, b: seq<T>, idx: seq<nat>)
  {
    && |idx| == |a|
    && (forall k :: 0 <= k < |idx| ==> idx[k] < |b| && a[k] == b[idx[k]])
    && (forall k, l :: 0 <= k < l < |idx| ==> idx[k] < idx[l])
  }

  /** `a` is obtained from `b` by deleting elements, keeping the order of the rest. */
  ghost predicate IsSubsequence<T>(a: seq<T>, b: seq<T>)
  {
    exists idx: seq<nat> :: Embeds(a, b, idx)
  }

  /** Appending the same element to both sides keeps a subsequence a subsequence. */
  lemma SubsequenceSnocBoth<T>(a: seq<T>, b: seq<T>, x: T)
    requires IsSubsequence(a, b)
    ensures IsSubsequence(a + [x], b + [x])
  {
    var idx: seq<nat> :| Embeds(a, b, idx);
    var idx' := idx + [|b|];
    assert forall k :: 0 <= k < |idx'| ==> idx'[k] < |b + [x]| && (a + [x])[k] == (b + [x])[idx'[k]];
    assert Embeds(a + [x], b + [x], idx');
  }

  /** Appending to the longer side only keeps a subsequence a subsequence. */
  lemma SubsequenceSnocRight<T>(a: seq<T>, b: seq<T>, x: T)
    requires IsSubsequence(a, b)
    ensures IsSubsequence(a, b + [x])
  {
    var idx: seq<nat> :| Embeds(a, b, idx);
    assert forall k :: 0 <= k < |idx| ==> idx[k] < |b + [x]| && a[k] == (b + [x])[idx[k]];
    assert Embeds(a, b + [x], idx);
  }

  /** A subsequence of a subsequence is a subsequence. */
  lemma SubsequenceTrans<T>(a: seq<T>, b: seq<T>, c: seq<T>)
    requires IsSubsequence(a, b) && IsSubsequence(b, c)
    ensures IsSubsequence(a, c)
  {
    var ia: seq<nat> :| Embeds(a, b, ia);
    var ib: seq<nat> :| Embeds(b, c, ib);
    var idx: seq<nat> := seq(|a|, k requires 0 <= k < |a| => ib[ia[k]]);
    forall k | 0 <= k < |idx|
      ensures idx[k] < |c| && a[k] == c[idx[k]]
    {
      assert a[k] == b[ia[k]];
    }
    forall k, l | 0 <= k < l < |idx|
      ensures idx[k] < idx[l]
    {
      assert ia[k] < ia[l];
    }
    assert Embeds(a, c, idx);
  }

  /** A prefix is a subsequence. */
  lemma PrefixIsSubsequence<T>(s: seq<T>, n: nat)
    requires n <= |s|
    ensures IsSubsequence(s[..n], s)
  {
    var idx: seq<nat> := seq(n, k requires 0 <= k < n => k);
    assert Embeds(s[..n], s, idx);
  }

  lemma {:induction false} FilterIsSubsequence<T>(s: seq<T>, p: T -> bool)
    ensures IsSubsequence(Filter(s, p), s)
    decreases |s|
  {
    if s == [] {
      var none: seq<nat> := [];
      assert Embeds(Filter(s, p), s, none);
    } else {
      var init := s[..|s| - 1];
      var x := s[|s| - 1];
      FilterIsSubsequence(init, p);
      assert s == init + [x];
      assert Filter(s, p) == Filter(init, p) + (if p(x) then [x] else []);
      if p(x) {
        SubsequenceSnocBoth(Filter(init, p), init, x);
      } else {
        assert Filter(s, p) == Filter(init, p);
        SubsequenceSnocRight(Filter(init, p), init, x);
      }
    }
  }

  lemma {:induction false} FilterAppend<T>(a: seq<T>, b: seq<T>, p: T -> bool)
    ensures Filter(a + b, p) == Filter(a, p) + Filter(b, p)
    decreases |b|
  {
    if b == [] {
      assert a + b == a;
    } else {
      var b', x := b[..|b| - 1], b[|b| - 1];
      assert (a + b)[..|a + b| - 1] == a + b';
      assert Filter(a + b, p) == Filter(a + b', p) + (if p(x) then [x] else []);
      FilterAppend(a, b', p);
    }
  }

  /** Filtering twice keeps exactly the rows that pass both masks. */
  lemma {:induction false} FilterFilter<T>(s: seq<T>, p: T -> bool, q: T -> bool)
    ensures Filter(Filter(s, p), q) == Filter(s, x => p(x) && q(x))
    decreases |s|
  {
    if s != [] {
      var init := s[..|s| - 1];
      FilterFilter(init, p, q);
      FilterAppend(Filter(init, p), if p(s[|s| - 1]) then [s[|s| - 1]] else [], q);
    }
  }

  /** A filter whose mask accepts every row returns its input unchanged. */
  lemma {:induction false} FilterAll<T>(s: seq<T>, p: T -> bool)
    requires forall x :: x in s ==> p(x)
    ensures Filter(s, p) == s
    decreases |s|
  {
    if s != [] {
      var init, last := s[..|s| - 1], s[|s| - 1];
      assert p(last);
      assert Filter(s, p) == Filter(init, p) + [last];
      assert forall x :: x in init ==> x in s;
      FilterAll(init, p);
      assert init + [last] == s;
    }
  }

  /** A filter whose mask rejects every row returns nothing. */
  lemma {:induction false} FilterNone<T>(s: seq<T>, p: T -> bool)
    requires forall x :: x in s ==> !p(x)
    ensures Filter(s, p) == []
    decreases |s|
  {
    if s != [] {
      FilterNone(s[..|s| - 1], p);
    }
  }

  /** The first row a filter keeps is the first row of the input that satisfies the mask. */
  lemma {:induction false} FilterFirst<T>(s: seq<T>, p: T -> bool) returns (i: nat)
    requires Filter(s, p) != []
    ensures i < |s| && s[i] == Filter(s, p)[0] && p(s[i])
    ensures forall j :: 0 <= j < i ==> !p(s[j])
    decreases |s|
  {
    var init := s[..|s| - 1];
    if Filter(init, p) != [] {
      i := FilterFirst(init, p);
      assert s[i] == init[i];
      assert forall j :: 0 <= j < i ==> s[j] == init[j];
    } else {
      i := |s| - 1;
      forall j | 0 <= j < i
        ensures !p(s[j])
      {
        var x := init[j];
        assert s[j] == x && x in init;
        assert x !in Filter(init, p);
      }
    }
  }

  /** Number of rows that satisfy `p`. */
  function Count<T>(s: seq<T>, p: T -> bool): nat
    decreases |s|
  {
    if s == [] then 0 else Count(s[..|s| - 1], p) + (if p(s[|s| - 1]) then 1 else 0)
  }

  lemma {:induction false} FilterCount<T>(s: seq<T>, p: T -> bool)
    ensures |Filter(s, p)| == Count(s, p)
    decreases |s|
  {
    if s != [] { FilterCount(s[..|s| - 1], p); }
  }

  /** `s[:n]` in Python, which is also pandas' `head(n)`: a negative `n` drops the last `-n` rows. */
  function Head<T>(s: seq<T>, n: int): (r: seq<T>)
    ensures n >= 0 ==> |r| == if n < |s| then n else |s|
    ensures n < 0 ==> |r| == if |s| + n > 0 then |s| + n else 0
    ensures r == s[..|r|]
    ensures forall x :: x in r ==> x in s
  {
    if n >= 0 then (if n < |s| then s[..n] else s)
    else (if |s| + n > 0 then s[..|s| + n] else [])
  }

  /** All pages of a listing, concatenated in order. */
  function Flatten<T>(pages: seq<seq<T>>): (r: seq<T>)
    decreases |pages|
  {
    if pages == [] then [] else Flatten(pages[..|pages| - 1]) + pages[|pages| - 1]
  }

  /** One more page extends the flattened listing by that page. */
  lemma FlattenStep<T>(pages: seq<seq<T>>, i: nat)
    requires i < |pages|
    ensures Flatten(pages[..i + 1]) == Flatten(pages[..i]) + pages[i]
  {
    assert pages[..i + 1][..i] == pages[..i];
  }

  /** `[f(x) for x in s]`. */
  function Map<T, U>(s: seq<T>, f: T -> U): (r: seq<U>)
    ensures |r| == |s|
    ensures forall i :: 0 <= i < |s| ==> r[i] == f(s[i])
  {
    seq(|s|, i requires 0 <= i < |s| => f(s[i]))
  }
}
