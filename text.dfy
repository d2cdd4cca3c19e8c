/**
 * The Python `str` operations the pipeline relies on, over ASCII: character classes
 * (`isdigit`, `isalnum`, `isspace`), `lower`, `in`, `endswith`, `replace`, `split`,
 * `split()`, `strip`, `rstrip`, `join`, `str(int)` and `int(str)`.
 */
module Text {

  predicate IsDigit(c: char) { '0' <= c <= '9' }

  predicate IsAlnum(c: char) { IsDigit(c) || 'a' <= c <= 'z' || 'A' <= c <= 'Z' }

  /** `str.isspace` on one ASCII character: tab through carriage return, the four separators, space. */
  predicate IsSpace(c: char) { 9 <= c as int <= 13 || 28 <= c as int <= 32 }

  /** `s.isdigit()`: non-empty and made only of digits. */
  predicate IsDigits(s: string) { |s| > 0 && forall i :: 0 <= i < |s| ==> IsDigit(s[i]) }

  function LowerChar(c: char): (r: char)
    ensures 'A' <= c <= 'Z' ==> 'a' <= r <= 'z'
    ensures !('A' <= c <= 'Z') ==> r == c
  {
    if 'A' <= c <= 'Z' then (c as int + 32) as char else c
  }

  /** `s.lower()`. */
  function Lower(s: string): (r: string)
    ensures |r| == |s|
    ensures forall i :: 0 <= i < |s| ==> r[i] == LowerChar(s[i])
  {
    seq(|s|, i requires 0 <= i < |s| => LowerChar(s[i]))
  }

  /** `sub in s` for strings. */
  predicate Contains(s: string, sub: string)
    decreases |s|
  {
    |sub| <= |s| && (s[..|sub|] == sub || Contains(s[1..], sub))
  }

  /** `s.endswith(suffix)`. */
  predicate EndsWith(s: string, suffix: string)
  {
    |suffix| <= |s| && s[|s| - |suffix|..] == suffix
  }

  /** `s.replace(a, b)` for one-character `a` and `b`. */
  function ReplaceChar(s: string, a: char, b: char): (r: string)
    ensures |r| == |s|
    ensures forall i :: 0 <= i < |s| ==> r[i] == if s[i] == a then b else s[i]
  {
    seq(|s|, i requires 0 <= i < |s| => if s[i] == a then b else s[i])
  }

  /** Index of the first `c` in `s`, or `|s|` when there is none. */
  function IndexOf(s: string, c: char): (i: nat)
    ensures i <= |s|
    ensures i < |s| ==> s[i] == c
    decreases |s|
  {
    if s == [] then 0 else if s[0] == c then 0 else 1 + IndexOf(s[1..], c)
  }

  /** No `c` comes before the first one. */
  lemma {:induction false} IndexOfFirst(s: string, c: char)
    ensures c !in s[..IndexOf(s, c)]
    decreases |s|
  {
    if s != [] && s[0] != c {
      IndexOfFirst(s[1..], c);
      assert s[..IndexOf(s, c)] == [s[0]] + s[1..][..IndexOf(s[1..], c)];
    }
  }

  /** `s.split(c)`: the pieces between occurrences of `c`, empty pieces included. */
  function Split(s: string, c: char): (r: seq<string>)
    ensures |r| >= 1
    decreases |s|
  {
    var i := IndexOf(s, c);
    if i == |s| then [s] else [s[..i]] + Split(s[i + 1..], c)
  }

  /** The first piece of `s.split(c)` is everything before the first `c`. */
  lemma SplitFirst(s: string, c: char)
    ensures Split(s, c)[0] == s[..IndexOf(s, c)]
  {
  }

  /** No piece of `s.split(c)` contains `c`. */
  lemma {:induction false} SplitPieces(s: string, c: char)
    ensures forall k :: 0 <= k < |Split(s, c)| ==> c !in Split(s, c)[k]
    decreases |s|
  {
    var i := IndexOf(s, c);
    IndexOfFirst(s, c);
    if i < |s| {
      SplitPieces(s[i + 1..], c);
    } else {
      assert s[..i] == s;
    }
  }

  /** `sep.join(parts)` for a one-character separator. */
  function Join(sep: char, parts: seq<string>): (r: string)
    decreases |parts|
  {
    if parts == [] then ""
    else if |parts| == 1 then parts[0]
    else parts[0] + [sep] + Join(sep, parts[1..])
  }

  /** Splitting the join of pieces that do not contain the separator gives the pieces back. */
  lemma {:induction false} SplitJoin(parts: seq<string>, c: char)
    requires |parts| >= 1
    requires forall k :: 0 <= k < |parts| ==> c !in parts[k]
    ensures Split(Join(c, parts), c) == parts
    decreases |parts|
  {
    var s := Join(c, parts);
    if |parts| == 1 {
      IndexOfAbsent(parts[0], c);
    } else {
      var p := parts[0];
      var rest := Join(c, parts[1..]);
      assert s == p + [c] + rest;
      IndexOfAbsent(p, c);
      assert s == p + ([c] + rest);
      IndexOfAfter(p, [c] + rest, c);
      assert IndexOf(s, c) == |p|;
      assert s[..|p|] == p;
      assert s[|p| + 1..] == rest;
      SplitJoin(parts[1..], c);
    }
  }

  /** Any occurrence of `c` is at or after the first one. */
  lemma {:induction false} IndexOfAtMost(s: string, c: char, k: nat)
    requires k < |s| && s[k] == c
    ensures IndexOf(s, c) <= k
    decreases k
  {
    if s[0] != c {
      IndexOfAtMost(s[1..], c, k - 1);
    }
  }

  lemma {:induction false} IndexOfAbsent(s: string, c: char)
    requires c !in s
    ensures IndexOf(s, c) == |s|
    decreases |s|
  {
    if s != [] { IndexOfAbsent(s[1..], c); }
  }

  lemma {:induction false} IndexOfAfter(p: string, t: string, c: char)
    requires c !in p
    requires |t| > 0 && t[0] == c
    ensures IndexOf(p + t, c) == |p|
    decreases |p|
  {
    if p != [] {
      assert (p + t)[1..] == p[1..] + t;
      IndexOfAfter(p[1..], t, c);
    }
  }

  /** `s.lstrip()`. */
  function LStrip(s: string): (r: string)
    ensures |r| <= |s| && r == s[|s| - |r|..]
    ensures r != [] ==> !IsSpace(r[0])
    ensures forall i :: 0 <= i < |s| - |r| ==> IsSpace(s[i])
    decreases |s|
  {
    if s != [] && IsSpace(s[0]) then LStrip(s[1..]) else s
  }

  /** `s.rstrip()`. */
  function RStrip(s: string): (r: string)
    ensures |r| <= |s| && r == s[..|r|]
    ensures r != [] ==> !IsSpace(r[|r| - 1])
    decreases |s|
  {
    if s != [] && IsSpace(s[|s| - 1]) then RStrip(s[..|s| - 1]) else s
  }

  /** `s.strip()`: no leading and no trailing whitespace, and a contiguous piece of `s`. */
  function Strip(s: string): (r: string)
    ensures r != [] ==> !IsSpace(r[0]) && !IsSpace(r[|r| - 1])
    ensures |s| - |LStrip(s)| + |r| <= |s|
    ensures r == s[|s| - |LStrip(s)|..|s| - |LStrip(s)| + |r|]
  {
    RStrip(LStrip(s))
  }

  /** A string made only of whitespace strips to nothing. */
  lemma {:induction false} StripBlank(s: string)
    requires forall i :: 0 <= i < |s| ==> IsSpace(s[i])
    ensures LStrip(s) == [] && Strip(s) == []
    decreases |s|
  {
    if s != [] {
      StripBlank(s[1..]);
    }
  }

  /** Stripping a string that has no surrounding whitespace leaves it unchanged. */
  lemma StripStripped(s: string)
    requires s != [] ==> !IsSpace(s[0]) && !IsSpace(s[|s| - 1])
    ensures Strip(s) == s
  {
  }

  /** `s.rstrip(c)`: drop every trailing `c`. */
  function RStripChar(s: string, c: char): (r: string)
    ensures |r| <= |s| && r == s[..|r|]
    ensures r != [] ==> r[|r| - 1] != c
    decreases |s|
  {
    if s != [] && s[|s| - 1] == c then RStripChar(s[..|s| - 1], c) else s
  }

  /** What `s.rstrip(c)` drops is made only of `c`. */
  lemma {:induction false} RStripCharDropped(s: string, c: char)
    ensures forall i :: |RStripChar(s, c)| <= i < |s| ==> s[i] == c
    decreases |s|
  {
    if s != [] && s[|s| - 1] == c {
      RStripCharDropped(s[..|s| - 1], c);
    }
  }

  /** The leading run of non-whitespace characters of `s`. */
  function Word(s: string): (w: string)
    ensures |w| <= |s| && w == s[..|w|]
    ensures forall i :: 0 <= i < |w| ==> !IsSpace(w[i])
    ensures |w| < |s| ==> IsSpace(s[|w|])
    decreases |s|
  {
    if s == [] || IsSpace(s[0]) then [] else [s[0]] + Word(s[1..])
  }

  /** `s.split()`: the maximal runs of non-whitespace characters, in order. */
  function Words(s: string): (r: seq<string>)
    ensures forall k :: 0 <= k < |r| ==> r[k] != []
    ensures forall k, i :: 0 <= k < |r| && 0 <= i < |r[k]| ==> !IsSpace(r[k][i]) && r[k][i] in s
    decreases |s|
  {
    if s == [] then []
    else if IsSpace(s[0]) then Words(s[1..])
    else
      var w := Word(s);
      assert forall i :: 0 <= i < |w| ==> w[i] in s;
      [w] + Words(s[|w|..])
  }

  /** Every character of `Join(sep, parts)` is the separator or a character of one of the parts. */
  lemma {:induction false} JoinChars(sep: char, parts: seq<string>, i: nat)
    requires i < |Join(sep, parts)|
    ensures Join(sep, parts)[i] == sep || exists k, j :: 0 <= k < |parts| && 0 <= j < |parts[k]| && Join(sep, parts)[i] == parts[k][j]
    decreases |parts|
  {
    if |parts| == 1 {
      assert Join(sep, parts)[i] == parts[0][i];
    } else if |parts| > 1 {
      var p := parts[0];
      var s := Join(sep, parts);
      var rest := Join(sep, parts[1..]);
      assert s == p + [sep] + rest;
      if i < |p| {
        assert s[i] == parts[0][i];
      } else if i > |p| {
        assert s[i] == rest[i - |p| - 1];
        JoinChars(sep, parts[1..], i - |p| - 1);
        if rest[i - |p| - 1] != sep {
          var k, j :| 0 <= k < |parts[1..]| && 0 <= j < |parts[1..][k]| && rest[i - |p| - 1] == parts[1..][k][j];
          assert s[i] == parts[k + 1][j];
        }
      }
    }
  }

  function DigitChar(d: nat): (c: char)
    requires d < 10
    ensures IsDigit(c)
  {
    ('0' as int + d) as char
  }

  function DigitValue(c: char): (d: nat)
    requires IsDigit(c)
    ensures d < 10
  {
    c as int - '0' as int
  }

  /** `str(n)` for a non-negative integer: decimal digits, no leading zero. */
  function NatToString(n: nat): (s: string)
    ensures IsDigits(s)
    ensures '-' !in s
    decreases n
  {
    if n < 10 then [DigitChar(n)] else NatToString(n / 10) + [DigitChar(n % 10)]
  }

  /** `str(n)` for any integer. */
  function IntToString(n: int): string
  {
    if n < 0 then "-" + NatToString(-n) else NatToString(n)
  }

  /** `int(s)` for a string of digits. */
  function ParseDigits(s: string): nat
    requires forall i :: 0 <= i < |s| ==> IsDigit(s[i])
    decreases |s|
  {
    if s == [] then 0 else 10 * ParseDigits(s[..|s| - 1]) + DigitValue(s[|s| - 1])
  }

  /** `int(str(n)) == n`. */
  lemma {:induction false} ParseNatToString(n: nat)
    ensures ParseDigits(NatToString(n)) == n
    decreases n
  {
    if n >= 10 {
      var s := NatToString(n);
      assert s[..|s| - 1] == NatToString(n / 10);
      ParseNatToString(n / 10);
    }
  }
}
