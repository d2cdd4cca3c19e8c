/**
 * Reading the S3 listing back: the product id encoded in a dataset folder name, and the
 * loops that collect ids and folder names from the pages of common prefixes.
 */
module Listing {
  import opened Wrappers
  import opened Seqs
  import opened Text
  import Naming

  /** Prefix under which dataset folders are listed. */
  const DATA_PREFIX: string := "statscan/data/"

  /** The text after the last `c` of `s`, or all of `s` when it has no `c`. */
  function AfterLast(s: string, c: char): string
    decreases |s|
  {
    if s == [] || s[|s| - 1] == c then [] else AfterLast(s[..|s| - 1], c) + [s[|s| - 1]]
  }

  /** The folder name of a common prefix: its last '/'-separated piece once trailing '/'s are dropped. */
  function LastSegment(prefix: string): string
    decreases |prefix|
  {
    if prefix != [] && prefix[|prefix| - 1] == '/' then LastSegment(prefix[..|prefix| - 1]) else AfterLast(prefix, '/')
  }

  /**
   * The id encoded in a folder name: the text before the first '-' read as a decimal number,
   * or `None` when there is no '-' or that text is empty or not all digits.
   */
  function ExtractProductIdFromFolder(folder: string): Option<nat>
  {
    var dash := IndexOf(folder, '-');
    if dash < |folder| && IsDigits(folder[..dash]) then Some(ParseDigits(folder[..dash])) else None
  }

  lemma {:induction false} AfterLastAbsent(s: string, c: char)
    requires c !in s
    ensures AfterLast(s, c) == s
    decreases |s|
  {
    if s != [] {
      AfterLastAbsent(s[..|s| - 1], c);
    }
  }

  lemma {:induction false} AfterLastShape(s: string, c: char) returns (a: string)
    requires c in s
    ensures s == a + [c] + AfterLast(s, c)
    ensures c !in AfterLast(s, c)
    decreases |s|
  {
    var init := s[..|s| - 1];
    if s[|s| - 1] == c {
      a := init;
      assert s == init + [c];
    } else {
      assert c in init by {
        var k :| 0 <= k < |s| && s[k] == c;
        assert init[k] == c;
      }
      a := AfterLastShape(init, c);
      assert s == init + [s[|s| - 1]];
    }
  }

  /** `AfterLast` is the last piece of `s.split(c)`. */
  lemma AfterLastSplit(s: string, c: char)
    ensures var parts := Split(s, c); AfterLast(s, c) == parts[|parts| - 1]
  {
    if c !in s {
      IndexOfAbsent(s, c);
      AfterLastAbsent(s, c);
    } else {
      var a := AfterLastShape(s, c);
      SplitLast(a, AfterLast(s, c), c);
    }
  }

  lemma {:induction false} LastSegmentStripped(prefix: string)
    ensures LastSegment(prefix) == AfterLast(RStripChar(prefix, '/'), '/')
    decreases |prefix|
  {
    if prefix != [] && prefix[|prefix| - 1] == '/' {
      LastSegmentStripped(prefix[..|prefix| - 1]);
    }
  }

  /** The folder name is `prefix.rstrip('/').split('/')[-1]`. */
  lemma LastSegmentIsSplit(prefix: string)
    ensures var parts := Split(RStripChar(prefix, '/'), '/'); LastSegment(prefix) == parts[|parts| - 1]
  {
    var stripped := RStripChar(prefix, '/');
    LastSegmentStripped(prefix);
    assert LastSegment(prefix) == AfterLast(stripped, '/');
    AfterLastSplit(stripped, '/');
  }

  /** The id is `int(folder.split('-')[0])` when `'-' in folder` and that piece is all digits, and `None` otherwise. */
  lemma ExtractIsSplit(folder: string)
    ensures ExtractProductIdFromFolder(folder) ==
      if '-' in folder && IsDigits(Split(folder, '-')[0]) then Some(ParseDigits(Split(folder, '-')[0])) else None
  {
    if '-' !in folder {
      IndexOfAbsent(folder, '-');
    }
  }

  /** The folder name of a non-negative id reads back as that id, whatever the title. */
  lemma FolderIdRoundTrip(productId: nat, title: string)
    ensures ExtractProductIdFromFolder(Naming.CreateFolderName(productId, title)) == Some(productId)
  {
    var digits := NatToString(productId);
    var rest := "-" + Naming.Slug(title);
    var folder := Naming.CreateFolderName(productId, title);
    assert folder == digits + rest;
    IndexOfAfter(digits, rest, '-');
    assert folder[..|digits|] == digits;
    assert folder[|digits|] == '-';
    ParseNatToString(productId);
  }

  /** A negative id is written with a leading '-', so its folder name reads back as no id at all. */
  lemma NegativeIdUnreadable(productId: int, title: string)
    requires productId < 0
    ensures ExtractProductIdFromFolder(Naming.CreateFolderName(productId, title)) == None
  {
    var folder := Naming.CreateFolderName(productId, title);
    assert folder[0] == '-';
    assert IndexOf(folder, '-') == 0;
  }

  /**
   * Names that are not dataset folders are rejected: one with no '-' (such as "catalog"), and one
   * that does not start with a digit (such as "abc-dataset", or "-x" whose id part is empty).
   */
  lemma UnreadableFolders(folder: string)
    ensures '-' !in folder ==> ExtractProductIdFromFolder(folder) == None
    ensures folder != [] && !IsDigit(folder[0]) ==> ExtractProductIdFromFolder(folder) == None
  {
    if '-' !in folder {
      IndexOfAbsent(folder, '-');
    } else if folder != [] && !IsDigit(folder[0]) && IndexOf(folder, '-') > 0 {
      assert folder[..IndexOf(folder, '-')][0] == folder[0];
    }
  }

  lemma {:induction false} SplitLast(a: string, b: string, c: char)
    requires c !in b
    ensures var parts := Split(a + [c] + b, c); parts[|parts| - 1] == b
    decreases |a|
  {
    if c !in a {
      SplitLastBase(a, b, c);
    } else {
      var s := a + [c] + b;
      var i := IndexOf(s, c);
      var k :| 0 <= k < |a| && a[k] == c;
      assert s[k] == c;
      IndexOfAtMost(s, c, k);
      assert s[i + 1..] == a[i + 1..] + [c] + b;
      SplitLast(a[i + 1..], b, c);
      SplitDropFirst(s, c);
    }
  }

  /** With one separator, the last piece is what follows it. */
  lemma SplitLastBase(a: string, b: string, c: char)
    requires c !in a && c !in b
    ensures var parts := Split(a + [c] + b, c); parts[|parts| - 1] == b
  {
    var s := a + [c] + b;
    assert s == a + ([c] + b);
    IndexOfAfter(a, [c] + b, c);
    assert s[|a| + 1..] == b;
    IndexOfAbsent(b, c);
    assert Split(s, c) == [a] + [b];
  }

  /** Dropping the first piece keeps the last piece. */
  lemma SplitDropFirst(s: string, c: char)
    requires IndexOf(s, c) < |s|
    ensures var parts := Split(s, c); var rest := Split(s[IndexOf(s, c) + 1..], c);
      parts[|parts| - 1] == rest[|rest| - 1]
  {
    var i := IndexOf(s, c);
    LastOfCons(s[..i], Split(s[i + 1..], c));
  }

  lemma LastOfCons<T>(x: T, r: seq<T>)
    requires |r| > 0
    ensures ([x] + r)[|r|] == r[|r| - 1]
  {
  }

  /** The common prefix S3 reports for a dataset folder names that folder. */
  lemma PrefixNamesFolder(folder: string)
    requires folder != [] && '/' !in folder
    ensures LastSegment(DATA_PREFIX + folder + "/") == folder
  {
    var p := DATA_PREFIX + folder;
    assert (p + "/")[..|p + "/"| - 1] == p;
    assert p == "statscan/data" + ['/'] + folder;
    AfterLastTail("statscan/data", folder, '/');
  }

  lemma {:induction false} AfterLastTail(a: string, b: string, c: char)
    requires c !in b
    ensures AfterLast(a + [c] + b, c) == b
    decreases |b|
  {
    if b != [] {
      var s := a + [c] + b;
      assert s[..|s| - 1] == a + [c] + b[..|b| - 1];
      AfterLastTail(a, b[..|b| - 1], c);
      assert b == b[..|b| - 1] + [b[|b| - 1]];
    } else {
      assert a + [c] + b == a + [c];
    }
  }

  /** The folder written for a dataset with a non-negative id is listed back as that id. */
  lemma ListedFolderRoundTrip(productId: nat, title: string)
    ensures ExtractProductIdFromFolder(LastSegment(DATA_PREFIX + Naming.CreateFolderName(productId, title) + "/")) == Some(productId)
  {
    var folder := Naming.CreateFolderName(productId, title);
    Naming.SlugChars(title);
    assert folder == NatToString(productId) + "-" + Naming.Slug(title);
    assert '/' !in folder by {
      forall i | 0 <= i < |folder|
        ensures folder[i] != '/'
      {
        if i < |NatToString(productId)| {
          assert folder[i] == NatToString(productId)[i];
        } else if i > |NatToString(productId)| {
          assert folder[i] == Naming.Slug(title)[i - |NatToString(productId)| - 1];
        }
      }
    }
    PrefixNamesFolder(folder);
    FolderIdRoundTrip(productId, title);
  }

  /** The id a common prefix contributes: none, or the one its folder name encodes. */
  function IdOf(prefix: string): set<int>
  {
    match ExtractProductIdFromFolder(LastSegment(prefix))
    case Some(productId) => {productId}
    case None => {}
  }

  /** The ids read from a listing of common prefixes. */
  function IdsOf(prefixes: seq<string>): set<int>
    decreases |prefixes|
  {
    if prefixes == [] then {} else IdsOf(prefixes[..|prefixes| - 1]) + IdOf(prefixes[|prefixes| - 1])
  }

  lemma {:induction false} IdsOfAppend(a: seq<string>, b: seq<string>)
    ensures IdsOf(a + b) == IdsOf(a) + IdsOf(b)
    decreases |b|
  {
    if b == [] {
      assert a + b == a;
    } else {
      assert (a + b)[..|a + b| - 1] == a + b[..|b| - 1];
      IdsOfAppend(a, b[..|b| - 1]);
    }
  }

  /** An id is listed exactly when some prefix's folder name encodes it. */
  lemma {:induction false} IdsOfMembers(prefixes: seq<string>, productId: nat)
    ensures productId in IdsOf(prefixes) <==>
      exists k :: 0 <= k < |prefixes| && ExtractProductIdFromFolder(LastSegment(prefixes[k])) == Some(productId)
    decreases |prefixes|
  {
    if prefixes != [] {
      var init := prefixes[..|prefixes| - 1];
      IdsOfMembers(init, productId);
      if productId in IdsOf(init) {
        var k :| 0 <= k < |init| && ExtractProductIdFromFolder(LastSegment(init[k])) == Some(productId);
        assert prefixes[k] == init[k];
      }
      if exists k :: 0 <= k < |prefixes| && ExtractProductIdFromFolder(LastSegment(prefixes[k])) == Some(productId) {
        var k :| 0 <= k < |prefixes| && ExtractProductIdFromFolder(LastSegment(prefixes[k])) == Some(productId);
        if k < |init| {
          assert init[k] == prefixes[k];
        }
      }
    }
  }

  lemma IdsSnoc(seen: seq<string>, prefix: string)
    ensures IdsOf(seen + [prefix]) == IdsOf(seen) + IdOf(prefix)
  {
    assert (seen + [prefix])[..|seen|] == seen;
  }

  /** The union of the ids on all pages, read from each prefix's last segment; unreadable folders are skipped. */
  method GetExistingDatasetIds(pages: seq<seq<string>>) returns (existing: set<int>)
    ensures existing == IdsOf(Flatten(pages))
  {
    existing := {};
    for i := 0 to |pages|
      invariant existing == IdsOf(Flatten(pages[..i]))
    {
      existing := AddPageIds(pages[i], existing);
      FlattenStep(pages, i);
      IdsOfAppend(Flatten(pages[..i]), pages[i]);
    }
    assert pages[..|pages|] == pages;
  }

  /** The inner loop over one page's common prefixes: adds the ids their folder names encode. */
  method AddPageIds(page: seq<string>, existing0: set<int>) returns (existing: set<int>)
    ensures existing == existing0 + IdsOf(page)
  {
    existing := existing0;
    for j := 0 to |page|
      invariant existing == existing0 + IdsOf(page[..j])
    {
      var folder := LastSegment(page[j]);
      var productId := ExtractProductIdFromFolder(folder);
      if productId.Some? {
        existing := existing + {productId.value};
      }
      IdsSnoc(page[..j], page[j]);
      assert page[..j + 1] == page[..j] + [page[j]];
    }
    assert page[..|page|] == page;
  }

  /** The same loop with the folder test written inline yields the same set. */
  method GetExistingDatasetIdsInline(pages: seq<seq<string>>) returns (existing: set<int>)
    ensures existing == IdsOf(Flatten(pages))
  {
    existing := {};
    for i := 0 to |pages|
      invariant existing == IdsOf(Flatten(pages[..i]))
    {
      existing := AddPageIdsInline(pages[i], existing);
      FlattenStep(pages, i);
      IdsOfAppend(Flatten(pages[..i]), pages[i]);
    }
    assert pages[..|pages|] == pages;
  }

  /** The inline variant's inner loop: the digits before the first '-' of each folder name. */
  method AddPageIdsInline(page: seq<string>, existing0: set<int>) returns (existing: set<int>)
    ensures existing == existing0 + IdsOf(page)
  {
    existing := existing0;
    for j := 0 to |page|
      invariant existing == existing0 + IdsOf(page[..j])
    {
      var folder := LastSegment(page[j]);
      if '-' in folder && IsDigits(Split(folder, '-')[0]) {
        existing := existing + {ParseDigits(Split(folder, '-')[0])};
      }
      IdsSnoc(page[..j], page[j]);
      assert page[..j + 1] == page[..j] + [page[j]];
    }
    assert page[..|page|] == page;
  }

  /** How the listing is cut into pages does not matter, and an empty listing has no ids. */
  lemma IdsIgnorePagination(pages: seq<seq<string>>, others: seq<seq<string>>)
    requires Flatten(pages) == Flatten(others)
    ensures IdsOf(Flatten(pages)) == IdsOf(Flatten(others))
    ensures IdsOf(Flatten([])) == {}
  {
  }

  /** The folder names of a listing, in order. */
  function FoldersOf(prefixes: seq<string>): (folders: seq<string>)
    ensures |folders| == |prefixes|
    decreases |prefixes|
  {
    if prefixes == [] then [] else FoldersOf(prefixes[..|prefixes| - 1]) + [LastSegment(prefixes[|prefixes| - 1])]
  }

  /** Each listed folder name is the last segment of the prefix at the same position. */
  lemma {:induction false} FoldersOfAt(prefixes: seq<string>, k: nat)
    requires k < |prefixes|
    ensures FoldersOf(prefixes)[k] == LastSegment(prefixes[k])
    decreases |prefixes|
  {
    if k < |prefixes| - 1 {
      FoldersOfAt(prefixes[..|prefixes| - 1], k);
    }
  }

  lemma FoldersSnoc(seen: seq<string>, prefix: string)
    ensures FoldersOf(seen + [prefix]) == FoldersOf(seen) + [LastSegment(prefix)]
  {
    assert (seen + [prefix])[..|seen|] == seen;
  }

  lemma {:induction false} FoldersOfAppend(a: seq<string>, b: seq<string>)
    ensures FoldersOf(a + b) == FoldersOf(a) + FoldersOf(b)
    decreases |b|
  {
    if b == [] {
      assert a + b == a;
    } else {
      assert (a + b)[..|a + b| - 1] == a + b[..|b| - 1];
      FoldersOfAppend(a, b[..|b| - 1]);
    }
  }

  /** Every folder name on every page, in listing order, including ones that are not datasets. */
  method GetExistingDatasetFolders(pages: seq<seq<string>>) returns (folders: seq<string>)
    ensures folders == FoldersOf(Flatten(pages))
  {
    folders := [];
    for i := 0 to |pages|
      invariant folders == FoldersOf(Flatten(pages[..i]))
    {
      folders := AddPageFolders(pages[i], folders);
      FlattenStep(pages, i);
      FoldersOfAppend(Flatten(pages[..i]), pages[i]);
    }
    assert pages[..|pages|] == pages;
  }

  /** The inner loop over one page: appends each prefix's folder name. */
  method AddPageFolders(page: seq<string>, folders0: seq<string>) returns (folders: seq<string>)
    ensures folders == folders0 + FoldersOf(page)
  {
    folders := folders0;
    for j := 0 to |page|
      invariant folders == folders0 + FoldersOf(page[..j])
    {
      var segment := LastSegment(page[j]);
      ghost var before := FoldersOf(page[..j]);
      assert page[..j + 1] == page[..j] + [page[j]];
      FoldersSnoc(page[..j], page[j]);
      assert FoldersOf(page[..j + 1]) == before + [segment];
      folders := folders + [segment];
      assert folders == folders0 + (before + [segment]);
    }
    assert page[..|page|] == page;
  }
}
