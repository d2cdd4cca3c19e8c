/**
 * Names the ingest jobs derive from a dataset: sanitised Parquet column names, the S3 folder
 * name `<productId>-<slug>`, and the console labels for a dataset and an error.
 */
module Naming {
  import opened Seqs
  import opened Text

  /** A character that Parquet column names may not keep: space, slash or hyphen. */
  predicate IsColumnSeparator(c: char) { c == ' ' || c == '/' || c == '-' }

  /** `col.replace(' ', '_').replace('/', '_').replace('-', '_')`. */
  function SanitizeColumnName(col: string): (r: string)
    ensures |r| == |col|
    ensures forall i :: 0 <= i < |col| ==> r[i] == if IsColumnSeparator(col[i]) then '_' else col[i]
  {
    ReplaceChar(ReplaceChar(ReplaceChar(col, ' ', '_'), '/', '_'), '-', '_')
  }

  /** Sanitises every column name, keeping the list's length and order. */
  function SanitizeColumnNames(columns: seq<string>): (r: seq<string>)
    ensures |r| == |columns|
    ensures forall k :: 0 <= k < |columns| ==> r[k] == SanitizeColumnName(columns[k])
  {
    Map(columns, SanitizeColumnName)
  }

  /**
   * A sanitised name keeps its length, contains no space, slash or hyphen, and differs from
   * the original only where the original had one of those.
   */
  lemma SanitizedNames(columns: seq<string>)
    ensures forall k :: 0 <= k < |columns| ==>
      && |SanitizeColumnNames(columns)[k]| == |columns[k]|
      && (forall i :: 0 <= i < |columns[k]| ==> !IsColumnSeparator(SanitizeColumnNames(columns)[k][i]))
      && (forall i :: 0 <= i < |columns[k]| && !IsColumnSeparator(columns[k][i]) ==>
            SanitizeColumnNames(columns)[k][i] == columns[k][i])
  {
  }

  /** Sanitising an already sanitised list changes nothing. */
  lemma SanitizeIdempotent(columns: seq<string>)
    ensures SanitizeColumnNames(SanitizeColumnNames(columns)) == SanitizeColumnNames(columns)
  {
    var once := SanitizeColumnNames(columns);
    var twice := SanitizeColumnNames(once);
    forall k | 0 <= k < |columns|
      ensures twice[k] == once[k]
    {
      assert |twice[k]| == |once[k]|;
      forall i | 0 <= i < |once[k]|
        ensures twice[k][i] == once[k][i]
      {
        assert !IsColumnSeparator(once[k][i]);
      }
    }
  }

  /** Characters a folder slug keeps from a title: alphanumerics, spaces and hyphens. */
  predicate IsSlugSource(c: char) { IsAlnum(c) || c == ' ' || c == '-' }

  /** Characters that may appear in a finished slug. */
  predicate IsSlugChar(c: char) { IsDigit(c) || 'a' <= c <= 'z' || c == '-' }

  /** The title part of a folder name: kept characters, lower-cased, whitespace runs joined by '-'. */
  function Slug(title: string): string
  {
    Join('-', Words(Lower(Filter(title, IsSlugSource))))
  }

  /** `f"{product_id}-{clean_title}"`. */
  function CreateFolderName(productId: int, title: string): string
  {
    IntToString(productId) + "-" + Slug(title)
  }

  /** A slug holds only lower-case letters, digits and hyphens, so no whitespace and no '/'. */
  lemma {:induction false} SlugChars(title: string)
    ensures forall i :: 0 <= i < |Slug(title)| ==> IsSlugChar(Slug(title)[i])
  {
    var kept := Filter(title, IsSlugSource);
    var lowered := Lower(kept);
    assert forall i :: 0 <= i < |lowered| ==> IsSlugChar(lowered[i]) || lowered[i] == ' ' by {
      forall i | 0 <= i < |lowered|
        ensures IsSlugChar(lowered[i]) || lowered[i] == ' '
      {
        assert kept[i] in kept;
      }
    }
    var words := Words(lowered);
    forall k, j | 0 <= k < |words| && 0 <= j < |words[k]|
      ensures IsSlugChar(words[k][j])
    {
      var c := words[k][j];
      assert c in lowered && !IsSpace(c);
      var i :| 0 <= i < |lowered| && lowered[i] == c;
    }
    forall i | 0 <= i < |Slug(title)|
      ensures IsSlugChar(Slug(title)[i])
    {
      JoinChars('-', words, i);
    }
  }

  /** The product id and the slug are separated by the first '-' of a folder name for a non-negative id. */
  lemma FolderNameShape(productId: nat, title: string)
    ensures CreateFolderName(productId, title) == NatToString(productId) + "-" + Slug(title)
    ensures '-' !in NatToString(productId)
  {
  }

  /** `title[:max_len] + "..."` when the title is longer than `max_len`, the title itself otherwise. */
  function TitlePart(title: string, maxLen: int): (r: string)
    ensures |title| > maxLen >= 0 ==> r == title[..maxLen] + "..."
    ensures |title| <= maxLen ==> r == title
  {
    if |title| > maxLen then Head(title, maxLen) + "..." else title
  }

  /** `"[<productId>] <title part>"`. */
  function FormatDisplayTitle(productId: int, title: string, maxLen: int): string
  {
    "[" + IntToString(productId) + "] " + TitlePart(title, maxLen)
  }

  /**
   * The title part never exceeds the limit plus the three-dot marker: a short title is shown
   * whole, a long one as its first `maxLen` characters followed by "...".
   */
  lemma DisplayTitleBounds(title: string, maxLen: nat)
    ensures |TitlePart(title, maxLen)| <= maxLen + 3
    ensures |title| > maxLen ==> TitlePart(title, maxLen)[..maxLen] == title[..maxLen]
  {
    if |title| > maxLen {
      assert |TitlePart(title, maxLen)| == maxLen + 3;
    }
  }

  /** An exception as the worker sees it: `type(e).__name__` and `str(e)`. */
  datatype Error = Error(typeName: string, message: string)

  /** The message when it fits in `maxLen` characters, otherwise the exception's type name. */
  function FormatErrorMessage(e: Error, maxLen: int): (r: string)
    ensures |e.message| <= maxLen ==> r == e.message
    ensures |e.message| > maxLen ==> r == e.typeName
    ensures r == e.message ==> |r| <= maxLen || r == e.typeName
  {
    if |e.message| > maxLen then e.typeName else e.message
  }
}
