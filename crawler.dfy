/**
 * The Glue crawler configuration: one S3 target per dataset folder, the update parameters with
 * their fixed schema-change policy, and the folder list read back from `dataset_folders.txt`.
 */
module Crawler {
  import opened Seqs
  import opened Text
  import Listing

  /** An entry of the crawler's `S3Targets`. */
  datatype S3Target = S3Target(path: string, exclusions: seq<string>)

  datatype SchemaChangePolicy = SchemaChangePolicy(updateBehavior: string, deleteBehavior: string)

  /** The keyword arguments of `update_crawler`. */
  datatype UpdateParams = UpdateParams(
    name: string,
    role: string,
    databaseName: string,
    s3Targets: seq<S3Target>,
    schemaChangePolicy: SchemaChangePolicy)

  const CRAWLER_NAME := "statscan"
  const CRAWLER_ROLE := "service-role/AWSGlueServiceRole-statscan"
  const DATABASE_NAME := "statscan"
  const S3_DATA_BUCKET := "s3://build-cananda-dw/statscan/data/"
  const S3_CATALOG_BUCKET := "s3://build-cananda-dw/statscan/catalog/"

  /** `create_s3_targets`: one target per folder, in order, at `prefix + folder + "/"`, with no exclusions. */
  function CreateS3Targets(folders: seq<string>, bucketPrefix: string): (r: seq<S3Target>)
    ensures |r| == |folders|
    ensures forall k :: 0 <= k < |r| ==> r[k].path == bucketPrefix + folders[k] + "/" && r[k].exclusions == []
  {
    Map(folders, folder => S3Target(bucketPrefix + folder + "/", []))
  }

  /** Each target path gives its folder back, so different folders never share a target. */
  lemma TargetNamesFolder(folders: seq<string>, bucketPrefix: string, k: nat)
    requires k < |folders|
    ensures var path := CreateS3Targets(folders, bucketPrefix)[k].path;
            |bucketPrefix| < |path| && path[|bucketPrefix|..|path| - 1] == folders[k]
  {
    var path := CreateS3Targets(folders, bucketPrefix)[k].path;
    assert path == bucketPrefix + folders[k] + "/";
    assert path[|bucketPrefix|..|path| - 1] == folders[k];
  }

  lemma TargetsDistinct(folders: seq<string>, bucketPrefix: string, i: nat, j: nat)
    requires i < |folders| && j < |folders|
    requires folders[i] != folders[j]
    ensures CreateS3Targets(folders, bucketPrefix)[i] != CreateS3Targets(folders, bucketPrefix)[j]
  {
    TargetNamesFolder(folders, bucketPrefix, i);
    TargetNamesFolder(folders, bucketPrefix, j);
  }

  /**
   * A target built under a prefix ending in '/' names, as its last path segment, the very
   * folder the S3 listing reported: the listing and the crawler agree on folder names.
   */
  lemma TargetLastSegment(bucketPrefix: string, folder: string)
    requires bucketPrefix != [] && bucketPrefix[|bucketPrefix| - 1] == '/'
    requires folder != [] && '/' !in folder
    ensures Listing.LastSegment(bucketPrefix + folder + "/") == folder
  {
    var p := bucketPrefix + folder;
    assert (p + "/")[..|p|] == p;
    assert p[|p| - 1] == folder[|folder| - 1];
    var a := bucketPrefix[..|bucketPrefix| - 1];
    assert p == a + ['/'] + folder;
    Listing.AfterLastTail(a, folder, '/');
  }

  /** `create_crawler_update_params`: name, role, database and targets are passed through; the policy is fixed. */
  function CreateCrawlerUpdateParams(targets: seq<S3Target>, crawlerName: string, role: string, databaseName: string): (r: UpdateParams)
    ensures r.name == crawlerName && r.role == role && r.databaseName == databaseName && r.s3Targets == targets
    ensures r.schemaChangePolicy == SchemaChangePolicy("UPDATE_IN_DATABASE", "DEPRECATE_IN_DATABASE")
  {
    UpdateParams(crawlerName, role, databaseName, targets,
                 SchemaChangePolicy("UPDATE_IN_DATABASE", "DEPRECATE_IN_DATABASE"))
  }

  /** The targets `main` gives the crawler: the data folders, then the catalog folder. */
  function CrawlerTargets(folders: seq<string>): seq<S3Target>
  {
    CreateS3Targets(folders, S3_DATA_BUCKET) + [S3Target(S3_CATALOG_BUCKET, [])]
  }

  /** `main`'s parameters. */
  function CrawlerParams(folders: seq<string>): UpdateParams
  {
    CreateCrawlerUpdateParams(CrawlerTargets(folders), CRAWLER_NAME, CRAWLER_ROLE, DATABASE_NAME)
  }

  /**
   * The crawler gets one target per folder plus exactly one catalog target, last; no data
   * target can coincide with the catalog target.
   */
  lemma CrawlerTargetsShape(folders: seq<string>)
    ensures |CrawlerParams(folders).s3Targets| == |folders| + 1
    ensures CrawlerParams(folders).s3Targets[|folders|].path == S3_CATALOG_BUCKET
    ensures forall k :: 0 <= k < |folders| ==> CrawlerParams(folders).s3Targets[k].path != S3_CATALOG_BUCKET
  {
    var targets := CrawlerParams(folders).s3Targets;
    forall k | 0 <= k < |folders|
      ensures targets[k].path != S3_CATALOG_BUCKET
    {
      assert targets[k].path == S3_DATA_BUCKET + (folders[k] + "/");
      assert targets[k].path[31] == S3_DATA_BUCKET[31] == 'd';
      assert S3_CATALOG_BUCKET[31] == 'c';
    }
  }

  predicate NonBlank(line: string)
  {
    Strip(line) != []
  }

  /** `parse_folder_list`: the stripped non-blank lines of the file, in order. */
  function ParseFolderList(content: string): seq<string>
  {
    Map(Filter(Split(content, '\n'), NonBlank), Strip)
  }

  /** A name as the folder list holds it: non-empty, no surrounding whitespace, no line break. */
  predicate CleanName(s: string)
  {
    s != [] && !IsSpace(s[0]) && !IsSpace(s[|s| - 1]) && '\n' !in s
  }

  /** A line of a file becomes a folder exactly when stripping leaves something; the folder is that stripped line. */
  lemma ParseFolderListMembers(content: string, folder: string)
    ensures folder in ParseFolderList(content) <==>
      exists line :: line in Split(content, '\n') && Strip(line) != [] && Strip(line) == folder
  {
    var lines := Split(content, '\n');
    var kept := Filter(lines, NonBlank);
    if folder in ParseFolderList(content) {
      var k :| 0 <= k < |kept| && Strip(kept[k]) == folder;
      assert kept[k] in kept;
    }
    if exists line :: line in lines && Strip(line) != [] && Strip(line) == folder {
      var line :| line in lines && Strip(line) != [] && Strip(line) == folder;
      assert line in kept;
      var k :| 0 <= k < |kept| && kept[k] == line;
      assert ParseFolderList(content)[k] == folder;
    }
  }

  /** Every folder read from the list is a clean name. */
  lemma ParsedNamesClean(content: string)
    ensures forall k :: 0 <= k < |ParseFolderList(content)| ==> CleanName(ParseFolderList(content)[k])
  {
    var lines := Split(content, '\n');
    SplitPieces(content, '\n');
    var kept := Filter(lines, NonBlank);
    forall k | 0 <= k < |kept|
      ensures CleanName(Strip(kept[k]))
    {
      assert kept[k] in kept;
      assert kept[k] in lines;
      StripClean(kept[k]);
    }
  }

  /** Stripping a non-blank line without a line break leaves a clean name. */
  lemma StripClean(line: string)
    requires '\n' !in line && Strip(line) != []
    ensures CleanName(Strip(line))
  {
    var start := |line| - |LStrip(line)|;
    assert Strip(line) == line[start..start + |Strip(line)|];
  }

  /** Content made only of whitespace lists no folders. */
  lemma BlankContentEmpty(content: string)
    requires forall i :: 0 <= i < |content| ==> IsSpace(content[i])
    ensures ParseFolderList(content) == []
  {
    var lines := Split(content, '\n');
    SplitPieces(content, '\n');
    forall line | line in lines
      ensures !NonBlank(line)
    {
      BlankPiece(content, line);
    }
    FilterNone(lines, NonBlank);
  }

  /** Every piece of an all-whitespace text is all whitespace, so it strips to nothing. */
  lemma BlankPiece(content: string, line: string)
    requires forall i :: 0 <= i < |content| ==> IsSpace(content[i])
    requires line in Split(content, '\n')
    ensures Strip(line) == []
  {
    SplitChars(content, '\n', line);
    StripBlank(line);
  }

  /** Every character of a piece of `s.split(c)` is a character of `s`. */
  lemma {:induction false} SplitChars(s: string, c: char, piece: string)
    requires piece in Split(s, c)
    ensures forall i :: 0 <= i < |piece| ==> piece[i] in s
    decreases |s|
  {
    var i := IndexOf(s, c);
    if i < |s| && piece != s[..i] {
      SplitChars(s[i + 1..], c, piece);
      forall j | 0 <= j < |piece|
        ensures piece[j] in s
      {
        assert piece[j] in s[i + 1..];
      }
    }
  }

  /** Writing clean names one per line and reading the file back gives the same names. */
  lemma {:induction false} ParseJoinedNames(folders: seq<string>)
    requires forall k :: 0 <= k < |folders| ==> CleanName(folders[k])
    ensures ParseFolderList(Join('\n', folders)) == folders
  {
    if folders == [] {
      assert Split("", '\n') == [""];
      assert Filter([""], NonBlank) == Filter([], NonBlank) + [] ;
    } else {
      SplitJoin(folders, '\n');
      forall x | x in folders
        ensures NonBlank(x) && Strip(x) == x
      {
        StripStripped(x);
      }
      FilterAll(folders, NonBlank);
      forall k | 0 <= k < |folders|
        ensures Strip(folders[k]) == folders[k]
      {
        assert folders[k] in folders;
      }
    }
  }

  /** Parsing is stable: re-parsing the newline-join of a parse result returns the same list. */
  lemma ParseFolderListReparse(content: string)
    ensures ParseFolderList(Join('\n', ParseFolderList(content))) == ParseFolderList(content)
  {
    ParsedNamesClean(content);
    ParseJoinedNames(ParseFolderList(content));
  }
}
