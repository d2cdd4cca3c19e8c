/**
 * Uploading to S3: the manifest check before a catalog-driven upload, the keys of the files
 * uploaded from the manifest, and the file filter of the directory-wide upload. File-system
 * lookups and S3 calls are inputs: each file arrives with whether it exists.
 */
module Upload {
  import opened Wrappers
  import opened Seqs
  import Listing
  import Datasets

  const PREFIX := "statscan/data/"
  const EXCLUDE_EXTENSIONS: set<string> := {".csv", ".zip", ".DS_Store"}

  const MSG_NOT_FOUND := "No new datasets to upload (ingested.csv not found)"
  const MSG_NO_DATA := "No new datasets to upload (manifest has no data)"
  const MSG_EMPTY := "No new datasets to upload (manifest is empty)"

  /** `(is_valid, error_message)`. */
  datatype Validation = Validation(isValid: bool, errorMessage: Option<string>)

  /**
   * `validate_manifest_data`. `rowCount` is the length of the frame read from the manifest,
   * `None` when there is no frame; `errorType` names the error the read raised, if any.
   */
  function ValidateManifestData(manifestExists: bool, rowCount: Option<nat>, errorType: Option<string>): (r: Validation)
    ensures !manifestExists ==> r == Validation(false, Some(MSG_NOT_FOUND))
    ensures manifestExists && errorType == Some("EmptyDataError") ==> r == Validation(false, Some(MSG_NO_DATA))
    ensures manifestExists && errorType != Some("EmptyDataError") && rowCount == Some(0) ==>
      r == Validation(false, Some(MSG_EMPTY))
    ensures r.isValid <==> manifestExists && errorType != Some("EmptyDataError") && rowCount != Some(0)
    ensures r.isValid <==> r.errorMessage.None?
  {
    if !manifestExists then Validation(false, Some(MSG_NOT_FOUND))
    else if errorType == Some("EmptyDataError") then Validation(false, Some(MSG_NO_DATA))
    else if rowCount.Some? && rowCount.value == 0 then Validation(false, Some(MSG_EMPTY))
    else Validation(true, None)
  }

  /** The arguments `upload_datasets` passes to the validation for a given read of the manifest's paths. */
  function ValidationOf(read: Datasets.ManifestRead<string>): Validation
  {
    match read
    case NoFile => ValidateManifestData(false, None, None)
    case NoData => ValidateManifestData(true, None, Some("EmptyDataError"))
    case Frame(rows) => ValidateManifestData(true, Some(|rows|), None)
  }

  /** Under the calls `upload_datasets` makes, a manifest is valid exactly when it was read and has rows. */
  lemma ValidIffRows(read: Datasets.ManifestRead<string>)
    ensures ValidationOf(read).isValid <==> read.Frame? && |read.rows| > 0
  {
  }

  /** A manifest row's file: its path relative to `data/` and whether it exists locally. */
  datatype LocalFile = LocalFile(path: string, present: bool)

  function KeyOf(f: LocalFile): string
  {
    PREFIX + f.path
  }

  /** The S3 keys uploaded for a sequence of files: one per existing file, in order. */
  function UploadKeys(files: seq<LocalFile>): seq<string>
    decreases |files|
  {
    if files == [] then []
    else
      var last := files[|files| - 1];
      UploadKeys(files[..|files| - 1]) + (if last.present then [KeyOf(last)] else [])
  }

  predicate Present(f: LocalFile)
  {
    f.present
  }

  /** The keys are the prefixed paths of exactly the files that exist, so there are as many keys as existing files. */
  lemma {:induction false} UploadKeysAreExisting(files: seq<LocalFile>)
    ensures UploadKeys(files) == Map(Filter(files, Present), KeyOf)
    ensures |UploadKeys(files)| == Count(files, Present) <= |files|
    decreases |files|
  {
    FilterCount(files, Present);
    if files != [] {
      var init := files[..|files| - 1];
      UploadKeysAreExisting(init);
      var last := files[|files| - 1];
      if last.present {
        assert Filter(files, Present) == Filter(init, Present) + [last];
      } else {
        assert Filter(files, Present) == Filter(init, Present);
      }
    }
  }

  /** Every uploaded key is a manifest path under `statscan/data/`, and the path can be read back from it. */
  lemma UploadKeysPrefixed(files: seq<LocalFile>, k: nat)
    requires k < |UploadKeys(files)|
    ensures var key := UploadKeys(files)[k];
      |PREFIX| <= |key| && key[..|PREFIX|] == PREFIX &&
      exists f :: f in files && f.present && key[|PREFIX|..] == f.path
  {
    UploadKeysAreExisting(files);
    var f := Filter(files, Present)[k];
    assert f in Filter(files, Present);
    assert UploadKeys(files)[k] == PREFIX + f.path;
  }

  /**
   * The manifest loop of `upload_datasets`: each existing file is uploaded under
   * `PREFIX + path`, a missing one is skipped, and `uploaded` counts the uploads.
   */
  method UploadDatasets(files: seq<LocalFile>) returns (keys: seq<string>, uploaded: nat)
    ensures keys == UploadKeys(files)
    ensures uploaded == |keys|
  {
    keys := [];
    uploaded := 0;
    for i := 0 to |files|
      invariant keys == UploadKeys(files[..i])
      invariant uploaded == |keys|
    {
      assert files[..i + 1][..i] == files[..i];
      if !files[i].present {
        continue;
      }
      keys := keys + [PREFIX + files[i].path];
      uploaded := uploaded + 1;
    }
    assert files[..|files|] == files;
  }

  /** Position of the last '.' in `name`, or -1. */
  function LastDot(name: string): (i: int)
    ensures -1 <= i < |name|
    ensures i >= 0 ==> name[i] == '.'
    ensures forall j :: i < j < |name| ==> name[j] != '.'
    decreases |name|
  {
    if name == [] then -1
    else if name[|name| - 1] == '.' then |name| - 1
    else LastDot(name[..|name| - 1])
  }

  /**
   * `PurePath.suffix`: from the last '.' to the end, provided that dot is neither the first
   * nor the last character; otherwise empty.
   */
  function Suffix(name: string): (r: string)
    ensures r == [] || (r[0] == '.' && |r| >= 2 && |r| < |name| && r == name[|name| - |r|..] && '.' !in r[1..])
  {
    var i := LastDot(name);
    if 0 < i < |name| - 1 then name[i..] else ""
  }

  /** `should_upload` on the path's file name: neither its suffix nor its whole name is excluded. */
  predicate ShouldUpload(name: string)
  {
    Suffix(name) !in EXCLUDE_EXTENSIONS && name !in EXCLUDE_EXTENSIONS
  }

  /** `Path.name` of a path relative to the data directory: the part after the last '/'. */
  function FileName(path: string): string
  {
    Listing.AfterLast(path, '/')
  }

  /** The suffix of `stem + ext`, for a non-empty stem and an extension with a single leading dot. */
  lemma SuffixOfExtension(stem: string, ext: string)
    requires stem != [] && |ext| >= 2 && ext[0] == '.' && '.' !in ext[1..]
    ensures Suffix(stem + ext) == ext
  {
    var name := stem + ext;
    assert name[|stem|] == '.';
    assert forall j :: |stem| < j < |name| ==> name[j] == ext[1..][j - |stem| - 1];
    assert LastDot(name) == |stem| by {
      LastDotAt(name, |stem|);
    }
    assert name[|stem|..] == ext;
  }

  lemma LastDotAt(name: string, i: nat)
    requires i < |name| && name[i] == '.'
    requires forall j :: i < j < |name| ==> name[j] != '.'
    ensures LastDot(name) == i
  {
  }

  /** CSV and ZIP files are never uploaded, whatever their stem. */
  lemma ExcludedExtensions(stem: string)
    requires stem != []
    ensures !ShouldUpload(stem + ".csv") && !ShouldUpload(stem + ".zip")
  {
    SuffixOfExtension(stem, ".csv");
    SuffixOfExtension(stem, ".zip");
  }

  /** Matching is case-sensitive: upper-case `.CSV` and `.ZIP` files are uploaded, and so are parquet files. */
  lemma UploadedExtensions(stem: string)
    requires stem != []
    ensures ShouldUpload(stem + ".CSV") && ShouldUpload(stem + ".ZIP") && ShouldUpload(stem + ".parquet")
  {
    SuffixOfExtension(stem, ".CSV");
    SuffixOfExtension(stem, ".ZIP");
    SuffixOfExtension(stem, ".parquet");
    assert (stem + ".CSV")[|stem + ".CSV"| - 1] == 'V';
    assert (stem + ".ZIP")[|stem + ".ZIP"| - 1] == 'P';
    assert (stem + ".parquet")[|stem + ".parquet"| - 1] == 't';
  }

  /** `.DS_Store` has no suffix (its only dot is the first character) and is excluded by its name; a name without a dot is always uploaded. */
  lemma NameExclusions(name: string)
    ensures Suffix(".DS_Store") == "" && !ShouldUpload(".DS_Store")
    ensures '.' !in name ==> ShouldUpload(name)
  {
    assert LastDot(".DS_Store") == 0 by {
      LastDotAt(".DS_Store", 0);
    }
    if '.' !in name {
      assert LastDot(name) == -1;
      assert ".csv"[0] == '.' && ".zip"[0] == '.' && ".DS_Store"[0] == '.';
    }
  }

  /** A file of the data directory tree: its path relative to `data/` and whether it is a regular file. */
  datatype TreeEntry = TreeEntry(relPath: string, isFile: bool)

  predicate Uploadable(e: TreeEntry)
  {
    e.isFile && ShouldUpload(FileName(e.relPath))
  }

  /**
   * The walk of the directory-wide `upload_datasets`: every regular file that passes the
   * filter is uploaded under `PREFIX + relPath`, in walk order, and nothing else is.
   */
  method UploadTree(entries: seq<TreeEntry>) returns (keys: seq<string>, uploaded: nat)
    ensures keys == Map(Filter(entries, Uploadable), (e: TreeEntry) => PREFIX + e.relPath)
    ensures uploaded == |keys| == Count(entries, Uploadable)
  {
    keys := [];
    uploaded := 0;
    for i := 0 to |entries|
      invariant keys == Map(Filter(entries[..i], Uploadable), (e: TreeEntry) => PREFIX + e.relPath)
      invariant uploaded == |keys|
    {
      assert entries[..i + 1][..i] == entries[..i];
      if entries[i].isFile && ShouldUpload(FileName(entries[i].relPath)) {
        keys := keys + [PREFIX + entries[i].relPath];
        uploaded := uploaded + 1;
      }
    }
    assert entries[..|entries|] == entries;
    FilterCount(entries, Uploadable);
  }
}
