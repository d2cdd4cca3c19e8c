/**
 * What the ingest jobs decide about a table's archive before converting it: the size ceilings,
 * which archive entry is extracted, and the tokens read as nulls in the extracted CSV.
 */
module Archive {
  import opened Wrappers
  import opened Seqs
  import opened Text

  const BYTES_PER_MB: int := 1000000

  /** Ceiling on the compressed archive, for the pipeline ingest. */
  const MAX_DOWNLOAD_MB: int := 100

  /** Ceiling on the first entry's uncompressed size, for the pipeline ingest. */
  const MAX_UNCOMPRESSED_MB: int := 200

  /** Ceiling on the compressed archive, for the older top-level ingest script. */
  const ROOT_MAX_DOWNLOAD_MB: int := 5000

  /** A file within the size limit is downloaded; a file of exactly `maxMb` megabytes still is. */
  predicate ShouldDownload(fileSizeBytes: int, maxMb: int)
  {
    fileSizeBytes <= maxMb * BYTES_PER_MB
  }

  /** The same inclusive ceiling, applied to the uncompressed CSV. */
  predicate ShouldProcessCsv(uncompressedSizeBytes: int, maxMb: int)
  {
    uncompressedSizeBytes <= maxMb * BYTES_PER_MB
  }

  /**
   * Both ceilings are inclusive and monotone: a size of exactly `maxMb` megabytes passes, one
   * byte more does not, and anything below a passing size passes too.
   */
  lemma CeilingBoundary(maxMb: int, b: int, c: int)
    ensures ShouldDownload(maxMb * BYTES_PER_MB, maxMb) && !ShouldDownload(maxMb * BYTES_PER_MB + 1, maxMb)
    ensures ShouldProcessCsv(maxMb * BYTES_PER_MB, maxMb) && !ShouldProcessCsv(maxMb * BYTES_PER_MB + 1, maxMb)
    ensures b <= c && ShouldDownload(c, maxMb) ==> ShouldDownload(b, maxMb)
    ensures ShouldDownload(b, maxMb) <==> ShouldProcessCsv(b, maxMb)
  {
  }

  /** The top-level script's inline test: skip when the content length is strictly over the ceiling. */
  predicate RootSkips(totalSize: int)
  {
    totalSize > ROOT_MAX_DOWNLOAD_MB * BYTES_PER_MB
  }

  /** The inline test skips exactly what `ShouldDownload` would refuse, so an archive of exactly the ceiling is fetched. */
  lemma RootSkipsIsRefusal(totalSize: int)
    ensures RootSkips(totalSize) <==> !ShouldDownload(totalSize, ROOT_MAX_DOWNLOAD_MB)
    ensures !RootSkips(ROOT_MAX_DOWNLOAD_MB * BYTES_PER_MB) && RootSkips(ROOT_MAX_DOWNLOAD_MB * BYTES_PER_MB + 1)
  {
  }

  /** `name.lower().endswith('.csv')`. */
  predicate IsCsvName(name: string)
  {
    EndsWith(Lower(name), ".csv")
  }

  /** Why `find_csv_in_zip` raises. */
  datatype ZipError = EmptyArchive | NoCsv(names: seq<string>)

  /** The first entry, in archive order, whose name ends in ".csv" in any letter case. */
  function FindCsvInZip(names: seq<string>): (r: Result<string, ZipError>)
    ensures r == Failure(EmptyArchive) <==> names == []
    ensures r.Failure? && r.error.NoCsv? <==> names != [] && forall n :: n in names ==> !IsCsvName(n)
    ensures r.Success? ==> exists i :: 0 <= i < |names| && names[i] == r.value && IsCsvName(names[i])
                             && forall j :: 0 <= j < i ==> !IsCsvName(names[j])
  {
    if names == [] then Failure(EmptyArchive)
    else
      var csvFiles := Filter(names, IsCsvName);
      assert forall n :: n in names && IsCsvName(n) ==> n in csvFiles;
      if csvFiles == [] then Failure(NoCsv(names))
      else
        assert exists i :: 0 <= i < |names| && names[i] == csvFiles[0] && IsCsvName(names[i])
                             && forall j :: 0 <= j < i ==> !IsCsvName(names[j]) by {
          var i := FilterFirst(names, IsCsvName);
        }
        Success(csvFiles[0])
  }

  /** Whether a name counts as a CSV depends only on its last four characters, compared case-insensitively. */
  lemma CsvByTail(n: string)
    requires |n| >= 4
    ensures IsCsvName(n) <==>
      LowerChar(n[|n| - 4]) == '.' && LowerChar(n[|n| - 3]) == 'c' &&
      LowerChar(n[|n| - 2]) == 's' && LowerChar(n[|n| - 1]) == 'v'
  {
    var tail := Lower(n)[|n| - 4..];
    assert tail == [LowerChar(n[|n| - 4]), LowerChar(n[|n| - 3]), LowerChar(n[|n| - 2]), LowerChar(n[|n| - 1])];
  }

  /** The extension test ignores letter case but nothing else: "x.CSV" is a CSV, "x.csv.zip" is not. */
  lemma CsvNameCases(stem: string)
    ensures IsCsvName(stem + ".CSV") && IsCsvName(stem + ".Csv")
    ensures !IsCsvName(stem + ".csv.zip") && !IsCsvName(stem + ".txt")
  {
    CsvByTail(stem + ".CSV");
    CsvByTail(stem + ".Csv");
    CsvByTail(stem + ".csv.zip");
    CsvByTail(stem + ".txt");
  }

  /** An entry of a downloaded archive as the pipeline ingest reads it from the ZIP directory. */
  datatype ZipEntry = ZipEntry(name: string, fileSize: nat)

  /**
   * What `download_table` does once the archive's size and entries are known: return `None`
   * (a skip), raise (an empty archive, or no CSV entry), or extract one entry.
   */
  datatype Fetch =
    | SkippedDownload
    | SkippedCsv
    | EmptyArchiveRaised
    | NoCsvRaised
    | Extract(name: string)

  /**
   * The pipeline ingest: skip on the content length, then skip on the first entry's uncompressed
   * size, then extract that first entry whatever its extension; an archive with no entries raises.
   */
  function PipelineFetch(contentLength: int, entries: seq<ZipEntry>): (f: Fetch)
    ensures f == SkippedDownload <==> !ShouldDownload(contentLength, MAX_DOWNLOAD_MB)
    ensures f == EmptyArchiveRaised <==> ShouldDownload(contentLength, MAX_DOWNLOAD_MB) && entries == []
    ensures f == SkippedCsv <==> ShouldDownload(contentLength, MAX_DOWNLOAD_MB) && entries != []
                                 && !ShouldProcessCsv(entries[0].fileSize, MAX_UNCOMPRESSED_MB)
    ensures f.Extract? ==> entries != [] && f.name == entries[0].name
    ensures f != NoCsvRaised
  {
    if !ShouldDownload(contentLength, MAX_DOWNLOAD_MB) then SkippedDownload
    else if entries == [] then EmptyArchiveRaised
    else if !ShouldProcessCsv(entries[0].fileSize, MAX_UNCOMPRESSED_MB) then SkippedCsv
    else Extract(entries[0].name)
  }

  /** The top-level script: skip on the content length, then extract the first entry. */
  function RootFetch(contentLength: int, names: seq<string>): (f: Fetch)
    ensures f == SkippedDownload <==> RootSkips(contentLength)
    ensures f == EmptyArchiveRaised <==> !RootSkips(contentLength) && names == []
    ensures f.Extract? ==> names != [] && f.name == names[0]
    ensures f != SkippedCsv && f != NoCsvRaised
  {
    if RootSkips(contentLength) then SkippedDownload
    else if names == [] then EmptyArchiveRaised
    else Extract(names[0])
  }

  /**
   * The catalog-driven ingest never skips: it extracts the first CSV entry, or raises the error
   * `find_csv_in_zip` raises, which `process_dataset` then reports as a failure.
   */
  function StatscanFetch(names: seq<string>): (f: Fetch)
    ensures f.Extract? <==> FindCsvInZip(names).Success?
    ensures f.Extract? ==> f.name == FindCsvInZip(names).value
    ensures f == EmptyArchiveRaised <==> names == []
    ensures f == NoCsvRaised <==> names != [] && forall n :: n in names ==> !IsCsvName(n)
    ensures f != SkippedCsv && f != SkippedDownload
  {
    match FindCsvInZip(names)
    case Success(name) => Extract(name)
    case Failure(EmptyArchive) => EmptyArchiveRaised
    case Failure(NoCsv(_)) => NoCsvRaised
  }

  /**
   * The pipeline and the top-level script extract the first entry even when it is not a CSV; the
   * catalog-driven ingest looks further. When the first entry is a CSV all three pick it.
   */
  lemma FirstEntryChoice(contentLength: int, entries: seq<ZipEntry>)
    requires entries != [] && ShouldDownload(contentLength, MAX_DOWNLOAD_MB)
    requires ShouldProcessCsv(entries[0].fileSize, MAX_UNCOMPRESSED_MB)
    ensures PipelineFetch(contentLength, entries) == Extract(entries[0].name)
    ensures RootFetch(contentLength, Map(entries, (e: ZipEntry) => e.name)) == Extract(entries[0].name)
    ensures IsCsvName(entries[0].name) ==> StatscanFetch(Map(entries, (e: ZipEntry) => e.name)) == Extract(entries[0].name)
  {
    var names := Map(entries, (e: ZipEntry) => e.name);
    if IsCsvName(entries[0].name) {
      assert Filter(names, IsCsvName) != [] by {
        assert names[0] in names;
        assert names[0] in Filter(names, IsCsvName);
      }
      var i := FilterFirst(names, IsCsvName);
      assert i == 0;
    }
  }

  /** StatsCan's table symbols that the CSV reader turns into nulls. */
  const STATSCAN_NULL_VALUES: seq<string> :=
    ["", ".", "..", "...", "x", "X", "E", "e", "F", "f", "t", "T", "A", "B", "C", "D", "p", "r", "0s"]

  /** The nineteen null tokens: none longer than three characters, and no number or "N/A" among them. */
  function GetStatscanNullValues(): (r: seq<string>)
    ensures |r| == 19
    ensures forall i :: 0 <= i < |r| ==> |r[i]| <= 3
    ensures "" in r && "42" !in r && "N/A" !in r
  {
    STATSCAN_NULL_VALUES
  }
}
