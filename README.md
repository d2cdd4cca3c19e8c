# StatsCan mirror: catalog bookkeeping and dataset selection

This project models the decision logic of a small data pipeline. The pipeline mirrors Statistics
Canada tables into an S3 data lake. Each run does the following:

- It reads the StatsCan cube catalog and extracts one metadata row per cube. The rows are scored
  by `score_dataset`, exactly as written, and ranked by that score.
- It chooses which datasets to fetch: ids not yet in S3, titles not marked `INVISIBLE`, an
  optional limit, and update detection by frequency and last ingestion date.
- It downloads each dataset under size ceilings. It picks the CSV entry of the ZIP archive and
  turns the StatsCan null symbols into nulls.
- It names the S3 folder `<productId>-<slug>`, sanitises the column names, and stops submitting
  work once a total-size cap is reached.
- It keeps the catalog reconciled: a left-join merge carries `last_ingestion_date` forward, the
  ingested ids are stamped, and the `available` flag is recomputed from the ids listed in S3.
- It reads the S3 listing back into ids and folder names, builds the Glue crawler targets, and
  validates the ingestion manifest before uploading. It also computes the retry back-off of the
  query client.

The repository has several near-identical copies of the same helpers:

- three ingest scripts;
- three `utils.py` listings;
- two `discover.py` and two `regenerate_catalog.py` files;
- two crawler scripts.

A copy that computes the same thing shares one Dafny definition. Copies that differ get their
own members: the three `download_table` fetch rules, the two progress loops, the
inline id test of the root `utils.py`, and the two `enhance_catalog` variants. The root
`ingest_all.py` sanitises column names and builds the folder name inline (ingest_all.py:82,
85-87). Those lines are character for character the bodies of `sanitize_column_names` and
`create_folder_name`, so `Naming.SanitizeColumnNames` and `Naming.CreateFolderName` model them.

Modules:

- `Seqs`, `Text` and `Wrappers`: sequence, string and option helpers.
- `Datasets`: catalog rows.
- `UpdateDetection`: frequency intervals, the due test, new / update classification and the limit.
- `CatalogSync` and `RegenerateCatalog`: catalog reconciliation and frequency decoding.
- `Selection` and `Ranking`: `filter_catalog` and the score-ordered selection.
- `Naming`: column names, folder names and console labels.
- `Progress`: the download-progress throttle.
- `Archive`: size ceilings, ZIP entry choice and null tokens.
- `Run`: the per-dataset accumulator and the submit-until-cap loop.
- `Listing`: the folder-key codec and the S3 listing loops.
- `Discover`: metadata extraction, scoring and ranking.
- `Crawler`: Glue targets and folder-list parsing.
- `Upload`: manifest validation and upload filters.
- `Retry`: the back-off schedule.

Modelling conventions:

- A data frame is a sequence of rows.
- A null cell is `Option`.
- A timestamp is an integer number of seconds. `timedelta.days` is floor division by 86400.
- Ids are integers and id sets are `set<int>`, both for the catalog and for the ids read back
  from S3 folder names.
- Sizes in megabytes and retry delays are exact `real`s.

## Model

| member | source | states |
|---|---|---|
| UpdateDetection.ParseFrequencyToDays | src/statscan/update_detection.py:7-27 | Daily 1, Weekly 7, Bi-weekly 14, Monthly 30, Quarterly 90, Semi-annual 180, Annual 365, Occasional 180; any other value, null or non-text, waits 180 days |
| UpdateDetection.ShouldCheckForUpdate | src/statscan/update_detection.py:30-47 | due iff the whole days between the last ingestion and now are at least the frequency's interval; its meaning is proved by ShouldCheckIff and ShouldCheckBoundary |
| UpdateDetection.ShouldCheckIff | src/statscan/update_detection.py:30-47 | the whole-day test `(now - last).days >= interval` is equivalent to elapsed seconds >= interval * 86400 |
| UpdateDetection.ShouldCheckBoundary | src/statscan/update_detection.py:45-47 | exactly the interval after the last ingestion is due; one second earlier is not |
| UpdateDetection.DecisionIdsAppend | src/statscan/update_detection.py:77-82 | appending a result row adds exactly its id to the result's id set |
| UpdateDetection.IdentifyDatasetsForProcessing | src/statscan/update_detection.py:50-111 | fails (KeyError) exactly when a shared id exists and the existing catalog lacks `last_ingestion_date`; otherwise every row is the classification of a fresh id, ids are distinct, the id set is exactly the selected fresh ids, an empty existing catalog makes every fresh id new, and the `new` rows for fresh-only ids come before the shared ones |
| UpdateDetection.NewDecisions | src/statscan/update_detection.py:75-83 | the first loop emits one `new` row per fresh-only id, each id once, and nothing else |
| UpdateDetection.SharedDecisions | src/statscan/update_detection.py:85-109 | the second loop only appends rows for shared ids; the id set grows by exactly the shared ids that are new (null date) or due; rows stay sound and distinct |
| UpdateDetection.DecideShared | src/statscan/update_detection.py:86-109 | one shared id adds at most one row, with that id, exactly when it is classified new or update_due |
| UpdateDetection.ApplyLimitCounts | src/statscan/update_detection.py:127-131 | with limit n >= 0 the output holds min(n, #new) `new` rows and every `update_due` row, each from the input; rows with other reasons are dropped |
| UpdateDetection.ApplyLimitOrder | src/statscan/update_detection.py:127-131 | with limit n >= 0 the kept `new` rows are the first n of the input's `new` rows, in input order, and all of them come before every `update_due` row |
| UpdateDetection.ApplyLimitToNewDatasets | src/statscan/update_detection.py:114-131 | raises `KeyError: 'reason'` exactly when a limit is given and there are no rows (the frame built from no rows has no `reason` column); otherwise the capped `new` rows followed by the `update_due` rows |
| UpdateDetection.NothingDueWithLimit | src/statscan/update_detection.py:111-131 | a run with nothing new and nothing due raises once a limit is set, and returns the empty frame without one |
| UpdateDetection.ApplyLimitNone | src/statscan/update_detection.py:124-125 | no limit returns the input unchanged, order included |
| UpdateDetection.LimitKeepsUpdates | src/statscan/update_detection.py:127-131 | any limit, negative included, keeps every `update_due` row in its original order |
| CatalogSync.EnhanceCatalog | src/statscan/catalog.py:11-23 | same rows in the same order, `available[i]` iff the row's id is listed in S3, every other column unchanged |
| CatalogSync.EnhanceIdempotent | src/statscan/catalog.py:21-23 | recomputing the flags twice with the same listing equals once |
| CatalogSync.EnhanceForgetsOldFlags | src/statscan/catalog.py:21-23 | catalogs that differ only in their old flags enhance to the same catalog |
| CatalogSync.EnhanceExtremes | src/statscan/catalog.py:21-23 | an empty listing marks every row unavailable; a listing holding every id marks every row available |
| CatalogSync.InitializeIngestionDates | src/statscan/catalog.py:26-38 | adds an all-null `last_ingestion_date` column only when it is absent; otherwise an equal copy |
| CatalogSync.InitializeIdempotent | src/statscan/catalog.py:35-38 | initialising twice equals initialising once |
| CatalogSync.UpdateIngestionDates | src/statscan/catalog.py:41-55 | rows whose id was ingested get the new date, overwriting the old one; all other rows and the order are unchanged |
| CatalogSync.Matches | src/statscan/catalog.py:71-76 | an id absent from the existing catalog has no join partner |
| CatalogSync.JoinRow | src/statscan/catalog.py:71-76 | a left join emits, for one fresh row, that row with each match's date in match order, or the row with a null date when there is no match |
| CatalogSync.LeftJoin | src/statscan/catalog.py:71-76 | the join emits at least one row per fresh row and only rows whose id is a fresh id |
| CatalogSync.MergeCatalogMetadata | src/statscan/catalog.py:58-80 | an empty existing catalog, or one without `last_ingestion_date`, gives the fresh rows with a null date each |
| CatalogSync.MatchesUnique | src/statscan/catalog.py:71-76 | with unique existing ids an id has one join partner, its recorded date, or none |
| CatalogSync.LeftJoinUnique | src/statscan/catalog.py:71-76 | with unique existing ids the join keeps one row per fresh row, in fresh order, with fresh fields and the existing date or null |
| CatalogSync.MergeUnique | src/statscan/catalog.py:58-80 | the merge result is the fresh catalog with each row's date carried from the existing row of the same id, or null |
| CatalogSync.Remerge | src/statscan/catalog.py:71-80 | re-merging the fresh catalog with a previous merge output reproduces it |
| CatalogSync.UpdateCatalogRows | src/statscan/catalog.py:109-131 | `main` raises exactly when `ingested.csv` has no columns to parse; otherwise its steps (merge, initialise, stamp the manifest ids only when the file exists, recompute `available`) keep the fresh rows in order, each row's flag reflects the S3 listing only, and its date is `now` for ingested ids and the carried-over date otherwise |
| CatalogSync.UpdateCatalog | src/statscan/catalog.py:109-131 | raises `EmptyDataError` exactly when the manifest file exists with no columns (the file a run with no completed dataset writes); otherwise both bookkeeping columns exist, every row comes from the fresh catalog, and each flag is exactly membership in the S3 id set |
| RegenerateCatalog.DecodeFrequency | regenerate_catalog.py:11-26 | an integer code in the table decodes to its label; everything else, text codes included, is "Unknown" |
| RegenerateCatalog.DecodeFrequencyCodes | regenerate_catalog.py:11-26 | exactly the codes 1, 2, 6, 9 and 11-20 have labels, and no two codes share one |
| RegenerateCatalog.DecodeFrequencyText | regenerate_catalog.py:20-26 | a code held as text never decodes |
| RegenerateCatalog.EnhanceCatalog | regenerate_catalog.py:29-58 | one published row per input row in order, with columns productId, title, frequency_label, releaseTime, available; the label decodes the row's frequency and the flag is membership in the S3 listing |
| RegenerateCatalog.EnhanceDependsOnListing | regenerate_catalog.py:45-54 | the published rows do not depend on the input's old flags, dates or dropped columns |
| Selection.Candidates | src/statscan/ingest.py:69-72 | a row is a candidate iff it is in the catalog, its id is not in S3, and, when skipping, its title is not marked INVISIBLE (a null title is kept) |
| Selection.FilterCatalog | src/statscan/ingest.py:54-77 | every kept row qualifies; without a limit, or with limit 0, every qualifying row is kept |
| Selection.FilterCatalogSubsequence | src/pipeline/ingest_all.py:79-104 | the result is an order-preserving subsequence of the catalog |
| Selection.FilterCatalogLimit | src/statscan/ingest.py:74-77 | a truthy limit is pandas `head`: the first n qualifying rows for n >= 0, all but the last -n for n < 0 |
| Selection.InvisibleKeptWhenNotSkipping | src/statscan/ingest.py:69-72 | without the INVISIBLE switch only the S3 test applies |
| Selection.RootSelection | ingest_all.py:131-139 | the rows to process are a permutation of the rows absent from S3 and not INVISIBLE, ordered by non-increasing score |
| Selection.RootSelectionMembers | ingest_all.py:131-139 | a row is selected iff it is in the catalog, absent from S3 and not INVISIBLE |
| Naming.SanitizeColumnName | src/statscan/ingest.py:27-36 | same length; each space, slash or hyphen becomes '_' and every other character is kept |
| Naming.SanitizeColumnNames | src/pipeline/ingest_all.py:26-35 | same number of names, each sanitised at its own position |
| Naming.SanitizedNames | src/statscan/ingest.py:36 | sanitised names keep their length, hold no ' ', '/' or '-', and change nothing else |
| Naming.SanitizeIdempotent | src/statscan/ingest.py:36 | sanitising twice equals sanitising once |
| Naming.SlugChars | src/statscan/ingest.py:39-51 | the slug holds only lower-case letters, digits and '-', so no whitespace and no '/' |
| Naming.Slug | src/statscan/ingest.py:39-51 | the title's alphanumerics, spaces and hyphens, lower-cased, with whitespace runs joined by single '-'; SlugChars states its alphabet |
| Naming.CreateFolderName | src/statscan/ingest.py:39-51 | the decimal id, '-', then the slug; FolderNameShape and Listing.FolderIdRoundTrip state its shape and that the id reads back |
| Naming.FolderNameShape | src/pipeline/ingest_all.py:38-50 | a folder name is the decimal id, '-', then the slug, and the id part has no '-' |
| Naming.TitlePart | src/statscan/ingest.py:134-146 | a title longer than the limit is cut to the limit and followed by "..."; a shorter one is kept whole |
| Naming.DisplayTitleBounds | src/statscan/ingest.py:134-146 | the shown title is at most limit + 3 long and starts with the original's first `limit` characters |
| Naming.FormatDisplayTitle | src/statscan/ingest.py:134-146 | "[id] " followed by the title part that TitlePart and DisplayTitleBounds describe |
| Naming.FormatErrorMessage | src/statscan/ingest.py:149-160 | the message when it fits the limit, the exception's type name otherwise |
| Progress.TruncDiv | src/statscan/ingest.py:173-175 | the quotient rounded toward zero, bracketed both for non-negative and negative dividends |
| Progress.CalculateDownloadProgress | src/statscan/ingest.py:163-175 | 0 for an unknown total; otherwise floor(100 * downloaded / total), within 0..100 while downloaded <= total |
| Progress.ShouldPrintProgress | src/statscan/ingest.py:178-189 | print iff the percentage has reached the last printed one plus the interval; PrintedIncreasing states what the loops print under it |
| Progress.DownloadProgress | src/statscan/ingest.py:346-358 | the chunk loop prints exactly the throttled percentage sequence from `last_pct = -1` and counts every byte received |
| Progress.DownloadProgressGuarded | src/pipeline/ingest_all.py:183-188 | the guarded chunk loop prints exactly the guarded throttled sequence and counts every byte |
| Progress.PrintedIncreasing | src/statscan/ingest.py:178-189 | printed percentages rise by at least 10 each time, and the first one is at least `last_pct` + 10 |
| Progress.PrintedNothingWithoutTotal | src/statscan/ingest.py:346-358 | with a zero or negative total nothing is printed, by either loop |
| Progress.PrintedAtMost100 | src/statscan/ingest.py:346-358 | while no more than `total` bytes arrive every printed percentage lies in 0..100 |
| Progress.GuardedAgrees | ingest_all.py:55-63 | the guarded and unguarded loops print the same from any reachable state |
| Archive.CeilingBoundary | src/pipeline/ingest_all.py:53-76 | both ceilings are inclusive (exactly the limit passes, one byte more does not), monotone, and the same test |
| Archive.ShouldDownload | src/pipeline/ingest_all.py:53-63 | the archive is fetched iff its size is at most maxMb * 1,000,000 bytes; CeilingBoundary states the boundary |
| Archive.ShouldProcessCsv | src/pipeline/ingest_all.py:66-76 | the entry is converted iff its uncompressed size is at most maxMb * 1,000,000 bytes; CeilingBoundary states the boundary |
| Archive.RootSkips | ingest_all.py:41-43 | the root script skips iff the content length is strictly over 5000 MB; RootSkipsIsRefusal relates it to the inclusive ceiling |
| Archive.RootSkipsIsRefusal | ingest_all.py:41-43 | the root script skips exactly when the size is strictly over its ceiling, so the ceiling itself is fetched |
| Archive.FindCsvInZip | src/statscan/ingest.py:259-279 | an empty archive raises "empty"; one without a case-insensitive ".csv" name raises "no CSV"; otherwise a CSV name from the archive |
| Archive.CsvByTail | src/statscan/ingest.py:271-279 | the CSV test looks only at the last four characters, case-insensitively |
| Archive.CsvNameCases | src/statscan/ingest.py:271-279 | ".CSV" and ".Csv" are CSVs; ".csv.zip" and ".txt" are not |
| Archive.PipelineFetch | src/pipeline/ingest_all.py:166-206 | skips when the archive is over 100 MB; raises on an empty archive; skips when the first entry is over 200 MB uncompressed; otherwise extracts the first entry |
| Archive.RootFetch | ingest_all.py:36-72 | skips on the size ceiling, raises on an empty archive, otherwise extracts the first entry; never skips on the entry's size |
| Archive.StatscanFetch | src/statscan/ingest.py:365-369 | never skips: extracts exactly the CSV `find_csv_in_zip` returns, and raises (an error `process_dataset` reports) on an empty archive or one without a CSV entry |
| Archive.FirstEntryChoice | src/pipeline/ingest_all.py:194-206 | with sizes in range both pipeline variants extract the first entry, and the catalog ingest agrees when that entry is a CSV |
| Archive.GetStatscanNullValues | src/statscan/ingest.py:192-210 | nineteen tokens of at most three characters, including "" and excluding "42" and "N/A" |
| Run.SharedState.constructor | src/statscan/ingest.py:461-465 | a run starts with total 0 and no ingested records |
| Run.SharedState.ProcessDataset | src/statscan/ingest.py:395-433 | a completed download of a titled dataset adds its size to the total, appends exactly one record and returns the size; a skip or a download failure returns nothing and leaves the state unchanged; a null title raises `TypeError` out of the call (the title is formatted before the download and again in the handler), state unchanged |
| Run.Effective | src/statscan/ingest.py:134-146 | a job with a null title raises `TypeError` in place of its download, since the display title takes `len(title)` before anything is fetched; every other job keeps its outcome |
| Run.IngestAll | src/statscan/ingest.py:470-499 | with each job finished before the next cap check: submitted jobs form a prefix; each was submitted while the total was under the cap; submission stops only at the cap; the total is that of the submitted prefix; the manifest is not written, exactly when a submitted job had a null title (the handler at line 494 formats that title and raises), and otherwise holds the records of the submitted prefix |
| Run.EntriesCount | src/pipeline/ingest_all.py:229-254 | at most one record per job; one per job when all complete and all have titles, none when none completes |
| Run.EntriesFromJobs | ingest_all.py:99-121 | every record carries the id and the non-null title of a processed job and that job's completed outcome |
| Run.TotalMonotone | src/statscan/ingest.py:408-415 | with non-negative sizes the running total never decreases |
| Run.CapOvershoot | src/pipeline/ingest_all.py:291-303 | when each job finishes before the next check, the final total exceeds the cap by less than one dataset's size |
| Run.SubmitAsWritten | src/statscan/ingest.py:470-485 | the loop as written, where the check before job k sees only the jobs finished by then: every submitted job saw the cap unreached, and the loop stops early only at a job that saw it reached |
| Run.CapIneffective | src/pipeline/ingest_all.py:288-303 | when no job has finished by the time the checks run, every job is submitted whatever the cap |
| Run.UnboundedOvershoot | ingest_all.py:152-167 | three 6000 MB datasets submitted before any finishes total 18000 MB, beyond the cap plus one dataset |
| Listing.AfterLastAbsent | src/statscan/utils.py:41-49 | a string without the separator is its own last piece |
| Listing.AfterLastShape | src/statscan/utils.py:41-49 | the text after the last separator contains no separator and completes the string |
| Listing.AfterLastSplit | src/statscan/utils.py:41-49 | the text after the last separator is the last piece of `split` |
| Listing.LastSegmentStripped | src/pipeline/utils.py:41-49 | the folder name is taken after trailing '/'s are removed |
| Listing.LastSegmentIsSplit | src/statscan/utils.py:41-49 | the folder name is `prefix.rstrip('/').split('/')[-1]` |
| Listing.ExtractIsSplit | src/statscan/utils.py:9-20 | the id is `int(folder.split('-')[0])` when the folder has a '-' and that piece is a non-empty digit string; none otherwise |
| Listing.ExtractProductIdFromFolder | src/statscan/utils.py:9-20 | the digits before the first '-' as a number, or none; ExtractIsSplit, FolderIdRoundTrip and UnreadableFolders state its meaning |
| Listing.FolderIdRoundTrip | src/pipeline/utils.py:9-20 | the folder name made for a non-negative id reads back as that id, whatever the title |
| Listing.NegativeIdUnreadable | src/statscan/utils.py:18-20 | a negative id's folder name reads back as no id |
| Listing.UnreadableFolders | src/pipeline/utils.py:18-20 | a name without '-' or starting with a non-digit, such as "catalog", has no id |
| Listing.SplitLast | src/statscan/utils.py:41-49 | the last piece of a split is what follows the last separator |
| Listing.SplitLastBase | src/statscan/utils.py:41-49 | with a single separator the last piece is the text after it |
| Listing.SplitDropFirst | src/statscan/utils.py:41-49 | dropping the first piece of a split keeps the last piece |
| Listing.PrefixNamesFolder | src/statscan/utils.py:41-49 | the common prefix S3 reports for a folder names that folder |
| Listing.AfterLastTail | src/pipeline/utils.py:41-49 | the text after the last separator is the final tail |
| Listing.ListedFolderRoundTrip | src/statscan/utils.py:25-51 | a dataset written under its folder name is listed back as its own id |
| Listing.IdsOfAppend | src/pipeline/utils.py:41-51 | the ids of two listings are the union of their ids |
| Listing.IdsOfMembers | src/pipeline/utils.py:41-49 | an id is listed iff some prefix's folder name encodes it |
| Listing.IdsSnoc | src/statscan/utils.py:43-49 | one more prefix adds exactly its own id, if any |
| Listing.GetExistingDatasetIds | src/statscan/utils.py:25-51 | the ids of all folder names on all pages, unreadable names skipped |
| Listing.AddPageIds | src/pipeline/utils.py:43-49 | one page adds exactly the ids its folder names encode |
| Listing.GetExistingDatasetIdsInline | utils.py:7-33 | the inline digit test before the first '-' yields the same id set as the shared codec |
| Listing.AddPageIdsInline | utils.py:24-31 | one page of the inline loop adds exactly the ids its folder names encode |
| Listing.IdsIgnorePagination | src/pipeline/utils.py:41-51 | the ids depend only on the concatenated listing, and no pages give no ids |
| Listing.FoldersOf | src/statscan/utils.py:70-74 | one folder name per prefix |
| Listing.FoldersOfAt | src/pipeline/utils.py:70-74 | the k-th folder name is the last segment of the k-th prefix |
| Listing.FoldersSnoc | src/statscan/utils.py:70-74 | one more prefix appends exactly its folder name |
| Listing.FoldersOfAppend | src/pipeline/utils.py:70-76 | folder names of two listings concatenate |
| Listing.GetExistingDatasetFolders | src/statscan/utils.py:54-76 | every folder name on every page, in listing order, non-dataset names included |
| Listing.AddPageFolders | src/pipeline/utils.py:70-74 | one page appends its folder names in order |
| Discover.RowOf | src/statscan/discover.py:23-32 | each metadata field is copied from its cube key (absent stays null), and `dimensions` is the list's length or 0 when absent |
| Discover.ExtractCatalogMetadata | src/statscan/discover.py:13-33 | exactly one row per cube, in cube order, each the cube's metadata |
| Discover.ScoreDataset | discover.py:21-49 | the as-written score accumulates base, bonuses and dimension term, and lies in 50..120 |
| Discover.ScoreAsWritten | discover.py:21-49 | the score as written: 50, plus 20 or 10 for the text codes '6'/'7' or '1'/'2', plus the recency bonus, plus min(3 * dimensions, 30); ScoreRange bounds it |
| Discover.Score | src/pipeline/discover.py:21-49 | the corrected score, where integer codes earn the same bonus as their text form; IntegerCodeMissed and CorrectionConservative relate it to the score as written |
| Discover.ScoreRange | src/pipeline/discover.py:21-49 | both scorers lie in 50..120; 120 and 50 are reached |
| Discover.DimensionTermMonotone | discover.py:46-47 | the dimension term is non-decreasing, 3 per dimension below 10, and saturates at 30 from 10 dimensions on |
| Discover.RecencyMonotone | discover.py:33-44 | a more recent release never scores lower, and a missing date scores no more than any date |
| Discover.IntegerCodeMissed | src/pipeline/discover.py:26-31 | as written, integer code 6 scores 20 less than the text "6"; corrected, they score the same |
| Discover.CorrectionConservative | discover.py:26-31 | the correction only changes integer codes and never lowers a score |
| Discover.IntegerCodeRanksLower | discover.py:59-73 | as written, a monthly table sent with the integer code 6 scores 50 and ranks below a five-dimension table of unknown frequency (65); corrected it scores 70 and ranks above |
| Discover.RankCatalog | discover.py:52-73 | the ranked rows are a permutation of one row per cube scored by `score_dataset` as written, in non-increasing score order |
| Discover.RankedScores | src/pipeline/discover.py:59-73 | every ranked score lies in 50..120 and the first row has the highest score |
| Crawler.CreateS3Targets | src/statscan/crawler.py:11-21 | one target per folder in order, path = prefix + folder + "/", no exclusions |
| Crawler.TargetNamesFolder | src/pipeline/update_crawler.py:21-31 | each target path is the prefix, the folder and a trailing '/' |
| Crawler.TargetsDistinct | src/statscan/crawler.py:21 | distinct folders give distinct targets |
| Crawler.TargetLastSegment | src/statscan/crawler.py:21 | a target's path names its folder back when read as an S3 prefix |
| Crawler.CreateCrawlerUpdateParams | src/pipeline/update_crawler.py:34-55 | name, role, database and targets are copied verbatim; the schema policy is UPDATE_IN_DATABASE / DEPRECATE_IN_DATABASE |
| Crawler.CrawlerTargetsShape | src/statscan/crawler.py:50-81 | the crawler gets the folder targets then exactly one catalog target, |folders| + 1 in all |
| Crawler.ParseFolderListMembers | src/pipeline/update_crawler.py:9-18 | a name is parsed iff it is the stripped form of some non-blank line |
| Crawler.ParseFolderList | src/pipeline/update_crawler.py:9-18 | the stripped non-blank lines of the content, in order; ParseFolderListMembers, ParsedNamesClean and ParseFolderListReparse state its meaning |
| Crawler.ParsedNamesClean | src/pipeline/update_crawler.py:18 | every parsed name is non-empty, has no leading or trailing whitespace and no newline |
| Crawler.StripClean | src/pipeline/update_crawler.py:18 | stripping a non-blank line leaves a clean name |
| Crawler.BlankContentEmpty | src/pipeline/update_crawler.py:18 | whitespace-only content parses to no names |
| Crawler.BlankPiece | src/pipeline/update_crawler.py:18 | every line of whitespace-only content strips to nothing |
| Crawler.SplitChars | src/pipeline/update_crawler.py:18 | every character of a line comes from the content |
| Crawler.ParseJoinedNames | src/pipeline/update_crawler.py:9-18 | joining clean names with newlines parses back to the same names |
| Crawler.ParseFolderListReparse | src/pipeline/update_crawler.py:9-18 | re-parsing the joined result of a parse gives the same list |
| Upload.ValidateManifestData | src/statscan/upload.py:17-37 | a missing manifest is "not found" whatever else; an EmptyDataError is "no data"; zero rows is "empty"; otherwise valid; the message is absent iff valid |
| Upload.ValidIffRows | src/statscan/upload.py:17-37 | a manifest read is valid iff it produced a frame with at least one row |
| Upload.UploadKeysAreExisting | src/statscan/upload.py:84-96 | the keys are PREFIX + path of the manifest rows whose file exists, in order, so at most one per row |
| Upload.UploadKeysPrefixed | src/statscan/upload.py:84-96 | every key starts with the data prefix followed by a manifest path |
| Upload.UploadDatasets | src/statscan/upload.py:56-103 | uploads exactly those keys, and the count is their number |
| Upload.LastDot | src/pipeline/upload_to_s3.py:14-23 | the position of the last '.', or -1 when there is none |
| Upload.Suffix | src/pipeline/upload_to_s3.py:23 | the pathlib suffix is empty or a tail of the name starting with its last '.', with at least one character after it and something before it |
| Upload.SuffixOfExtension | src/pipeline/upload_to_s3.py:23 | a stem followed by a dotted extension has that extension as suffix |
| Upload.LastDotAt | src/pipeline/upload_to_s3.py:23 | a '.' with no later '.' is the last dot |
| Upload.ExcludedExtensions | src/pipeline/upload_to_s3.py:11-23 | ".csv" and ".zip" files are not uploaded |
| Upload.UploadedExtensions | src/pipeline/upload_to_s3.py:11-23 | matching is case-sensitive: ".CSV" and ".ZIP" are uploaded, as is ".parquet" |
| Upload.ShouldUpload | src/pipeline/upload_to_s3.py:14-23 | a file is uploaded iff neither its suffix nor its name is ".csv", ".zip" or ".DS_Store"; the extension lemmas state the cases |
| Upload.NameExclusions | src/pipeline/upload_to_s3.py:11-23 | ".DS_Store" has no suffix and is excluded by its name; a name without a dot is uploaded |
| Upload.UploadTree | src/pipeline/upload_to_s3.py:39-48 | the walk uploads exactly the files that pass the filter, in walk order, keyed by PREFIX + relative path, and counts them |
| Retry.RetryDelays | src/mcp/retry.py:4-23 | max(maxRetries, 0) delays, the k-th min(initial * multiplier^k, max) |
| Retry.GenerateRetryDelays | src/mcp/retry.py:18-23 | the loop produces exactly that schedule |
| Retry.ScaleStep | src/mcp/retry.py:22 | multiplying the delay by the multiplier advances the power by one |
| Retry.MulLeft | src/mcp/retry.py:21-22 | scaling by a non-negative factor keeps order |
| Retry.DelaysCapped | src/mcp/retry.py:21 | every delay is at most the maximum, and all equal it when the initial delay is at least the maximum |
| Retry.PowAtLeastOne | src/mcp/retry.py:22 | powers of a multiplier >= 1 are >= 1 |
| Retry.PowMonotone | src/mcp/retry.py:22 | powers of a multiplier >= 1 grow with the exponent |
| Retry.DelaysNonDecreasing | src/mcp/retry.py:19-22 | with initial >= 0 and multiplier >= 1 the delays never decrease |
| Retry.SumConstant | src/mcp/retry.py:18-23 | n equal delays sum to n times the delay |
| Retry.SumAppend | src/mcp/retry.py:18-23 | the total of two schedules is the sum of their totals |
| Retry.DefaultSchedule | src/mcp/retry.py:4-23 | the default schedule is 1, 2, 4, 8, 16 then fifteen 30s, totalling 481 |

## Left out

- S3, Glue, Athena and HTTP calls are left out. Listings, content lengths, archive directories,
  download outcomes and manifest reads are inputs to the model.
- The CSV-to-Parquet conversion subprocess (pyarrow and pandas) is left out. So are its 600 s
  timeout and the schema helpers. Only the sanitised names and the null-token list are modelled.
- Filesystem work is left out: temporary files, extraction, `mkdir`, `stat`, `unlink`, and the
  `Path.exists` test. The temporary ZIP is not deleted on exception paths in the code, and the
  model has no files to leak.
- Threads, the executor and the lock are left out. `Run.IngestAll` is a sequential loop in which
  each submitted dataset finishes before the next cap check; its prefix, stop-at-cap and
  overshoot properties hold only under that assumption. `executor.submit` does not wait, even
  with one worker, so the loop as written (`Run.SubmitAsWritten`) usually submits every row
  before the first download finishes. The Findings table records this.
- Clocks are inputs. `datetime.now()` is the `now` parameter, and `days_old` is an
  `Option<int>`, null when the release date is missing or unparseable.
- Floats are exact reals or integers: megabytes, the 10 GB cap and retry delays. Printed
  rounding (`:.1f`) is not modelled.
- Python's Unicode `isalnum`, `isdigit`, `isspace` and `lower` are modelled on ASCII only.
- pandas `sort_values` is not stable. The sorts are specified as a permutation in non-increasing
  score order, so ties may come in any order.
- The iteration order of the Python id sets in `identify_datasets_for_processing` is not fixed by
  the model. Each loop picks its ids in an unspecified order, and the contract says so.
- `filter_catalog` tests `if limit:`, so a limit of 0 means unlimited, as does no limit.
- `score_dataset` reaches 120, although its docstring says 0-100; the model keeps 50..120.
- An id present in the existing catalog but missing from the fresh one yields no decision and is
  never pruned, as in the code.
- `compare.py` selects on the `reason` column even without a limit, so it raises on an empty
  decision frame too; `compare.py` is not part of this model.
- Archive.GetStatscanNullValues: does not state that the nineteen tokens are pairwise distinct.
  The list is given verbatim and its length is proved.
- Upload.ValidateManifestData: a manifest that exists with no frame and no error is reported
  valid, as in the code. Its callers never reach that case.
- CatalogSync.MergeCatalogMetadata: the one-row-per-fresh-row and date-carrying properties need
  unique ids in the existing catalog. They are stated in `MergeUnique`; a left merge with
  duplicate keys duplicates rows, and the function models that too. A fresh catalog that already
  has a `last_ingestion_date` column would get pandas `_x`/`_y` suffixes, which are not modelled.
- The comparison script `src/statscan/compare.py` and the top-level `update_crawler.py` script
  are not part of this model. They only call the helpers modelled here.
- Console output, `tracemalloc` memory logging and the Athena query server are not part of this
  model.

## Findings

| source | as written | input that shows it | evidently intended | confidence | as-written member | corrected member |
|---|---|---|---|---|---|---|
| discover.py:26-31 | the frequency bonus compares `frequencyCode` with the strings '6', '7', '1', '2'; src/pipeline/discover.py:26-31 is the same code | a cube whose `frequencyCode` is the integer 6, as the catalog API sends it (regenerate_catalog.py:20-26 decodes integer keys): it scores 20 less than the text "6" | an integer code earns the same bonus as its text form | not executed; medium | Discover.IntegerCodeMissed | Discover.Score |
| src/statscan/ingest.py:470-485 | the cap is checked before each `executor.submit`, which returns without waiting, so the check sees only finished jobs; src/pipeline/ingest_all.py:288-303 and ingest_all.py:152-167 are the same loop | three datasets of 6000 MB each against the 10 GB cap: all three are submitted before the first finishes, and the run ingests 18000 MB | each job finishes before the next cap check, so the run overshoots the cap by less than one dataset | not executed; medium | Run.CapIneffective | Run.IngestAll |
