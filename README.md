# LoopSleuth catalog core, modelled in Dafny

LoopSleuth catalogs a folder of video loops in an SQLite database. The model covers
the scripts that fill and maintain that catalog:

- **Scanner.** The folder scanner (`ingest_directory`):
  - walks the folder for video files;
  - inserts new `clips` rows, and refreshes existing rows on a forced rescan;
  - stores thumbnail paths;
  - writes the progress file;
  - deletes every row the scan did not stamp.
- **Hasher.** The perceptual-hash backfill (`process_hashes`).
- **Hamming, RetroFlag.** The retroactive near-duplicate pass (`retro_flag_duplicates.py`):
  - Hamming distance over hex fingerprints, with threshold 5;
  - greedy grouping;
  - lowest id as the canonical clip.
- **Schema.** The schema set-up and the column migration of `db.py`.
- **TagParse, TagMigration.** The migration of the comma-separated `clips.tags` column into the `tags` and
  `clip_tags` tables (`migrate_tags`).
- **Exporter.** The export of starred clip paths to a text file (`export_starred_clips`).

Where the source updates state in place, the model is imperative:
- a `Store.Catalog` class holds the database tables;
- a `Schema.Database` class holds the table definitions;
- a `Scanner.ProgressFile` class holds the JSON progress writes.

Each method is proved equal to a pure specification function. The properties the code promises are
lemmas about those functions.

External effects become inputs:
- ffprobe, the thumbnailer, `calculate_phash` and the file-existence checks become function-typed
  parameters (`probe`, `thumbnail`, `HashEnv`) or an `ExportEnv` of exceptions.
- The row order of a `SELECT` without `ORDER BY` is an input `order`. It lists every row id
  exactly once (`Store.IsListing`).

Modules, one file each:

| module | covers |
|---|---|
| `Common` | `Option` and path/case helpers |
| `Store` | the catalog tables and their uniqueness constraints |
| `Schema` | `db.py` |
| `Scanner` | `scanner.py` |
| `Hasher` | `hasher.py` |
| `Hamming` | `hamming_distance` |
| `RetroFlag` | `retro_flag_duplicates.py` `main` |
| `TagParse` | the tag-string parsing of line 27 of `db_migrate_tags.py` |
| `TagMigration` | `migrate_tags` |
| `Exporter` | `exporter.py` |

The model follows the code as written, also where it departs from what the code's own
docstrings and tests lead one to expect:
- **A non-forced rescan deletes every clip that was already catalogued.** The docstring of
  `ingest_directory` (scanner.py:63) presents `force_rescan` as deciding only whether existing files
  are refreshed. But the skip branch does not restamp `scan_id`, and the final `DELETE` keeps only
  rows stamped by this scan. See `Scanner.UnforcedRescanDropsCatalogued`.
- **A scan aborted because ffprobe is missing still ends with `"done"`.** The "error" record of
  line 131 is followed by the same commit and final progress write as a completed scan
  (`Scanner.AbortEndsDone`).
- **A forced update of an existing row raises no counter.** `processed + skipped + errors` equals
  the number of files handled only when the rescan is not forced (`Scanner.ScanTally`).
- **`db.py` never creates the `scans` table or the `clips.scan_id`, `needs_review` and
  `duplicate_of` columns.** `tests/test_scanner.py:35-42` expects two rows after an ingest into a
  database that only `get_db_connection` set up. On the code as written:
  - the `INSERT INTO scans` of line 83 raises on such a database, so no row is stored and the
    progress file ends with an error record (`Scanner.Ingest`);
  - on a database that has `scans` but no `clips.scan_id`, every INSERT and forced UPDATE of the
    loop raises and is counted as an error, then the `DELETE` raises; the progress file ends with
    an error record and nothing is committed (`Scanner.ScanFailing`);
  - `Schema.FreshSchemaLacksScanColumns` and `Schema.ConnectKeepsScanId` state the gap.
- **`scanner.py` and `hasher.py` import names that the shipped modules do not define.** These are
  `get_video_metadata` and `get_default_db_path`. The model assumes the probe oracle exists.
- **`migrate_tags` and the duplicate pass open the database with `sqlite3.connect` directly.** They
  run no schema set-up.

The only duplicate detection in the modelled code is the retroactive pass of
`retro_flag_duplicates.py`; the scanner inserts a clip without comparing it with other clips.

## Model

| member | source | states |
|---|---|---|
| Common.BaseNameIsLastComponent | src/loopsleuth/scanner.py:102 | the file name is the suffix of the path after its last `/` and contains no `/` |
| Store.Catalog.constructor | src/loopsleuth/db.py:22 | a new database file has no clips, scans, tags or links, and satisfies the catalog invariant |
| Store.PathsUnique | src/loopsleuth/db.py:35 | `path NOT NULL UNIQUE`: two rows of a valid catalog with the same path are the same row |
| Schema.AbsentIsFilter | src/loopsleuth/db.py:96-105 | the ALTERs planned are exactly the wanted columns whose name PRAGMA table_info does not report, and never more than the wanted ones |
| Schema.MigrationAddsAll | src/loopsleuth/db.py:92-109 | after migration every one of width, height, size and codec_name is a column of `clips`, and the old columns stay first and unchanged |
| Schema.AbsentFills | src/loopsleuth/db.py:98-107 | appending the absent columns makes every wanted name present |
| Schema.MigrationIdempotent | src/loopsleuth/db.py:92-109 | a second migration finds nothing to add |
| Schema.AbsentNone | src/loopsleuth/db.py:98-105 | when every wanted name is present, no ALTER is planned |
| Schema.AbsentAll | src/loopsleuth/db.py:98-105 | when no wanted name is present, every wanted column is planned, in source order |
| Schema.FreshSchemaLacksScanColumns | src/loopsleuth/db.py:29-109 | a database built by create_table and migrate_clips_table has no scan_id, needs_review or duplicate_of column |
| Schema.NoScanColumnAfterMigration | src/loopsleuth/db.py:92-109 | the migration never adds one of the scanner's or duplicate pass's columns |
| Schema.CreateTableIdempotent | src/loopsleuth/db.py:29-90 | `IF NOT EXISTS`: on a database that has every declared table and index, `create_table` leaves the tables and indexes as they were |
| Schema.FreshTableGetsAllAlters | src/loopsleuth/db.py:33-45 | the clips table create_table declares lacks all four migrated columns |
| Schema.Database.constructor | src/loopsleuth/db.py:22 | a new connection sees no tables, no indexes and no commits |
| Schema.Database.CreateTableIfNotExists | src/loopsleuth/db.py:32-46 | adds the table only when absent; an existing definition is kept as it is |
| Schema.Database.CreateIndexIfNotExists | src/loopsleuth/db.py:48-50 | adds the index only when absent; an existing definition is kept as it is |
| Schema.AfterCreateSpec | src/loopsleuth/db.py:29-88 | after the CREATE TABLE statements every declared table exists; an existing table keeps its definition, a missing one gets the declared one, and no other table appears |
| Schema.AfterCreateIndexesSpec | src/loopsleuth/db.py:48-50 | the same for the three indexes on `clips` |
| Schema.ConnectIdempotent | src/loopsleuth/db.py:11-109 | connecting to a database that `get_db_connection` already set up changes no table and no index, and commits once |
| Schema.MigrationAddsNoScanId | src/loopsleuth/db.py:92-109 | the migration adds `scan_id` to no table that lacked it |
| Schema.ClipsTableLacksScanId | src/loopsleuth/db.py:33-45 | the declared `clips` table has no `scan_id` column |
| Schema.ConnectKeepsScanId | src/loopsleuth/db.py:11-27 | after connecting, `clips` has a `scan_id` column only if it had one before |
| Schema.Database.CreateTable | src/loopsleuth/db.py:29-90 | the tables and indexes are those the eight `IF NOT EXISTS` statements leave, in source order (`AfterCreate`, characterised by `AfterCreateSpec`); exactly one commit |
| Schema.Database.AddClipsColumn | src/loopsleuth/db.py:106-107 | one `ALTER TABLE clips ADD COLUMN` appends that column and changes nothing else |
| Schema.Database.PlanAlters | src/loopsleuth/db.py:96-105 | the four membership checks produce exactly the columns missing from the PRAGMA listing |
| Schema.Database.MigrateClipsTable | src/loopsleuth/db.py:92-109 | appends exactly the missing columns; commits only when there was at least one |
| Schema.Database.Connect | src/loopsleuth/db.py:11-27 | after connecting, every declared table and index exists; clips holds its previous (or declared) columns plus the missing migrated ones; other tables keep their definitions; the tables are `Connected`, the indexes `AfterCreateIndexes`, and there are one or two commits, the second exactly when an ALTER ran |
| Scanner.LastDot | src/loopsleuth/scanner.py:45 | the index of the last `.` in the name, or -1 when there is none |
| Scanner.Suffix | src/loopsleuth/scanner.py:45 | `Path.suffix`: a tail of the name that starts with its last dot and has another character; empty for a leading-dot-only or trailing-dot name |
| Scanner.VideoFilesExact | src/loopsleuth/scanner.py:38-46 | a resolved path is yielded iff some walked entry is a regular file whose lower-cased suffix is an accepted extension |
| Scanner.ProgressFile.constructor | src/loopsleuth/scanner.py:69-73 | no progress record has been written yet |
| Scanner.ProgressFile.Write | src/loopsleuth/scanner.py:94-95 | each dump appends one record; the file shows the latest |
| Scanner.InsertedRow | src/loopsleuth/scanner.py:146-179 | a new path is inserted under the next id with its base name, the probed metadata and the scan id, no hash, star, tags or review flag, and a thumbnail exactly when the duration is positive and the generator returned one |
| Scanner.RefreshKeepsUserColumns | src/loopsleuth/scanner.py:140-145 | a forced update replaces the five metadata columns and the scan stamp; path, thumbnail, hash, star, tags and review flags are kept |
| Scanner.RelativeToSpec | src/loopsleuth/scanner.py:168-173 | `relative_to` returns the part below the root (`.` for the root itself), and fails iff the path is not under the root |
| Scanner.StoredThumbPathShape | src/loopsleuth/scanner.py:167-173 | the stored thumbnail path is relative to the working directory when possible, otherwise the bare file name |
| Scanner.ThumbnailOnlyForPositiveDuration | src/loopsleuth/scanner.py:157-179 | only thumbnail_path can change; it changes only for a positive duration and a written thumbnail, and then it always changes |
| Scanner.RecordWf | src/loopsleuth/scanner.py:140-183 | recording a probed file keeps the scan state well formed; the tally rises by one unless the path was already catalogued |
| Scanner.Visit | src/loopsleuth/scanner.py:100-192 | one file raises one counter unless it is a forced update, and writes exactly one progress record: `done = idx + 1`, or the error record `done = idx` on an abort |
| Scanner.VisitWf | src/loopsleuth/scanner.py:100-192 | one file keeps the path index a bijection onto the rows, below the id counter |
| Scanner.ScanWf | src/loopsleuth/scanner.py:99-192 | the whole loop keeps the path index a bijection onto the rows, below the id counter |
| Scanner.Prune | src/loopsleuth/scanner.py:194-195 | the DELETE keeps exactly the rows stamped with this scan id, unchanged |
| Scanner.PruneIndex | src/loopsleuth/scanner.py:194-195 | the path index keeps exactly the paths of surviving rows |
| Scanner.ScanProgress | src/loopsleuth/scanner.py:93-192 | one progress record per handled file, each `done = position + 1` and `scanning`; the loop stops after the first error record, which has `done = idx` |
| Scanner.ProgressBounded | src/loopsleuth/scanner.py:93-192 | the `done` values written never decrease and never exceed `total` |
| Scanner.AbortEndsDone | src/loopsleuth/scanner.py:125-132 | after an abort the error record is followed by a final `done`/`total` record with status done |
| Scanner.ScanTally | src/loopsleuth/scanner.py:86-192 | the counters never exceed the files handled, and equal them when the rescan is not forced |
| Scanner.AbortIsFinal | src/loopsleuth/scanner.py:132 | once the missing-ffprobe abort happens, later files change nothing |
| Scanner.VisitRows | src/loopsleuth/scanner.py:100-192 | one file keeps every existing path's id; any row it changes is stamped with this scan and has that file's path |
| Scanner.RecordRows | src/loopsleuth/scanner.py:140-179 | the insert or update after a successful probe keeps existing ids; any row it changes is this file's and is stamped |
| Scanner.VisitInserts | src/loopsleuth/scanner.py:146-155 | a file either leaves the row set and processed count alone, or adds one row under a fresh id and raises processed by one |
| Scanner.ScanKeepsPaths | src/loopsleuth/scanner.py:99-192 | the loop renumbers no catalogued path and never lowers the id counter |
| Scanner.ScanKeepsRows | src/loopsleuth/scanner.py:99-192 | the loop deletes no row; every row it changed is stamped with this scan and belongs to a scanned file |
| Scanner.ScanKeepsIds | src/loopsleuth/scanner.py:99-192 | the loop deletes nothing and renumbers nothing; every row it changed is stamped and belongs to a scanned file |
| Scanner.ScanInserts | src/loopsleuth/scanner.py:146-155 | the number of rows grows by exactly the processed count; new ids come from the counter |
| Scanner.UnforcedScanKeepsOldRows | src/loopsleuth/scanner.py:107-112 | without force, rows already in the catalog are left exactly as they were |
| Scanner.UnforcedRescanDropsCatalogued | src/loopsleuth/scanner.py:107-195 | without force, every path catalogued before the scan is missing afterwards, even when the file is still there |
| Scanner.PrunedRowsAreScanned | src/loopsleuth/scanner.py:194-195 | every row that survives the DELETE belongs to a file found by this scan |
| Scanner.PruneKeepsCatalogValid | src/loopsleuth/scanner.py:194-197 | after the DELETE the rows are still indexed by unique path, and all carry this scan's id |
| Scanner.NewScanValid | src/loopsleuth/scanner.py:83-84 | inserting the scan row under the counter keeps the scans invariant |
| Scanner.InsertClip | src/loopsleuth/scanner.py:146-155 | the INSERT adds the row under the next AUTOINCREMENT id and indexes its path |
| Scanner.UpdateClip | src/loopsleuth/scanner.py:140-145 | the UPDATE rewrites only that row, with the refreshed metadata |
| Scanner.SetThumbnail | src/loopsleuth/scanner.py:174-177 | only that row's thumbnail_path changes |
| Scanner.HandleFile | src/loopsleuth/scanner.py:100-192 | the loop body's effect on the rows, counters and progress file is the one `Visit` specifies |
| Scanner.RecordFile | src/loopsleuth/scanner.py:133-183 | the effect after a successful probe is the one `Record` specifies |
| Scanner.Thumbnail | src/loopsleuth/scanner.py:157-179 | the thumbnail step changes only this row, as `WithThumbnail` specifies |
| Scanner.FailingWritesKeepRows | src/loopsleuth/scanner.py:140-192 | when every INSERT and UPDATE raises, the loop changes no row, path or id and counts nothing as processed |
| Scanner.ScanFailing | src/loopsleuth/scanner.py:83-211 | without `clips.scan_id`: the loop's progress records with every write failing, then the "no such column" error record; the catalog is unchanged |
| Scanner.Ingest | src/loopsleuth/scanner.py:48-216 | not a directory: nothing changes. Otherwise the schema is what `get_db_connection` leaves. No `scans` table: one error record and no catalog change. No `clips.scan_id`: the loop's records with every write failing, then the column error, and no catalog change. Otherwise: a new scan row, the loop's rows minus the unstamped ones, and the final done record. The progress file shows "done" exactly when counts are returned. Tags are never touched |
| Scanner.ScanFolder | src/loopsleuth/scanner.py:83-205 | inserts the scan row, runs the loop, deletes the unstamped rows and writes the done record, which the progress file then shows, keeping the catalog valid |
| Scanner.InsertScan | src/loopsleuth/scanner.py:83-84 | the scan row gets the next AUTOINCREMENT id and records the folder |
| Scanner.DeleteUnstamped | src/loopsleuth/scanner.py:194-195 | removes exactly the rows not stamped with this scan, and their index entries |
| Scanner.ScanLoop | src/loopsleuth/scanner.py:99-192 | the loop's rows, counters and progress writes are those of `Scan`; pruning its result gives a valid catalog |
| Hasher.Candidates | src/loopsleuth/hasher.py:84-90 | each selected row has a thumbnail path and, unless forced, no hash yet, and comes from the listing |
| Hasher.CandidatesComplete | src/loopsleuth/hasher.py:84-90 | every row that meets the WHERE clause is selected |
| Hasher.CandidatesDistinct | src/loopsleuth/hasher.py:84-95 | no clip is selected twice |
| Hasher.Selected | src/loopsleuth/hasher.py:92-93 | `LIMIT n` applies only to a positive limit and keeps the first `min(n, rows)` rows in order |
| Hasher.Reached | src/loopsleuth/hasher.py:97-140 | the rows handled are a prefix of the selection, and all of it when nothing stops the loop |
| Hasher.Backfill | src/loopsleuth/hasher.py:97-140 | the loop never adds or removes rows |
| Hasher.Successes | src/loopsleuth/hasher.py:121 | the success count never exceeds the rows handled |
| Hasher.BackfillOnlyWritesHashes | src/loopsleuth/hasher.py:97-140 | only `phash` changes, and only to the hash computed for a selected row that stored successfully |
| Hasher.BackfillStores | src/loopsleuth/hasher.py:112-121 | a stored hash is the value the row ends with |
| Hasher.UnforcedKeepsExistingHashes | src/loopsleuth/hasher.py:89-90 | without force a clip that already has a hash is not touched |
| Hasher.RunStoresHashes | src/loopsleuth/hasher.py:84-140 | every handled row whose hash was stored ends with that hash |
| Hasher.HashRows | src/loopsleuth/hasher.py:97-140 | the loop's effect is `Backfill`; success counts the stored hashes and success + errors equals the rows handled |
| Hasher.BackfillKeepsRowsValid | src/loopsleuth/hasher.py:116-118 | the back-fill writes only `phash`, so the UNIQUE path index and the scan-id bound still hold |
| Hasher.BackfillSelected | src/loopsleuth/hasher.py:84-140 | select, limit and loop on an open connection: the catalog is backfilled from the selected rows and stays valid, and the two counts partition the rows reached |
| Hasher.ProcessHashes | src/loopsleuth/hasher.py:53-152 | connect, select, limit and loop: the schema is what `get_db_connection` leaves, the catalog is backfilled from the selected rows and stays valid, and the two counts partition them |
| Hamming.Nibble | retro_flag_duplicates.py:6 | four bits denote the digit's value |
| Hamming.Bits | retro_flag_duplicates.py:6-7 | `zfill(len*4)`: the bit string has exactly four bits per hex digit |
| Hamming.BinValueAppend | retro_flag_duplicates.py:6 | the value of a concatenation shifts the first part by the length of the second |
| Hamming.BitsDenoteValue | retro_flag_duplicates.py:6-7 | the padded bit string denotes the integer `int(h, 16)` |
| Hamming.BinValueInjective | retro_flag_duplicates.py:6-7 | two bit strings of equal length with the same value are equal |
| Hamming.DifferingBounded | retro_flag_duplicates.py:8 | `zip` stops at the shorter string, so at most that many positions differ |
| Hamming.DifferingSymmetric | retro_flag_duplicates.py:8 | counting differing positions is symmetric |
| Hamming.DifferingZero | retro_flag_duplicates.py:8 | equal-length bit strings differ nowhere iff they are equal |
| Hamming.SelfDistance | retro_flag_duplicates.py:5-8 | a hash is at distance 0 from itself |
| Hamming.DistanceSymmetric | retro_flag_duplicates.py:5-8 | the distance is symmetric |
| Hamming.DistanceBounded | retro_flag_duplicates.py:5-8 | the distance is at most four times the shorter hash's length |
| Hamming.DistanceZeroIffSameValue | retro_flag_duplicates.py:5-8 | equal-length hashes are at distance 0 iff they denote the same integer |
| Hamming.LowerKeepsValue | retro_flag_duplicates.py:6 | `int(h, 16)` ignores letter case |
| Hamming.CaseBlind | retro_flag_duplicates.py:5-8 | a hash and its lower-case form are at distance 0 |
| RetroFlag.Loaded | retro_flag_duplicates.py:19-20 | each loaded row is a listed clip with its non-null hash |
| RetroFlag.LoadedComplete | retro_flag_duplicates.py:19 | every clip with a hash is loaded |
| RetroFlag.LoadedDistinct | retro_flag_duplicates.py:19-20 | no clip is loaded twice |
| RetroFlag.Gather | retro_flag_duplicates.py:30-37 | the inner loop only appends to the anchor's group and keeps what it held |
| RetroFlag.GatherSound | retro_flag_duplicates.py:30-37 | every id the inner loop appends was not yet seen, lies within THRESHOLD of the anchor, and is appended once |
| RetroFlag.GatherMarks | retro_flag_duplicates.py:32-37 | the inner loop marks as seen exactly the ids it appends |
| RetroFlag.GatherComplete | retro_flag_duplicates.py:30-37 | the inner loop misses no row: every later row not yet seen and within THRESHOLD of the anchor joins the group |
| RetroFlag.Sweep | retro_flag_duplicates.py:26-40 | the outer loop only appends groups to those already recorded |
| RetroFlag.SweepSound | retro_flag_duplicates.py:26-40 | every group the outer loop records has two or more distinct members anchored at its first, and the groups stay pairwise disjoint |
| RetroFlag.GatheredGroup | retro_flag_duplicates.py:29-37 | a gathered group has distinct members, all unseen, all within THRESHOLD of its first member |
| RetroFlag.DisjointExtend | retro_flag_duplicates.py:38-40 | a group of unseen ids shares no id with the earlier groups |
| RetroFlag.NewGroupFits | retro_flag_duplicates.py:38-40 | keeping a group of size above one preserves well-formedness, disjointness and the seen set |
| RetroFlag.Groups | retro_flag_duplicates.py:24-40 | every group has at least two distinct members within THRESHOLD of its first, and no clip is in two groups (the converse is `GroupsComplete`) |
| RetroFlag.SweepStep | retro_flag_duplicates.py:26-40 | one step of the outer loop hands on groups and a seen set in which every seen id belongs to a recorded group |
| RetroFlag.GroupedStays | retro_flag_duplicates.py:38-40 | an id in a recorded group stays in a recorded group: groups are only appended |
| RetroFlag.SweepRecords | retro_flag_duplicates.py:29-40 | an unseen anchor whose gathered group has more than one member has that group recorded next |
| RetroFlag.GatheredPair | retro_flag_duplicates.py:29-40 | at the step of an unseen anchor, a later unseen row within THRESHOLD of it ends in the group recorded there |
| RetroFlag.SweepCompleteAt | retro_flag_duplicates.py:26-40 | at the anchor's step, the anchor or its near partner ends in a recorded group |
| RetroFlag.GroupedExtend | retro_flag_duplicates.py:36-40 | `seen` holds only ids of recorded groups: the inner loop marks only the ids it appends, and a group of one marks nothing |
| RetroFlag.SweepComplete | retro_flag_duplicates.py:26-40 | of two rows from the current one on within THRESHOLD of each other, at least one ends up in a group |
| RetroFlag.GroupsComplete | retro_flag_duplicates.py:24-40 | the grouping misses no pair: of two loaded rows within THRESHOLD of each other, at least one is in some group |
| RetroFlag.BuildGroups | retro_flag_duplicates.py:24-40 | the nested loops compute `Groups` |
| RetroFlag.Min | retro_flag_duplicates.py:50 | the canonical id is a member of the group and no larger than any other member |
| RetroFlag.MarkEffect | retro_flag_duplicates.py:51-57 | flagging one group marks every non-canonical member as needing review and pointing at the canonical id; nothing else changes |
| RetroFlag.MarkAllEffect | retro_flag_duplicates.py:49-57 | flagging all groups gives each clip the flags of the group that names it |
| RetroFlag.FlaggedCharacterised | retro_flag_duplicates.py:44-57 | after the reset and the flagging, a clip needs review iff it has a canonical clip, and duplicate_of is that canonical clip |
| RetroFlag.CanonOfDisjoint | retro_flag_duplicates.py:49-53 | with disjoint groups, a clip's canonical id is its group's minimum, or none for the minimum itself or a clip in no group; never itself |
| RetroFlag.GroupsOf | retro_flag_duplicates.py:19-40 | the groups of the catalog are non-empty and pairwise disjoint |
| RetroFlag.GroupsOfComplete | retro_flag_duplicates.py:19-40 | of two distinct hashed clips within THRESHOLD of each other, at least one is in a group of the catalog |
| RetroFlag.GroupsInCatalog | retro_flag_duplicates.py:19-40 | every group has at least two distinct hashed clips, each within THRESHOLD of the group's first |
| RetroFlag.PassFlags | retro_flag_duplicates.py:44-58 | only the two review columns change; a group minimum and an ungrouped clip are cleared; every other grouped clip points at its group minimum; nobody points at itself |
| RetroFlag.PassCoversNearPair | retro_flag_duplicates.py:19-58 | after a run, of two distinct hashed clips within THRESHOLD of each other, one is flagged or some flagged clip points at one of them |
| RetroFlag.LoadedSameHashes | retro_flag_duplicates.py:19 | the loaded rows depend only on the hashes |
| RetroFlag.PassIdempotent | retro_flag_duplicates.py:44-46 | the pass is idempotent: running it again on its own output changes nothing |
| RetroFlag.FlagGroups | retro_flag_duplicates.py:44-59 | the reset and the flagging loops leave the catalog as `Flagged` specifies |
| RetroFlag.FlagDuplicates | retro_flag_duplicates.py:13-59 | the whole pass returns the groups of the catalog, leaves it as `Pass` specifies, and keeps the catalog valid |
| TagParse.Split | src/loopsleuth/db_migrate_tags.py:27 | `str.split(",")` always yields at least one piece |
| TagParse.SplitNoComma | src/loopsleuth/db_migrate_tags.py:27 | no piece contains a comma |
| TagParse.JoinSplit | src/loopsleuth/db_migrate_tags.py:27 | joining the pieces with commas gives back the string |
| TagParse.SplitJoin | src/loopsleuth/db_migrate_tags.py:27 | splitting the join of comma-free pieces gives back the pieces |
| TagParse.StripLeftSpec | src/loopsleuth/db_migrate_tags.py:27 | drops exactly the leading whitespace |
| TagParse.StripRightSpec | src/loopsleuth/db_migrate_tags.py:27 | drops exactly the trailing whitespace |
| TagParse.Strip | src/loopsleuth/db_migrate_tags.py:27 | a stripped string neither starts nor ends with whitespace |
| TagParse.StripIsTrim | src/loopsleuth/db_migrate_tags.py:27 | `strip()` returns a contiguous part of the string with only whitespace cut on either side |
| TagParse.StripSub | src/loopsleuth/db_migrate_tags.py:27 | stripping introduces no character |
| TagParse.Keep | src/loopsleuth/db_migrate_tags.py:27 | the filter keeps only non-empty stripped pieces, which contain no comma and no edge whitespace |
| TagParse.ParseTags | src/loopsleuth/db_migrate_tags.py:26-27 | a NULL column gives no tags; every tag is a non-empty, comma-free, trimmed string |
| TagParse.NullIsEmpty | src/loopsleuth/db_migrate_tags.py:26 | `or ""`: a NULL column parses like an empty string, to no tags |
| TagParse.KeepComplete | src/loopsleuth/db_migrate_tags.py:27 | every piece that is non-empty after stripping becomes a tag |
| TagParse.KeepSound | src/loopsleuth/db_migrate_tags.py:27 | every tag is some stripped piece |
| TagMigration.TagRows | src/loopsleuth/db_migrate_tags.py:18-19 | each fetched row is a clip's id with its tags column |
| TagMigration.TagRowsComplete | src/loopsleuth/db_migrate_tags.py:18-19 | every listed clip is fetched, with its tags column |
| TagMigration.ClipToTags | src/loopsleuth/db_migrate_tags.py:23-30 | there is at most one tag list per fetched row |
| TagMigration.TagSetExact | src/loopsleuth/db_migrate_tags.py:22-29 | a name is in `tag_set` iff some row's tag list contains it |
| TagMigration.ClipToTagsIndex | src/loopsleuth/db_migrate_tags.py:28-30 | every row with at least one tag has an entry holding its id and its tags |
| TagMigration.ClipToTagsRow | src/loopsleuth/db_migrate_tags.py:28-30 | every entry of `clip_to_tags` is some row's id with that row's tags |
| TagMigration.ClipToTagsNamed | src/loopsleuth/db_migrate_tags.py:28-30 | every tag linked to a clip is in `tag_set` |
| TagMigration.Assign | src/loopsleuth/db_migrate_tags.py:36-47 | the AUTOINCREMENT counter never decreases |
| TagMigration.AssignKeys | src/loopsleuth/db_migrate_tags.py:36-47 | after step 3 a name has an id iff it had one before or is in `tag_set` |
| TagMigration.AssignFacts | src/loopsleuth/db_migrate_tags.py:37-44 | existing tags keep their ids; inserted tags get ids at or above the old counter; ids stay distinct and below the counter |
| TagMigration.AssignKnown | src/loopsleuth/db_migrate_tags.py:39-40 | when every name already has a row, step 3 inserts nothing |
| TagMigration.LinksComplete | src/loopsleuth/db_migrate_tags.py:52-63 | every (clip, tag) pair listed produces a link to the tag's id |
| TagMigration.LinksSound | src/loopsleuth/db_migrate_tags.py:52-63 | every link comes from a listed (clip, tag) pair |
| TagMigration.NamedAfterAssign | src/loopsleuth/db_migrate_tags.py:54-59 | after step 3 every tag in `clip_to_tags` has an id, so the lookup at line 59 always finds a row |
| TagMigration.AppliedLinksEveryTag | src/loopsleuth/db_migrate_tags.py:22-68 | after an applied migration every tag parsed from a clip's column is a tags row linked to that clip |
| TagMigration.CatalogLinksEveryTag | src/loopsleuth/db_migrate_tags.py:18-68 | over a listing of the whole catalog, an applied migration links every clip to each tag parsed from its column |
| TagMigration.AppliedLinksOnlyTags | src/loopsleuth/db_migrate_tags.py:22-68 | every new link joins a clip to a tag parsed from that clip's column |
| TagMigration.ApplyIdempotent | src/loopsleuth/db_migrate_tags.py:7-68 | a second applied migration, whatever its set order, changes nothing (`INSERT OR IGNORE` and the name lookup) |
| TagMigration.CollectTags | src/loopsleuth/db_migrate_tags.py:22-30 | the loops compute the tag set and the per-clip tag lists |
| TagMigration.AssignIds | src/loopsleuth/db_migrate_tags.py:35-49 | every name gets an entry. Dry run: no change, known ids or None. Applied: the ids `Assign` specifies, none missing |
| TagMigration.LinkAll | src/loopsleuth/db_migrate_tags.py:52-65 | dry run adds no link; applied adds exactly `Links`, falling back to the name lookup for a missing id |
| TagMigration.MigrateTags | src/loopsleuth/db_migrate_tags.py:7-72 | dry run changes nothing; applied leaves tags and links as `Applied` specifies; the catalog stays valid |
| Exporter.LexLeTotal | src/loopsleuth/exporter.py:38 | `ORDER BY path ASC` compares every two paths |
| Exporter.LexLeAntisymmetric | src/loopsleuth/exporter.py:38 | two paths ordered both ways are equal |
| Exporter.LexLeTransitive | src/loopsleuth/exporter.py:38 | the path order is transitive |
| Exporter.Insert | src/loopsleuth/exporter.py:38 | inserting adds exactly that path |
| Exporter.InsertSorted | src/loopsleuth/exporter.py:38 | inserting into a sorted list keeps it sorted |
| Exporter.Sort | src/loopsleuth/exporter.py:38 | sorting is a permutation |
| Exporter.SortSorted | src/loopsleuth/exporter.py:38 | the sorted list is in ascending order |
| Exporter.SortedUnique | src/loopsleuth/exporter.py:38 | two sorted permutations of the same paths are equal |
| Exporter.StarredPathsExact | src/loopsleuth/exporter.py:37-40 | a path is fetched iff some listed clip with that path is starred |
| Exporter.ExportedPathsSpec | src/loopsleuth/exporter.py:37-40 | the exported list is sorted and holds exactly the paths of starred clips |
| Exporter.StarredPathsDistinct | src/loopsleuth/exporter.py:37-40 | with unique paths no path is fetched twice |
| Exporter.DistinctOnce | src/loopsleuth/exporter.py:40 | a duplicate-free list holds each path at most once |
| Exporter.ExportIgnoresListingOrder | src/loopsleuth/exporter.py:37-40 | thanks to ORDER BY the export does not depend on the table's storage order |
| Exporter.RenderSnoc | src/loopsleuth/exporter.py:47-48 | writing one more path appends that path and a newline |
| Exporter.LineEnd | src/loopsleuth/exporter.py:46-48 | finds the first newline, or the end |
| Exporter.FirstLine | src/loopsleuth/exporter.py:48 | a newline-free path followed by a newline is one line |
| Exporter.LinesRender | src/loopsleuth/exporter.py:46-48 | reading the file back line by line gives the paths written, when no path contains a newline |
| Exporter.NewlineInPathSplits | src/loopsleuth/exporter.py:48 | a path containing a newline reads back as two lines |
| Exporter.Decimal | src/loopsleuth/exporter.py:50 | the count is written in decimal digits without a leading zero |
| Exporter.DecimalValue | src/loopsleuth/exporter.py:50 | the digits denote the count |
| Exporter.MessageCount | src/loopsleuth/exporter.py:50 | the success message starts `Exported ` followed by the count and a space |
| Exporter.ExportSucceeds | src/loopsleuth/exporter.py:34-50 | with no exception: success; the file lists the starred paths in order; the message counts the lines; with no starred clip the file is empty and the count is 0 |
| Exporter.ExportFails | src/loopsleuth/exporter.py:52-57 | the first exception raised decides the result: failure, with that exception's message |
| Exporter.WriteLines | src/loopsleuth/exporter.py:46-48 | the write loop produces one path and newline per path, in order |
| Exporter.ExportStarredClips | src/loopsleuth/exporter.py:19-60 | the returned flag, message and file contents are those `Export` specifies; the schema is what `get_db_connection` leaves, or unchanged when connecting raises |

## Left out

- Printing, logging, `tqdm` and the `__main__` blocks are not modelled.
- Terminal output is not modelled. This includes the dry-run "Would insert/link" lines of `migrate_tags`.
- The JSON encoding of the progress file is not modelled. The model keeps the sequence of records
  written, not their bytes.
- The directory walk (`rglob`, `is_file`, `resolve`) is an input list of entries with their
  resolved paths. Symbolic links and path normalisation are not modelled. So `Scanner.StoredThumbPath`
  takes the file name of the resolved thumbnail path where line 173 takes that of the unresolved one;
  the two differ only through a symbolic link.
- `Common.BaseName` is the text after the last `/`. `Path.name` of a path ending in `/` is the last
  non-empty component instead; the paths the model names (resolved paths and the export file) are
  taken not to end in `/`.
- ffprobe, the thumbnailer and `calculate_phash` (hasher.py:23-51) are oracles. Image decoding and
  the DCT hash are out of scope. `metadata.py` and `thumbnailer.py` are not part of this model.
- Schema.Database.PlanAlters compares column names case-sensitively, and so does db.py:98-105. SQLite
  column names are case-insensitive: on a clips table with a column `Width`, the ALTER of line 99 raises
  "duplicate column name" inside `get_db_connection`. The model (`PlanAlters`, `Schema.Database.AddClipsColumn`)
  appends a second column instead. That failure is not modelled.
- Durations are Dafny `real`s. Floating-point rounding is not modelled.
- `Path.cwd()` and the project root are parameters. The existence checks on thumbnails
  (hasher.py:103) are part of the `HashEnv` oracle.
- SQLite transactions and isolation are not modelled. `BEGIN`/`COMMIT`/`ROLLBACK` and the
  autocommit mode of the hasher are folded into the per-row outcome. A failed UPDATE leaves the
  row unchanged, which is what the rollback achieves.
- Connection and SELECT failures are modelled only where the result depends on them: the exporter's
  three exception classes, and the scanner's missing `scans` table or `clips.scan_id` column. Other connection failures of the
  scanner, hasher and migration scripts are not modelled.
- Timestamps (`scanned_at`, `modified_at`, `created_at`) are not modelled.
- `ON DELETE CASCADE` on `clip_tags` and `playlist_clips` is not modelled. The scanner's DELETE leaves
  `clipTags` unchanged.
- The `playlists` tables are declared by `Schema` but are never written.
- The fetch order of `cursor.fetchone()` over a table the loop is updating is not modelled. The
  model reads a snapshot of the selected rows.
- The iteration order of the Python set `tag_set` and of the tag lookups is an input sequence
  `names`. It must hold exactly the names in `tag_set`.
- `migrate_tags` on a database without a `tags` table is not modelled: there the SELECT of line 37 raises.
- RetroFlag.FlagDuplicates requires every stored hash to be hexadecimal. The `ValueError` that
  `int(h, 16)` raises on a malformed hash, and the `0x`/underscore forms Python accepts, are not
  modelled.
- Whitespace for `str.strip()` is the ASCII whitespace set plus the separators U+001C to U+001F.
  Other Unicode whitespace is not modelled.
- Letter case is ASCII only in `Common.Lower` and `Scanner.Suffix` matching.
- Exporter.LinesRender holds only when no exported path contains a newline. `Exporter.NewlineInPathSplits`
  shows that such a path reads back as two lines. Python's `splitlines` also breaks on other line
  separators; `Exporter.Lines` splits on `\n` only.
- A write that fails part-way leaves a partly written file. The model records no file on failure.
- The hasher's `stopAt` input models an interruption of the loop. The model does not say why the loop
  stopped, only which rows it reached.
