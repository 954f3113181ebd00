# NewsCraft in Dafny

A model of the parts of NewsCraft whose correctness rests on an argument rather than on a glance at the
code, and proofs of what those parts promise.

| Module | What it models |
| --- | --- |
| `Kappa` | the quadratically weighted kappa between two reviewers |
| `Retention` | the backup retention policy of `prune`, and the deletions it makes |
| `MemberPaths`, `NestedArchive`, `Inventory`, `Extraction`, `InventoryAlphabet` | member names, validation, inventory and extraction of the data-volume archives |
| `Runner`, `BackupRun`, `RestoreRun`, `Publish` | the command protocols of backup and restore, and the publication of an archive |
| `Calendar`, `OffsetSearch`, `ZonedTime` | local date-times of a time zone and their conversion to UTC |
| `Keyset`, `Articles`, `Stories` | keyset pagination of the article list, and the batched scan of the story list |
| `Coverage` | coverage of an article by stories, as row filter, facet count and badge |
| `Base64Url`, `Cursors`, `CursorCodec`, `EncodedWalk` | the opaque list cursors, and walks by them |
| `ExportChain`, `ExportMatrix` | idempotent rebuilding of expired exports, and the file layout of an export |
| `MediaDedupe` | the media and identity migration 0036 |
| `Wrappers`, `Decimals` | a value that may be missing; decimal texts |

How the model stands to the code:

- Code that changes state step by step is a class or a method with loops, proved against a function or a
  predicate on values; the theorems are about that function or predicate. Code made of expressions is
  functions.
- A command, a file operation or a step of another process may fail or act at any point: the outcome is an
  arbitrary function of the position in the run (`CommandRunner.oracle`, `ArchiveDirectory.fails` and
  `arrivals`). A run's events form a trace. A monitor (`Watch`) reads the trace and says whether each event was
  permitted when it happened; lemmas then say what a permitted trace is, without the monitor.
- Lemmas whose names end in `Plainly`, and those that begin with `Known`, say what a definition amounts to on the
  fields of the data, without the definitions of the model, or on given inputs.
- Moments, scores and sizes are unbounded integers; identifiers are natural numbers with their order. Hashes are
  taken to be injective where a statement says so. JSON, ISO 8601, UUID and UTF-8 texts are a codec with the laws
  the program relies on; `CursorCodec.CodecExists` and `InventoryAlphabet.HashesExist` show that these assumptions
  can be met.
- A database table is a map, set or sequence of rows; the jobs table is a map because the idempotency key is
  unique (backend/alembic/versions/0005_job_engine_and_scheduling.py:65). ORDER BY with a unique last column has
  one result, which `Keyset.ListingUnique` proves.

Where the code falls short of what one would expect, the code is kept and the exact condition is proved:

- `zonedLocalDateTimeToUtc` can return null for a local time that exists, in the first days of the year 100:
  `Date.UTC` reads years 0 to 99 as 1900 to 1999. `ZonedTime.ConversionIsComplete` gives the condition,
  `ZonedTime.Year100CanFail` an input. That at most two offsets occur near the target is sufficient; it cannot be
  relaxed to three for arbitrary offset functions (`ZonedTime.ThreeOffsetsCanMiss`).
- `formatDateTimeLocalValue` does not pad the year, so it gives the input back exactly from the year 1000 on
  (`ZonedTime.FormatGivesInputBack`).
- The inventory does not determine the archive when paths hold both NULs and newlines, which the validator
  accepts (`InventoryAlphabet.NulAndNewlineCollide`). Over an alphabet without one of the two it does
  (`InventoryAlphabet.InventoryDeterminesTreeExactly`).
- The comment on the coverage criteria (backend/app/api/articles.py:136-140) says that badges cannot disagree with
  totals. They can: SQL and Python count white space by different classes. `Coverage.BadgeDiffersExactly` says when
  they disagree, `Coverage.BadgeCanDisagree` gives a database, and `Coverage.BadgeAgreesOnCommonSpace` says for which
  texts they agree.
- Migration 0036 means to move every reference to a folded asset (backend/alembic/versions/0036_wave2a_ingest.py:43-46),
  but it moves none of the media ids inside platform revisions and export results, which the retention service counts
  as references (backend/app/retention/planning.py:77-103). `MediaDedupe.MentionsHoldExactly` says when they still
  lead to assets, and `MediaDedupe.RevisionCanDangle` gives data for which one does not.
- Migration 0036 aborts on the primary key of `item_media` exactly when `MediaDedupe.Twins` holds of the data;
  `MediaDedupe.MigrationCanAbort` shows such data.

`dafny verify dfyconfig.toml` checks the whole project.

## Model

| member | source | states |
|---|---|---|
| Kappa.TableIsAllPairs | backend/qualification/persian_generation.py:135-141 | the sum over the 5 x 5 table of counts is the sum over all n * n pairs of ratings, for all lists of scores 1 to 5 |
| Kappa.CauchySchwarz | backend/qualification/persian_generation.py:133-143 | n times the sum of squares is at least the square of the sum, for lists of any length |
| Kappa.DisagreementBound | backend/qualification/persian_generation.py:133-143 | n times the paired disagreement is at most twice the sum over all pairs: the inequality behind kappa >= -1 |
| Kappa.KappaAsFraction | backend/qualification/persian_generation.py:139-143 | with a nonzero expectation kappa is 1 - n * D / E, D the paired sum and E the table sum |
| Kappa.KappaInRange | backend/qualification/persian_generation.py:133-143 | -1 <= kappa <= 1 for all valid lists |
| Kappa.KappaOneIffIdentical | backend/qualification/persian_generation.py:133-143 | kappa is 1 exactly on identical, non-empty lists |
| Kappa.KappaSymmetric | backend/qualification/persian_generation.py:133-143 | exchanging the reviewers changes nothing |
| Kappa.ZeroExpectationMeansAgreement | backend/qualification/persian_generation.py:141-143 | a zero expectation forces identical lists, so the fallback 0.0 is unreachable on valid lists |
| Kappa.KnownKappa | backend/qualification/persian_generation.py:133-143 | valid scores are exactly 1 to 5; 1, 3 against 1, 5 gives 2/3; lists of different lengths and empty lists give 0 |
| Retention.KeepIsPathIndependent | scripts/backup_restore.py:433-447 | pruning V, then adding N and pruning, keeps what pruning V + N at once keeps, for any rules |
| Retention.KeepIsIdempotent | scripts/backup_restore.py:433-447 | pruning twice is pruning once |
| Retention.IncrementalEqualsOneShot | scripts/backup_restore.py:433-447 | a prune after each of any number of batches of new backups leaves what one final prune leaves |
| Retention.DirectoryRun | scripts/backup_restore.py:416-462 | prunes after every batch of new files, each unable to verify an arbitrary set of files, and an undisturbed one in the end leave exactly the files, unverifiable ones included, that the last prune alone would have left |
| Retention.SelectionForgets | scripts/backup_restore.py:439-447 | backups a rule did not select never influence what it selects later |
| Retention.SelectionIsDense | scripts/backup_restore.py:439-447 | whatever had `count` newer generations still has `count` newer generations among the selected |
| Retention.SelectionBound | scripts/backup_restore.py:439-447 | a rule selects at most `count` backups, one per generation |
| Retention.SelectGenerations | scripts/backup_restore.py:439-447 | the loop over the sorted list, with its break, selects exactly the newest of each of the `count` most recent generations |
| Retention.Retained | scripts/backup_restore.py:433-447 | the nested loops keep the newest backup and each rule's selection |
| Retention.BackupDirectory.Delete | scripts/backup_restore.py:450-454 | deletes exactly the doomed files, or stops at one whose digest changed, having deleted only unchanged doomed files |
| Retention.BackupDirectory.Prune | scripts/backup_restore.py:416-462 | refuses when nothing verified; otherwise reports the kept, doomed and invalid names, and deletes the doomed ones only if asked to and unchanged; for every file it deletes, a verified file with a larger creation moment, or the same moment and a larger name, is left; undisturbed it leaves the directory of the run above, whatever failed to verify this time |
| Retention.DoomedAreSpare | scripts/backup_restore.py:449-454 | a doomed file is a verified one, and a newer verified one is kept |
| Retention.SelectedPlainly | scripts/backup_restore.py:439-447 | a rule selects a backup exactly when no other of its generation has a larger (moment, name), and fewer than `count` generations have a backup with a larger one |
| Retention.EarlierOfGenerationNotSelected | scripts/backup_restore.py:439-447 | of two backups of one generation the one with the smaller (moment, name) is not selected |
| Retention.LatestIsKept | scripts/backup_restore.py:429-433 | the backup with the largest (moment, name) is kept, whatever the rules |
| Retention.DeletedHaveLater | scripts/backup_restore.py:416-462 | a file that is gone after a prune had verified, and a verified one with a larger (moment, name) is left |
| Retention.LatestSurvives | scripts/backup_restore.py:416-462 | of the files that verify the one with the largest (moment, name) is left by every prune |
| Retention.PolicyBound | scripts/backup_restore.py:433-438 | the policy of 7 days, 5 weeks and 12 months keeps at most 24 backups, the newest among them |
| Retention.PolicyKeeps | scripts/backup_restore.py:433-438 | a backup is kept exactly when it is the last of all, or the last of its day and of one of the 7 last days that have one, or likewise of the 5 last weeks or the 12 last months |
| MemberPaths.SplitParts | scripts/backup_restore.py:995-1002 | splitting at slashes gives slash-free parts that join to the name |
| MemberPaths.SplitOfJoin | scripts/backup_restore.py:1001-1002 | joining slash-free parts and splitting again gives the parts |
| MemberPaths.AcceptedIsClean | scripts/backup_restore.py:995-1002 | an accepted name has no empty, dot or dot-dot component |
| MemberPaths.AcceptedExactly | scripts/backup_restore.py:995-1002 | a name is accepted exactly when it does not begin with a slash and none of its parts is a double dot |
| MemberPaths.KnownPaths | scripts/backup_restore.py:995-1002 | "./a//b" is a/b, the empty name and "." are the root, "/absolute", ".." and "a/../b" are refused |
| MemberPaths.NormalizeTwice | scripts/backup_restore.py:995-1002 | a normalized path is accepted and normalizes to itself |
| MemberPaths.TextInjective | scripts/backup_restore.py:1001-1002 | different component lists have different normalized texts; no component list but the empty one is written as a dot |
| NestedArchive.DirectoryOnlyMeaning | scripts/backup_restore.py:1021 | the name test holds exactly when the name has several parts and the last is empty or a dot |
| NestedArchive.ReadMembers | scripts/backup_restore.py:1008-1026 | the first loop succeeds exactly if all members are acceptable, their paths distinct and the root no file; it then records each path's type |
| NestedArchive.FindBlocked | scripts/backup_restore.py:1030-1039 | the second loop finds a member below a non-directory exactly if there is one, at any depth |
| NestedArchive.ValidateNestedArchive | scripts/backup_restore.py:1005-1039 | the validator accepts exactly the well-formed archives |
| NestedArchive.WellFormedPlainly | scripts/backup_restore.py:1005-1039 | a well-formed archive, member by member: no name with a leading slash or a double dot, only regular files and directories, a directory where the name ends in a slash or a dot, every path once, the root listed as a directory, and nothing below a file |
| NestedArchive.OrderIsImmaterial | scripts/backup_restore.py:1005-1039 | a permutation of a well-formed archive is well formed and denotes the same files and directories |
| Decimals.DecimalRoundTrip | scripts/backup_restore.py:1080 | the decimal text of a number consists of digits and reads back as the number |
| Inventory.StreamIsUniquelyDecodable | scripts/backup_restore.py:1068-1081 | equal texts of records come from equal lists of records, also where paths contain newlines, if no path contains a NUL |
| Inventory.LinesAreUniquelyDecodable | scripts/backup_restore.py:1068-1081 | equal texts of records come from equal lists of records, also where paths contain NULs, if no path contains a newline |
| Inventory.SortSorts | scripts/backup_restore.py:1062 | sorting by normalized path gives an ascending permutation |
| MemberPaths.BelowPlainly | scripts/backup_restore.py:1062 | one text is before another exactly when it is a proper prefix of it or smaller at the first difference |
| Inventory.SortedRecords | scripts/backup_restore.py:1062-1080 | the records of the sorted members are ascending and are exactly the entries of the archive |
| Inventory.InventoryNestedArchive | scripts/backup_restore.py:1055-1087 | refuses what the validator refuses; otherwise counts entries, files and bytes, and hashes the text of the sorted records |
| Inventory.InventoryLists | scripts/backup_restore.py:1062-1080 | listed are exactly the members but the root: a directory by its path, a file by path, content length and digest |
| Inventory.InventoryCounts | scripts/backup_restore.py:1064-1086 | files and bytes count the regular members and the lengths of their contents, in any order |
| Inventory.KnownText | scripts/backup_restore.py:1068-1080 | the text hashed for a directory a and a twelve-byte file a/b |
| Inventory.TextDeterminesEntries | scripts/backup_restore.py:1055-1087 | equal texts mean equal sets of (kind, path, size, digest) for two archives without NULs or without newlines in paths, and equal sets mean equal records for all archives |
| Inventory.EntriesDetermineNodes | scripts/backup_restore.py:1066-1080 | the entries determine every path, its kind and its content |
| Inventory.InventoryDeterminesTree | scripts/backup_restore.py:1055-1087 | two archives without NULs, or without newlines, in paths have the same inventory exactly when they denote the same files and directories |
| InventoryAlphabet.NulAndNewlineCollide | scripts/backup_restore.py:1055-1087 | for all hashes there are two accepted archives with different contents and the same inventory, with NULs and newlines in their paths |
| InventoryAlphabet.InventoryDeterminesTreeExactly | scripts/backup_restore.py:1055-1087 | for paths over an alphabet that has the letters a, b, c and D, the inventory determines every accepted archive exactly when NUL or the newline is not in the alphabet |
| Inventory.InventoryIgnoresOrder | scripts/backup_restore.py:1055-1087 | reordering the members changes neither validity nor inventory |
| Extraction.ExtractionSucceeds | scripts/backup_restore.py:814-832 | unpacking a validated archive into an emptied volume succeeds at every member; the tree is what is listed, and directories where one is missing |
| Extraction.ExtractedPlainly | scripts/backup_restore.py:814-832 | the extracted tree has exactly the listed paths and the paths on the way to them; a file its content, all else a directory |
| Extraction.ExtractionIgnoresOrder | scripts/backup_restore.py:814-832 | any order of the members gives the same tree |
| Extraction.TreeCanBeArchived | scripts/backup_restore.py:248-255 | every tree of clean paths whose files have nothing below them is denoted by some well-formed archive |
| Extraction.ExtractedCanBeArchived | scripts/backup_restore.py:248-255 | what an archive extracts to is denoted by some well-formed archive |
| Extraction.RearchivingKeepsInventory | scripts/backup_restore.py:972-978 | an archive of the extracted tree has the original's inventory if, and without NULs or without newlines in paths only if, every directory on the way to an entry was listed |
| Extraction.RestoreIsStable | scripts/backup_restore.py:814-832 | unpacking what was archived from an unpacked tree gives that tree again |
| Publish.CarefulThroughout | scripts/backup_restore.py:872-899 | after any number of steps a file under the final name is the whole archive, or was there before, or was put there by another process; a file already there is never replaced or removed |
| Publish.ArchiveDirectory.Copy | scripts/backup_restore.py:877-883 | the chunked copy is complete when it reports success, and only ever shows in the temporary file; it reports failure only if a step failed |
| Publish.ArchiveDirectory.Attempt | scripts/backup_restore.py:877-888 | links the finished copy under the final name, unless that name exists; no step of its own puts anything else there |
| Publish.ArchiveDirectory.Retract | scripts/backup_restore.py:890-897 | takes back only this run's own file, and does so unless its step fails |
| Publish.ArchiveDirectory.PublishArchive | scripts/backup_restore.py:872-899 | with a failure at any step and files appearing at any time: in every state, also of a broken publication, what is under the final name is the whole archive or somebody else's; success means it is there, and an existing file is untouched; if no step fails and nobody takes the name, it succeeds; a broken one leaves its file only if the retraction failed too, and only a broken one leaves the temporary file |
| Publish.ArchiveDirectory.UndamagedPlainly | scripts/backup_restore.py:872-899 | in every state since the start all files that were there are there unchanged, and a file under the final name that is not the whole archive was brought there by another process |
| Runner.CommandRunner.AskFor | scripts/backup_restore.py:840-844 | an empty answer is an error, and nothing else but a refusal is |
| BackupRun.BackupWorkflow.Quiesce | scripts/backup_restore.py:216-231 | remembers exactly the running writers before stopping them; success means they are stopped and the database reports no session |
| BackupRun.BackupWorkflow.CaptureData | scripts/backup_restore.py:247-301 | success means dump, both volumes and the table inventory were captured, all while quiesced |
| BackupRun.BackupWorkflow.PackAndVerify | scripts/backup_restore.py:327-345 | success means the manifest was written, the archive packed and then verified |
| BackupRun.BackupWorkflow.EncryptAndVerify | scripts/backup_restore.py:347-357 | success means the archive was encrypted, decrypted again and verified |
| BackupRun.BackupWorkflow.Prepare | scripts/backup_restore.py:215-361 | every event is permitted and nothing is published; success means the pipeline is done and the stopped writers are started again |
| BackupRun.BackupWorkflow.TryBackup | scripts/backup_restore.py:215-363 | every event is permitted; a stop is remembered; without publication the directory is unchanged; with it no partial archive is ever visible; success means the archive is published whole |
| BackupRun.BackupWorkflow.Backup | scripts/backup_restore.py:188-386 | for every pattern of failures: a stop is answered by a start, the staging directory is gone, no partial archive is ever visible under the final name, and an unusable input or an existing archive name issues no command at all; success means the manifest was written and the archive packed, verified, encrypted, decrypted and the decrypted one verified, in this order; without success there was a bad answer, an unusable input or a disturbed directory |
| BackupRun.WatchMeaning | scripts/backup_restore.py:215-386 | what the monitor knows after a prefix of a permitted trace had happened in that prefix |
| BackupRun.CaptureIsQuiesced | scripts/backup_restore.py:226-301 | in a permitted trace data is captured only after exactly the running writers were stopped, the database idle since that stop, and before any start |
| BackupRun.CapturePlainly | scripts/backup_restore.py:226-301 | when data is captured each of api, source worker, publishing worker and scheduler that was listed as running was stopped, the frontend was not, the database then reported no session, and nothing was started |
| BackupRun.PackedIsEverything | scripts/backup_restore.py:247-339 | nothing is packed before each of the four kinds of data was captured |
| BackupRun.ManifestIsInformed | scripts/backup_restore.py:215-329 | the manifest is written only after the git revision, the image build, the image ids, both versions and both schema revisions were answered |
| BackupRun.PublicationIsGuarded | scripts/backup_restore.py:331-362 | publication comes only after accepted WriteManifest, PackArchive, VerifyPlaintext, Encrypt, Decrypt and VerifyDecrypted, in this order, and after the stopped writers were started again |
| BackupRun.PublishedPlainly | scripts/backup_restore.py:327-362 | a trace with a publication has the six accepted commands in this order |
| BackupRun.ResumedPlainly | scripts/backup_restore.py:359-362 | each service that was stopped was started again, with success, after the stop and before the publication |
| BackupRun.BadPlainly | scripts/backup_restore.py:656-700 | what a backup may give up for: a refusal, an empty answer, or sessions that remain |
| BackupRun.StopIsAnswered | scripts/backup_restore.py:229-381 | an issued stop, accepted or not, is followed by a start of exactly the same services |
| RestoreRun.RestoreWorkflow.CheckCompatibility | scripts/backup_restore.py:751-790 | success means server and, for current archives, restore client have the backup's major versions; failure means a bad answer or an answered version that differs |
| RestoreRun.RestoreWorkflow.VerifyFirst | scripts/backup_restore.py:521-531 | before anything else the archive is decrypted, if it is encrypted, and verified; success means both were accepted |
| RestoreRun.RestoreWorkflow.CheckArchive | scripts/backup_restore.py:519-546 | success means verified, compatible and listed; nothing was stopped or changed |
| RestoreRun.RestoreWorkflow.ReplaceData | scripts/backup_restore.py:545-622 | the new events are the steps from stop to start in order, all accepted, or an accepted part of them and one refusal |
| RestoreRun.RestoreWorkflow.StopEach | scripts/backup_restore.py:803-812 | one stop for each runtime service; true exactly if all were accepted |
| RestoreRun.RestoreWorkflow.Contain | scripts/backup_restore.py:792-812 | one stop for all, or if that is refused one for each; true means that the last lifecycle command of every runtime service was an accepted stop |
| RestoreRun.RestoreWorkflow.Restore | scripts/backup_restore.py:505-639 | for every pattern of failures: nothing without confirmation, no stop before the checks passed, all steps in order on success, and containment right after any failure from the stop on; a confirmed restore with its identity fails before the stop only for a bad answer or a differing version |
| RestoreRun.RestoredPlainly | scripts/backup_restore.py:548-621 | a restore that succeeded ended in the accepted commands stop, drop, create, load, replace media, replace exports, migrate and, unless told not to, start, of all five services |
| RestoreRun.HaltedPlainly | scripts/backup_restore.py:548-626 | a failure from the stop on is that of the step after the accepted ones |
| RestoreRun.SinglesStop | scripts/backup_restore.py:803-812 | accepted single stops leave each of the services with an accepted stop as its last lifecycle command |
| RestoreRun.StoppedPlainly | scripts/backup_restore.py:792-812 | a service counts as stopped exactly when an accepted stop named it and no later stop or start did |
| RestoreRun.ContainedPlainly | scripts/backup_restore.py:27-33 | a contained failure leaves each of the five services stopped |
| RestoreRun.WatchMeaning | scripts/backup_restore.py:519-622 | what the monitor knows after a prefix of a trace had happened in that prefix |
| RestoreRun.DestructionIsGuarded | scripts/backup_restore.py:519-622 | in a permitted trace no data is replaced before verification, both version answers, the dump listing and an accepted stop of all services |
| RestoreRun.DestructionPlainly | scripts/backup_restore.py:548-621 | dropping, creating, loading, replacing either volume and migrating all come after the checks and an accepted stop of the five services |
| RestoreRun.CheckedPlainly | scripts/backup_restore.py:519-546 | the checks: the archive verified, the dump listed, the server's answer of the backup's major version, and for a current archive the client's too |
| RestoreRun.BadPlainly | scripts/backup_restore.py:840-844 | what a restore may give up for: a refusal or an empty answer |
| RestoreRun.MismatchPlainly | scripts/backup_restore.py:769-790 | or an answered version whose major is missing or not the backup's |
| RestoreRun.StopIsGuarded | scripts/backup_restore.py:519-549 | nothing is stopped before verification, the version answers and the dump listing |
| Calendar.ReadingIsExact | frontend/lib/date-time.ts:111-120 | the fields read from an instant are a real date and time, and name that instant |
| Calendar.SecondsInjective | frontend/lib/date-time.ts:152-154 | different real date-times are different instants |
| Calendar.ReadBack | frontend/lib/date-time.ts:111-120 | the fields read from a real date-time's instant are that date-time |
| Calendar.KnownInstants | frontend/lib/date-time.ts:152-154 | the epoch, the leap day of 2000, the first of March 1900 and 2100, a two-digit year and a month that overflows, in seconds |
| OffsetSearch.PreimageReached | frontend/lib/date-time.ts:72-80 | with two offsets near the target one of the first two corrections is a solution if there is one |
| OffsetSearch.NoPreimageNoMatch | frontend/lib/date-time.ts:74-83 | without a solution no number of attempts ends on a match |
| OffsetSearch.EarlyReadingFails | frontend/lib/date-time.ts:74-83 | a reading before the year 100 throws the search out of reach |
| OffsetSearch.SearchSucceedsExactly | frontend/lib/date-time.ts:72-83 | from two attempts on, the search succeeds exactly if a solution exists and the first two readings stay in year 100 or later, and ends on the first correction that is a solution |
| ZonedTime.ZonedLocalDateTimeToUtc | frontend/lib/date-time.ts:68-85 | the loop, with its break, computes the specified conversion |
| ZonedTime.ParserAcceptsRealDates | frontend/lib/date-time.ts:100-121 | digit fields are accepted exactly when they name a real date and time of year 100 or later |
| ZonedTime.ParsedPlainly | frontend/lib/date-time.ts:100-110 | a parsed text is yyyy-mm-ddThh:mm or yyyy-mm-ddThh:mm:ss; each field is the number its digits spell, and missing seconds are 0 |
| ZonedTime.ConversionIsSound | frontend/lib/date-time.ts:82-84 | for every offset function a converted instant displays exactly the requested local time |
| ZonedTime.ZoneIsClock | frontend/lib/date-time.ts:123-163 | how displayed fields, read as UTC, relate to instant and offset, era by era |
| ZonedTime.ConversionIsComplete | frontend/lib/date-time.ts:68-85 | with at most two offsets within a day of the target, conversion succeeds exactly when the local time exists and the first two readings stay in year 100 or later; the result is the first correction if that is a solution, else the second |
| ZonedTime.ConversionFromYear101 | frontend/lib/date-time.ts:68-85 | from year 101 on, null means exactly that the local time does not exist |
| ZonedTime.ConversionPlainly | frontend/lib/date-time.ts:68-85 | with offsets of at most a day, at most two of them within a day of the target, a time from year 101 on is converted exactly when some instant shows it, to one that does |
| ZonedTime.KnownConversion | frontend/lib/date-time.ts:68-93 | 2000-02-29T12:34:56 one hour ahead of UTC is 951824096, which is formatted as 2000-02-29T12:34; an unknown zone gives nothing |
| ZonedTime.Year100CanFail | frontend/lib/date-time.ts:68-85 | one hour behind UTC, 0100-01-01T00:30 exists and is refused |
| ZonedTime.ThreeOffsetsCanMiss | frontend/lib/date-time.ts:74-83 | for every accepted local time from year 101 on there is an offset function with three offsets near it, hours apart, for which it exists and is missed |
| ZonedTime.FourAttempts | frontend/lib/date-time.ts:74-83 | for every accepted local time from year 101 on there is a zone whose four one-hour steps the four corrections climb, and one with five steps in which the time exists and is missed |
| ZonedTime.FormatGivesInputBack | frontend/lib/date-time.ts:87-93 | formatting a converted minute-precision input gives it back exactly if the year is at least 1000 |
| ZonedTime.FormatGivesMinutesBack | frontend/lib/date-time.ts:87-93 | an input with seconds comes back without them exactly if the year is at least 1000 |
| Keyset.ListingUnique | backend/app/api/articles.py:369-402 | rows have only one order under ORDER BY |
| Keyset.AfterIsSuffix | backend/app/api/articles.py:369-402 | the rows after the n-th row of a listing are the rest of the listing |
| Keyset.PageFacts | backend/app/api/articles.py:868-893 | a page is sorted, lies after its cursor, and skips nothing before its next cursor |
| Keyset.WalkSorted | backend/app/api/articles.py:868-893 | over a whole walk no key comes twice, whatever happens to the store between pages |
| Keyset.WalkComplete | backend/app/api/articles.py:868-893 | a finished walk lists every key that was there at every request |
| Keyset.WalkSound | backend/app/api/articles.py:868-893 | every listed key was in the store at one of the requests |
| Keyset.FixedStoreWalk | backend/app/api/articles.py:868-893 | on a fixed store a walk with enough requests finishes and is the whole listing |
| Keyset.StableKeyOnce | backend/app/api/articles.py:868-893 | a key that is there at every request, and the only one with its identifier, is listed exactly once by a finished walk |
| Articles.CursorClauseIsOrder | backend/app/api/articles.py:369-402 | the hand-written WHERE clause of each sort selects exactly the rows that sort after the cursor |
| Articles.SelectedIsAfter | backend/app/api/articles.py:351-402 | the selected rows are the matching rows after the cursor |
| Articles.RequestIsPage | backend/app/api/articles.py:868-893 | one request is one page of the filtered, sorted feed, and its next cursor fits the sort |
| Articles.PageRows | backend/app/api/articles.py:351-402 | every row of a page is an item of the store that is not cleared and passes the filter |
| Articles.PageMissesNothing | backend/app/api/articles.py:351-402 | every item not cleared that passes the filter and lies after the cursor is on the page or after its last row |
| Articles.PageOrderPlainly | backend/app/api/articles.py:369-402 | rows are ordered by score if asked, then by publication time or else ingestion time, then by id, all descending |
| Articles.NextPlainly | backend/app/api/articles.py:868-893 | the next cursor names the last row of a full page; a cursor of the other sort is refused |
| Articles.WalkIsFollow | backend/app/api/articles.py:868-893 | following next cursors is a keyset walk over the stores as they are at each request |
| Articles.StableItemReturnedOnce | backend/app/api/articles.py:369-402 | with arbitrary insertions, deletions, edits and feed clears between pages, an item that always matches with the same key is returned exactly once, in both sorts |
| Articles.WalkPlainly | backend/app/api/articles.py:351-402 | with arbitrary changes between pages, every listed item was in the store of some request, not cleared, and passed the filter |
| Articles.FixedFeedWalk | backend/app/api/articles.py:868-893 | on a fixed feed the pages together are the filtered list, in order |
| Articles.CountIsListLength | backend/app/api/articles.py:366-367 | result_count is the length of that list |
| Articles.ResultCountPlainly | backend/app/api/articles.py:351-367 | result_count is the number of items that are not cleared and pass the filter |
| Stories.ScanBatch | backend/app/api/stories.py:178-183 | one batch appends exactly its matching stories, up to limit + 1 |
| Stories.ReadBatch | backend/app/api/stories.py:163-187 | one round of the outer loop ends the request with its page, or goes on after the last row read |
| Stories.ListStories | backend/app/api/stories.py:152-192 | the scan reads batch after batch, each from the database as it is then, until a batch ends the request |
| Stories.RequestIsPage | backend/app/api/stories.py:159-192 | on a database that does not change a request ends, and its page is the keyset page of the filtered listing, whatever the batch boundaries |
| Stories.RequestFacts | backend/app/api/stories.py:159-192 | with the database changing between batches a page is sorted, lies after its cursor and ends at its next cursor |
| Stories.RequestKeeps | backend/app/api/stories.py:159-192 | with the database changing between batches, a story wanted at every batch is on the page or after its next cursor |
| Stories.PagePlainly | backend/app/api/stories.py:159-192 | every row of a page was, in the store of some batch, a story that the WHERE clause selects and that has the requested completeness, at its update time |
| Stories.FilteredIsListing | backend/app/api/stories.py:159-192 | filtering a listing gives the listing of the filtered rows |
| Stories.PageMeaning | backend/app/api/stories.py:188-192 | the page is the first `limit` matching stories after the cursor, and a next cursor is given exactly when another match exists |
| Stories.StoryWalk | backend/app/api/stories.py:159-192 | on a fixed store, following the cursors enumerates every matching story once, in order |
| Stories.StableStoryReturnedOnce | backend/app/api/stories.py:159-192 | with arbitrary changes between pages and between the batches of one page, a story that always matches and is not updated is returned exactly once |
| Stories.WalkPlainly | backend/app/api/stories.py:159-192 | the same for every row of a walk |
| Stories.WalkOrderPlainly | backend/app/api/stories.py:159-192 | the rows of a walk come with later updates first, then larger ids |
| Stories.FixedWalkIsListing | backend/app/api/stories.py:159-192 | on a fixed store a finished walk is the whole filtered listing |
| Coverage.JoinIsLookup | backend/app/api/articles.py:187-224 | an outer join with a grouped table neither drops nor repeats rows |
| Coverage.JoinedRowsState | backend/app/api/articles.py:148-224 | every row of the facet query carries the state the row-level EXISTS expression gives its item |
| Coverage.FacetIsResultCount | backend/app/api/articles.py:187-224 | each facet count is the result_count of a listing filtered by that coverage alone, for every database |
| Coverage.CountsPartitionFeed | backend/app/api/articles.py:314-318 | the three counts sum to the active feed size |
| Coverage.CoveragePlainly | backend/app/api/articles.py:101-185 | complete: a story not superseded links the item and has 2 sources, 800 characters and a primary; ungrouped: none links it |
| Coverage.ResultCountPlainly | backend/app/api/articles.py:351-367 | the count is the number of items not cleared with a wanted state, the feed that of the items not cleared |
| Coverage.CountedPlainly | backend/app/api/articles.py:107-116 | the number of positions of characters outside the class |
| Coverage.BodySumSnoc | backend/app/api/articles.py:107-116 | a snapshot adds its characters outside the class to its own story, and to no other |
| Coverage.CountCharacters | backend/app/research/completeness.py:122 | the loop over a text counts the characters outside Python's white space |
| Coverage.EvaluateCompleteness | backend/app/research/completeness.py:113-147 | the loops over the evidence count its distinct sources, its characters and find a primary; each reason is given exactly when its threshold, 2 sources, 800 characters, a primary or no contradiction, is missed |
| Coverage.StoryAssociations | backend/app/api/articles.py:550-580 | the loop with its set of seen pairs lists every active story linked to the article, each once |
| Coverage.Badge | backend/app/api/articles.py:583-598 | the badge is complete exactly if a linked active story's evidence is, ungrouped exactly if no active story is linked |
| Coverage.BadgePlainly | backend/app/api/articles.py:583-598 | complete: a linked story not superseded has 2 sources, 800 characters that Python counts and a primary; ungrouped: none links the item |
| Coverage.CompletenessCompared | backend/app/api/articles.py:101-146 | for every database whose white space is part of Python's, Python calls exactly those stories complete that meet the SQL row and are not borderline: enough characters for SQL and too few for Python |
| Coverage.BadgeDiffersExactly | backend/app/api/articles.py:583-598 | badge and filter differ exactly when a borderline story is linked and no story complete for Python; then the filter says complete and the badge incomplete |
| Coverage.BadgeAgreesOnCommonSpace | backend/app/api/articles.py:136-146 | on texts whose white space both know, the badge of an article is the state its filter and facet see |
| Coverage.BadgeCanDisagree | backend/app/api/articles.py:107-116 | wherever the database does not take the no-break space for white space, 799 letters and one such space make the filter say complete and the badge incomplete |
| Coverage.SpacesCompared | backend/app/research/completeness.py:122 | Python's white space beyond that of the C library: the separators 1C to 1F, next line, and the no-break spaces A0, 2007 and 202F |
| Base64Url.StrictReadsEncoded | backend/app/api/article_query_helpers.py:65-67 | the validating decoder reads every encoding |
| Base64Url.StrictAcceptsExactly | backend/app/api/article_query_helpers.py:65-67 | the validating decoder accepts exactly multiples of four characters, all in the alphabet but for one or two equal signs at the end |
| Base64Url.LenientReadsEncoded | backend/app/api/stories.py:72-78 | the lenient decoder reads every encoding |
| Base64Url.PaddingRestored | backend/app/api/article_query_helpers.py:57-66 | stripping and restoring the padding is lossless for every length residue |
| Base64Url.CursorRoundTrip | backend/app/api/article_query_helpers.py:46-67 | every byte string survives an unpadded cursor, in both decoders |
| Base64Url.KnownEncodings | backend/app/api/article_query_helpers.py:57-66 | the test vectors of section 10 of RFC 4648, and the symbols for 62 and 63 of its section 5 |
| Base64Url.KnownLenient | backend/app/api/stories.py:72-78 | the lenient decoder skips foreign characters, stops at a full padding and refuses one that is not |
| Cursors.ArticleCursorRoundTrip | backend/app/api/article_query_helpers.py:46-87 | decoding an encoded cursor under its own sort and filter key gives the row's key tuple |
| Cursors.DecodedPlainly | backend/app/api/article_query_helpers.py:60-87 | a text is accepted exactly when it holds these keys and no others: version 2, the name of the sort, the filter key, a moment, an identifier and, by score, an integer; they are what it gives |
| Cursors.CursorBelongsToOneListing | backend/app/api/article_query_helpers.py:60-87 | no string at all is accepted for two different sorts or filter keys |
| Cursors.ForeignCursorRejected | backend/app/api/article_query_helpers.py:32-87 | a cursor made for one sort and filter set is rejected by every other |
| Cursors.SplitFindsBar | backend/app/api/stories.py:72-78 | the split at the last bar separates timestamp and identifier |
| Cursors.StoryCursorRoundTrip | backend/app/api/stories.py:67-78 | decoding an encoded story cursor gives the story's key |
| Cursors.StoryDecodedPlainly | backend/app/api/stories.py:72-78 | a story cursor is read exactly when a moment stands before its last bar and an identifier after it |
| CursorCodec.CodecExists | backend/app/api/article_query_helpers.py:46-87 | the laws assumed of the codec can be met: integers and texts in fields, moments, identifiers and texts read back |
| EncodedWalk.TextWalkIsWalk | backend/app/api/articles.py:866-893 | a walk that hands back the opaque cursors is the walk over their key tuples |
| EncodedWalk.RejectedExactly | backend/app/api/articles.py:437-443 | a request is rejected exactly when its text is no cursor of that sort and filter |
| EncodedWalk.WalkByTextPlainly | backend/app/api/articles.py:866-893 | every item collected by a walk with opaque cursors was, at some request, not cleared and passed the filter |
| EncodedWalk.StableItemReturnedOnceByText | backend/app/api/articles.py:866-893 | whatever changes between the pages, an item that always matches with the same key is returned exactly once by a walk that hands back the opaque cursors |
| ExportChain.ExportQueue.EnqueueExportJob | backend/app/api/exports.py:226-271 | the loop returns the live job, inserts one job if the capability gate lets it pass, or refuses; the rebuild event names predecessor and generation |
| ExportChain.FindIsEnd | backend/app/api/exports.py:226-296 | the loop ends where the chain of expired jobs ends |
| ExportChain.EnqueuedByEnd | backend/app/api/exports.py:226-271 | what enqueueing does is decided by the end of the chain |
| ExportChain.ChainAcyclic | backend/app/api/exports.py:210-223 | the chain never meets a key twice |
| ExportChain.InvariantKept | backend/app/api/exports.py:210-296 | every enqueue, progress and expiry step keeps the invariant |
| ExportChain.InvariantOverRuns | backend/app/api/exports.py:210-296 | the invariant holds in every state of every run |
| ExportChain.OneChainPerPayload | backend/app/api/exports.py:210-296 | in every run the jobs of a payload are one acyclic chain of at most 33, with at most one job that is not expired |
| ExportChain.EnqueueOutcome | backend/app/jobs/repository.py:396-403 | the live job if there is one, a conflict when 33 are expired or the capability gate is closed, a new job otherwise |
| ExportChain.EnqueuedPlainly | backend/app/api/exports.py:226-271 | a request stores a queued job of that payload under an unused key, or returns a job of that payload whose artifact has not expired, or changes nothing |
| ExportChain.PreviousPlainly | backend/app/api/exports.py:238-266 | a rebuild names the succeeded job of that payload whose expired artifact its key was made from; a first build names none |
| ExportChain.GenerationIsLength | backend/app/api/exports.py:238-266 | the generation of a rebuild is the number of expired jobs before it |
| ExportChain.RepeatedEnqueue | backend/app/api/exports.py:226-271 | whatever happens in between short of an expiry of that payload, a repeated request returns the same job and creates none |
| ExportMatrix.ValidateManifestFileOrder | backend/app/api/exports.py:316-337 | reports the first faulty file, else whether the (variant, kind) order is ascending |
| ExportMatrix.ValidatePublicFileMatrix | backend/app/api/exports.py:340-352 | runs the checks in order and reports the first fault |
| ExportMatrix.SortedDetermined | backend/app/api/exports.py:316-352 | a list in (variant, kind) order is determined by its files of each variant and kind |
| ExportMatrix.AcceptsExactlyCanonical | backend/app/api/exports.py:299-352 | with distinct variants, accepted are exactly the lists that are, variant by variant, the expected json, markdown and html files and then that variant's media |
| ExportMatrix.AcceptedIsCanonical | backend/app/api/exports.py:299-352 | the layout of an accepted list has as media the list's own media files, variant by variant |
| ExportMatrix.CanonicalIsAccepted | backend/app/api/exports.py:299-352 | every canonical layout passes all checks |
| ExportMatrix.ContentPlainly | backend/app/api/exports.py:299-313 | the content files of an accepted list are exactly platform/revision/content.json, .md and .html of its variants, for the requested formats |
| ExportMatrix.MediaPlainly | backend/app/api/exports.py:327-352 | its media files were asked for and are platform/revision/media-asset.*; an archive is there exactly when a zip was asked for |
| ExportMatrix.OrderPlainly | backend/app/api/exports.py:316-337 | its files come variant by variant, within one as json, markdown, html, media |
| MediaDedupe.WeakIdentitiesUnique | backend/alembic/versions/0036_wave2a_ingest.py:19-42 | after the first delete the unique index can be built, and only ranked rows are gone |
| MediaDedupe.NewestIdentityKept | backend/alembic/versions/0036_wave2a_ingest.py:19-34 | every weak identity keeps its newest row |
| MediaDedupe.IdentityPlainly | backend/alembic/versions/0036_wave2a_ingest.py:19-34 | deleted is exactly a weak row of a source that another row of the same source, type and hash, created later or else with a larger id, repeats |
| MediaDedupe.KeeperFacts | backend/alembic/versions/0036_wave2a_ingest.py:47-63 | copies of one URL share one keeper, which is kept and is a downloaded copy if any is |
| MediaDedupe.NewsDatabase.MoveReferences | backend/alembic/versions/0036_wave2a_ingest.py:64-78 | the row-by-row update violates the primary key exactly when twins exist, in any row order |
| MediaDedupe.NewsDatabase.Upgrade | backend/alembic/versions/0036_wave2a_ingest.py:19-107 | aborts exactly when twins exist, leaving everything as it was; otherwise reaches the specified state; revisions and export results are never touched |
| MediaDedupe.MigrationCanAbort | backend/alembic/versions/0001_initial_ingestion_schema.py:232-243 | three copies of a picture, two of them on one item, make it abort |
| MediaDedupe.AssetsFolded | backend/alembic/versions/0036_wave2a_ingest.py:94-107 | live URL hashes are unique afterwards, and every keeper is still live |
| MediaDedupe.TriplesPreserved | backend/alembic/versions/0036_wave2a_ingest.py:64-100 | no row of item_media is left dangling and the set of (item, URL hash, role) is unchanged |
| MediaDedupe.RemovedExactly | backend/alembic/versions/0036_wave2a_ingest.py:47-100 | an asset is removed exactly when it is live and a live copy of its URL is preferred to it |
| MediaDedupe.RemovedPlainly | backend/alembic/versions/0036_wave2a_ingest.py:47-100 | removed is exactly a live asset with a live copy of its URL that is downloaded where it is not, or else updated later, or else of a larger id |
| MediaDedupe.KeeperPlainly | backend/alembic/versions/0036_wave2a_ingest.py:47-63 | an asset is folded onto the live copy of its URL that comes before all others in that order |
| MediaDedupe.RefsPlainly | backend/alembic/versions/0036_wave2a_ingest.py:64-85 | references to assets that stay are unchanged, those to duplicates lead to what these are folded onto, and there are no others |
| MediaDedupe.MentionsHoldExactly | backend/alembic/versions/0036_wave2a_ingest.py:43-100 | after a completed migration every media id in a revision or export result leads to an asset exactly when every one did before and none names an asset with a preferred live copy |
| MediaDedupe.RevisionCanDangle | backend/app/exports/service.py:556-559 | with two downloaded copies of one picture the migration completes and a revision that names the older one names no asset any more |
| MediaDedupe.ImagesPreserved | backend/alembic/versions/0036_wave2a_ingest.py:86-93 | every primary image keeps its URL hash and points to a remaining asset, unless it dangled before |

## Left out

- NestedArchive.ValidateNestedArchive: says whether the archive is accepted, not which message a refused one gets.
- NestedArchive.FindBlocked: walks the member list instead of the dictionary built from it; the two hold the same names in the same order.
- Inventory.InventoryNestedArchive: names are texts; a name with undecodable bytes passes the validator in the program and then cannot be encoded as UTF-8 (scripts/backup_restore.py:1081), which these texts cannot express.
- Extraction.ExtractionSucceeds: models unpacking as a function on trees; tar is an external program, and modes, owners and times are not part of it. Paths with NULs, and components longer than the file system allows, pass the validator and cannot be unpacked.
- RestoreRun.RestoreWorkflow.Restore: a failure is a refused command; an interrupt between two commands is not modelled.
- BackupRun.BackupWorkflow.Backup: likewise, and what the commands write is named, not modelled; the encrypted archive is the content given to the publication.
- Publish.ArchiveDirectory.PublishArchive: durability across a crash (fsync) is not modelled; a sync is a step that may fail.
- Retention.BackupDirectory.Prune: names are ranks, a report is a set of names, and the check of each archive is given by its result; the generations are arbitrary functions of the creation moment.
- Stories.ListStories: the rows of a batch and their completeness are read from one state of the database.
- Coverage.StoryAssociations: for one article, without the dictionaries and without the order by update time.
- Coverage.CompletenessCompared: takes the source identity of a snapshot as given, and a missing text as empty; what the regular expression matches is a parameter, contained in Python's white space.
- Coverage.EvaluateCompleteness: without the score.
- Cursors.ArticleCursorRoundTrip: JSON, ISO 8601, UUID and UTF-8 are a codec with round-trip laws; the time zone check of the decoded moment is part of it. A decoded identifier that is a number, a truth value or a structure makes the program fail with an error it does not turn into a refusal; here it is refused.
- Cursors.ForeignCursorRejected: takes the fingerprint of filters to be injective; its JSON text is not modelled.
- ZonedTime.ConversionIsComplete: whole seconds, offsets of at most a day, and dates before the common era displayed with the year 1 - y; the ISO text of the result is not modelled.
- Kappa.KappaInRange: exact arithmetic; rounding of floating point is not modelled.
- ExportChain.ExportQueue.EnqueueExportJob: the event of a rebuild leaves out the moment of expiry, which is part of the new key.
- ExportChain.RepeatedEnqueue: job leasing and workers appear only as steps that change a job that is not expired; rows are never deleted. Retention expires only complete artifacts (backend/app/retention/database.py:448-460).
- ExportMatrix.AcceptsExactlyCanonical: requires distinct variants, which the schema of the payload demands (backend/app/exports/models.py:195-208); file names are path components, and exactly the media files name a media asset (backend/app/exports/models.py:78-82).
- MediaDedupe.MentionsHoldExactly: a document is the set of media ids found in it.
- MediaDedupe.TriplesPreserved: the other columns of item_media are not part of a row.
- Docker, age, gzip and tar bytes, subprocesses, argument parsing, `verify` and `status`, and the field checks of the manifest.
- FastAPI routes, pydantic schemas, SQLAlchemy and HTTP error mapping; search ranking, classification facets, and the export list cursor, which has the form of the story cursor.
- Job engine, workflow compiler, publishing, research loop, subscriptions, and the React interface.
- Evaluation metrics other than kappa, and the other migrations.
