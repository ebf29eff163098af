# Android app repositories into a graph: a Dafny model of the import core

The repository collects open-source Android apps from GitHub and their
Google Play pages, mirrors the repositories into a Gitlab instance, and
loads everything into a Neo4j graph. This project models the pure core of
that pipeline and proves properties about it:

- **Parsing and consolidation** (`scripts/util/parse.py`):
  - `parse_iso8601`, with the regular expression, the offset folding and `strptime`. It reads the subset of ISO 8601 date-times that these accept: upper-case `T` and `Z` only, a four-digit year, one- or two-digit other fields, and trailing text ignored;
  - the repository names of a row (`get_latest_repo_name`);
  - the package/repository relation (`invert_mapping`, `parse_repo_to_package_file`);
  - reading the Gitlab import results;
  - `consolidate_data`, together with `_correct_gitlab_data` and `_find_packages`;
  - the Google Play page normaliser (`parse_google_play_info`, `describe_in_app_purchases`).
- **The graph import** (`scripts/subcommands/store_in_neo4j.py`). The
  model is the list of operations the script issues, in order, with their
  parameters. It covers:
  - the repository node (`format_repository_data` and the snapshot choice);
  - the FORKS rule;
  - the commit merges and their PARENT links;
  - the IMPLEMENTED_BY relations;
  - the App and Google Play page nodes.

  `MERGE … ON CREATE SET n = $m ON MATCH SET n += $m` is modelled as a
  map store (module `Graph`). In that store a `null` property is not stored.
- **Log levels** (`scripts/util/log.py`): `compute_level` and
  `lower_level_for_libraries`.

## Modules

| module | models |
|---|---|
| `Wrappers`, `Text`, `Csv`, `JsonValue` | results and options, digits, `split`/`join` and `os.path.basename`, CSV rows as maps, JSON values and Python truthiness |
| `Log` | `compute_level`, `lower_level_for_libraries` |
| `Calendar`, `Timestamp`, `TimestampExamples` | the date arithmetic of `datetime`, `parse_iso8601` with a reference formatter, and the three documented examples |
| `RepoNames` | `get_latest_repo_name`, `invert_mapping`, `parse_repo_to_package_file` |
| `GitlabImport` | `read_gitlab_import_results` |
| `Consolidate` | `consolidate_data` and its helpers |
| `PlayStore` | `parse_google_play_info` and `describe_in_app_purchases`; the files' contents and mtimes, and `parse_upload_date`, are parameters |
| `Operations`, `Graph`, `Repository`, `Commits`, `Implementation`, `AppData` | the graph operations of `store_in_neo4j.py` |

## Where the code and its documented intent differ

The consolidation pipeline (`Consolidate.ConsolidateData`) follows the code
as written. For the two defects listed under "## Findings" the corrected
definitions stand beside it, with the intended property proved.

- **Two mirror rows match one repository.** `_correct_gitlab_data` reads
  `row.get('clone_project_id') != row['clone_project_id']`, which compares
  a value with itself. So the guard meant to skip a second clone never
  fires, and the **last** matching mirror row wins.
- **The repository is gone.** In that case `get_latest_repo_name`
  gives `None` as its latest name. When such a repository also has no
  package, the log message's `', '.join(repo_names)` raises `TypeError`,
  and the generator stops there. The rows already yielded are kept. The
  unused-repository report is made only when the loop ends normally.
- **A `+HHMM` offset without a colon.** The docstring says ISO 8601
  date-times are read. The offset group of the pattern needs the colon, so
  `2015-03-27T19:25:23+0100` raises (`Timestamp.SignWithoutOffsetRejected`).
  ISO 8601 does not let a basic-format offset follow an extended-format
  time, so this is consistent with the standard; it is recorded here
  only because the docstring does not spell it out.

## Findings

| source | as written | input that shows it | evidently intended | confidence | as-written member | corrected member |
|---|---|---|---|---|---|---|
| scripts/util/parse.py:355-360 | the conflict guard compares `row.get('clone_project_id')` with `row['clone_project_id']`, so it never fires and the last matching mirror row wins | mirror rows for the names `old` (clone id 1) and `new` (clone id 2), visited in that order: the row ends with clone id 2 | once a mirror row was applied, a later one with another clone id is skipped, so the first mirror row's clone id is kept | not executed | Consolidate.ConflictingMirrorsDiffer | Consolidate.CorrectGitlabDataIntended |
| scripts/util/parse.py:462-466 | the warning for a row without packages joins the names, and `None` among them raises `TypeError`, ending the generator | a row with `renamed_to` empty, `not_found` `TRUE` and no package for its name | the warning is logged, the row is skipped and the remaining rows are still consolidated | not executed | Consolidate.RowCrashIff | Consolidate.IntendedRunComplete |

## Model

| member | source | states |
|---|---|---|
| Log.ComputeLevel | scripts/util/log.py:14-30 | raises exactly when a count is negative; otherwise the level is one of the six logging levels |
| Log.LevelsIncreasing | scripts/util/log.py:11 | the level table is strictly increasing |
| Log.DefaultLevel | scripts/util/log.py:7-11 | with no flags the level is WARNING, the table's fourth entry |
| Log.QuietMonotone | scripts/util/log.py:26-30 | more `-q` never lowers the level |
| Log.VerboseAntitone | scripts/util/log.py:26-30 | more `-v` never raises the level |
| Log.QuietStep | scripts/util/log.py:26-30 | away from the ends one more `-q` is exactly one level up |
| Log.Saturation | scripts/util/log.py:26-30 | the level saturates at CRITICAL and at NOTSET |
| Log.LibraryLevel | scripts/util/log.py:33-38 | library loggers get the application's level, raised to WARNING if it is lower |
| Text.ValueOfDecimal | scripts/util/parse.py:273 | a number written with fixed-width digits reads back as itself |
| Text.SplitLength | scripts/subcommands/store_in_neo4j.py:248 | `split(',')` gives one more piece than there are commas |
| Text.Split | scripts/subcommands/store_in_neo4j.py:248 | `split(',')` gives at least one piece and no piece holds a comma |
| Text.JoinSplit | scripts/subcommands/store_in_neo4j.py:248 | joining the pieces of a split gives back the text |
| Text.SplitJoin | scripts/util/parse.py:389-391 | splitting a join of comma-free pieces gives back the pieces |
| Text.JoinEmpty | scripts/util/parse.py:391 | a join is empty exactly when there are no pieces or one empty piece |
| Text.Join | scripts/util/parse.py:391 | a join is empty exactly when there are no pieces or one empty piece, and two or more pieces hold the separator |
| Text.BasenameIsLastComponent | scripts/util/parse.py:301 | the base name has no `/`, ends the path, and follows its last `/` |
| Text.Basename | scripts/util/parse.py:301 | the base name has no `/` and is no longer than the path |
| Calendar.DaysBeforeNextYear | scripts/util/parse.py:273-274 | the closed-form day count grows by the length of each year |
| Calendar.DaysBeforeYearCounts | scripts/util/parse.py:273-274 | the closed-form day count agrees with counting the years one by one |
| Calendar.DaysBeforeMonthCounts | scripts/util/parse.py:273-274 | the month table agrees with counting the months one by one |
| Calendar.NextDay | scripts/util/parse.py:273-274 | the day after a valid date is a valid date |
| Calendar.EpochIsDayZero | scripts/util/parse.py:274 | 1970-01-01 is day zero of the POSIX timestamp |
| Calendar.DaysFromCivilNextDay | scripts/util/parse.py:273-274 | consecutive dates have consecutive day numbers |
| Calendar.DaysFromCivil | scripts/util/parse.py:273-274 | the day number of a date from 1970 on is never negative, and of a date before 1970 always negative |
| Calendar.MonthWithinYear | scripts/util/parse.py:273-274 | the days before a date's month plus its day never exceed the length of its year |
| Calendar.DaysBeforeYearMonotone | scripts/util/parse.py:273-274 | a later year never starts on an earlier day |
| Calendar.DaysFromCivilCounts | scripts/util/parse.py:273-274 | the day number of a date is the days counted year by year and month by month since 1970-01-01 |
| Timestamp.SpanDigits | scripts/util/parse.py:30 | greedy `\d*`: the digits taken and the rest rebuild the text, and the rest does not start with a digit |
| Timestamp.Group | scripts/util/parse.py:30 | `\d+` and a separator: non-empty digits, then the separator, rebuild the text |
| Timestamp.SpanFraction | scripts/util/parse.py:30 | `\.?\d*`: the discarded fraction and the rest rebuild the text |
| Timestamp.SpanOffset | scripts/util/parse.py:30 | the optional `(\d+):(\d+)` group is taken only with both digit runs, and nothing is lost |
| Timestamp.MatchSeconds | scripts/util/parse.py:30 | seconds, fraction, sign and offset groups rebuild the text after the minutes |
| Timestamp.MatchPattern | scripts/util/parse.py:30 | a match gives well-formed groups that, with the unread rest, rebuild the input |
| Timestamp.ParseIso8601 | scripts/util/parse.py:231-274 | raises `NoMatch` exactly when the pattern does not match; a time that parses has a bare `Z` or a sign with `HH:MM` |
| Timestamp.FoldOffset | scripts/util/parse.py:264-271 | the offset is rejected exactly when `Z` comes with `HH:MM` or a sign comes without it |
| Timestamp.Strptime | scripts/util/parse.py:273-274 | `strptime` accepts only a four-digit year, one- or two-digit other fields in range, a valid date and a four-digit offset under a day |
| Timestamp.MatchRender | scripts/util/parse.py:259-262 | matching rendered groups recovers exactly those groups and the rest |
| Timestamp.StrptimeAccepts | scripts/util/parse.py:273-274 | `strptime` accepts a four-digit year with one- or two-digit month, day, hour, minute and second in range, and yields their UTC seconds minus the offset |
| Timestamp.FoldFormatted | scripts/util/parse.py:264-274 | formatted groups fold to the date-time's UTC seconds minus the zone offset |
| Timestamp.FoldFormattedZulu | scripts/util/parse.py:264-274 | a bare `Z` is read as `+0000` |
| Timestamp.FoldFormattedNumeric | scripts/util/parse.py:267-274 | `±HH:MM` is read as `±HHMM` |
| Timestamp.ParseFormatted | scripts/util/parse.py:231-274 | the parser inverts the reference formatter for every valid date-time, fraction, zone and non-extending rest |
| Timestamp.ZuluWithOffsetRejected | scripts/util/parse.py:264-271 | `Z` followed by `HH:MM` raises |
| Timestamp.SignWithoutOffsetRejected | scripts/util/parse.py:264-271 | a sign without `HH:MM` raises (so does `+HHMM`) |
| Timestamp.NoLeadingDigitRejected | scripts/util/parse.py:259-262 | text not starting with a digit never matches and raises |
| Timestamp.NotADateRejected | scripts/util/parse.py:259-262 | `not-a-date` raises |
| TimestampExamples.ZuluReadsUtc | scripts/util/parse.py:264-266 | a `Z` time reads as its UTC seconds |
| TimestampExamples.NumericReads | scripts/util/parse.py:267-268 | a numeric-offset time reads as its UTC seconds minus the offset |
| TimestampExamples.ZuluIsZeroOffset | scripts/util/parse.py:264-268 | `Z`, `+00:00` and `-00:00` read alike |
| TimestampExamples.DoctestPacific | scripts/util/parse.py:240-241 | `2015-03-27T19:25:23.000-08:00` reads as 1427513123 |
| TimestampExamples.DoctestCentralEuropean | scripts/util/parse.py:242-243 | `2014-02-27T15:05:06+01:00` reads as 1393509906 |
| TimestampExamples.DoctestFractionDropped | scripts/util/parse.py:244-245 | `2008-09-03T20:56:35.450686Z` reads as 1220475395, the fraction dropped |
| TimestampExamples.OneDigitFieldsRead | scripts/util/parse.py:273-274 | `2015-3-27T9:25:23Z`, with a one-digit month and hour, reads as 1427448323, as `strptime` accepts one-digit fields |
| RepoNames.LatestRepoName | scripts/util/parse.py:211-228 | the original name, then the new name after a rename, the original name while found, `None` when gone |
| RepoNames.LatestUnknownIff | scripts/util/parse.py:221-228 | the latest name is unknown exactly for a repository that was not renamed and is marked not found |
| RepoNames.KnownNames | scripts/util/parse.py:455 | the name set holds the original name, has one or two members, and holds `None` exactly for a gone repository |
| RepoNames.AddPackage | scripts/util/parse.py:83-84 | the package becomes related to exactly the listed repositories; nothing else changes and no set is empty |
| RepoNames.InvertMapping | scripts/util/parse.py:72-85 | a repository is related to a package exactly when the package lists it; no repository has an empty set |
| RepoNames.RepoToPackages | scripts/util/parse.py:88-101 | a repository is related to a package exactly when some row pairs them |
| RepoNames.ParseRepoToPackageFile | scripts/util/parse.py:88-101 | raises exactly when some row has fewer than two fields; otherwise a repository is related to a package exactly when some row starts with the package and the repository |
| RepoNames.RepoToPackagesOrderFree | scripts/util/parse.py:99-100 | the result does not depend on the order of the rows |
| GitlabImport.WithPath | scripts/util/parse.py:301-302 | the stored row replaces the clone URL by the base name of its path and keeps every other column |
| GitlabImport.ReadImport | scripts/util/parse.py:277-319 | every stored row is keyed by its own id, has a path and a status, and no URL |
| GitlabImport.ReadGitlabImport | scripts/util/parse.py:277-319 | fails exactly when a row that is not skipped brings a column the stored row of its id lacks; otherwise the stored rows, keyed by exactly the ids of the file |
| GitlabImport.SameColumnsNeverRaise | scripts/util/parse.py:289-308 | rows that all have the same columns never raise |
| GitlabImport.ExtraColumnRaises | scripts/util/parse.py:306-308 | a second row for an id with a column the first lacks raises |
| GitlabImport.ReadImportKeys | scripts/util/parse.py:289-317 | exactly the ids of the file's rows are stored |
| GitlabImport.ChosenUnique | scripts/util/parse.py:290-317 | at most one row is the kept row of an id |
| GitlabImport.ReadImportChosen | scripts/util/parse.py:289-319 | the stored row is the last `Success` row of the id, or the last row when none succeeded |
| GitlabImport.ReadImportHas | scripts/util/parse.py:300-317 | every column of the file except the URL survives into the stored rows |
| GitlabImport.SuccessIsSticky | scripts/util/parse.py:290-298 | a later row without `Success` does not replace a stored `Success` row |
| GitlabImport.LaterRowWins | scripts/util/parse.py:301-317 | any later row replaces a stored row without `Success` |
| Consolidate.FirstSeen | scripts/util/parse.py:417-419 | the dict's keys are distinct and are exactly the column's values |
| Consolidate.FirstSeenOrder | scripts/util/parse.py:417-419 | the keys come in the order of their first occurrence |
| Consolidate.LastRows | scripts/util/parse.py:417-425 | every stored row carries its own key |
| Consolidate.LastRowsKeys | scripts/util/parse.py:417-419 | the keys stored are exactly the column's values |
| Consolidate.IndexByWellFormed | scripts/util/parse.py:417-419 | the key order and the stored rows agree |
| Consolidate.LastRowsLast | scripts/util/parse.py:417-425 | the row stored under a key is the last row with that key |
| Consolidate.LastRowsHas | scripts/util/parse.py:417-425 | columns every row has are in every stored row |
| Consolidate.Overlay | scripts/util/parse.py:437-452 | an id without import keeps the original row; otherwise the four import columns come from the import and the other columns are kept |
| Consolidate.VisitOrder | scripts/util/parse.py:455 | the names visited are the distinct known names, once each |
| Consolidate.MirrorOver | scripts/util/parse.py:361-363 | the mirror's clone columns and `clone_status = Success` are written and every other column is kept |
| Consolidate.MirrorOverTwice | scripts/util/parse.py:352-364 | a second mirror row overwrites everything the first one wrote |
| Consolidate.ConflictGuardNeverFires | scripts/util/parse.py:355-360 | the conflict guard compares a value with itself and never skips |
| Consolidate.LastMirrored | scripts/util/parse.py:352-354 | the last visited name with a mirror row: it is among the names, has a mirror row, and no later name has one; none when no name has one |
| Consolidate.CorrectGitlabData | scripts/util/parse.py:350-364 | the correction keeps every column of the row; without a mirrored name the row is unchanged, and with one the status becomes `Success` |
| Consolidate.CorrectGitlabDataLastWins | scripts/util/parse.py:350-364 | the last matching mirror row wins; without a match the row is unchanged |
| Consolidate.CorrectGitlabDataOrderFree | scripts/util/parse.py:350-364 | with at most one mirrored name the set's iteration order does not matter |
| Consolidate.CorrectGitlabDataIntended | scripts/util/parse.py:355-360 | with the guard comparing the new mirror row's clone id, the first mirror row's clone id is kept and a row already corrected keeps its clone id |
| Consolidate.IntendedAgreesOnOneClone | scripts/util/parse.py:350-364 | when all mirror rows agree on the clone id, the corrected guard and the guard as written give the same row |
| Consolidate.ConflictingMirrorsDiffer | scripts/util/parse.py:355-360 | two mirror rows with different clone ids: as written the second one's id is kept, as intended the first one's |
| Consolidate.CollectPackages | scripts/util/parse.py:379-385 | a package is collected exactly when some known name provides it; the used repositories are exactly the known names listed |
| Consolidate.FindPackages | scripts/util/parse.py:369-391 | the packages of the names; only when none exist, the renamed repository's list, with an empty list giving none |
| Consolidate.FindPackagesOrderFree | scripts/util/parse.py:369-391 | only the set of names matters, not the visiting order |
| Consolidate.RenamedPackagesRoundTrip | scripts/util/parse.py:386-389 | a renamed repository's joined package list is read back as its packages |
| Consolidate.JoinedPackagesEmpty | scripts/util/parse.py:386-391 | whatever order the set is joined in, the result is falsy exactly when the set is empty or holds only `''` |
| Consolidate.Names | scripts/util/parse.py:455 | the names visited are exactly the known names of the row |
| Consolidate.CorrectedColumns | scripts/util/parse.py:432-458 | the original's own columns survive; the clone columns come from the last mirror row if any, else from the import |
| Consolidate.RowCrashIff | scripts/util/parse.py:461-466 | a row raises exactly when it has no packages and its repository was neither renamed nor found |
| Consolidate.RowYieldIff | scripts/util/parse.py:461-475 | a row is yielded exactly when it has packages and a non-empty Gitlab id, with every corrected column and its packages |
| Consolidate.ConsolidateRow | scripts/util/parse.py:432-475 | a row raises only without packages; a yielded row has packages, a non-empty Gitlab id and no `packages` column; only known repositories are marked used |
| Consolidate.ConsolidateRowIntended | scripts/util/parse.py:461-466 | as intended a row without packages is skipped and never raises; every other outcome is as written |
| Consolidate.IntendedRunComplete | scripts/util/parse.py:432-475 | as intended the generator never raises and yields every row that has packages and a Gitlab id |
| Consolidate.RunSteps | scripts/util/parse.py:432-475 | the loop yields at most one row per original row |
| Consolidate.RunRecords | scripts/util/parse.py:432-475 | the yielded rows keep the original order, and each comes from the step with its id |
| Consolidate.RunCrashedAt | scripts/util/parse.py:432-475 | the generator stops at the first row that raises and only there |
| Consolidate.RunComplete | scripts/util/parse.py:432-475 | every yielding row before the first raise is yielded |
| Consolidate.OriginalIndex | scripts/util/parse.py:417-419 | every id in the loop order has a stored row with the name columns |
| Consolidate.MakeSources | scripts/util/parse.py:421-425 | the import results and the mirror rows by name, with the columns the loop reads |
| Consolidate.ConsolidateData | scripts/util/parse.py:322-481 | fails exactly where reading the import file raises; the used repositories are known ones and the used packages are known or listed for a renamed repository; after a complete run every known repository left unused is reported, and the known packages left unused only when the used packages are a proper subset of the known ones, otherwise none; after a raise nothing is reported |
| Consolidate.UnusedPackagesExact | scripts/util/parse.py:407-415 | when every package a renamed repository lists is known, every known package left unused is reported |
| Consolidate.StepsUsedWithin | scripts/util/parse.py:379-390 | the loop marks only known repositories as used, and only packages that are known or listed for a renamed repository |
| Consolidate.YieldedIsValid | scripts/util/parse.py:461-475 | a yielded row has packages and a Gitlab id |
| Consolidate.ConsolidateDataRecords | scripts/util/parse.py:322-481 | yielded rows are valid and in first-occurrence order of their ids; a raise happens only at a repository neither renamed nor found |
| JsonValue.GetObject | scripts/util/parse.py:176-177 | `d.get(key, {})` then `.get`: a missing key gives `{}`, a non-dict raises |
| PlayStore.Sections | scripts/util/parse.py:112-114 | a list of sections is iterated item by item |
| PlayStore.FindInAppPurchases | scripts/util/parse.py:114-117 | nothing is found exactly when every section is a dict with another title |
| PlayStore.FoundIsFirst | scripts/util/parse.py:114-116 | a description found comes from the first in-app purchases section, after only other sections |
| PlayStore.NoProductDetails | scripts/util/parse.py:112-117 | without product details there is no in-app purchases description |
| PlayStore.FirstInAppSectionWins | scripts/util/parse.py:104-117 | the first in-app purchases section's description is returned whatever follows |
| PlayStore.FirstInAppSectionFound | scripts/util/parse.py:114-116 | the search stops at the first in-app purchases section |
| PlayStore.DescribeInAppPurchases | scripts/util/parse.py:104-117 | no product details gives no description, product details that are not a dict raise, and a description comes only from a list of sections |
| PlayStore.Offer | scripts/util/parse.py:169-175 | price and currency of the first offer; `None` without a truthy offer; an offer that is not a list of dicts raises |
| PlayStore.AppendCategory | scripts/util/parse.py:178-180 | the category data's `appCategory` is appended to the page's own list, or to a new empty one; the other details are kept; a missing category or a non-list raises |
| PlayStore.Rating | scripts/util/parse.py:181-183 | the aggregate rating's own fields; `{}` when missing or falsy; a non-dict raises |
| PlayStore.PropertiesKeys | scripts/util/parse.py:185-208 | the page node has exactly the 22 properties |
| PlayStore.EffectiveMeta | scripts/util/parse.py:166-167 | the page's own meta data, or a stand-in naming only the package |
| PlayStore.ParseGooglePlayInfo | scripts/util/parse.py:136-208 | no page exactly when both files are missing or empty; a page carries the page data's `docId`, or the package name when only category data exists |
| PlayStore.OnlyCategoryData | scripts/util/parse.py:166-180 | with only category data: named after the package, timestamped by the category file, one category, no price |
| PlayStore.PageDataFields | scripts/util/parse.py:161-198 | with page data: the page's id and mtime, and the first offer's price or none |
| PlayStore.CategoryAppended | scripts/util/parse.py:176-190 | the category data's category is appended to the page's own categories |
| Graph.Assign | scripts/subcommands/store_in_neo4j.py:234 | `SET n = $m` stores exactly the non-null given properties |
| Graph.Extend | scripts/subcommands/store_in_neo4j.py:235 | `SET n += $m` takes the given non-null values, removes those given as null, and keeps the rest |
| Graph.ExtendIdempotent | scripts/subcommands/store_in_neo4j.py:235 | extending twice with the same map is extending once |
| Graph.Merge | scripts/subcommands/store_in_neo4j.py:233-235 | a merge adds the key's node and leaves every other node alone |
| Graph.MergeFirstSight | scripts/subcommands/store_in_neo4j.py:233-234 | on first sight the node holds exactly the given properties |
| Graph.MergeAgain | scripts/subcommands/store_in_neo4j.py:233-235 | on a later sight the given properties take the new values and the others are kept |
| Graph.MergeAllGrows | scripts/subcommands/store_in_neo4j.py:206-246 | merges keep every node and add every sighted one |
| Graph.MergeAllOnlySighted | scripts/subcommands/store_in_neo4j.py:206-246 | merges add no node that was not sighted |
| Graph.MergeAllWithin | scripts/subcommands/store_in_neo4j.py:206-246 | when the stored nodes and every merged map keep to a set of property names, so do the nodes afterwards |
| Graph.MergeAllLastSighting | scripts/subcommands/store_in_neo4j.py:206-246 | with full property maps a node ends up holding its last sighting's non-null values |
| Graph.MergeAllLastMention | scripts/subcommands/store_in_neo4j.py:206-246 | a property holds the value of the last sighting that mentioned it, unless that value was null |
| Repository.PropertiesKeys | scripts/subcommands/store_in_neo4j.py:66-82 | the repository node has exactly the 15 properties |
| Repository.FormatRepositoryData | scripts/subcommands/store_in_neo4j.py:52-82 | raises exactly for a non-empty creation time that does not parse; the timestamp is `None` without one; the 13 copied columns are carried over |
| Repository.RepositoryNode | scripts/subcommands/store_in_neo4j.py:99-122 | without snapshots the node has neither snapshot URL nor timestamp and never raises; otherwise it raises exactly when the first snapshot's creation time is set and does not parse, and takes the first snapshot's URL |
| Repository.NoSnapshot | scripts/subcommands/store_in_neo4j.py:115-116 | without a snapshot the node has neither snapshot URL nor timestamp |
| Repository.FirstSnapshotUsed | scripts/subcommands/store_in_neo4j.py:115 | only the first snapshot is used |
| Repository.SnapshotTimestampReads | scripts/subcommands/store_in_neo4j.py:62-63 | a well-written creation time becomes its UTC seconds |
| Repository.ForkEdges | scripts/subcommands/store_in_neo4j.py:91-95 | an edge joins two nodes exactly when the fork's parent or source id equals the parent's id |
| Repository.ForkPairsIff | scripts/subcommands/store_in_neo4j.py:91-95 | a fork pair exists exactly when both nodes exist and the rule holds |
| Repository.ForkPairsOrderFree | scripts/subcommands/store_in_neo4j.py:91-95 | the edges do not depend on node order or repetition |
| Commits.Parameters | scripts/subcommands/store_in_neo4j.py:207-228 | the commit, author and committer maps have their full key sets |
| Commits.CommitOpsRaised | scripts/subcommands/store_in_neo4j.py:206-248 | the loop raises exactly when some commit has no `parent_ids` |
| Commits.CommitOps | scripts/subcommands/store_in_neo4j.py:206-254 | when the loop raises, the last operation is the merge of a commit without `parent_ids`; otherwise at least one operation per commit |
| Commits.ParentOps | scripts/subcommands/store_in_neo4j.py:248-254 | one PARENT link per comma plus one, each from the commit and to a comma-free parent id |
| Commits.ParentLinks | scripts/subcommands/store_in_neo4j.py:248-254 | one PARENT link per comma-separated piece of `parent_ids`, from the commit, rejoining to `parent_ids`; an empty list links to `''` |
| Commits.CommitOpsAppend | scripts/subcommands/store_in_neo4j.py:206-254 | commits are processed one after another |
| Commits.StopsAtMissingParents | scripts/subcommands/store_in_neo4j.py:230-248 | the first commit without `parent_ids` is merged and then the loop raises |
| Commits.CommitNodeIsLastRow | scripts/subcommands/store_in_neo4j.py:233-235 | a commit node holds exactly the non-null values of the last row with its id |
| Implementation.ImplementationOps | scripts/subcommands/store_in_neo4j.py:313-325 | on a mismatch, an empty relation per expected package first; then one relation per path row, in order, without its `package` key |
| Implementation.EveryPackageConnected | scripts/subcommands/store_in_neo4j.py:313-325 | every expected package gets a relation, match or not |
| Implementation.OnlyNamedPackages | scripts/subcommands/store_in_neo4j.py:313-325 | no relation goes to a package neither expected nor named by a path row |
| Implementation.EveryPackageRelated | scripts/subcommands/store_in_neo4j.py:313-325 | after the merges every expected package that has an App node is related to the repository |
| Implementation.WithApp | scripts/subcommands/store_in_neo4j.py:282-286 | the `MATCH (a:App {id: ...})` keeps exactly the relation operations whose package has an App node |
| Implementation.Relations | scripts/subcommands/store_in_neo4j.py:282-290 | every relation operation for a package with an App node gives a relation, and every relation comes from such an operation |
| Implementation.AppsThenRelated | scripts/subcommands/store_in_neo4j.py:366-382 | when `add_app_data` completes for a repository's packages, the IMPLEMENTED_BY merges relate every one of them |
| AppData.AppDataOps | scripts/subcommands/store_in_neo4j.py:386-405 | the loop raises exactly when some package's page data cannot be parsed |
| AppData.AppOps | scripts/subcommands/store_in_neo4j.py:401-405 | a package's operations end with its App node, preceded by its page node exactly when there is page data |
| AppData.AppDataOpsCons | scripts/subcommands/store_in_neo4j.py:398-405 | the first package's operations come first |
| AppData.EveryAppCreated | scripts/subcommands/store_in_neo4j.py:398-405 | without an error every package gets its App node, in order |
| AppData.PageThenApp | scripts/subcommands/store_in_neo4j.py:401-405 | a page node is immediately followed by the App node of its package |
| AppData.AppAfterPage | scripts/subcommands/store_in_neo4j.py:398-405 | an App node is preceded by its page node exactly when the package has page data |

## Left out

- **File and terminal I/O.** Reading CSV and JSON files, logging,
  `/tmp/unused_repos.csv`, `read_csv`, the command line
  (`define_cmdline_arguments`, `_main`) and the graph driver
  (`scripts/util/neo4j.py`) are not modelled. File contents, mtimes and
  parsed rows are parameters.
- **`parse_upload_date`** is a parameter `Object -> Option<int>`. It reads a
  naive date with locale month names (`%b %d, %Y`) and converts it in the
  process's local time zone, so its value is not determined by its input.
  In the model it cannot raise.
- **The graph engine.** Cypher itself is not modelled. Operations are
  values. Merges are maps in which a `null` property is not stored, and
  `+=` with `null` removes a property.
- **Branches, tags and orchestration.** Branch and tag nodes
  (`add_branche_nodes`, `add_tag_nodes`) are not modelled, and neither is
  the per-row orchestration of `add_repository_info`. Nor are the
  BELONGS_TO, AUTHORS and COMMITS relations of a commit, which only
  connect nodes the model already has.
- **Python set iteration order.**
  - It is not modelled. `Consolidate.Sources.latestFirst` chooses, per
    id, which of the two names is visited first.
  - The joined `packages` column of a yielded row is kept as the set it
    is joined from. `Consolidate.JoinedPackagesEmpty` and `Text.SplitJoin`
    relate the two.
- **Missing columns.** A `KeyError` from a missing CSV column is a
  precondition (`Csv.HasColumns`). This covers the repository columns, the
  name columns, the import columns and a path row's `package`. The source
  never handles these.
- **Numbers.** Integer and float JSON values are not distinguished
  beyond `JInt` and `JFloat`. Mtimes are integers, as `int(st_mtime)` makes them.
- **JSON shape.** A JSON file whose top level is not an object is not modelled.
- **Exception messages.** Only which operation raises is modelled. Error
  values are labels, not Python's exact exception types and messages.
- **Mutation of the caller's data.** `add_implementation_properties`
  deletes `package` from the caller's path rows. The model builds new maps
  instead.
- Commits.CommitNodeIsLastRow: it states the commit nodes after the
  commit merges alone. The `{id}`-only nodes that PARENT links create
  between those merges are covered only through the starting store
  (`Graph.Within`). An interleaved placeholder is overwritten by the same
  extension argument, but no lemma states the interleaved form.
- Consolidate.CorrectGitlabDataOrderFree: order-freeness is stated only when at most one name has a mirror row; with two, the visiting order decides which row wins.
- Timestamp.Strptime: follows `%z` as Python 3.6 reads it, with exactly
  four digits and no colon. A later Python would accept a six-digit
  `HHMMSS` offset that this model rejects.
- **`configure_logger`** and the setting of the library loggers' levels
  are left out. Only the levels they compute are modelled.
- Timestamp.ParseIso8601: `\d` and `int()` accept every Unicode decimal
  digit in Python; the model reads ASCII digits only, so a date-time
  written with other digits is rejected here and read by the source.
- Implementation.Relations: App nodes are a set of package names. The
  source's `CREATE (a:App ...)` makes a new App node each time a package is
  added, and the `MATCH` then merges one relation per such node; the model
  keeps one relation per package.
