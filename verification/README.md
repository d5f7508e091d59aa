# Verified models of the support tools

Dafny models of parts of seven tools of the repository, and proofs of what each part is for. The functions cited
under "Model" are modelled with the branches, constants and error paths of their code, up to what
"Left out" names; where code and documentation disagree the code is followed, and the findings are listed below.

| files | tool |
|---|---|
| `Placement`, `Plans`, `Counting`, `Planners`, `BalancePlanner` | the tablet rebalance selector: placement rule, executable plans, counters, the three planners |
| `CsvLoader` | the checkpointed CSV loader as a crash/restart machine, and its loading loop |
| `RowCounter` | the parallel row counter as a state machine over all interleavings |
| `LdapSync`, `UserSync` | LDAP to YCQL, and LDAP to YBA accounts: differences to commands to an interpreter of them |
| `KeyRanges`, `TabletReport` | width inference from tablet key ranges, and the accumulator with its zone report |
| `Uploader`, `FileParts` | the concurrent uploader with its shared retry budget; cutting a file into parts through a buffered reader |
| `TaskLog` | the task life cycle over shared step objects |
| `Common`, `Sums` | optional values, whole-number arithmetic, sums over sequences; used by the others |

How the parts fit: a loop or an object of the source is a method or a class, proved against a specification
function or predicate on plain values; the promises are lemmas and invariants about those. Concurrent or
crash-prone parts are machines (`State`, `Event`, `Enabled`, `Next`) and the theorems quantify over every run.

## Findings

Promises that the code does not keep in every case, each with the exact condition and a failing input.

- Parts of a file (yb-support-tool/sendsafelyuploader/package.go:207-223): each part is what a single read of a buffered reader
  returns, so a part size below the buffer's 4096 bytes can lose the end of the file without an error. Of 5000 bytes cut
  into parts of 1000, 904 are never read (`FileParts.SmallPartsLoseTheEnd`). With file reads that return what they are
  asked for, a file of L bytes in parts of c is whole exactly when c is at least 4096, or
  L div 4096 * ceil(4096 / c) + ceil((L mod 4096) / c) is at most ceil(L / c) (`FileParts.PartsAreWholeIff`); a part size is
  safe for every file exactly when it is at least 4096 or divides 4096 (`FileParts.SafeChunksIff`).
- Retries (yb-support-tool/cmd/root.go:197-200): asking for more than 100 gives 5, where the message announces 100. What is announced
  is what happens exactly up to 100 (`Uploader.RetriesAreAsAnnouncedIff`).
- Restarting with `on_conflict: fail` (yb-load-panda/CsvLoaderWithJSONB.py:151-161): some later run completes exactly when the rows from the
  checkpoint on meet no key of the table (`CsvLoader.RefuseRecoversIff`). After a chunk was committed in part none
  does (`CsvLoader.PartOfAChunkBlocks`); two rows and one crash show it (`CsvLoader.TwoRowsAndACrash`).
- Number of partitions (tablet-report-parser/tablet-report-parser.py:217-222): inferred correctly, when the first tablet is not the last partition,
  exactly when 65535 mod n < 65535 div n, and otherwise exactly when n divides 65535 (`KeyRanges.CountIsRightIff`). That
  holds up to 255; of 256 partitions 257 are inferred (`KeyRanges.At256`).
- Roles of YBA accounts (yb_sync_LDAP/yb_sync_ldap.py:213-216): the EXTERNAL synchronisation leaves every wanted account with the role LDAP asks
  for exactly when the wanted accounts that were there before already had it (`UserSync.RolesAreCurrentIff`);
  `UserSync.StaleRoleStays` shows one that is never corrected. With custom roles in force and an account to add a run fails
  and deletes nothing either (`UserSync.SyncUsers`).
- Reply of the batch processor (yba-user-admin/yba-user-admin.py:354-355): where "success false" is meant an error is raised, because a string and a
  number are joined. `UserSync.RaisesWhen` gives the exact condition, `UserSync.DeletingNobodyRaises` a command.
- Reason of the unmovable report (scripts/tablet_rebalance_selector.py:378-384): "overall count tiebreaker favors source disk" is never given, because
  the per-table comparison of the other branch holds whenever a tablet comes back (`Planners.StuckReason`). With a
  limit below 1 one tablet is still reported (`Planners.FindUnmovableLargest`).

## Model

| member | source | states |
|---|---|---|
| `Placement.SimulatePlacement` | scripts/tablet_rebalance_selector.py:244-277 | always some disk: least in per-table count then overall count after the deletion, first in the table's disk order among full ties |
| `Placement.PlacesUnique` | scripts/tablet_rebalance_selector.py:264-277 | the rule determines the destination |
| `Placement.ShiftIsTally` | scripts/tablet_rebalance_selector.py:344-347 | the four counter updates of a move equal counting the moved tablet list from scratch |
| `Placement.LandsFacts` | scripts/tablet_rebalance_selector.py:261-275 | a destination has the least per-table count among the other disks, and beats the source by count, overall count or position |
| `Placement.PotentialChange` | scripts/tablet_rebalance_selector.py:344-347 | exact change, under any relocation, of the two sums of squares and of the weighted positions |
| `Placement.AcceptedMoveDecreases` | scripts/tablet_rebalance_selector.py:244-277 | every accepted move lowers the triple (per-table squares, overall squares, positions) lexicographically |
| `Placement.MovesCannotGoOnForever` | scripts/tablet_rebalance_selector.py:244-277 | in every infinite sequence of tablet lists some step is not an accepted move |
| `Placement.SkewOnlyShrinks` | scripts/tablet_rebalance_selector.py:258-277 | no accepted move widens the interval a table's counts lie in |
| `Placement.StuckIff` | scripts/tablet_rebalance_selector.py:258-277 | a tablet comes back to its disk if and only if no other disk draws it, by count, overall count and order |
| `Placement.SkewDecidesMovability` | scripts/tablet_rebalance_selector.py:258-277 | a spread of two frees the tablets of the fuller disk; equal counts free none |
| `Placement.StuckStaysStuck` | scripts/tablet_rebalance_selector.py:327-347 | taking any tablet off a disk, to anywhere, never frees one stuck there |
| `Plans.PlanIsExecutable` | scripts/tablet_rebalance_selector.py:288-294 | carrying out a plan keeps every tablet, moves only the listed ones and leaves each where it was predicted |
| `Plans.PlanExtends` | scripts/tablet_rebalance_selector.py:334-347 | appending a correct move keeps a plan, and the shifted counters are the tally of the list after it |
| `Plans.PlanStep` | scripts/tablet_rebalance_selector.py:433-499 | in every plan, move k takes a tablet still where it was found, and the rule on rebuilt counts sends it to the recorded disk |
| `Plans.PlanShrinksSkew` | scripts/tablet_rebalance_selector.py:298-349 | along a whole plan no table's maximum rises and no minimum falls |
| `Plans.RelocationConserves` | scripts/tablet_rebalance_selector.py:490-496 | a move keeps the totals per table, overall and in bytes |
| `Plans.PlanConserves` | scripts/tablet_rebalance_selector.py:433-499 | after any number of moves of a plan the totals are the initial ones and no count is negative |
| `Plans.StuckThroughout` | scripts/tablet_rebalance_selector.py:319-347 | while a plan empties one disk, what was stuck there stays stuck |
| `Plans.ReportNeverContradictsPlan` | scripts/tablet_rebalance_selector.py:319-388 | no plan emptying a disk moves a tablet of a table whose tablets are stuck there at the outset |
| `Counting.BuildCounts` | scripts/tablet_rebalance_selector.py:223-241 | the counting loops give the tally of the tablet list, with the key orders the dictionaries get |
| `Counting.LayoutOfValid` | scripts/tablet_rebalance_selector.py:237-241 | every table ends with an entry for every disk, each once |
| `Counting.SortedBySize` | scripts/tablet_rebalance_selector.py:303-305 | candidates are sorted by descending size, a permutation, equal sizes in their old order |
| `Planners.FindMovableTablets` | scripts/tablet_rebalance_selector.py:280-349 | an executable plan, candidates settled in order; before each move the disk's used bytes, less what the earlier moves took off, are above the target percentage of its size if it was above to begin with; short of the maximum either they no longer are or nothing left on the disk can move |
| `Planners.SettledStep` | scripts/tablet_rebalance_selector.py:319-347 | one more move keeps every earlier candidate settled |
| `Planners.SettledMeansDone` | scripts/tablet_rebalance_selector.py:319-349 | with all candidates settled, no tablet still on the disk is movable in the final state |
| `Planners.FindUnmovableLargest` | scripts/tablet_rebalance_selector.py:352-388 | exactly the first stuck candidates up to the limit (one at least), each with a true per-table reason |
| `Planners.LeastElsewhere` | scripts/tablet_rebalance_selector.py:374-377 | the least count on another disk, or the default when there is none |
| `Planners.StuckReason` | scripts/tablet_rebalance_selector.py:372-384 | a stuck tablet's source count less one is at most the least other count, so the other branch is dead |
| `Planners.AmongStuck` | scripts/tablet_rebalance_selector.py:367-371 | every tablet the report draws from comes straight back at the outset |
| `Planners.StuckIsNeverMoved` | scripts/tablet_rebalance_selector.py:319-388 | no plan emptying a disk moves a tablet of the table of one that is stuck there at the outset |
| `Planners.RecommendFor` | scripts/tablet_rebalance_selector.py:881-889 | of the two lists made for one disk, no recommended tablet is of the table of a reported one |
| `Planners.EnoughIff` | scripts/tablet_rebalance_selector.py:307-313 | the scan has freed enough if and only if there was something to free and the bytes left are no longer above the target percentage |
| `Planners.FreedBytes` | scripts/tablet_rebalance_selector.py:342 | the bytes added up are those the tablets on the disk have lost |
| `BalancePlanner.LoadMeans` | scripts/tablet_rebalance_selector.py:421-431 | with df data a disk's load times its size is a hundred times its bytes, and there is none for a disk of no size; without, the load is the bytes |
| `BalancePlanner.BytesAfterMeans` | scripts/tablet_rebalance_selector.py:495-496 | the effective bytes are those used, less what left and plus what came |
| `BalancePlanner.TargetMeans` | scripts/tablet_rebalance_selector.py:412-428 | the target is the given one, or the usage of all disks together, or all tablet bytes divided by the number of disks |
| `BalancePlanner.EquallyFull` | scripts/tablet_rebalance_selector.py:413-416 | disks that are equally full are at the target |
| `BalancePlanner.PickSource` | scripts/tablet_rebalance_selector.py:451-464 | the first disk of highest load among those open and above target; none only if no open disk is above target |
| `BalancePlanner.TakeCandidate` | scripts/tablet_rebalance_selector.py:481-496 | counters, byte loads and cursors stay those of the list the plan produces |
| `BalancePlanner.FindBalancedMoves` | scripts/tablet_rebalance_selector.py:391-504 | an executable plan of greedy choices; stopping short of the maximum, every disk still above target has had each original tablet moved or seen stuck |
| `CsvLoader.OverwriteIsLastWriter` | yb-load-panda/CsvLoaderWithJSONB.py:70-78 | row-by-row overwriting is the last-writer-wins union that leaves other rows and columns alone |
| `CsvLoader.OverwriteByColumn` | yb-load-panda/CsvLoaderWithJSONB.py:70-78 | column by column: those of the file have the value of the key's last row, others the one they had |
| `CsvLoader.IgnoreIsFirstWriter` | yb-load-panda/CsvLoaderWithJSONB.py:81-86 | row-by-row ignoring is the first-writer-wins union |
| `CsvLoader.PlainInsertIsUpsert` | yb-load-panda/CsvLoaderWithJSONB.py:141-150 | a plain insert that succeeds equals the upsert of its rows |
| `CsvLoader.FallbackErasesPrefix` | yb-load-panda/CsvLoaderWithJSONB.py:151-171 | upserting a chunk after any committed conflict-free prefix of it equals upserting it alone |
| `CsvLoader.CoveredStep` | yb-load-panda/CsvLoaderWithJSONB.py:139-171 | upserting the next row moves the point from which loading may resume past it |
| `CsvLoader.StepKeepsInv` | yb-load-panda/CsvLoaderWithJSONB.py:126-179 | every step, crash or loss of the checkpoint file keeps the table covered from the stored checkpoint |
| `CsvLoader.RecoveryEqualsCleanLoad` | yb-load-panda/CsvLoaderWithJSONB.py:126-179 | after any history of crashes and restarts a completed load equals the clean upsert of all rows, so last or first writer wins |
| `CsvLoader.CheckpointNeverLeads` | yb-load-panda/CsvLoaderWithJSONB.py:174-179 | at every moment loading only the rows the stored checkpoint does not skip still ends in the right table |
| `CsvLoader.RefuseCompletesOnlyClean` | yb-load-panda/CsvLoaderWithJSONB.py:160-161 | in the failing mode a completed load met no conflict and equals plain insertion of all rows |
| `CsvLoader.RefuseRecoversIff` | yb-load-panda/CsvLoaderWithJSONB.py:151-161 | in the failing mode some later run completes if and only if the rows from the checkpoint on meet no key of the table |
| `CsvLoader.CommittedRowBlocks` | yb-load-panda/CsvLoaderWithJSONB.py:151-161 | in the failing mode, once the row to resume at is in the table no later history completes |
| `CsvLoader.PartOfAChunkBlocks` | yb-load-panda/CsvLoaderWithJSONB.py:151-161 | a plain insert that committed part of its chunk and failed or died is never followed by completion |
| `CsvLoader.TwoRowsAndACrash` | yb-load-panda/CsvLoaderWithJSONB.py:139-161 | two rows without a conflict, and a crash after which no history completes |
| `CsvLoader.Loader.PlainInsert` | yb-load-panda/CsvLoaderWithJSONB.py:142-150 | succeeds exactly for conflict-free rows, else leaves a conflict-free prefix |
| `CsvLoader.Loader.UpsertRows` | yb-load-panda/CsvLoaderWithJSONB.py:70-86 | the row loop computes the upsert of the rows |
| `CsvLoader.Loader.LoadData` | yb-load-panda/CsvLoaderWithJSONB.py:100-179 | an uninterrupted run takes only steps of the machine, upserts exactly the rows not skipped and ends with the checkpoint at the end, or raises in the failing mode |
| `RowCounter.Clamp` | ycrc/cmd/root.go:314-336 | out-of-range flags, the timeout included, become the defaults, and the number of tasks divides the hash space |
| `RowCounter.TasksDivide` | ycrc/cmd/root.go:335-336 | for scales 1 to 10 the tasks are two to the power scale plus 6, which divides the hash space |
| `RowCounter.RangesPartition` | ycrc/cmd/root.go:195-200 | each of the 65536 hashes lies in exactly one range |
| `RowCounter.RangesCoverAll` | ycrc/cmd/root.go:198-229 | the rows of the ranges add up to the rows of the whole hash interval |
| `RowCounter.LowerBounds` | ycrc/cmd/root.go:195-200 | the loop lists the multiples of the range size |
| `RowCounter.Shuffle` | ycrc/cmd/root.go:373-383 | whatever the permutation, the bounds keep their multiset |
| `RowCounter.PrepareRanges` | ycrc/cmd/root.go:195-204 | cutting and shuffling meet what the pool theorems assume |
| `RowCounter.StepKeepsInv` | ycrc/cmd/root.go:108-147 | without errors, counted rows, rows in flight and rows not handed out add up to the table; errors are never forgotten; no worker leaves through done |
| `RowCounter.NeverStuck` | ycrc/cmd/root.go:206-242 | before the consumer finishes some step is enabled |
| `RowCounter.StepUsesOne` | ycrc/cmd/root.go:206-242 | every step uses exactly one unit of remaining work |
| `RowCounter.CountIsExact` | ycrc/cmd/root.go:195-252 | under every interleaving an end without the error flag has the exact count, and any failed query sets the flag |
| `RowCounter.ErrorsArePrinted` | ycrc/cmd/root.go:130-144 | as many failed queries are reported as there are, up to the limit if one is set |
| `RowCounter.RowsInCounts` | ycrc/cmd/root.go:122-128 | a query's answer is the number of rows whose hash is in its range |
| `RowCounter.CountIsNumberOfRows` | ycrc/cmd/root.go:195-252 | for a table given as a list of row hashes, an end without the error flag has the length of the list |
| `RowCounter.PoolAlwaysFinishes` | ycrc/cmd/root.go:206-242 | every run can be extended to exactly three events per range, one per worker and three more; then all goroutines are gone, and nothing is sent on closed results |
| `RowCounter.KeyspaceIsExact` | ycrc/cmd/root.go:293-301 | a keyspace check that returns nil printed only exact counts |
| `LdapSync.Session.ApplyChanges` | yb_sync_LDAP/yb_sync_ldap.py:984-1000 | executes a prefix of the list, all of it exactly when no statement is refused |
| `LdapSync.AllPatchedIsTarget` | yb_sync_LDAP/yb_sync_ldap.py:862-957 | the four parts of a diff applied in order give the target login roles |
| `LdapSync.WarrantedKeeps` | yb_sync_LDAP/yb_sync_ldap.py:862-957 | a statement the differences call for keeps the database well formed and the target the same |
| `LdapSync.AddNewUsers` | yb_sync_LDAP/yb_sync_ldap.py:863-875 | new users get exactly their groups, missing groups are created first and once |
| `LdapSync.DropOldUsers` | yb_sync_LDAP/yb_sync_ldap.py:898-906 | exactly the removed login roles are dropped |
| `LdapSync.GrantGained` | yb_sync_LDAP/yb_sync_ldap.py:914-926 | gained groups are granted to the users on both sides |
| `LdapSync.RevokeLost` | yb_sync_LDAP/yb_sync_ldap.py:938-953 | lost groups are revoked except member-mapped roles |
| `LdapSync.ProcessChanges` | yb_sync_LDAP/yb_sync_ldap.py:826-962 | the generated list runs without a refusal and leaves exactly the LDAP users, each a member of g if and only if g is one of its groups or it held g and the member map names g as a role; no such role is ever revoked; the list is empty exactly when nothing is called for |
| `LdapSync.SecondRunIsEmpty` | yb_sync_LDAP/yb_sync_ldap.py:810-962 | once the target is reached the next comparison calls for nothing |
| `LdapSync.PrefixKeepsGoal` | yb_sync_LDAP/yb_sync_ldap.py:984-1000 | after any prefix of the statements the target is still the same |
| `LdapSync.InterruptionIsHarmless` | yb_sync_LDAP/yb_sync_ldap.py:984-1000 | a sync cut off anywhere can be resumed by a fresh one with the same target |
| `UserSync.FirstMatchDecides` | yb_sync_LDAP/yb_sync_ldap.py:184-197 | the first mapping whose pattern occurs rewrites the name; without one it stays |
| `UserSync.AccountIsMapped` | yb_sync_LDAP/yb_sync_ldap.py:207-209 | an LDAP user stands for exactly the account its lower-cased id maps to |
| `UserSync.NameIsMapped` | yb_sync_LDAP/yb_sync_ldap.py:184-197 | the name is mapped by the first pattern that occurs in it, if and only if one does |
| `UserSync.NewAccounts` | yb_sync_LDAP/yb_sync_ldap.py:207-216 | adds are exactly the wanted missing accounts, with the role of the last LDAP user for each; the counter counts LDAP users and exceeds the adds exactly when two share an account |
| `UserSync.OldAccounts` | yb_sync_LDAP/yb_sync_ldap.py:217-222 | deletes are exactly the unwanted accounts that are not super admins, each once |
| `UserSync.GetChangeList` | yb_sync_LDAP/yb_sync_ldap.py:201-225 | an error exactly when a user has no group; else, spelled out by lower-cased ids, patterns and replacements, exactly the missing accounts are added with the mapped first group of the last user standing for them, exactly the stale ones deleted, and the counter is zero exactly when both are empty |
| `UserSync.UserAdmin.AddUsers` | yba-user-admin/yba-user-admin.py:323-337 | accounts are created in order up to the first that cannot be |
| `UserSync.UserAdmin.DeleteUsers` | yba-user-admin/yba-user-admin.py:344-353 | every listed existing account is removed and counted |
| `UserSync.UserAdmin.ProcessDictPart` | yba-user-admin/yba-user-admin.py:312-357 | the accounts and the reply after one command, in every case |
| `UserSync.RaisesWhen` | yba-user-admin/yba-user-admin.py:319-357 | a command raises if and only if an account cannot be created, or there is a delete list and nothing was done |
| `UserSync.ChangesReachGoal` | yb_sync_LDAP/yb_sync_ldap.py:201-225 | adds and deletes are disjoint; applied, they leave the wanted accounts and the super admins, kept accounts unchanged |
| `UserSync.NothingToChangeIff` | yb_sync_LDAP/yb_sync_ldap.py:134-138 | the change list is empty if and only if the accounts are in sync |
| `UserSync.PartOfTheChangesKeepsGoal` | yb_sync_LDAP/yb_sync_ldap.py:147-158 | any part of the changes carried out leaves the goal of the next sync the same |
| `UserSync.AllOrNothing` | yba-user-admin/yba-user-admin.py:207-211 | a sync's command goes through whole, or with custom roles and something to add not at all |
| `UserSync.RolesAreCurrentIff` | yb_sync_LDAP/yb_sync_ldap.py:207-216 | after a sync all wanted accounts have the role LDAP asks for if and only if those kept had it before |
| `UserSync.StaleRoleStays` | yb_sync_LDAP/yb_sync_ldap.py:213-216 | an account in sync whose role is not the one LDAP asks for |
| `UserSync.DeletingNobodyRaises` | yba-user-admin/yba-user-admin.py:344-355 | deleting one absent account and nothing else raises |
| `UserSync.SyncUsers` | yb_sync_LDAP/yb_sync_ldap.py:125-158 | when a run fails, when it finds nothing to do, and that otherwise it reaches the goal with the counts it reports |
| `KeyRanges.PartitionsTile` | tablet-report-parser/tablet-report-parser.py:204-220 | the n partitions exist for every n up to 65535, follow one another and fill the key space |
| `KeyRanges.WidthIsRightIff` | tablet-report-parser/tablet-report-parser.py:217-222 | the width taken from the first tablet is that of the split if and only if that tablet is not the last partition, or n divides 65535 |
| `KeyRanges.CountIsRightIff` | tablet-report-parser/tablet-report-parser.py:217-222 | the exact condition under which the number of partitions is inferred correctly |
| `KeyRanges.UpTo255` | tablet-report-parser/tablet-report-parser.py:217-222 | the condition holds for up to 255 partitions |
| `KeyRanges.At256` | tablet-report-parser/tablet-report-parser.py:217-222 | of 256 partitions 257 are inferred, whichever but the last is seen first |
| `KeyRanges.HolesAreUnseenPartitions` | tablet-report-parser/tablet-report-parser.py:227-242 | with the right width no overlap and no mismatch is counted, and the holes are the unseen partitions and those inferred in excess |
| `KeyRanges.InferenceIsExact` | tablet-report-parser/tablet-report-parser.py:211-301 | up to 255 partitions: right width and number, nothing to complain about, holes exactly the unseen partitions |
| `KeyRanges.RangesConserve` | tablet-report-parser/tablet-report-parser.py:237-242 | each tablet falls into exactly one key range |
| `TabletReport.TableInfo.Collect` | tablet-report-parser/tablet-report-parser.py:198-257 | every statistic stays that of the tablets seen, and the replica is registered unless tombstoned |
| `TabletReport.TableInfo.CollectKeys` | tablet-report-parser/tablet-report-parser.py:199-242 | counters, sizes, width and key-range list stay those of the tablets seen |
| `TabletReport.TableInfo.CountHoles` | tablet-report-parser/tablet-report-parser.py:293-301 | the number of inferred ranges without a tablet, and the first of them |
| `TabletReport.EstimateIsMadeOnce` | tablet-report-parser/tablet-report-parser.py:217-222 | the estimate is zero only before the first tablet, and never changes after it |
| `TabletReport.KeyRangesConserve` | tablet-report-parser/tablet-report-parser.py:234-242 | with a positive width the key-range list adds up to the number of tablets |
| `TabletReport.Registry.Register` | tablet-report-parser/tablet-report-parser.py:190-196 | the server is listed at its place and found there |
| `TabletReport.Registry.Record` | tablet-report-parser/tablet-report-parser.py:250-257 | the nested counts stay the tally of all replicas and the maximum stays their maximum |
| `TabletReport.Registry.ReportRow` | tablet-report-parser/tablet-report-parser.py:374-404 | the buckets of a zone count tablets by replicas and lose none, missing bytes are those of absent tablets, balanced means what the next rows say |
| `TabletReport.MissingIsAbsent` | tablet-report-parser/tablet-report-parser.py:378-383 | missing bytes are those of the tablets of which no replica was seen in the place |
| `TabletReport.BucketsAreWhole` | tablet-report-parser/tablet-report-parser.py:377-386 | the buckets add up to the number of tablets, so the guard never drops one |
| `TabletReport.BalancedMeans` | tablet-report-parser/tablet-report-parser.py:394-398 | balanced if and only if there is a tablet and all have one positive replica count |
| `Uploader.StepKeepsInv` | yb-support-tool/sendsafelyuploader/package.go:211-296 | every step of every interleaving accounts for each failure and each attempt |
| `Uploader.BudgetIsShared` | yb-support-tool/sendsafelyuploader/package.go:280-296 | budget spent is failures retried, failures beyond the budget cost one part each, attempts never exceed parts plus budget |
| `Uploader.NeverStuck` | yb-support-tool/sendsafelyuploader/package.go:204-241 | until a package is complete or abandoned some step is enabled |
| `Uploader.RunsEnd` | yb-support-tool/sendsafelyuploader/package.go:211-296 | every run is bounded by two events per part, one per file and one per retry |
| `Uploader.OutcomeIsDecided` | yb-support-tool/cmd/root.go:133-160 | a finished run completed the package if and only if failures did not exceed the retries, whatever the interleaving; otherwise every part of the current file was stored or given up |
| `Uploader.Package.UploadFilePart` | yb-support-tool/sendsafelyuploader/package.go:246-296 | tries until accepted, or until one more than the retries have failed, and takes each retry from the budget |
| `Uploader.ValidateArgs` | yb-support-tool/cmd/root.go:192-200 | a parallelism outside 1 to 100 becomes 10, and more than 100 retries become 5 |
| `Uploader.RetriesAreAsAnnouncedIff` | yb-support-tool/cmd/root.go:197-200 | the retries are those the message announces if and only if no more than 100 were asked for |
| `Uploader.Configure` | yb-support-tool/cmd/root.go:122-139 | the package starts with the clamped settings and with as many parts per file as hold it |
| `Uploader.ManyRetriesMeanFive` | yb-support-tool/cmd/root.go:197-200 | with more than 100 retries asked for, a package is completed if and only if at most five attempts fail |
| `Uploader.GetUploadURLs` | yb-support-tool/sendsafelyuploader/package.go:153-199 | the loop over batches of 25 enters every answer in order, and stops at a failed request or a part out of range |
| `Uploader.EveryPartHasItsUrl` | yb-support-tool/sendsafelyuploader/package.go:182-195 | when answers name at least the next 25 parts there are, every part gets its own URL |
| `FileParts.CeilingIs` | yb-support-tool/sendsafelyuploader/package.go:64-67 | the number of parts is the least that holds the file |
| `FileParts.BufReader.Read` | yb-support-tool/sendsafelyuploader/package.go:207-216 | one read hands on what is buffered, or fills the empty buffer once; a slice as large as the buffer is filled directly |
| `FileParts.ReadParts` | yb-support-tool/sendsafelyuploader/package.go:207-223 | whatever the file's reads return: the number of parts, none empty, joined the file as far as the reads got |
| `FileParts.EndIsReachedIff` | yb-support-tool/sendsafelyuploader/package.go:207-223 | n reads get to the end of the file if and only if n is at least the number the file's own reads call for |
| `FileParts.PartsAreWholeIff` | yb-support-tool/sendsafelyuploader/package.go:207-223 | with full file reads, the parts are the whole file if and only if part size and file size meet the stated condition |
| `FileParts.SmallPartsLoseTheEnd` | yb-support-tool/sendsafelyuploader/package.go:207-223 | 5000 and 5500 bytes in parts of 1000 lose their last 904 and 404 bytes |
| `FileParts.SafeChunksIff` | yb-support-tool/sendsafelyuploader/package.go:207-223 | a part size keeps every file whole if and only if it is at least 4096 or divides 4096 |
| `FileParts.LargePartsReach` | yb-support-tool/sendsafelyuploader/package.go:207-223 | for part sizes from 4096 on, the parts are the whole file if and only if the file's reads together offer its length, short or not |
| `TaskLog.LastMatchIs` | scripts/task_log_parser.py:245-259 | the search finds the most recent matching step |
| `TaskLog.LineGrows` | scripts/task_log_parser.py:261-462 | one line only appends or evolves steps: terminal ones keep status, start and any end time |
| `TaskLog.LogGrows` | scripts/task_log_parser.py:464-477 | the same over whole logs: terminal statuses are absorbing and their end times final |
| `TaskLog.FailedGroupIsOver` | scripts/task_log_parser.py:421-441 | a failed group leaves none of its steps in progress |
| `TaskLog.LineSays` | scripts/task_log_parser.py:265-456 | for every line, spelled out by names, kinds, groups, statuses and times: which step becomes what, which step is added, and that nothing else changes |
| `TaskLog.TaskLifeCycle` | scripts/task_log_parser.py:328-390 | a task added, begun and finished ends as one step with the status and the times of its lines |
| `TaskLog.YBALogParser.Find` | scripts/task_log_parser.py:245-259 | the reversed loop computes the most recent match |
| `TaskLog.YBALogParser.FailMembers` | scripts/task_log_parser.py:426-432 | updating the shared objects of a group is, seen from the list, failing exactly its steps in progress |
| `TaskLog.YBALogParser.ParseLine` | scripts/task_log_parser.py:261-462 | one line does to the list what it says, in the plain words of the row `TaskLog.LineSays`, and takes it to the specified next one; the list only grows, each group list stays exactly the group's steps, and the line's error message is kept |
| `TaskLog.YBALogParser.Parse` | scripts/task_log_parser.py:464-477 | the same for a whole log |
| `TaskLog.YBALogParser.GetSummary` | scripts/task_log_parser.py:479-502 | the number of steps, exact counts by status, the total duration, the number of task types, and the errors |
| `TaskLog.StatusesAddUp` | scripts/task_log_parser.py:486-487 | the counts by status add up to the number of steps |

## Left out

Tablet rebalance selector
- Tablet ids are assumed unique and byte sizes not negative, as in a listing of one server; loads and percentages are real numbers without rounding.
- Parsing of du and df output, mount points and all printing. Nothing is claimed about bytes getting more even, because placement ignores bytes.

CSV loader
- One record is one line after the header, and all records have the header's columns; values are strings (type conversion and JSON columns are not modelled).
- Conflicts other than those on the primary key, errors other than integrity errors, and a checkpoint number that is written only in part.
- `CsvLoader.RecoveryEqualsCleanLoad`: a checkpoint file that comes to hold a number ahead of the loaded rows by other means than the loader is excluded.

Row counter
- Each query with its error bookkeeping is one step, so the unsynchronised access to the error counter is not modelled; rows do not change during a count.
- The lookup of partition columns is the parameter `errored`; sessions, certificates and printing are not modelled.

LDAP synchronisation
- `LdapSync.ProcessChanges`: user names are assumed different from group and no-login names, so that no login role is a member of a login role, and group lists free of repeats; the comparison library is specified as set differences.
- `LdapSync.AddNewUsers`: the same assumptions on names as for the whole list.
- The YSQL branch, passwords, the filter on superusers, name extraction from the diff and reading LDAP.
- `LdapSync.Session.ApplyChanges`: the interpreter refuses every statement a database could refuse, which is stricter than YCQL.
- `UserSync.UserAdmin.ProcessDictPart`: roles and e-mails of the wrong JSON type, failing requests other than a refused creation, and creation of roles are not modelled; listing returns every account once.
- `UserSync.FirstMatchDecides`: regular expressions are arbitrary functions, and lower-casing is that of ASCII.

Tablet report
- Key strings are taken as 16-bit numbers, sizes as integers; tables are found by their id elsewhere.
- The SQL output, human-readable sizes, the node balance remark, and replacing the estimate -1 by the number of tablets known to the database. Rows are produced for one place at a time, without the sorting of places.

Uploader
- `FileParts.BufReader.Read`: Go's bufio.Reader is not part of the repository; the model is its documented behaviour with the default buffer, without errors of the file.
- Encryption, the bytes sent by a second attempt, the progress channel, read errors, and the calls that open and finish a package.
- `FileParts.CeilingIs`: the division of floating-point numbers is an exact one, and the part size positive.
- `FileParts.PartsAreWholeIff`: assumes that a read of the file returns what it is asked for as far as the file goes; without that the condition is that of `FileParts.EndIsReachedIff`, on what the reads return.
- `Uploader.GetUploadURLs`: the check for a missing package code, and requests and answers as text.

Task log
- Lines are taken as classified events with their time stamp; universe ids, task ids and the error message of a step are not kept; the list of warnings is always empty.
- `TaskLog.LineGrows`: status Abort is not terminal here, because a failing group and an elapsed time still change it.

Other tools of the repository (API clients, universe checks, release handling) are mostly input and output and are not modelled.
