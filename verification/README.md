# A verified model of the Git activity exporter

The exporter mirrors a fleet of Git repositories, rolls commits and bead events
up into an hourly fact table, and publishes the result as a group of S3 objects.
This project models its three stateful cores and the baseline arithmetic, and
proves what each of them is for.

**Publication** (`S3`, `Protocol`, `Publish`, `Retention`, `Runs`, `Histories`,
`Lock`, `Exporter`, `Limits`, `Reuse`, over `CycleIds`, `Keys` and `Documents`). The
bucket is a map that single requests change. Every request may succeed, fail before its effect, or
fail after it, transiently or for good, and the process may die between any two
requests. `S3.Client` keeps a ghost history of every value the bucket has had,
so a claim about every crash point is a claim about every element of the
history. `Publish.Publisher` runs the protocol of `src/publish.py` against that
client and proves that each change inside a call keeps one guarantee,
`Protocol.PublishStep`. `Runs` takes any number of calls, cuts each off
anywhere, and proves the whole-run theorems from the guarantee alone;
`Histories` joins the methods' postconditions to those runs, and `Limits` and
`Reuse` show where the guarantees end.

**Rollup** (`Commits`, `Events`, `GitLog`, `Forensic`, `TextLines`,
`BulkImport`, `Attribution`, `Tally`, `Rollup`, with the laws in
`GitLogSections`, `GitLogLaws`, `GitLogFailures`, `ForensicLaws`,
`ForensicRoundTrip`, `Conservation` and `Columns`). The two parsers are proved
against what any text says, what was written and what is refused, the bulk
heuristic against its meaning event by event, and the fact table against counts
and sums over the input.

**Enumeration and mirrors** (`Forge`, `Mirrors`, `Orphans`): the page walk, the
refresh of one mirror through every outcome of its git commands, and pruning.

**Baseline** (`Baseline`, `BaselineShape`): the hourly series, Fano factors,
bursts, hours of the day and the busiest tenth.

A module follows its source file: code that works by changing things is a class
or a method with loops, proved against functions or predicates that do not
mention its steps; the laws are lemmas about those.

## Model

| member | source | states |
|---|---|---|
| `Runs.CrashAtomicity` | src/publish.py:503-697 | In every bucket that any run of publications and recoveries can reach, each cut off after any request, the pointer has its initial bytes with its cycle intact, or names a cycle all of whose objects hold exactly the bytes of one publication. |
| `Histories.KilledAnywhere` | src/publish.py:393-697 | The same of the clients' own histories, from nothing but what `PublishCycle` (of names without `current.json`) and `RecoverPublication` (from a pointer that survives it) ensure: any number of calls, each killed anywhere. |
| `Histories.LifeExtendsRun` | src/publish.py:393-697 | A history that meets the postcondition of either method, cut off anywhere, is a legal continuation of any run that ends where it began. |
| `Histories.LivesAreARun` | src/publish.py:393-697 | Calls that each start where the one before returned or died make up one legal run, from the first bucket to the last. |
| `Runs.CutCallExtendsRun` | src/publish.py:393-697 | Any prefix of a history whose changes keep the guarantee continues any run; `Histories.LifeExtendsRun` feeds it the methods' postconditions. |
| `Runs.PointerFirstReader` | src/publish.py:552-622 | A reader that takes the pointer and then each named object at moments of its own choosing finds each absent or as the pointer's cycle had it, as long as every later call under that cycle's id leaves the name out or publishes the same object under it; a read without gaps is one whole cycle. |
| `Histories.ReaderOfLives` | src/publish.py:393-697 | The same reader of the buckets that killed and completed calls really leave. |
| `Reuse.ReuseIsHarmlessIff` | src/publish.py:552-572 | For a pointer and a checked call under its id: in every run whose later calls under that id are this one, the reader finds each object absent or as named, if and only if the call publishes the same object under every name the two have in common. |
| `Reuse.ReusedIdBreaksAReader` | src/publish.py:503-697 | At any valid time, three calls of the protocol, one request per change: two whole publications with fresh ids, the second pruning the first's cycle, then a third whose id the collision check lets through again, killed after it staged an object that differs from the one the first pointer named. |
| `Runs.ObjectIsStableOrGone` | src/publish.py:552-572 | A cycle object seen once is the same object at every later moment or gone, unless a later call under its id publishes another object of that name. |
| `Runs.SurvivesUntilOutranked` | src/publish.py:664-687 | A cycle object stays until a committed publication of another id counts at least max(0, retention-1) greater ids besides its own. |
| `Histories.SurvivorOfLives` | src/publish.py:664-687 | The same grace over the buckets that killed and completed calls really leave. |
| `Runs.StaysTrusted` | src/publish.py:358-390 | With one set of names and matching meta, a trusted pointer is trusted at every later crash point. |
| `Runs.CommittedIsTrustedIff` | src/publish.py:358-390 | A commit with everything staged is trusted under names that include meta.json if and only if its call published those names and a meta.json that agrees with the pointer. |
| `Runs.CommitEndsBootstrap` | src/publish.py:529-539 | Every commit is trusted from then on, so bootstrap mode never comes back by itself. |
| `Exporter.ProductionCallConforms` | src/main.py:443-462 | The exporter's own calls pass all checks, carry the default names, and stage a meta.json that agrees with the pointer: the conditions of the trust theorems hold of it. |
| `Exporter.ProductionObjects` | src/main.py:443-462 | Each table is published under its own name and type, and meta.json holds the identity of the cycle next to everything else that was reported. |
| `Exporter.ExporterStaysTrusted` | src/main.py:369-463 | Runs of the exporter keep trust with no condition on what they publish. |
| `Exporter.SuccessIsLive` | src/publish.py:561-622 | A publication that returns normally, after a lost response too, is live: a reader sees exactly its objects, the fixed keys equal them, and recovery trusts it. |
| `Exporter.LostCommitIsRepaired` | src/publish.py:597-617 | Whatever bucket a failed publication with a landed pointer ends in, by the publisher's own contract, the next recovery puts the new cycle's objects at the fixed keys and keeps the pointer; in bootstrap mode the fixed keys were back at the snapshot. |
| `Limits.LostCommitArises` | src/publish.py:597-617 | From every untrusted bucket that state is what a lost response and a lost read-back lead to; its fixed keys match the new pointer if and only if they already held what was published. |
| `Exporter.RunCycle` | src/main.py:369-463 | One cycle: recovery first; a collection that fails or is too degraded leaves the recovered bucket alone; otherwise the outcome is that of the publication; every crash point has the old pointer and its cycle or the committed new one; without faults a good cycle is published, and over a trusted pointer its retention carried out. |
| `Protocol.StepIsAtomic` | src/publish.py:549-622 | One change that the guarantee allows keeps the pointer's dataset whole. |
| `Protocol.CompleteViewStep` | src/publish.py:589-596 | A pointer that names a whole cycle goes on naming that one unchanged, or the one being committed. |
| `Protocol.CommittedIffStaged` | src/publish.py:561-568 | Under a committed pointer a reader sees exactly the published objects if and only if everything is staged. |
| `Publish.NothingToDelete` | src/publish.py:436-461 | The names a recovery looks at all have a source if and only if the pointer's objects are present and nothing else is expected, which acceptance implies: no lookup misses and no name is left to delete. |
| `Publish.Publisher.Repair` | src/publish.py:436-466 | Both loops, the copying and the deleting one: whatever fails, no DELETE is sent, and at every crash point all keys are still there, meta.json is old or the copy is complete, and the pointer has the bytes it had or those it gets. |
| `Protocol.RecoveryConverges` | src/publish.py:393-466 | After one undisturbed recovery every fixed key is the object of the cycle pointed at, and all cycles and foreign keys are as they were; the pointer keeps its bytes if and only if that cycle staged no `current.json` or one with those bytes, and then it is still trusted. |
| `Protocol.RecoveryIsIdempotent` | src/publish.py:439-460 | The pointer still leads to the cycle if and only if a staged `current.json` reads as that pointer. Then a second recovery changes nothing, and writes nothing if and only if the first had nothing to write or every stored content type is non-empty. |
| `Limits.RollbackRestoresIff` | src/publish.py:574-646 | For a checked call without `current.json`: from every failure point over every trusted bucket the rollback makes the fixed keys match the pointer, if and only if the published names are the default ones; for any others, a matching bucket and one mirror upload that is not undone. |
| `Limits.RollbackServesIff` | src/publish.py:574-646 | For a checked call without `current.json`, from any failure point and in any order of names: at every crash point of the rollback meta.json is an old one or all fixed keys are the payloads, if and only if meta.json is still old where the rollback begins, or the payloads are all there and before meta.json it changes and deletes nothing. |
| `Limits.RollbackStrandsAReader` | src/publish.py:574-587 | Every checked call of the default names has an older trusted bucket and a failure point, the complete mirror, from which the rollback's first upload, whichever data key it takes, leaves the new meta.json over an old object. |
| `Limits.MirrorIsAtomicIff` | src/publish.py:517-587 | For a call that passed the checks, mirroring is atomic from every bucket and at every point if and only if `current.json` is not among its names or holds the call's own commit record. |
| `Limits.PublicationIsAtomicIff` | src/publish.py:517-536 | The recovery that a publication begins with is atomic from every bucket if and only if `current.json` is not among the names. |
| `Limits.StrayPointerPayload` | src/publish.py:436-457 | At any valid time: a call that passes the checks, and buckets from which mirroring it, publishing it, and merely recovering without expected names leave neither the old pointer nor the new one. |
| `Publish.RollbackMatchesPointer` | src/publish.py:581-617 | Over a trusted pointer the rollback leads to the objects of whichever cycle is durable, the old or the new. |
| `Publish.ReadBackMeansLanded` | src/publish.py:597-605 | Reading the committed bytes back after a failed pointer PUT means the PUT took effect. |
| `Publish.MetaLastReorders` | src/publish.py:250-260 | The mirror order keeps every payload and puts meta.json last. |
| `Publish.WhatIsRefused` | src/publish.py:513-527 | Each refusal with exactly the calls it is for: a repeated name, an unusable one, no meta.json, an id that does not fit, in that order; all others pass. |
| `Publish.Publisher.PublishCycle` | src/publish.py:503-637 | The bucket after every kind of result; no fault and a fresh id mean success, and over a trusted pointer exactly the retention rule carried out and a successful pruning recorded; an error, or a failed pruning, comes with a failed request of the phase it names, and a refusal before the first request; every crash point keeps the guarantee, and until a rollback begins a meta.json other than the old or recovered one comes with all the new objects, during the rollback too if the condition of `Limits.RollbackServesIff` holds where it begins; the health record describes one more pruning for each success over a trusted pointer; the lock depth returns to what it was. |
| `Publish.Publisher.RecoverPublication` | src/publish.py:469-478 | Undisturbed it gives the recovered bucket and the trusted id; disturbed or not it touches only the pointer's fixed keys, sends no DELETE, loses no key at any crash point, and changes meta.json last. |
| `Publish.Publisher.Reconcile` | src/publish.py:393-466 | The same for the inner recovery, and no PUT for an untrusted pointer or one whose fixed keys already match. |
| `Publish.Publisher.RestoreSnapshot` | src/publish.py:489-500 | Undisturbed it restores existence and value of each snapshot key; disturbed it touches no other key; at every crash point each key is old or copied back with meta.json last, or all are copied and only keys to be deleted are missing. |
| `Publish.Publisher.RollBack` | src/publish.py:581-617 | A rollback that worked: at the snapshot in bootstrap mode, at the durable pointer's objects over a trusted pointer; nothing under `cycles/` is lost either way; a reader of the fixed keys is served at each of its crash points if the condition of `Limits.RollbackServesIff` holds where it begins. |
| `Publish.Publisher.CommitPhase` | src/publish.py:589-617 | It succeeds if and only if the PUT was answered, or the GET after it was and found the committed bytes; otherwise the old pointer or the new one is in place, every cycle is kept, and a rollback was tried that fell short only by a failed request of its own. |
| `Publish.Publisher.MirrorPhase` | src/publish.py:574-587 | The fixed keys become the payloads; a changed meta.json comes with all of them; after a failed upload the pointer is left alone and a rollback was tried, which fell short only by a failed request of its own. |
| `Publish.Publisher.Stage` | src/publish.py:561-572 | Objects are added one by one to an otherwise unchanged bucket, and all of them on success. |
| `Publish.Publisher.Prune` | src/publish.py:655-697 | Only doomed cycles lose keys; success means exactly the retention rule was carried out; a failure is that of the listing, with nothing touched, or reports doomed ids only, each with a failed request of its own, and every other doomed id is gone. |
| `Publish.RecordCountsFailures` | src/publish.py:176-195 | After any sequence of prunings the record is the only one that holds the number of failed ones, the length of the last unbroken run of failures, the latest failure's cycle and the latest outcome. |
| `Publish.Publisher.RecordPruneHealth` | src/publish.py:186-195 | Recording one more pruning keeps the record true of the whole sequence. |
| `Publish.DoomedStayOutranked` | src/publish.py:682-687 | While pruning runs, each id still to be dropped is outranked by enough ids that stay. |
| `Retention.SliceIsRankRule` | src/publish.py:665-682 | The slice of the sorted listing is the rule by rank: an id goes when at least max(0, retention-1) other candidates are greater. |
| `Retention.PruneIsExact` | src/publish.py:655-697 | Undisturbed pruning leaves the kept cycle, every foreign key and exactly the max(0, retention-1) greatest other valid ids, none of them older than a dropped one. |
| `Retention.AtMostRetained` | src/publish.py:655-697 | The retention is the most valid cycles, the kept one included, that a pruning leaves; a retention below one counts as one. |
| `Lock.LockSerialisesCalls` | src/publish.py:157-162 | Under every interleaving of threads, including recovery inside a publication, the S3 mutations are whole calls one after another in entry order. |
| `Lock.LockIsReleased` | src/publish.py:477-478 | The lock is free at depth zero if and only if every thread has left, normally or by exception. |
| `Lock.OnlyTheOwnerEnters` | src/publish.py:634-646 | A thread inside may enter again; while it is inside nobody else may. |
| `CycleIds.IdOrderIsChronological` | src/publish.py:198-247 | Ids compare as strings the way the instants they were minted from compare, whenever those differ. |
| `CycleIds.GreaterIdIsNotOlder` | src/publish.py:214-241 | Of two valid ids the greater never names an earlier instant. |
| `CycleIds.CompactIsInjective` | src/publish.py:209-211 | Different `generated_at` values give different stamps. |
| `CycleIds.SecondsFollowFields` | src/publish.py:198-206 | Field order of calendar dates, leap years included, is order in seconds. |
| `CycleIds.NewCycleId` | src/publish.py:244-247 | A minted id is valid for the time it was minted with. |
| `CycleIds.ValidIdsAreMinted` | src/publish.py:223-247 | An id is valid for a time if and only if it can have been minted for it. |
| `CycleIds.GregorianCycle` | src/publish.py:198-206 | Four hundred years have 146097 days, and a year is its twelve months. |
| `Strings.LessIsTotal` | src/publish.py:665-674 | String order is total and irreflexive. |
| `Strings.LessIsTransitive` | src/publish.py:665-674 | String order is transitive. |
| `Keys.RenderOfParse` | src/publish.py:549-550 | Every key string denotes one canonical key and is its rendering. |
| `Keys.ParseOfRender` | src/publish.py:549-550 | Reading a rendered key gives the key back. |
| `Keys.CycleListingIsExact` | src/s3io.py:324-339 | Listing one cycle's prefix yields that cycle's keys and no others. |
| `Keys.ChildListingIsExact` | src/s3io.py:302-321 | The delimited listing groups each key under its own cycle id. |
| `Keys.CyclePrefixesAreDisjoint` | src/publish.py:686-687 | Different ids own disjoint prefixes. |
| `Protocol.PathsAreKeys` | src/publish.py:263-283 | The object paths in a pointer are the keys of the cycle's objects below the prefix. |
| `Documents.ReaderAcceptsExactlyTheWriter` | src/publish.py:286-327 | The reader accepts a document if and only if its required fields are the writer's for some well-formed cycle, and reads that cycle. |
| `Documents.PointerRoundTrip` | src/publish.py:263-283 | Reading a written pointer gives the cycle back. |
| `Documents.BuildMeta` | src/main.py:331-337 | The written meta.json agrees with the pointer's identity fields. |
| `S3.Client.UploadImmutable` | src/s3io.py:365-422 | Whatever fails in either retry layer: an existing object is never changed, at most one PUT takes effect, a normal return means the requested bytes and type are stored, and at most 3 PUTs and 18 GETs are sent. The rounds follow the retry policy: again only after a retryable error, three of them if the last error is retryable; an object that landed is missed only by a failed look. |
| `S3.Client.StageOnce` | src/s3io.py:384-414 | One round, request by request: a look; one PUT only when it finds nothing; a second look only when that failed; and which of their errors is raised. |
| `S3.Client.Call` | src/retry.py:21-46 | One to three attempts at the same request, all but the last failed and retryable; a permanent error is never repeated and a retryable one raised only after the third; the effect is the request's or nothing. |
| `S3.Client.ListCycleIds` | src/s3io.py:302-321 | Every cycle id once, however the server cuts its pages. |
| `S3.Client.ListCycleKeys` | src/s3io.py:324-339 | Every key of the cycle once, however the server cuts its pages. |
| `GitLog.ScanCommits` | src/gitscan.py:534-564 | The loop with its one mutable record computes `ScanOf`, errors included. |
| `GitLogSections.ScanIsItsSections` | src/gitscan.py:533-564 | For any text: a scan succeeds if and only if every header and every count that a commit owns parses, and gives one commit for each section inside the window, with the sums of that section's lines. |
| `GitLogLaws.LogRoundTrip` | src/gitscan.py:533-564 | Any commits with entries, written in git's layout with any number of empty lines after each and the last line terminated or not, come back as exactly the in-window ones in order, with raw sums over all entries and filtered sums over the others; entries of out-of-window commits count for nobody. |
| `GitLogLaws.LogRoundTripIff` | src/gitscan.py:533-564 | For a whole log that is plain up to its in-window subjects, that round trip holds if and only if none of these subjects has one of the breaks of `str.splitlines`. |
| `GitLogLaws.SubjectRoundTripIff` | src/gitscan.py:535-543 | For one in-window commit with any entries that is plain otherwise, the round trip holds if and only if its subject has none of those breaks. |
| `GitLogLaws.LineSeparatorBreaksASubject` | src/gitscan.py:535-543 | A subject with U+2028 does not come back. |
| `GitLogLaws.TextSplits` | src/gitscan.py:535 | Splitting undoes writing for lines without a line break in any of Python's senses, terminated to the last or not. |
| `GitLogLaws.TrailerComesFirst` | src/gitscan.py:509-515 | The trailer names the bead if anything in it is visible, without the white space around it; only otherwise does the subject. |
| `GitLogFailures.HeaderByFields` | src/gitscan.py:536-550 | A header line by its fields: refused for too few of them, a time that is no integer or out of range; otherwise it begins a commit with each field in its place, if its time is inside the window. |
| `GitLogFailures.NumstatByFields` | src/gitscan.py:551-564 | Any other line by its fields: ignored unless it has three and follows a header in the window; then refused for a count that is no integer, or credited. |
| `GitLogFailures.BrokenHeaderFails` | src/gitscan.py:535-541 | A scan that went well so far fails at a refused header, for that, whatever follows. |
| `GitLogFailures.BrokenCountFails` | src/gitscan.py:551-558 | And at a count that is no integer. |
| `GitLogSections.ScannedCountsNest` | src/gitscan.py:544-576 | For any text whose counts are natural numbers, filtered counts never exceed raw ones and every commit is in the window, before or after the bulk flags. |
| `GitLog.MarkBulk` | src/gitscan.py:567-576 | Each commit is flagged by its own filtered lines and files, whatever the raw ones are, and otherwise unchanged. |
| `Window.AdjacentWindowsPartition` | src/window.py:33-38 | Adjacent half-open windows share no instant and leave none out. |
| `Forensic.ParseEvents` | src/beads.py:175-298 | All or nothing: every line accepted and the in-window events in order, or the first refused line and why. |
| `ForensicRoundTrip.WrittenIsRead` | src/beads.py:175-313 | A log of event records, other records and blank lines comes back as exactly its events inside the window, in order, each member as it was written, the times as whole seconds. |
| `ForensicRoundTrip.DamagedMemberIsRefused` | src/beads.py:226-268 | After a good beginning, an event with one missing or wrong member is refused at its line, for that member. |
| `ForensicRoundTrip.BadRecordIsRefused` | src/beads.py:197-224 | So is a line that is no JSON, no object, of no known type or without its payload. |
| `ForensicRoundTrip.RepeatIsRefused` | src/beads.py:270-275 | So is an event with the store and sequence number of an earlier one. |
| `ForensicRoundTrip.BadTimeIsRefused` | src/beads.py:277-298 | So is an event with a time beyond year 9999, without an offset, or that is no time, in the window or not. |
| `Forensic.ReadEvents` | src/beads.py:140-166 | No log means no events; a manifest that does not fit refuses before parsing. |
| `ForensicLaws.TheWindowDecidesNothingButTheEvents` | src/beads.py:194-298 | Every log has exactly one outcome, and acceptance, line and fault do not depend on the window. |
| `ForensicLaws.AdjacentWindowsShareTheLog` | src/beads.py:279-298 | The events over [a, c) are those over [a, b) and over [b, c) merged, each in its order. |
| `ForensicLaws.AcceptedIdentitiesAreUnique` | src/beads.py:264-269 | No two events of an accepted log share an identity, in the window or not. |
| `ForensicLaws.ManifestRefusesTruncation` | src/beads.py:128-137 | A cut copy of an accepted log passes if and only if no record starts in the lost part and the checksum agrees; it fails the record count if and only if one does. |
| `ForensicLaws.ManifestAcceptsExactly` | src/beads.py:105-137 | A manifest passes if and only if it is an object with the text's checksum and its number of records. |
| `ForensicLaws.StoredTimesStayInTheWindow` | src/beads.py:279-290 | Stored whole seconds of accepted events stay inside the window if and only if a window that starts after 1970 starts on a whole second and one that ends by 1970 ends just after one. |
| `TextLines.RecordsAreStarts` | src/beads.py:128 | The record count is the number of characters that are the first visible one of their line. |
| `TextLines.LinesJoinBack` | src/beads.py:194 | Splitting into lines loses nothing. |
| `BulkImport.MarkBulkHours` | src/beads.py:315-354 | In place, an event is flagged if and only if it is a closure whose cell exceeds the threshold or whose hour's over-threshold closures reach the share; the returned cells are those. |
| `BulkImport.FindBulkCells` | src/beads.py:320-348 | The two counting passes compute the declared cell set. |
| `BulkImport.CellsAreTheFlaggedOnes` | src/beads.py:348-353 | Belonging to the cell set and being flagged are the same for closures. |
| `BulkImport.BulkCellsIgnoreOrder` | src/beads.py:320-348 | Cells and flags do not depend on the order of events. |
| `BulkImport.BulkCellsShrink` | src/beads.py:326-348 | A higher threshold or share only unmarks. |
| `BulkImport.MarkingIsIdempotent` | src/beads.py:350-353 | Marking a marked log changes nothing. |
| `Attribution.AttributionEpochs` | src/beads.py:60-72 | Each repository with a named closure, at the earliest one, and no other. |
| `Attribution.EpochsAreDetermined` | src/beads.py:60-72 | That description admits one map only. |
| `Attribution.ClosuresKeepTheirName` | src/aggregate.py:48-59 | With epochs from the same log a closure is labelled inferential if and only if its actor is nameless or literally `inferential`. |
| `Rollup.BuildHourly` | src/aggregate.py:62-134 | The rows are in strictly ascending key order, one for each cell and each worker of a cell, and every number in them is the tally of that key. |
| `Rollup.FourFieldsDecide` | src/aggregate.py:112-120 | Two different rows always differ in the first four sort fields, so the sort never compares the dictionaries. |
| `Columns.BeadColumns` | src/aggregate.py:33-45 | A row's bead columns are the numbers of its events of that kind, closures apart by their flag; a worker's row has those credited to the worker. |
| `Columns.CommitColumns` | src/aggregate.py:86-95 | Everybody's row has the cell's commits, its bulk commits, all their raw lines, and the filtered lines and files of those that are not bulk; a worker's row has none. |
| `Columns.OtherColumns` | src/aggregate.py:97-134 | The active column counts the distinct claiming actors, or says whether the named worker claimed; the family is the repository's or `unassigned`. |
| `Columns.RowsRunInOrder` | src/aggregate.py:113-134 | Rows run by hour, then repository, then everybody, the inferential row and the workers by name. |
| `Columns.BulkCellsByCounting` | src/beads.py:315-354 | A cell is marked if and only if it has closures, and more than the threshold of them or an hour in which cells over the threshold hold at least the share. |
| `Columns.MarkedCellsMoveWhole` | src/beads.py:349-354 | From the heuristic to the table: a marked cell has all its closures in the bulk column, any other all in the other one. |
| `Conservation.TheRollupIsUnique` | src/aggregate.py:62-134 | The input determines the rows completely. |
| `Conservation.RowsAddUpToTheInput` | src/aggregate.py:84-110 | For all twelve measures the null-worker rows add up to the whole input. |
| `Conservation.ACellIsItsWorkers` | src/aggregate.py:97-110 | Each bead measure of a null-worker row is the sum over the cell's worker rows. |
| `Conservation.EveryClosureIsInOneColumn` | src/aggregate.py:33-39 | The two closure columns add up to the cell's closures, whatever is flagged. |
| `Conservation.FilteredWithinRaw` | src/aggregate.py:84-95 | If filtered lines do not exceed raw ones in any commit, they do not in any row; worker rows carry none. |
| `Conservation.ScannedRowsNest` | src/gitscan.py:544-576 | So they do not in any row built from scanned commits, whatever was scanned. |
| `Conservation.InferentialRowsHoldTheNameless` | src/aggregate.py:48-59 | Inferential rows hold exactly the closures of null, empty and `system` actors if and only if no closure of the cell is by an actor called `inferential`. |
| `Conservation.NamedRowsFollowTheEpoch` | src/aggregate.py:48-59 | No row names a worker before the hour of its repository's epoch. |
| `Conservation.NamedWorkersAreClaimers` | src/aggregate.py:107-124 | The named rows' active counts add up to at most the cell's distinct claiming actors. |
| `Mirrors.Volume.EnsureMirror` | src/gitscan.py:326-414 | For every outcome of the git commands: a return means the mirror is there; it is stale if and only if the refresh timed out; only a git failure that is no timeout, no refused credential and no full volume gives it up, for a newer clone or for nothing; a depth-1 clone follows exactly when the cutoff leaves no commit; an attempt to clone leaves no temporary directory unless a removal failed; an old one stays only when the call failed before any clone was tried. |
| `Mirrors.Volume.Refresh` | src/gitscan.py:326-338 | The log of a refresh: a fetch, then at most eight deepen rounds of doubling depth and at most three attempts each, ending early only at a history that reaches the cutoff or at the first failure. |
| `Mirrors.DeepeningIsBounded` | src/gitscan.py:331-337 | The rounds ask for at most 255 times the base depth. |
| `Mirrors.RetriesAreForTransients` | src/gitscan.py:197-205 | Only timeouts and failures worded as transient are tried again, three times at most; a refused credential and what is no git failure never are. |
| `Forge.ListRepos` | src/forge.py:125-207 | The walk stops at the first short page, or refuses at the first failed, invalid or duplicate-bearing one; the result is the wanted repositories in order, and the number of pages asked for. |
| `Forge.OutcomeIsTheLastAnswer` | src/forge.py:134-191 | For any answers: each page before the last request was well-formed and full; the result is a failed request, or an invalid page, if and only if the last answer is one; it returns only over well-formed answers, the last of them short. |
| `Forge.PageIsItsEntries` | src/forge.py:69-122 | A body is refused if and only if it is no JSON object, says it is not ok, has no list, or has an entry without a required field or with a refused clone URL; otherwise the page is its entries, field by field and in order. |
| `Forge.BrokenPageRefuses` | src/forge.py:134-175 | A served listing with one answer that failed or is no page is refused at that answer, unless two names before it coincide. |
| `Forge.EnumerationIsComplete` | src/forge.py:134-191 | A finite listing takes exactly floor(n/50)+1 requests and is returned whole but for the empty and denied, in order; it is refused if and only if two repositories share a name or a full name. |
| `Forge.WantedExactly` | src/forge.py:193-204 | A repository is returned if and only if it is listed, not empty and not denied. |
| `Forge.WantedInOrder` | src/forge.py:193-204 | What is returned keeps the order of the listing. |
| `Orphans.CloneRoot.PruneOrphans` | src/gitscan.py:453-506 | Exactly the orphaned mirrors are reported, in order; nothing else is touched but clone litter; an empty live set deletes nothing. |
| `Orphans.ReportedByName` | src/gitscan.py:501-505 | A pruned mirror is reported under its repository's name. |
| `Orphans.LitterGoesOthersStay` | src/gitscan.py:483-505 | A directory that ends in `.git.tmp` goes whatever is live; what is no directory, has neither suffix or is no bare mirror stays. |
| `Orphans.MirrorsFollowTheListing` | src/main.py:239-247 | After an enumeration that found anything, a mirror is swept if and only if the listing has no non-empty, undenied repository of that name. |
| `Baseline.HourCounts` | scripts/validate_baseline.py:201-210 | Each hour's count of rows and of distinct repositories. |
| `Baseline.HourOfARow` | scripts/validate_baseline.py:201-210 | A row counts in the hour its time lies in, and in none outside the range. |
| `Baseline.CountsAreStackedSeries` | scripts/validate_baseline.py:242-248 | Each hour's count is the sum over the per-repository series. |
| `Baseline.DenominatorsAgree` | scripts/validate_baseline.py:249-251 | The summed repository means are the mean of the total series: both Fano factors share one denominator. |
| `Baseline.FanoFactorsDifferByCovariances` | scripts/validate_baseline.py:213-251 | The fleet's Fano factor is the independent repositories' one plus twice the summed pairwise covariances over that mean; they agree if and only if those cancel out. |
| `Baseline.RepoFano` | scripts/validate_baseline.py:242-251 | The ratio of summed variances to summed means over those series. |
| `BaselineShape.BurstLengths` | scripts/validate_baseline.py:220-231 | The lengths are those of all maximal runs of busy hours, in order; they add up to the busy hours and number at most the idle hours plus one. |
| `BaselineShape.DayIsTheTotal` | scripts/validate_baseline.py:283 | The 24 hour-of-day sums add up to the total. |
| `BaselineShape.BusiestTenth` | scripts/validate_baseline.py:280-282 | The busiest tenth holds at least its share: top_sum * hours >= top_n * total. |

## Conditions the code needs

- A payload called `current.json` passes the checks. Publishing it is atomic
  from every bucket exactly if there is none (`Limits.PublicationIsAtomicIff`
  for the recovery at its start; the methods' trace and
  `Histories.KilledAnywhere` for everything else when there is none). The mirror
  phase alone is atomic also if the payload is the call's own commit record
  (`Limits.MirrorIsAtomicIff`). `Limits.StrayPointerPayload` is such a call.
- A recovery overwrites a valid pointer exactly if the cycle it names staged a
  `current.json` with other bytes (`Protocol.RecoveryConverges`). That takes a
  caller without expected names, or with that name among them.
- Rollback over a trusted pointer uses the default fixed names, whatever names
  were published; `Limits.RollbackRestoresIff` gives the exact condition.
- A repair replaces an empty content type by a default, so a recovery is free
  of writes the second time only if the stored types are not empty.
- In bootstrap mode a pointer PUT may land although its response and the GET
  that resolves it are lost. The fixed keys then go back to the old snapshot
  while `current.json` names the new cycle, until the next recovery
  (`Limits.LostCommitArises`, `Exporter.LostCommitIsRepaired`).
- While a rollback puts data back, meta.json may still be the new one. A reader
  of the fixed keys is served throughout exactly if, where the rollback begins,
  meta.json is an old one or nothing before it is to change
  (`Limits.RollbackServesIff`; `Limits.RollbackStrandsAReader` has the bucket
  where it is not). A meta.json that had an empty content type comes back with
  the default one.
- A pruned id may be used again; the random suffix is all that keeps it from
  happening (`Reuse.ReusedIdBreaksAReader`). A reader notices exactly the second
  calls that publish something else under a common name
  (`Reuse.ReuseIsHarmlessIff`).
- A commit is trusted exactly if its names are the expected ones and its
  meta.json agrees with the pointer (`Runs.CommittedIsTrustedIff`); the publisher
  does not check that of its caller, the exporter's calls have it.
- An actor called `inferential` is merged into the inferential rows.
- A subject that contains any character at which Python's `str.splitlines`
  breaks is cut there (`GitLogLaws.LogRoundTripIff`).

## Left out

- `Publish.Publisher.PublishCycle`: when a bootstrap commit is resolved by reading it back, the bytes are compared but not the content type, as in the code; success is stated up to the pointer's content type.
- `S3.Client.Call`: an operation that failed has either taken effect by then or never will; a PUT delayed past its error response is not modelled.
- `S3.Client.ListCycleIds`: the listing of an unchanging bucket returns each child once over all pages, which S3 guarantees and the code relies on.
- `Documents.ReaderAcceptsExactlyTheWriter`: the names in a pointer are a set, so the order in which a document lists them is arbitrary; JSON text is a value plus its layout.
- `GitLogLaws.LogRoundTripIff`: the exact condition is for subjects inside the window; for breaks in other fields, and in commits outside the window, being free of them is only shown to suffice.
- `GitLog.ScanCommits`: the last commit is replaced in the list where the code updates a dictionary the list shares; integer parsing, excluded patterns and the subject's regular expression are functions passed in.
- `Forensic.ParseEvents`: JSON decoding and ISO 8601 parsing are functions passed in; `int(ts.timestamp())` is exact, without the float that may round the last microseconds of distant years.
- `BulkImport.MarkBulkHours`: shares are compared exactly, where the code divides floats.
- `Rollup.BuildHourly`: rows are sorted while they are collected, and dictionaries are walked in any order; the rendering of the hour as text is left out.
- `Mirrors.Volume.EnsureMirror`: a fetch never removes the mirror's HEAD; directory contents, the text of git messages beyond what they match, and whether the shallow boundary covers the cutoff are outcomes, not computed.
- `Orphans.CloneRoot.PruneOrphans`: no entry vanishes between the listing and the check of it.
- `Forge.ListRepos`: pages past the last answer are empty, so a forge that serves full pages of new names for ever is not modelled; the clone-URL policy is a function passed in.
- `Baseline.RepoFano`: means and variances are exact reals, as are all shares in this project.
- `Exporter.RunCycle`: the scan, Parquet encoding, the clock and the random suffix are parameters; a failure to serialise counts as a failure to collect.
- Writers in other processes: the lock is process-local, and one writer is assumed.
- Cache-Control values, logging, credential redaction, the permission preflight, and how errors are worded.
- Clone-root validation and clone-URL policy, configuration, families files, health and metrics endpoints, signal handling.
- Commit and bead-event row formatting, percentiles and medians of the baseline, its manifest and object checks.
- Release scripts, deployment files and mock servers.
