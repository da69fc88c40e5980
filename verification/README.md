# Binfinity add-on SDK and WordPress connector: a verified model

The Binfinity add-on SDK runs on a customer's machine. It takes backup and restore commands from a
console, streams a data source through the `binfinity` command-line tool, and reports each outcome at
least once. The WordPress example is its reference connector for composite sources: one SQL dump and
the `wp-content` tree in one tar stream, taken in full or as the difference since a cursor.

The project models the logic in which those two can lose data, and proves what they keep:

- **Backup and chain restore.** `Walk` is the pruned directory walk over a source that changes while
  it is read: each list and stat of a path and each byte of a file has its own instant, so every
  interleaving of writes with a walk is covered. `Backup` is the archive a walk writes, `Restore` the loop that
  reads one, `FileTree` the tree it changes, and `Chain` a full backup followed by deltas. The main
  results: no update is lost, a chain equals one full backup exactly if nothing was deleted and no
  file of the tree its base starts from is left over, and a full backup replaces a site point in time. `ChangingSource` says exactly when a backup of a changing
  source is written, when it and a whole chain restore, and what the site then holds; it also has the
  sources for which that fails. `StillSource` is the special case of a source nobody writes to, where
  every chain succeeds. `PathNames` holds the string side (exclude entries,
  path cleaning, member names) and `Text` what it needs about splitting. `WordPress` has the
  connector's mutating code as classes and loops, each equal to the function it is specified by.
- **Delivery of results.** `Outbox` is the directory of result files with its operations, seen as a
  map. `OutboxRuns` lets the reporting goroutine, the retry loop, a crash between any two steps and
  a server whose acknowledgement may get lost interleave freely. `Backoff` is the retry arithmetic
  in 64 bits.
- **Data plane.** `RestorePipe` and `BackupPipe` are the pipes between connector and child process,
  one event for each step of a goroutine or of the child.
- **Jobs.** `Jobs` is the mutex-protected state of a runner (cancel hook, request flag, progress) and
  all interleavings of the executing goroutine with heartbeats.
- **Cache flush.** `Resp` is the framing of the Redis command sent after a restore, by the section
  "Sending commands to a Redis server" of the Redis serialization protocol specification.

`Option`, `Path`, `Tree` and `Bytes` are values; a missing file, a broken stream, a failed import or a
refused send are results, not preconditions.

## Where the code differs from what is said about it

- `dataplane.go:84-85` says that passing the producer's error to the pipe makes the child fail fast
  instead of storing a truncated stream. The error ends the goroutine that feeds the child, and that
  goroutine closes the child's input: the child sees a clean end of a truncated stream
  (`BackupPipe.VerdictIsInvisible`, `BackupPipe.TruncationLooksClean`). Backup itself still returns the
  error.
- A child that exits early ends that goroutine without an error and nobody closes the pipe's read
  end, so a producer with bytes left waits forever, and no cancel reaches it
  (`BackupPipe.StuckIffOrphaned`, `BackupPipe.ReturnsIffAllWritten`, `BackupPipe.OrphanExists`,
  `BackupPipe.OrphanedForever`).
- A consumer that returns nil before the stream is used up leaves `CLIDataPlane.Restore` waiting
  forever, even if the child is killed (`RestorePipe.ReturnsIffAllRead`, `RestorePipe.AbandonExists`,
  `RestorePipe.HangsForever`).
- `sdk.go:594-596` says that a cancelled job stored nothing. The flag can be set after the backup is
  complete (`Jobs.CancelledAfterDone`).
- `outbox.go:24-25` says that a second report for a command overwrites the same file. It does, and a
  flush that holds the older result then removes the newer one (`OutboxRuns.NewerResultCanBeLost`).
  The newest outcome of every id survives in every run exactly if no non-empty id is reported with two
  results (`OutboxRuns.NewestSurvivesIff`), each result exactly if no two share a file
  (`OutboxRuns.EachResultDeliveredIff`).
- `outbox.go:73` says "oldest first"; the order is that of the file names
  (`Outbox.PendingIsMapInKeyOrder`).
- `outbox.go:143` says "capped"; the jitter comes on top of the cap (`Backoff.DelayBounds`).
- A delta finds changes by their time stamp, so a file moved into the tree with its old stamp is in no
  archive: a file is there after a restore exactly if some element picked it up or the tree the base
  starts from has it (`Chain.RestoredIffPickedUp`, `Chain.StaleArrivalIsLost`;
  `ChangingSource.ArrivalIsLost` is a source that loses one).
- wp-content is emptied only once a base element has a content member
  (`examples/wordpress-client/main.go:314-321`). If the base found nothing to archive, no delta empties
  it either, and files of the old site survive a chain that is reported done, although
  `examples/wordpress-client/main.go:275-277` promises a point-in-time base.
  `Chain.ChainShowsTargetIff` has the exact condition, `ChangingSource.OldFileIsLeftOver` such a source.
- Backups that are each written and delivered without a fault can form a chain no site can restore: a
  file replaced by a directory, or the reverse, makes extraction fail
  (`examples/wordpress-client/main.go:644-652`). `ChangingSource.ChainRestoresIff` has the exact
  condition, `ChangingSource.FileTurnedDirectory` such a source.
- `tw.Close` is deferred and its error dropped (`examples/wordpress-client/main.go:144`): if the last
  file shrinks while it is read, the backup is reported as done although no restore of it succeeds
  (`ChangingSource.WrittenIff`, `ChangingSource.FullRestoresIff`,
  `ChangingSource.ShrunkBackupNeverRestores`). Members with rejected names still count as files and
  still cause the clear.
- `examples/wordpress-client/README.md:9-21` describes a maintenance mode, `tar -x` and `cp -a`. The
  code has none of them; the model follows the code.

## Model

| member | source | states |
|---|---|---|
| `PathNames.PrefixIsComponentPrefix` | examples/wordpress-client/main.go:261-261 | the test "equal, or starts with the entry and a slash" holds iff the entry's slash-separated components are a prefix of the path's |
| `PathNames.ExcludedIffComponentPrefix` | examples/wordpress-client/main.go:254-266 | a directory is skipped iff the components of some trimmed, non-empty entry are the first components of its path |
| `PathNames.ExclusionIsInherited` | examples/wordpress-client/main.go:248-253 | what lies below an excluded directory is excluded too, so skipping the subtree loses nothing else |
| `PathNames.SimpleEntryIsAnchored` | examples/wordpress-client/main.go:248-253 | an entry of one component decides on the first component of the path alone: nested directories of that name are kept |
| `PathNames.EntryIs` | examples/wordpress-client/main.go:257-260 | what an entry of the exclude list is compared as: the text without the blanks around it and without the slashes around that, all of them and nothing else |
| `PathNames.Blanks` | examples/wordpress-client/main.go:257-257 | the blanks are the 25 white-space code points of Unicode |
| `PathNames.CleaningLaws` | examples/wordpress-client/main.go:639-639 | wherever they stand, empty components and dots go and a parent step takes the ordinary component before it away |
| `PathNames.LeadingParents` | examples/wordpress-client/main.go:639-642 | parent steps at the start stay in a relative name and vanish at the root |
| `PathNames.CleanIsIdempotent` | examples/wordpress-client/main.go:639-643 | a cleaned name is clean, and absolute iff the name was |
| `PathNames.ResolveExact` | examples/wordpress-client/main.go:638-643 | a member name is accepted iff it is relative and cleans to no parent step, and then stands for its cleaned, ordinary components |
| `PathNames.RejectedIffEscapes` | examples/wordpress-client/main.go:639-642 | a name is rejected iff it is absolute or, read component by component, at some point climbs above its start |
| `PathNames.ExtractedUnderRoot` | examples/wordpress-client/main.go:638-656 | containment: the destination is the cleaned root followed only by ordinary components, for every root and every accepted name |
| `PathNames.WalkedNamesAreClean` | examples/wordpress-client/main.go:209-234 | names the walk writes clean to themselves, also with a directory's trailing slash, and resolve to the walked path |
| `PathNames.DumpNames` | examples/wordpress-client/main.go:44-61 | a dump is exactly a name ending in .sql with one component, or two of which the first is db |
| `PathNames.MemberKindsAreDisjoint` | examples/wordpress-client/main.go:49-73 | no name is both a dump and content; both content prefixes strip back to the same relative name |
| `PathNames.ContentNames` | examples/wordpress-client/main.go:64-73 | content is exactly a name of two or more components of which the first is files or wp-content, and what is extracted is the components after it |
| `Text.SplitAppend` | examples/wordpress-client/main.go:255-261 | joining two paths with a slash concatenates their components |
| `Text.LeqAtFirstDifference` | outbox.go:91-91 | the order of file names: at the first difference the smaller character decides, and a proper prefix comes first |
| `FileTree.MkdirAllExact` | examples/wordpress-client/main.go:645-647 | creating a directory fails iff a file is on the way; otherwise exactly the path and its ancestors are directories and nothing else changes |
| `FileTree.ApplyExact` | examples/wordpress-client/main.go:644-656 | one extraction fails iff it meets a file where it needs a directory or the reverse; otherwise it changes exactly the file and its ancestors |
| `FileTree.RunIsOverlay` | examples/wordpress-client/main.go:638-656 | any successful sequence of extractions yields, path by path, the last content written, else a needed directory, else what was there |
| `FileTree.RunSucceedsIffNoClash` | examples/wordpress-client/main.go:638-656 | a sequence succeeds iff no step clashes with the initial tree or with another step: file and directory never replace each other |
| `Restore.ConsumedExact` | examples/wordpress-client/main.go:310-352 | the member loop succeeds iff the archive is restorable; then tree, database, flags and count are those the archive as a whole describes |
| `Restore.AppliedExact` | examples/wordpress-client/main.go:282-304 | restore guard: success iff the stream ended cleanly, everything could be restored and a dump was there; the database is then the last dump and the tree the overlay |
| `Restore.AppliedErrors` | examples/wordpress-client/main.go:282-298 | if every member could be restored, a stream that breaks off is a read error and one without a dump is refused as such; any other error is the loop's |
| `Restore.FailedExact` | examples/wordpress-client/main.go:310-352 | what a failed restore leaves: the first member that cannot be restored decides the error; wp-content is what the members before it made (untouched if it could not be emptied, with a file cut short in place), and the database is damaged if an import failed, else the last dump before it |
| `Restore.EntryMeaning` | examples/wordpress-client/main.go:330-347 | what a member means to the loop, by the components of its name: a dump, content at the cleaned path below files/ or wp-content/, content without effect if that escapes, or neither |
| `Restore.UnknownIsInvisible` | examples/wordpress-client/main.go:336-339 | a whole member that is neither a dump nor below files/ or wp-content/ is passed over: without it every archive restores to the same outcome |
| `Restore.UntouchedBeforeContent` | examples/wordpress-client/main.go:310-344 | as long as no content member was read, wp-content is untouched, however the restore ends |
| `Restore.DeltaNeverRemoves` | examples/wordpress-client/main.go:314-321 | a later element never clears: even if it fails half way every path is still there, of its kind, and only files it names have changed |
| `Restore.RenamedEntry` | examples/wordpress-client/main.go:44-73 | a member renamed to another version's name means the same to the loop |
| `Restore.RenamingIsInvisible` | examples/wordpress-client/main.go:310-352 | for every archive, renaming all content to wp-content/ and dumps to any accepted names leaves the outcome unchanged |
| `Walk.WalkExact` | examples/wordpress-client/main.go:199-246 | whatever is written meanwhile, an item is archived iff its path was reached and its visit carries it; a completed walk recorded every path it reached |
| `Walk.PrunedWalkIsFilter` | examples/wordpress-client/main.go:201-229 | on a quiet source the skipping traversal succeeds and emits a regular file iff no proper ancestor is excluded and it was modified after the cursor or there is none, a directory iff there is no cursor and it is not excluded either |
| `Walk.ExcludeListIsFilter` | examples/wordpress-client/main.go:213-229 | with the connector's own exclude list, a full backup of a quiet source carries a regular file iff no trimmed, non-blank entry's components are the first components of a directory above it |
| `Walk.WalkSucceedsIff` | examples/wordpress-client/main.go:202-244 | whatever is written meanwhile, the walk gets through iff every path it reaches is still there, directories can be listed and every file picked up stays a file until its end is met, no later than at the size announced: it has not grown |
| `Walk.ReadableIff` | examples/wordpress-client/main.go:238-243 | a file can be copied iff its bytes are there one by one until its end is met, no later than at the announced size; a copy that succeeds has met the end |
| `Walk.ReadFailsIff` | examples/wordpress-client/main.go:238-243 | a copy fails iff at the first byte not read the path is no file any more, or all announced bytes are there and the file goes on |
| `Walk.WalkOrder` | examples/wordpress-client/main.go:202-202 | whatever is written meanwhile, the archive holds every path at most once and in name order, component by component, a directory before what is below it |
| `Walk.ReadByByte` | examples/wordpress-client/main.go:238-243 | each byte archived is the byte the file had there at the instant it was read |
| `Backup.MemberRoundTrip` | examples/wordpress-client/main.go:217-234 | what the backup writes for an item, the restore loop reads as the step that recreates it |
| `Backup.WrittenNames` | examples/wordpress-client/main.go:142-149 | every archive starts with the whole dump as db/dump.sql; then each item of the walk, in order, at its path below files/, a directory with a slash at the end |
| `Backup.CursorSelects` | examples/wordpress-client/main.go:127-149 | on a quiet source a cursor that is missing or unreadable selects everything, like the zero instant; any other selects exactly the files modified after it, and no directories |
| `Backup.ArchiveMeaning` | examples/wordpress-client/main.go:142-149 | an archive means, to the restore loop, its dump and then one step per walked item, in order |
| `Backup.StepsAt` | examples/wordpress-client/main.go:213-243 | at each path the archive writes the content read iff the walk picked the path up, and makes a directory iff a full walk entered it |
| `Chain.LastApplied` | sdk.go:690-702 | in a done chain every element succeeded on its own and the database is the last dump of the last element |
| `Chain.ChainIsOneOverlay` | sdk.go:690-702 | newest wins: a done chain equals one overlay of all elements' steps over the base's start tree |
| `Chain.ElementSucceedsIff` | examples/wordpress-client/main.go:282-352 | one element succeeds iff its delivery is flawless, wp-content is not a file if it has to be emptied, and its steps run |
| `Chain.ChainSucceedsIff` | sdk.go:690-702 | a chain restores iff every delivery is flawless, wp-content is not a file if the base has content, and no two steps of the whole chain, nor a step and the tree the base starts from, want one path to be a file and a directory |
| `Chain.SkippedWasVisitedBefore` | examples/wordpress-client/main.go:127-140 | a file a delta skips was there, unchanged, at every visit of the previous walk; it rests on taking the cursor before the walk |
| `Chain.NoLostUpdate` | examples/wordpress-client/main.go:127-140 | for all interleavings of writes with the walks of a chain, a done chain restore gives every regular file the last walk visited the content it had at that visit |
| `Chain.RestoredBytes` | examples/wordpress-client/main.go:238-243 | of a file written to while it is read, a done chain restores each byte as it was when it was read, and the whole file as it stands if the last delta skipped it |
| `Chain.TornIsPickedUpAgain` | examples/wordpress-client/main.go:127-140 | if what one element read of a file is not what the next walk finds there, the next element picks the file up again |
| `Chain.RestoredIffPickedUp` | examples/wordpress-client/main.go:213-229 | a file is in the tree after a done chain iff some element picked it up or the tree the base starts from has it: deltas carry no deletions, and a base without content does not clear |
| `Chain.StaleArrivalIsLost` | examples/wordpress-client/main.go:227-229 | why stamps must be honest: a file that arrives with a stamp no newer than the previous element's cursor instant is visited but not restored; at most an old file stays as it was |
| `Chain.VisitedWasPickedUp` | examples/wordpress-client/main.go:127-140 | every file the last walk visited was picked up by some element of the chain |
| `Chain.ChainShowsTargetIff` | sdk.go:690-702 | the regular files after a done chain are those of the target state iff no file picked up on the way was deleted since and no file of the tree the base starts from is left over |
| `Chain.ChainEqualsFullIff` | sdk.go:690-702 | they are those of one full backup of the target state under the same condition; a full backup of a state with nothing to archive leaves every tree as it is |
| `Chain.FullBackupFiles` | examples/wordpress-client/main.go:201-246 | after one full backup of a quiet source the regular files are its included ones and those of the tree the restore starts from: none if there was something to archive, the old tree as it was if not |
| `Chain.PointInTimeReplace` | examples/wordpress-client/main.go:314-350 | a full backup applied as base succeeds iff the dump imports and wp-content is not a file when there is content, and rebuilds exactly the source's directories and files outside excluded subtrees; with none of them the old tree stays |
| `Chain.TornArchiveIsRefused` | examples/wordpress-client/main.go:142-149 | no restore of an archive with a member that was cut short succeeds, on any site, as base or as delta |
| `StillSource.WalkRecreates` | examples/wordpress-client/main.go:199-246 | on a source nobody writes to, a walk with any cursor succeeds and every step of its archive recreates part of the source |
| `StillSource.StillChainRestores` | sdk.go:690-702 | special case without conditions: a chain of any length over a source nobody writes to restores to exactly its directories and files outside excluded subtrees, if there are any |
| `StillSource.QuietChainIsTaken` | examples/wordpress-client/main.go:127-149 | every backup taken while nobody writes is written, whatever happened between the backups |
| `StillSource.AssumptionsAreMet` | sdk.go:690-702 | for every dump and file content a base, a delta and a full backup meet together all that the theorems about chains assume, with a file the delta skips |
| `ChangingSource.WalkNeverClashes` | examples/wordpress-client/main.go:202-244 | within one walk no path is both a file and a directory, whatever is written meanwhile |
| `ChangingSource.WrittenIff` | examples/wordpress-client/main.go:142-149 | a backup of a changing source is written iff there is a dump, every visit goes well and no file but the last one archived shrank while it was read |
| `ChangingSource.WholeIffLastWhole` | examples/wordpress-client/main.go:142-149 | a written archive is whole iff the last thing archived, if it is a file, was not shorter at its read than at its stat |
| `ChangingSource.FullRestoresIff` | examples/wordpress-client/main.go:282-352 | a written archive of a changing source restores on its own iff it is delivered and imported, the last file archived did not shrink, and wp-content is not a file if there is content |
| `ChangingSource.FullRestoresVisited` | examples/wordpress-client/main.go:314-350 | the site then holds, path by path, each file as it was read, each directory as it was entered, and nothing else; with nothing seen the old tree stays |
| `ChangingSource.ConflictsAreClashes` | examples/wordpress-client/main.go:644-652 | the steps of a chain fit a tree iff no path is picked up as a file by one element and used as a directory by another, and the tree holds the right kind at each |
| `ChangingSource.ChainRestoresIff` | sdk.go:690-702 | a chain of backups of a changing source restores iff each is delivered, imported and ends in no shrunken file, wp-content is not a file if the base has content, and no path is a file for one element and a directory for another or for the tree it starts from |
| `ChangingSource.LatestPickWins` | sdk.go:690-702 | after a done chain a path has the content read by the last element that picked it up |
| `ChangingSource.UnpickedPath` | sdk.go:690-702 | a path no element picked up is a directory iff some element used it as one, and else what the base started from |
| `ChangingSource.FileTurnedDirectory` | examples/wordpress-client/main.go:644-652 | for every content there is a source with honest stamps and a two-element chain, written and delivered without a fault, that no site can restore |
| `ChangingSource.ArrivalIsLost` | examples/wordpress-client/main.go:227-229 | for every content there is a source and a chain that restores without the moved file its last walk visited |
| `ChangingSource.OldFileIsLeftOver` | examples/wordpress-client/main.go:314-321 | for every content there is a source with honest stamps and a faultless chain, from which nothing was deleted, after whose done restore a file of the old site is still there |
| `ChangingSource.ShrunkBackupNeverRestores` | examples/wordpress-client/main.go:142-149 | for every file and every shorter content it is cut to there is a backup, written and delivered without a fault, that no site can restore |
| `WordPress.ArchiveWriter.Append` | examples/wordpress-client/main.go:220-243 | a member is refused exactly while the previous one misses bytes |
| `WordPress.AddItem` | examples/wordpress-client/main.go:218-243 | writing one item appends exactly its member or fails |
| `WordPress.CopyFile` | examples/wordpress-client/main.go:238-243 | the copy loop takes exactly the bytes the file has at the instants of its reads and yields them iff the file's end is met no later than at the announced size |
| `WordPress.AddNode` | examples/wordpress-client/main.go:202-244 | visiting a path appends exactly what the walk function says |
| `WordPress.AddDir` | examples/wordpress-client/main.go:213-223 | an excluded directory is passed over, otherwise it and its children are appended in order |
| `WordPress.AddChildren` | examples/wordpress-client/main.go:201-202 | the children are visited in name order and the first failure ends the walk |
| `WordPress.BackupIncremental` | examples/wordpress-client/main.go:127-149 | the archive is the specified one, the new cursor is the instant before the walk, and an unreadable cursor yields a full backup recorded as full |
| `WordPress.Site.ClearDir` | examples/wordpress-client/main.go:621-635 | it succeeds iff wp-content is missing or a directory, and then leaves exactly an empty directory; a file in its place stays and is an error |
| `WordPress.Site.ExtractInto` | examples/wordpress-client/main.go:638-657 | one member is applied as its step; a rejected name changes nothing |
| `WordPress.Site.LoadDB` | examples/wordpress-client/main.go:356-366 | a complete dump that imports replaces the database, anything else damages it and fails |
| `WordPress.Site.OneContent` | examples/wordpress-client/main.go:314-347 | the first content member of a base clears before it is extracted, no other does |
| `WordPress.Site.OneMember` | examples/wordpress-client/main.go:332-350 | one turn of the loop is one step of the specification |
| `WordPress.Site.ReadMembers` | examples/wordpress-client/main.go:323-351 | the loop follows the specification member by member up to the first failure |
| `WordPress.Site.Consume` | examples/wordpress-client/main.go:310-352 | the loop's result, tree and database are those of the specification |
| `WordPress.Site.ApplyStream` | examples/wordpress-client/main.go:282-304 | without an imported dump a restore is never a success |
| `WordPress.Site.RestoreElement` | sdk.go:693-698 | an element counts as restored iff connector and data plane both succeed |
| `WordPress.RestoreAll` | sdk.go:690-702 | elements are applied in order, only the first as base, up to the first failure |
| `WordPress.FailedChainStays` | sdk.go:693-700 | the first failure ends the restore: the elements after it change neither tree nor database |
| `WordPress.DoRestore` | sdk.go:681-711 | done iff every element of the chain, or the one named backup, was delivered and applied; without a backup id nothing is touched |
| `Outbox.SafeName` | outbox.go:127-141 | every character outside the alphabet becomes an underscore, and the empty id a fixed name |
| `Outbox.SafeNames` | outbox.go:127-141 | "cmd" for the empty id; otherwise letters, digits, hyphen and underscore are kept, everything else becomes an underscore, so no name has a slash or a dot; the identity inside that alphabet and idempotent; two ids share a name iff they agree up to replaced characters |
| `Outbox.ListedIsExtension` | outbox.go:86-86 | the extension test is a suffix test |
| `Outbox.NamesDoNotMix` | outbox.go:45-62 | published names are listed, half-written ones never, and neither is ever taken for the other |
| `Outbox.TmpIsInvisible` | outbox.go:58-61 | whatever is written under a temporary name, the listed results are the same |
| `Outbox.EnqueueIsUpdate` | outbox.go:53-63 | enqueue is an update of the map from file name to report |
| `Outbox.AckIsRemoval` | outbox.go:66-71 | ack is a removal from that map |
| `Outbox.PendingIsMapInKeyOrder` | outbox.go:74-103 | pending lists exactly the map's values, one per key, in file-name order |
| `Outbox.UncancelledFlush` | outbox.go:107-124 | an uncancelled flush takes exactly the accepted records whose removal works off the disk, returns the number of refused ones, and returns 0 iff the whole snapshot was accepted |
| `Outbox.CancelledFlush` | outbox.go:107-124 | a cancelled flush returns at least 1 and at most the number left |
| `Outbox.FlushStopsIff` | outbox.go:113-116 | a flush ends early iff its context is cancelled before one of the deliveries |
| `Outbox.AcceptedFlushEmpties` | outbox.go:107-124 | with an accepting server and working removals one flush empties the box |
| `Outbox.Box.Enqueue` | outbox.go:53-63 | the directory after a complete, a cut short and a refused write, and after a failed rename |
| `Outbox.Box.Ack` | outbox.go:66-71 | removes the id's file and nothing else |
| `Outbox.Box.ListedNames` | outbox.go:84-90 | the names kept by the extension test yield the same pending results as the whole directory |
| `Outbox.Box.Scan` | outbox.go:74-103 | the scan returns exactly the pending results |
| `Outbox.Box.Flush` | outbox.go:107-124 | directory and count after a flush, for every sequence of answers |
| `OutboxRuns.RunKeeps` | outbox.go:53-124 | in every run of report, retry loop and crashes: listed files are complete and named by their own id, and every published id is on disk or accepted |
| `OutboxRuns.RemovedOnlyAfterAcceptance` | outbox.go:65-71 | a published file disappears only by an ack, and only after a result for its id was accepted |
| `OutboxRuns.AtLeastOnce` | sdk.go:713-725 | every published id keeps its file until a result for it is accepted, in every run, iff no two ids in use share a file name |
| `OutboxRuns.EachResultDelivered` | sdk.go:713-725 | if no id is reported twice it is the result itself that is on disk or accepted |
| `OutboxRuns.EachResultDeliveredIff` | sdk.go:713-725 | in every run each published result is itself accepted or on disk, iff no two of the results that may be reported share a file |
| `OutboxRuns.NewestSurvivesIff` | sdk.go:713-725 | in every run the last published result of every id is accepted, on disk or overtaken by an accepted one reported after it, iff no non-empty id is reported with two results (given that ids have their own files) |
| `OutboxRuns.OwnFilesIffOneResult` | outbox.go:24-25 | for ids with their own file names that says that no id is reported with two results |
| `OutboxRuns.NewerResultCanBeLost` | outbox.go:111-119 | for every id and every two results there is a run in which the newer, published result vanishes undelivered |
| `OutboxRuns.NothingStranded` | sdk.go:741-767 | every run extends, by a restart and one flush, to one in which every published id that is not empty has been accepted and nothing listable is left |
| `OutboxRuns.AlphabetDelivers` | outbox.go:45-48 | ids inside the alphabet meet the condition of at-least-once delivery |
| `OutboxRuns.ReportIsEnqueue` | sdk.go:716-725 | undisturbed, the steps of a report are one enqueue |
| `OutboxRuns.UnstoredIsSent` | sdk.go:716-725 | a result that could not be written or renamed is sent all the same: it is accepted if the server applies it, the outbox holds what it held, and an answer removes the id's file |
| `OutboxRuns.CrashWhileStoring` | outbox.go:53-63 | a crash while a result is being stored loses nothing published before; the result itself is there iff it was renamed |
| `OutboxRuns.ScanIsPending` | outbox.go:80-102 | listing first and reading file by file yields, undisturbed, what pending lists, in its order |
| `OutboxRuns.UndisturbedFlush` | outbox.go:107-124 | from any state in which the retry loop sleeps and for all answers, the steps of an undisturbed flush leave the directory that the outbox's flush leaves |
| `RestorePipe.RunKeeps` | dataplane.go:114-155 | in every reachable state nothing the child wrote is lost or reordered before the consumer gives up |
| `RestorePipe.CopyEnds` | dataplane.go:114-136 | the copy ends cleanly only when the child is gone and nothing is left in the OS pipe, and with an error only in a write the closed reader refuses |
| `RestorePipe.NothingAfterCopy` | dataplane.go:114-136 | after the copy has ended nothing the child writes arrives anywhere |
| `RestorePipe.NilMeansComplete` | dataplane.go:142-154 | Restore returns nil iff child, copy and consumer all ended well; then the consumer was handed the child's whole output in order |
| `RestorePipe.CleanEndIsComplete` | dataplane.go:129-136 | the consumer sees a clean end only after a clean exit and with everything handed over; after a failing exit it sees an error |
| `RestorePipe.RunsAreFinite` | dataplane.go:119-146 | a measure decreases with every step, so every run is finite |
| `RestorePipe.StuckIffAbandoned` | dataplane.go:138-146 | before Restore returns, a reachable state is stuck iff the consumer returned nil while bytes are still offered and the child can do no more |
| `RestorePipe.AbandonExists` | dataplane.go:138-146 | for every output that is not empty there is a run that gets stuck that way |
| `RestorePipe.DisciplinedFinishes` | dataplane.go:138-146 | with a consumer that reads to the end or returns an error, only finished runs stop |
| `RestorePipe.TransferExists` | dataplane.go:114-155 | for every output there is such a run, and Restore returns in it |
| `RestorePipe.ReturnsIffAllRead` | dataplane.go:142-146 | after a nil from the consumer, Restore returns iff the consumer had read everything |
| `RestorePipe.HangsForever` | dataplane.go:142-146 | with bytes left nothing that happens later, not even a killed child, lets it return |
| `RestorePipe.DoneChainIsComplete` | sdk.go:690-702 | in a chain restore reported done, what the connector applied for each element is what the child's whole output, in order, reads as, up to its clean end |
| `BackupPipe.RunKeeps` | dataplane.go:67-105 | in every reachable state the bytes written are, in order, taken, buffered, held and offered |
| `BackupPipe.CopyEnds` | dataplane.go:67-92 | the goroutine feeding the child ends with the producer's verdict after the last write or, without an error, in a write to a child that is gone; while it waits for a write it does not notice |
| `BackupPipe.SuccessIff` | dataplane.go:92-104 | Backup succeeds iff the producer returned nil and the child exited cleanly; the producer's error wins; a child at the end of its input has everything the producer wrote |
| `BackupPipe.VerdictIsInvisible` | dataplane.go:82-90 | every run is also a run with the producer's verdict turned round in which the child reads the same bytes, sees the same end and exits the same way |
| `BackupPipe.TruncationLooksClean` | dataplane.go:82-90 | for every amount written before an error there is a run in which the child sees a clean end of just that and exits cleanly, and only Backup's own result says so |
| `BackupPipe.RunsAreFinite` | dataplane.go:67-105 | a measure decreases with every step |
| `BackupPipe.StuckIffOrphaned` | dataplane.go:72-92 | before Backup returns, a reachable state is stuck iff the producer is in a write after the child exited without reading to the end |
| `BackupPipe.ReturnsIffAllWritten` | dataplane.go:72-92 | once nobody feeds the child any more, the rest of the run ends with Backup returning iff the producer has nothing left to write |
| `BackupPipe.OrphanExists` | dataplane.go:72-92 | for every source of two bytes or more there is a run, writing byte by byte, that gets stuck that way |
| `BackupPipe.OrphanedForever` | dataplane.go:72-92 | from there no event makes Backup return |
| `BackupPipe.ReadingChildFinishes` | dataplane.go:82-104 | with a child that exits only at the end of its input every run can be finished, and the child was handed all that was written |
| `BackupPipe.BackupExists` | dataplane.go:67-105 | for every source there is such a run, and Backup returns in it |
| `Jobs.Execute` | sdk.go:576-603 | executing a command with the runner's own locked blocks is a run of the interleaving model; it reports once, as cancelled iff a cancel came in between any two of its steps up to the reading of the flag, then with the backup id and nothing else of the result; otherwise it reports the whole result of the work, or a failure for a command that cannot be worked on; the runner is left idle with the job's context ended |
| `Jobs.RunKeeps` | sdk.go:576-644 | in every reachable state: one report for each executed command, hooks of past or present jobs only, request flag set iff the running job's context is cancelled or about to be, no progress while idle |
| `Jobs.EachReportedOnce` | sdk.go:576-603 | every executed command is handed to report exactly once, in order, under its own id |
| `Jobs.CancelledIffRequested` | sdk.go:597-602 | a command is reported cancelled iff a cancel request's locked section ran between its start and the reading of the flag; then only the backup id of its result is left, else the result is reported as it is |
| `Jobs.OnlyOwnRequestAborts` | sdk.go:231-242 | without a shutdown a running job's context is done only by a request made during this job, and a request is in effect or on its way |
| `Jobs.ShutdownIsNotCancellation` | sdk.go:203-205 | without a cancel request no report is cancelled, shutdown or not |
| `Jobs.ContextsEnd` | sdk.go:212-228 | in every reachable state the context of an ended job is done, and after a shutdown every context is |
| `Jobs.CancelledAfterDone` | sdk.go:594-600 | for every backup command and result there is a run that stored it and reports cancelled, with the backup id, no bytes, no error and no cursor |
| `Jobs.NeverFaked` | sdk.go:591-592 | no command of an unknown kind and no restore without a backup id is ever reported as done |
| `Jobs.IdleRequest` | sdk.go:231-241 | a cancel request between two jobs changes nothing |
| `Jobs.ProgressIsExact` | sdk.go:607-632 | while a job works the progress shown is what its counters passed on since progress began, over all its streams, and never goes down |
| `Jobs.ActivityShown` | sdk.go:582-590 | a backup is shown exactly while a backup command is at work, a restore exactly while a restore command is |
| `Jobs.IdleHasNoProgress` | sdk.go:632-644 | an idle snapshot has no bytes, no total and no start time |
| `Backoff.LoopExactIff` | outbox.go:147-153 | in 64-bit arithmetic the loop computes min(base * 2^attempt, cap) for every base and attempt iff the cap is at most 2^62 |
| `Backoff.MixIgnoresWrap` | outbox.go:159-159 | the masked value lies between 0 and 2^31 and is congruent to the unbounded sum of seed * 2654435761 and attempt * 40503 modulo 2^31: wrapping around at 64 bits does not change it |
| `Backoff.Delay` | outbox.go:146-161 | for all 64-bit arguments the delay is the smaller of the looped doubling and the cap plus its jitter, wrap-around included; for a base from 0 and a cap from 0 to 2^62 it is d = min(base * 2^attempt, cap) plus the low 31 bits of the mixed seed reduced below d / 4 |
| `Backoff.DelayIsCapped` | outbox.go:146-161 | inside that range neither doubling nor jitter leaves 64 bits |
| `Backoff.DelayBounds` | outbox.go:154-160 | the delay is at least d and below d + d/4, exactly d when d is below 4 |
| `Backoff.DelaysGrow` | outbox.go:146-161 | while doubling stays within the cap, every attempt waits strictly longer than every earlier one |
| `Backoff.NextWait` | sdk.go:744-766 | the attempt starts over iff nothing is left; for every base the wait is the 64-bit delay for it under a cap of two minutes or the base, and for a base from 0 to 2^62 that capped doubling plus the mixed seed reduced below a quarter of it |
| `Resp.RespCmd` | examples/wordpress-client/main.go:398-404 | the buffer holds the encoded command |
| `Resp.WireBytes` | examples/wordpress-client/main.go:397-404 | the bytes on the wire: asterisk, count, CR LF, and for each argument dollar sign, length, CR LF, its bytes, CR LF; FLUSHALL byte by byte |
| `Resp.CommandReadsBack` | examples/wordpress-client/main.go:397-404 | for all argument bytes, including CRLF, and whatever follows, the command is read back exactly |
| `Resp.PipelineSplits` | examples/wordpress-client/main.go:397-404 | concatenated commands determine the commands |

## What the theorems assume

- Honest stamps (`Chain.Honest`): a change to a path stamps its instant as modification time. Visits
  happen strictly after the cursor instant, and a backup ends before the next one begins
  (`Chain.Timed`). `ChangingSource.ArrivalIsLost` shows what happens without the first.
- A source tree is a file system at every instant: parents are directories, names are ordinary
  components, and paths have a bounded length (`Walk.World.depth`), which any file system has.
- Stat and list of one path each happen at one instant, and so does each byte of a file. Bytes are
  read by path: after a file is replaced while it is open, the instants before the replacement stand for
  the old file.
- The child's exit counts as clean if its status is zero and the context did not interrupt it. While
  the copying goroutine ends, nobody but the child holds the other end of the OS pipe.
- A connector does no I/O on its stream after it has returned (`Jobs.Enabled`, event `Count`).

## Left out

- HTTP, JSON, TLS, enrollment, tokens and status codes: a send is accepted or not, with or without the acknowledgement arriving; a result file is decodable or half-written.
- Starting processes and the SQL tools: an import succeeds or damages the database, a dump exists or not; a child that cannot be started fails both data-plane calls before anything moves.
- The tar byte format, file modes and symlinks: reading bytes as members is a function left open (`RestorePipe.ReadFrom`); a member has a name, a kind, content and a completeness bit; anything that is neither directory nor regular file is passed over.
- The `binfinity` tool's chunking, encryption and integrity checks are not part of this model.
- Faults of the host file system (permissions, full disk): trees change exactly as the calls say; the outbox has failing writes, renames and removals.
- Power loss: nothing is synced to disk, so only process crashes are modelled.
- `applyDP`, `token`, `memlimit.go`, `seedFrom`, size estimates, the backup id made up from the clock, wp-config discovery, `splitHostPort` and the other example connectors would only add easy members.
- Cursor text: a cursor is absent, unreadable or an instant; RFC 3339 formatting (section 5.6) is taken to round-trip.
- 64-bit byte counters: progress is counted in unbounded integers.
- The outbox without a directory does nothing and has no model.
- Goroutines and pipes: `RestorePipe`, `BackupPipe`, `OutboxRuns` and the interleavings of `Jobs` are state machines over values, because the code's steps there belong to several goroutines; a step that is one mutex block is also a method of `Jobs.Runner`, which `Jobs.Execute` runs a command with, and the sequential outbox code is the class `Outbox.Box`.
